/**
 * What a DFU package yields, as functions of the opened archive and the
 * decoded manifest: manifest decoding, first-match image resolution and the
 * version of the application image. The class in module DfuZipModel is
 * proved to compute these.
 */
module ImageResolution {
  import opened DfuTypes
  import opened VersionToken

  /** Name of the archive entry that holds the package manifest. */
  const ManifestEntry: string := "manifest.json"

  /** Base images, most preferred first. */
  const BaseKinds: seq<ImageKind> := [Softdevice, Bootloader, SoftdeviceBootloader]

  /** The application image. */
  const AppKinds: seq<ImageKind> := [Application]

  /**
   * The manifest of an opened archive: an error when the manifest entry is
   * missing or is not JSON, `None` when the document has no usable
   * `manifest` value (nothing is cached then).
   */
  function DecodeManifest(archive: Archive, parse: seq<byte> -> ManifestJson): (r: Result<Option<Manifest>>)
    ensures r == Err(ManifestNotFound) <==> ManifestEntry !in archive
    ensures r == Err(ManifestSyntaxError) <==> ManifestEntry in archive && parse(archive[ManifestEntry]).Unparsable?
    ensures r.Ok? && r.value.Some? <==> ManifestEntry in archive && parse(archive[ManifestEntry]).Parsed?
  {
    if ManifestEntry !in archive then Err(ManifestNotFound)
    else match parse(archive[ManifestEntry])
      case Unparsable => Err(ManifestSyntaxError)
      case NoManifestKey => Ok(None)
      case Parsed(m) => Ok(Some(m))
  }

  /** Position in `kinds` of the first kind that `manifest` carries. */
  function FirstPresent(manifest: Manifest, kinds: seq<ImageKind>): (r: Option<nat>)
    ensures r.Some? ==> r.value < |kinds| && kinds[r.value] in manifest
    ensures r.Some? ==> forall k :: 0 <= k < r.value ==> kinds[k] !in manifest
    ensures r.None? <==> forall k :: 0 <= k < |kinds| ==> kinds[k] !in manifest
  {
    if kinds == [] then None
    else if kinds[0] in manifest then Some(0)
    else match FirstPresent(manifest, kinds[1..])
      case None => None
      case Some(i) => Some(i + 1)
  }

  /** Reads both files of an image; the init packet is read first. */
  function ReadImage(archive: Archive, kind: ImageKind, files: ImageFiles): (r: Result<Image>)
    ensures r.Ok? <==> files.datFile in archive && files.binFile in archive
    ensures r.Ok? ==> r.value.kind == kind
    ensures r.Err? ==> r.error == FileNotFound(if files.datFile !in archive then files.datFile else files.binFile)
  {
    if files.datFile !in archive then Err(FileNotFound(files.datFile))
    else if files.binFile !in archive then Err(FileNotFound(files.binFile))
    else Ok(Image(kind, archive[files.datFile], archive[files.binFile]))
  }

  /**
   * The image for the candidate `kinds`, given what the manifest lookup
   * produced. An empty candidate list never looks into the manifest.
   */
  function ResolveImage(archive: Archive, manifest: Option<Manifest>, kinds: seq<ImageKind>): (r: Result<Option<Image>>)
    ensures r.Ok? && r.value.Some? ==> manifest.Some? && r.value.value.kind in manifest.value
    ensures r.Err? ==> kinds != [] && (r.error == ManifestNotObject <==> manifest.None?)
    ensures r.Err? && manifest.Some? ==> r.error.FileNotFound?
  {
    if kinds == [] then Ok(None)
    else if manifest.None? then Err(ManifestNotObject)
    else match FirstPresent(manifest.value, kinds)
      case None => Ok(None)
      case Some(i) =>
        match ReadImage(archive, kinds[i], manifest.value[kinds[i]])
        case Ok(image) => Ok(Some(image))
        case Err(e) => Err(e)
  }

  /** The manifest a package buffer yields, with `unzip` as the archive reader. */
  function ManifestOf(buf: seq<byte>, unzip: seq<byte> -> Option<Archive>, parse: seq<byte> -> ManifestJson): (r: Result<Option<Manifest>>)
    ensures r == Err(ContainerError) <==> unzip(buf).None?
    ensures r.Err? ==> r.error in {ContainerError, ManifestNotFound, ManifestSyntaxError}
  {
    match unzip(buf)
    case None => Err(ContainerError)
    case Some(archive) => DecodeManifest(archive, parse)
  }

  /** The image a package buffer yields for the candidate `kinds`. */
  function ImageOf(buf: seq<byte>, unzip: seq<byte> -> Option<Archive>, parse: seq<byte> -> ManifestJson, kinds: seq<ImageKind>): (r: Result<Option<Image>>)
    ensures ManifestOf(buf, unzip, parse).Err? ==> r == Err(ManifestOf(buf, unzip, parse).error)
    ensures r.Ok? && r.value.Some? ==> r.value.value.kind in kinds
  {
    match unzip(buf)
    case None => Err(ContainerError)
    case Some(archive) =>
      match DecodeManifest(archive, parse)
      case Err(e) => Err(e)
      case Ok(manifest) => ResolveImage(archive, manifest, kinds)
  }

  /** The version token of a package's application image, as text. */
  function GitVersionOf(buf: seq<byte>, unzip: seq<byte> -> Option<Archive>, parse: seq<byte> -> ManifestJson): (r: Result<Option<string>>)
    ensures ImageOf(buf, unzip, parse, AppKinds).Err? ==> r == Err(ImageOf(buf, unzip, parse, AppKinds).error)
    ensures r.Err? ==> ImageOf(buf, unzip, parse, AppKinds).Err?
    ensures r.Ok? && r.value.Some? ==> |r.value.value| >= 2 && r.value.value[0] == 'v'
  {
    match ImageOf(buf, unzip, parse, AppKinds)
    case Err(e) => Err(e)
    case Ok(None) => Ok(None)
    case Ok(Some(image)) =>
      match FindVersionToken(image.body)
      case None => Ok(None)
      case Some(token) => Ok(Some(AsciiText(token)))
  }

  /** Once the manifest lookup succeeds, the image is resolved from the opened archive. */
  lemma ImageOfResolves(buf: seq<byte>, unzip: seq<byte> -> Option<Archive>, parse: seq<byte> -> ManifestJson, kinds: seq<ImageKind>)
    requires ManifestOf(buf, unzip, parse).Ok?
    ensures unzip(buf).Some?
    ensures ImageOf(buf, unzip, parse, kinds) == ResolveImage(unzip(buf).value, ManifestOf(buf, unzip, parse).value, kinds)
  {
  }

  // ---------------------------------------------------------------------------
  // Properties of resolution
  // ---------------------------------------------------------------------------

  /**
   * A resolved image is of the first candidate kind the manifest carries,
   * and its header and body are the archive contents of that kind's init
   * packet and payload files.
   */
  lemma ResolvedImageIsFirstMatch(archive: Archive, manifest: Option<Manifest>, kinds: seq<ImageKind>, image: Image)
    requires ResolveImage(archive, manifest, kinds) == Ok(Some(image))
    ensures manifest.Some? && image.kind in manifest.value
    ensures exists i ::
      && 0 <= i < |kinds| && kinds[i] == image.kind
      && forall k :: 0 <= k < i ==> kinds[k] !in manifest.value
    ensures var files := manifest.value[image.kind];
      && files.datFile in archive && image.header == archive[files.datFile]
      && files.binFile in archive && image.body == archive[files.binFile]
  {
    var i := FirstPresent(manifest.value, kinds).value;
    assert kinds[i] == image.kind;
  }

  /**
   * Resolution yields no image, without an error, exactly when no candidate
   * kind is in the manifest (or there are no candidates at all).
   */
  lemma NoImageIffNoCandidatePresent(archive: Archive, manifest: Option<Manifest>, kinds: seq<ImageKind>)
    requires kinds == [] || manifest.Some?
    ensures ResolveImage(archive, manifest, kinds) == Ok(None) <==>
      (kinds == [] || forall k :: 0 <= k < |kinds| ==> kinds[k] !in manifest.value)
  {
  }

  /**
   * When the first candidate kind the manifest carries names a file the
   * archive lacks, resolution fails naming that file; later candidates are
   * not tried.
   */
  lemma MissingFileIsAnError(archive: Archive, manifest: Manifest, kinds: seq<ImageKind>, i: nat)
    requires i < |kinds| && kinds[i] in manifest
    requires forall k :: 0 <= k < i ==> kinds[k] !in manifest
    requires manifest[kinds[i]].datFile !in archive || manifest[kinds[i]].binFile !in archive
    ensures ResolveImage(archive, Some(manifest), kinds) == Err(FileNotFound(
      if manifest[kinds[i]].datFile !in archive then manifest[kinds[i]].datFile
      else manifest[kinds[i]].binFile))
  {
    assert FirstPresent(manifest, kinds) == Some(i);
  }

  /**
   * When the first candidate kind the manifest carries names two files the
   * archive holds, resolution yields that kind's image with their contents.
   */
  lemma PresentFilesResolve(archive: Archive, manifest: Manifest, kinds: seq<ImageKind>, i: nat)
    requires i < |kinds| && kinds[i] in manifest
    requires forall k :: 0 <= k < i ==> kinds[k] !in manifest
    requires manifest[kinds[i]].datFile in archive && manifest[kinds[i]].binFile in archive
    ensures ResolveImage(archive, Some(manifest), kinds) == Ok(Some(Image(kinds[i],
      archive[manifest[kinds[i]].datFile], archive[manifest[kinds[i]].binFile])))
  {
    assert FirstPresent(manifest, kinds) == Some(i);
  }

  /**
   * Resolution against a manifest fails only when the first candidate kind
   * it carries names a file the archive lacks.
   */
  lemma ResolveErrorIsMissingFile(archive: Archive, manifest: Manifest, kinds: seq<ImageKind>)
    requires ResolveImage(archive, Some(manifest), kinds).Err?
    ensures exists i ::
      && 0 <= i < |kinds| && kinds[i] in manifest
      && (forall k :: 0 <= k < i ==> kinds[k] !in manifest)
      && (manifest[kinds[i]].datFile !in archive || manifest[kinds[i]].binFile !in archive)
  {
    var i := FirstPresent(manifest, kinds).value;
    assert kinds[i] in manifest;
  }

  /** Candidates after a present one make no difference. */
  lemma {:induction false} FirstPresentIgnoresLaterKinds(manifest: Manifest, kinds: seq<ImageKind>, more: seq<ImageKind>)
    requires FirstPresent(manifest, kinds).Some?
    ensures FirstPresent(manifest, kinds + more) == FirstPresent(manifest, kinds)
  {
    if kinds[0] !in manifest {
      assert (kinds + more)[1..] == kinds[1..] + more;
      FirstPresentIgnoresLaterKinds(manifest, kinds[1..], more);
    }
  }

  /**
   * Once a candidate kind is present, resolution is settled by it: appending
   * further candidates changes neither the image nor the error.
   */
  lemma ResolutionStopsAtFirstMatch(archive: Archive, manifest: Manifest, kinds: seq<ImageKind>, more: seq<ImageKind>)
    requires exists k :: 0 <= k < |kinds| && kinds[k] in manifest
    ensures ResolveImage(archive, Some(manifest), kinds + more) == ResolveImage(archive, Some(manifest), kinds)
  {
    FirstPresentIgnoresLaterKinds(manifest, kinds, more);
    var i := FirstPresent(manifest, kinds).value;
    assert (kinds + more)[i] == kinds[i];
  }

  /** A missing or null manifest value fails the lookup of any candidate. */
  lemma NoManifestObjectFailsLookup(archive: Archive, kinds: seq<ImageKind>)
    ensures ResolveImage(archive, None, kinds) == (if kinds == [] then Ok(None) else Err(ManifestNotObject))
  {
  }

  // ---------------------------------------------------------------------------
  // Properties of a whole package
  // ---------------------------------------------------------------------------

  /** A buffer the archive reader rejects fails every lookup with a container error. */
  lemma NotAZipFails(buf: seq<byte>, unzip: seq<byte> -> Option<Archive>, parse: seq<byte> -> ManifestJson, kinds: seq<ImageKind>)
    requires unzip(buf).None?
    ensures ManifestOf(buf, unzip, parse) == Err(ContainerError)
    ensures ImageOf(buf, unzip, parse, kinds) == Err(ContainerError)
    ensures GitVersionOf(buf, unzip, parse) == Err(ContainerError)
  {
  }

  /** An archive without the manifest entry is not a DFU package. */
  lemma MissingManifestFails(buf: seq<byte>, unzip: seq<byte> -> Option<Archive>, parse: seq<byte> -> ManifestJson, kinds: seq<ImageKind>)
    requires unzip(buf).Some? && ManifestEntry !in unzip(buf).value
    ensures ManifestOf(buf, unzip, parse) == Err(ManifestNotFound)
    ensures ImageOf(buf, unzip, parse, kinds) == Err(ManifestNotFound)
  {
  }

  /** The application image, when there is one, is the manifest's `application` entry. */
  lemma AppImageIsApplicationEntry(buf: seq<byte>, unzip: seq<byte> -> Option<Archive>, parse: seq<byte> -> ManifestJson, image: Image)
    requires ImageOf(buf, unzip, parse, AppKinds) == Ok(Some(image))
    ensures unzip(buf).Some? && ManifestOf(buf, unzip, parse).Ok?
    ensures var archive, manifest := unzip(buf).value, ManifestOf(buf, unzip, parse).value;
      && manifest.Some? && Application in manifest.value && image.kind == Application
      && image.header == archive[manifest.value[Application].datFile]
      && image.body == archive[manifest.value[Application].binFile]
  {
    var archive := unzip(buf).value;
    ResolvedImageIsFirstMatch(archive, DecodeManifest(archive, parse).value, AppKinds, image);
  }

  /**
   * A package whose manifest has an `application` entry, with both of its
   * files in the archive, yields that entry's image as the application image.
   */
  lemma WellFormedAppImage(buf: seq<byte>, unzip: seq<byte> -> Option<Archive>, parse: seq<byte> -> ManifestJson)
    requires unzip(buf).Some? && ManifestOf(buf, unzip, parse).Ok?
    requires var archive, manifest := unzip(buf).value, ManifestOf(buf, unzip, parse).value;
      && manifest.Some? && Application in manifest.value
      && manifest.value[Application].datFile in archive && manifest.value[Application].binFile in archive
    ensures var archive, files := unzip(buf).value, ManifestOf(buf, unzip, parse).value.value[Application];
      ImageOf(buf, unzip, parse, AppKinds) == Ok(Some(Image(Application, archive[files.datFile], archive[files.binFile])))
  {
    var archive := unzip(buf).value;
    PresentFilesResolve(archive, ManifestOf(buf, unzip, parse).value.value, AppKinds, 0);
  }

  /**
   * The base image is the softdevice when the manifest has one, else the
   * bootloader, else the combined softdevice and bootloader.
   */
  lemma BaseImagePreference(archive: Archive, manifest: Manifest, image: Image)
    requires ResolveImage(archive, Some(manifest), BaseKinds) == Ok(Some(image))
    ensures image.kind == Softdevice <==> Softdevice in manifest
    ensures image.kind == Bootloader <==> Softdevice !in manifest && Bootloader in manifest
    ensures image.kind == SoftdeviceBootloader <==>
      Softdevice !in manifest && Bootloader !in manifest && SoftdeviceBootloader in manifest
  {
    var i := FirstPresent(manifest, BaseKinds).value;
    assert BaseKinds[0] == Softdevice && BaseKinds[1] == Bootloader && BaseKinds[2] == SoftdeviceBootloader;
    assert image.kind == BaseKinds[i];
  }

  /** Without an application image there is no version, and no error. */
  lemma NoAppImageNoVersion(buf: seq<byte>, unzip: seq<byte> -> Option<Archive>, parse: seq<byte> -> ManifestJson)
    requires ImageOf(buf, unzip, parse, AppKinds) == Ok(None)
    ensures GitVersionOf(buf, unzip, parse) == Ok(None)
  {
  }

  /**
   * A version, when found, is the text of the leftmost NUL-delimited
   * version token in the application image's body.
   */
  lemma VersionIsLeftmostTokenOfAppBody(buf: seq<byte>, unzip: seq<byte> -> Option<Archive>, parse: seq<byte> -> ManifestJson)
    requires GitVersionOf(buf, unzip, parse).Ok?
    ensures var image := ImageOf(buf, unzip, parse, AppKinds);
      && image.Ok?
      && (GitVersionOf(buf, unzip, parse).value.None? <==>
            image.value.None? || forall start, end :: !RegexMatch(image.value.value.body, start, end))
      && (GitVersionOf(buf, unzip, parse).value.Some? ==>
            image.value.Some? &&
            exists start, end :: LeftmostMatch(image.value.value.body, start, end)
              && GitVersionOf(buf, unzip, parse).value.value == AsciiText(image.value.value.body[start + 1..end - 1]))
  {
    var image := ImageOf(buf, unzip, parse, AppKinds);
    if image.value.Some? {
      var body := image.value.value.body;
      FindVersionTokenIsLeftmostMatch(body);
      if FindVersionToken(body).Some? {
        var start, end :| LeftmostMatch(body, start, end) && FindVersionToken(body).value == body[start + 1..end - 1];
        assert GitVersionOf(buf, unzip, parse).value.value == AsciiText(body[start + 1..end - 1]);
      }
    }
  }

  /**
   * Candidates `bootloader, softdevice` against a manifest that carries only
   * a softdevice resolve to the softdevice.
   */
  lemma CandidateOrderExample(archive: Archive, files: ImageFiles)
    requires files.datFile in archive && files.binFile in archive
    ensures ResolveImage(archive, Some(map[Softdevice := files]), [Bootloader, Softdevice])
      == Ok(Some(Image(Softdevice, archive[files.datFile], archive[files.binFile])))
  {
    assert FirstPresent(map[Softdevice := files], [Bootloader, Softdevice]) == Some(1);
  }
}
