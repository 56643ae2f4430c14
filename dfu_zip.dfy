/**
 * The DFU package reader: an object that owns a package buffer, opens it as
 * a zip archive on first use, caches the decoded manifest, and resolves
 * images and the application's version token from it.
 *
 * The zip reader and the JSON parser are outside the model; the object is
 * given them as the functions `unzip` and `parse`.
 */
module DfuZipModel {
  import opened DfuTypes
  import opened VersionToken
  import opened ImageResolution

  /** An access the reader makes to its package. */
  datatype Access =
    /** The zip reader decodes the buffer. */
    | LoadArchive
    /** The `manifest.json` entry is looked up and read. */
    | ReadManifestEntry
    /** An image file entry is looked up and read. */
    | ReadEntry(name: string)

  /**
   * The accesses of a manifest lookup, given whether the archive and the
   * manifest were already cached and whether the buffer is a zip container.
   */
  ghost function ManifestAccesses(zipBefore: Option<Archive>, manifestBefore: Option<Manifest>, isZip: bool): seq<Access> {
    (if zipBefore.None? then [LoadArchive] else [])
    + (if manifestBefore.None? && isZip then [ReadManifestEntry] else [])
  }

  /** The image files read when `kinds` is resolved against the manifest lookup's result. */
  ghost function ImageAccesses(manifest: Result<Option<Manifest>>, kinds: seq<ImageKind>): seq<Access> {
    if manifest.Ok? && manifest.value.Some? && FirstPresent(manifest.value.value, kinds).Some? then
      var files := manifest.value.value[kinds[FirstPresent(manifest.value.value, kinds).value]];
      [ReadEntry(files.datFile), ReadEntry(files.binFile)]
    else []
  }

  /** What the manifest cache holds after a lookup with this result. */
  ghost function CacheAfter(manifest: Result<Option<Manifest>>): Option<Manifest> {
    match manifest
    case Ok(m) => m
    case Err(_) => None
  }

  class DfuZip {
    const buf: seq<byte>
    /** The zip reader: the archive in `buf`, or `None` when it is not a zip container. */
    const unzip: seq<byte> -> Option<Archive>
    /** The JSON parser applied to the manifest entry, taking its `manifest` value. */
    const parse: seq<byte> -> ManifestJson

    /** The opened archive, once the zip reader has succeeded. */
    var zip: Option<Archive>
    /** The cached manifest, once it has decoded to a value. */
    var manifest: Option<Manifest>
    /** Every access made to the package so far, oldest first. */
    ghost var log: seq<Access>

    /**
     * The caches agree with the package, an open archive has been opened
     * exactly once (a buffer the zip reader rejects is tried again on every
     * call), and a cached manifest has been read exactly once.
     */
    ghost predicate Valid()
      reads this
    {
      && (zip.Some? ==> zip == unzip(buf) && multiset(log)[LoadArchive] == 1)
      && (zip.None? && unzip(buf).Some? ==> log == [])
      && (manifest.Some? ==>
            zip.Some? && DecodeManifest(zip.value, parse) == Ok(manifest)
            && multiset(log)[ReadManifestEntry] == 1)
      && (manifest.None? && zip.Some? && CacheAfter(DecodeManifest(zip.value, parse)).Some? ==>
            ReadManifestEntry !in log)
    }

    /** Takes the buffer; nothing is decoded yet. */
    constructor (buf: seq<byte>, unzip: seq<byte> -> Option<Archive>, parse: seq<byte> -> ManifestJson)
      ensures Valid()
      ensures this.buf == buf && this.unzip == unzip && this.parse == parse
      ensures zip == None && manifest == None && log == []
    {
      this.buf := buf;
      this.unzip := unzip;
      this.parse := parse;
      zip := None;
      manifest := None;
      log := [];
    }

    /**
     * The package manifest. The archive is opened only while it is not yet
     * open, and the manifest entry read only while no manifest is cached.
     */
    method GetManifest() returns (r: Result<Option<Manifest>>)
      requires Valid()
      modifies this`zip, this`manifest, this`log
      ensures Valid()
      ensures r == ManifestOf(buf, unzip, parse)
      ensures old(manifest).Some? ==> r == Ok(old(manifest)) && log == old(log)
      ensures r == Err(ManifestNotFound) ==> manifest.None?
      ensures zip == unzip(buf) && manifest == CacheAfter(r)
      ensures log == old(log) + ManifestAccesses(old(zip), old(manifest), unzip(buf).Some?)
    {
      if zip.None? {
        log := log + [LoadArchive];
        zip := unzip(buf);
        if zip.None? {
          return Err(ContainerError);
        }
      }
      if manifest.None? {
        log := log + [ReadManifestEntry];
        var archive := zip.value;
        if ManifestEntry !in archive {
          return Err(ManifestNotFound);
        }
        match parse(archive[ManifestEntry]) {
          case Unparsable =>
            return Err(ManifestSyntaxError);
          case NoManifestKey =>
            return Ok(None);
          case Parsed(m) =>
            manifest := Some(m);
        }
      }
      return Ok(manifest);
    }

    /**
     * The image of the first kind in `kinds` that the manifest carries, or
     * `None` when it carries none of them.
     */
    method GetImage(kinds: seq<ImageKind>) returns (r: Result<Option<Image>>)
      requires Valid()
      modifies this`zip, this`manifest, this`log
      ensures Valid()
      ensures r == ImageOf(buf, unzip, parse, kinds)
      ensures zip == unzip(buf) && manifest == CacheAfter(ManifestOf(buf, unzip, parse))
      ensures log == old(log) + ManifestAccesses(old(zip), old(manifest), unzip(buf).Some?)
                     + ImageAccesses(ManifestOf(buf, unzip, parse), kinds)
    {
      var m := GetManifest();
      if m.Err? {
        return Err(m.error);
      }
      ImageOfResolves(buf, unzip, parse, kinds);
      r := FindImage(m.value, kinds);
    }

    /**
     * The candidate loop of an image lookup, once the manifest lookup has
     * produced `m`: the files of the first kind `m` carries are read.
     */
    method FindImage(m: Option<Manifest>, kinds: seq<ImageKind>) returns (r: Result<Option<Image>>)
      requires Valid() && zip.Some?
      modifies this`log
      ensures Valid()
      ensures r == ResolveImage(zip.value, m, kinds)
      ensures log == old(log) + ImageAccesses(Ok(m), kinds)
    {
      var i := 0;
      while i < |kinds|
        invariant 0 <= i <= |kinds|
        invariant Valid() && log == old(log)
        invariant i > 0 ==> m.Some?
        invariant m.Some? ==> forall k :: 0 <= k < i ==> kinds[k] !in m.value
      {
        var kind := kinds[i];
        if m.None? {
          return Err(ManifestNotObject);
        }
        if kind !in m.value {
          i := i + 1;
          continue;
        }
        var files := m.value[kind];
        assert FirstPresent(m.value, kinds) == Some(i);
        // Both reads are started before either outcome is looked at.
        var header := ReadFile(files.datFile);
        var body := ReadFile(files.binFile);
        if header.Err? {
          return Err(header.error);
        }
        if body.Err? {
          return Err(body.error);
        }
        return Ok(Some(Image(kind, header.value, body.value)));
      }
      assert m.Some? ==> FirstPresent(m.value, kinds).None?;
      return Ok(None);
    }

    /** The contents of one file entry of the opened archive. */
    method ReadFile(name: string) returns (r: Result<seq<byte>>)
      requires Valid() && zip.Some?
      modifies this`log
      ensures Valid()
      ensures r == (if name in zip.value then Ok(zip.value[name]) else Err(FileNotFound(name)))
      ensures log == old(log) + [ReadEntry(name)]
    {
      log := log + [ReadEntry(name)];
      if name !in zip.value {
        return Err(FileNotFound(name));
      }
      return Ok(zip.value[name]);
    }

    /** The base image: a softdevice, else a bootloader, else a combined image. */
    method GetBaseImage() returns (r: Result<Option<Image>>)
      requires Valid()
      modifies this`zip, this`manifest, this`log
      ensures Valid()
      ensures r == ImageOf(buf, unzip, parse, BaseKinds)
      ensures zip == unzip(buf) && manifest == CacheAfter(ManifestOf(buf, unzip, parse))
      ensures log == old(log) + ManifestAccesses(old(zip), old(manifest), unzip(buf).Some?)
                     + ImageAccesses(ManifestOf(buf, unzip, parse), BaseKinds)
    {
      r := GetImage(BaseKinds);
    }

    /** The application image. */
    method GetAppImage() returns (r: Result<Option<Image>>)
      requires Valid()
      modifies this`zip, this`manifest, this`log
      ensures Valid()
      ensures r == ImageOf(buf, unzip, parse, AppKinds)
      ensures zip == unzip(buf) && manifest == CacheAfter(ManifestOf(buf, unzip, parse))
      ensures log == old(log) + ManifestAccesses(old(zip), old(manifest), unzip(buf).Some?)
                     + ImageAccesses(ManifestOf(buf, unzip, parse), AppKinds)
    {
      r := GetImage(AppKinds);
    }

    /**
     * The version token embedded in the application image's body, or `None`
     * when there is no application image or no token.
     */
    method GetGitVersion() returns (r: Result<Option<string>>)
      requires Valid()
      modifies this`zip, this`manifest, this`log
      ensures Valid()
      ensures r == GitVersionOf(buf, unzip, parse)
      ensures zip == unzip(buf) && manifest == CacheAfter(ManifestOf(buf, unzip, parse))
      ensures log == old(log) + ManifestAccesses(old(zip), old(manifest), unzip(buf).Some?)
                     + ImageAccesses(ManifestOf(buf, unzip, parse), AppKinds)
    {
      var image := GetAppImage();
      if image.Err? {
        return Err(image.error);
      }
      if image.value.None? {
        return Ok(None);
      }
      var token := FindVersionToken(image.value.value.body);
      if token.None? {
        return Ok(None);
      }
      return Ok(Some(AsciiText(token.value)));
    }
  }

  /**
   * Looking the manifest up twice gives the same result; when it decodes to
   * a value, the archive has been opened once and the entry read once.
   */
  method ManifestLookupIsIdempotent(z: DfuZip) returns (first: Result<Option<Manifest>>, second: Result<Option<Manifest>>)
    requires z.Valid()
    modifies z
    ensures z.Valid()
    ensures first == second
    ensures first.Ok? && first.value.Some? ==>
      multiset(z.log)[LoadArchive] == 1 && multiset(z.log)[ReadManifestEntry] == 1
  {
    first := z.GetManifest();
    second := z.GetManifest();
  }
}
