# DFU package reader

A Dafny model of `DfuZip` in `index.ts`. This is the reader for Nordic-style
DFU firmware-update packages that the release mirror uses. A package is a zip
container. Its `manifest.json` entry holds a JSON document. The document's
`manifest` object maps image kinds (`application`, `softdevice`, `bootloader`,
`softdevice_bootloader`) to a pair of archive entries: an init packet
(`dat_file`) and a firmware payload (`bin_file`).

The reader does three things:

- **Cached manifest.** It opens the archive lazily. Once the archive is open
  it is never opened again, and a buffer the zip reader rejects is tried
  again on every call. It reads
  and parses `manifest.json` until that yields a manifest, and from then on
  returns the cached value.
- **First-match image resolution.** Given an ordered list of kinds, it returns
  the first kind the manifest carries. The header is the contents of that
  kind's `dat_file` and the body is the contents of its `bin_file`. When no
  kind is present, the result is "no image", which is not an error. A missing
  file is an error, and later kinds are not tried.
- **Version token.** It searches the application body for the leftmost match
  of `\x00(v\d+(?:\.\d+)*[\w-]*)\x00` and returns the captured text.

Files:

- `dfu_types.dfy` (module `DfuTypes`): the values. These are the archive
  (entry name to bytes), the manifest (a map from the closed `ImageKind` enum
  to `ImageFiles`), images, and the reader's errors.
- `version_token.dfy` (module `VersionToken`): the scan.
  - `MatchesPattern` is the regular expression stated by its parts: `v`, the
    digits, the dotted groups and the word-or-hyphen run, with explicit split
    points.
  - `IsVersionToken` is a deterministic recogniser, proved equivalent to it.
  - `FindVersionToken` scans from NUL to NUL. It is proved to return the
    capture of the leftmost regex match, and to return nothing exactly when the
    expression matches nowhere.
- `image_resolution.dfy` (module `ImageResolution`): what a package yields, as
  functions. `ManifestOf`, `ImageOf` and `GitVersionOf` take the buffer, the
  zip reader and the manifest parser. The lemmas about them state the
  resolution properties.
- `dfu_zip.dfy` (module `DfuZipModel`): the class `DfuZip`.
  - Its mutable fields `zip` and `manifest` are the private `#zip` and
    `#manifest`.
  - A ghost `log` records every access to the package. `Valid()` uses it to
    state that an open archive was opened exactly once (a rejected buffer
    is tried again on every call) and a cached manifest was read exactly
    once.
  - Each method is proved to return the matching function of
    `ImageResolution` and to leave the caches in the state it describes.

External collaborators are parameters of the constructor:

- `unzip: seq<byte> -> Option<Archive>` stands for `JSZip.loadAsync`. `None`
  means the buffer is not a zip container.
- `parse: seq<byte> -> ManifestJson` stands for reading `manifest.json` as text
  and taking `JSON.parse(...).manifest`.

Both are deterministic, so a cached value always equals a fresh computation.
That is why every method's result is stated as a function of `buf`, `unzip`
and `parse` alone.

Where the code departs from the documented package contract, the model follows the
code:

- A document whose `manifest` value is missing or null is not reported by
  `getManifest`. Nothing is cached, and that null or undefined (nil) value is returned (`Ok(None)`).
  The failure surfaces in `getImage` as the `TypeError` of indexing
  a nil value (`ManifestNotObject`). That happens only when the candidate
  list is non-empty. With no candidates the loop never indexes the manifest,
  and the result is "no image".
- Text that is not JSON makes `JSON.parse` throw (`ManifestSyntaxError`). It
  is not a dedicated format error. The document `null` is JSON, but reading
  `.manifest` from it throws a `TypeError`. The model treats it like text that
  is not JSON: it is reported as `ManifestSyntaxError`, and nothing is cached.
- Manifest keys other than the four kinds are ignored, not rejected.
- `Promise.all` rejects with the first rejection. Both reads are started in
  the order `dat_file`, `bin_file`, so when both files are missing, the error
  names the `dat_file`.

## Model

| member | source | states |
|---|---|---|
| `DfuZipModel.DfuZip.constructor` | index.ts:86-93 | the reader keeps the buffer and starts with no archive opened, no manifest cached and no access made |
| `DfuZipModel.DfuZip.GetManifest` | index.ts:95-103 | returns the package's manifest (container error, missing-manifest error, JSON error, or the possibly absent `manifest` value); the archive ends up opened exactly when the buffer is a zip; the cache is set exactly when the result is a manifest; when a manifest was cached, returns it with no access at all; a missing `manifest.json` leaves the cache unset; `Valid()` keeps "an open archive was opened once" and "a cached manifest was read once" |
| `DfuZipModel.DfuZip.GetImage` | index.ts:105-118 | an image lookup first looks the manifest up and passes its errors on; the result is `ImageOf`, and the only accesses beyond the manifest lookup are the two file reads of the matched kind |
| `DfuZipModel.DfuZip.FindImage` | index.ts:107-117 | the loop over the candidate kinds skips absent kinds and returns at the first present one, with its loop invariant "every kind before `i` is absent"; the result is `ResolveImage` and the log grows by exactly the init-packet read and then the payload read of that kind |
| `DfuZipModel.DfuZip.ReadFile` | index.ts:110-114 | reading one entry gives its bytes, or fails naming the missing file |
| `DfuZipModel.DfuZip.GetBaseImage` | index.ts:120-122 | is image resolution over `softdevice`, `bootloader`, `softdevice_bootloader` in that order |
| `DfuZipModel.DfuZip.GetAppImage` | index.ts:124-126 | is image resolution over `application` alone |
| `DfuZipModel.DfuZip.GetGitVersion` | index.ts:128-133 | is `GitVersionOf`: an error only when the application lookup fails, no version without an application image, else the scan of its body |
| `DfuZipModel.ManifestLookupIsIdempotent` | index.ts:96-102 | two manifest lookups in a row return the same result; once it is a manifest, the archive has been opened once and the entry read once |
| `ImageResolution.DecodeManifest` | index.ts:97-101 | a missing `manifest.json` is the "unable to find manifest" error and nothing else is; text that is not JSON, or the document `null`, is the syntax error and nothing else is; a manifest results exactly when the entry parses to a `manifest` value |
| `ImageResolution.ManifestOf` | index.ts:95-103 | the container error arises exactly when the buffer is not a zip; the only errors of a manifest lookup are the container, missing-manifest and syntax errors |
| `ImageResolution.ImageOf` | index.ts:105-118 | a failing manifest lookup fails the image lookup with the same error; a resolved image is of one of the candidate kinds |
| `ImageResolution.GitVersionOf` | index.ts:128-133 | the version lookup fails exactly when the application lookup fails, with its error; a found version starts with `v` and has at least two characters |
| `ImageResolution.FirstPresent` | index.ts:107-109 | gives the position of a present kind with every earlier kind absent; gives none exactly when no candidate is present |
| `ImageResolution.ReadImage` | index.ts:110-114 | reading an image succeeds exactly when both files are in the archive, keeps the kind, and otherwise fails naming the `dat_file` when it is missing, else the `bin_file` |
| `ImageResolution.ResolveImage` | index.ts:107-117 | a resolved image is of a kind the manifest carries; an error needs a non-empty candidate list, and it is the nil-manifest error exactly when there is no manifest, and a missing-file error otherwise |
| `ImageResolution.ImageOfResolves` | index.ts:105-106 | after a successful manifest lookup, the image is resolved from the opened archive and that manifest |
| `ImageResolution.ResolvedImageIsFirstMatch` | index.ts:107-115 | a resolved image's kind is a candidate the manifest carries, every candidate before it is absent, and its header and body are the archive contents of its `dat_file` and `bin_file` |
| `ImageResolution.NoImageIffNoCandidatePresent` | index.ts:107-117 | "no image" (not an error) exactly when no candidate kind is in the manifest |
| `ImageResolution.MissingFileIsAnError` | index.ts:110-112 | when the first present kind names a file the archive lacks, resolution fails naming it (`dat_file` first) and does not fall through |
| `ImageResolution.PresentFilesResolve` | index.ts:107-115 | when the first present kind names two files the archive holds, resolution yields that kind with the contents of its `dat_file` and `bin_file` |
| `ImageResolution.ResolveErrorIsMissingFile` | index.ts:108-112 | resolution against a manifest fails only when the first present kind names a file the archive lacks |
| `ImageResolution.FirstPresentIgnoresLaterKinds` | index.ts:107-109 | appending candidates after a present one does not move the first match |
| `ImageResolution.ResolutionStopsAtFirstMatch` | index.ts:107-115 | once a candidate is present, appended candidates change neither the image nor the error |
| `ImageResolution.NoManifestObjectFailsLookup` | index.ts:100-108 | with a missing or null `manifest` value, any non-empty candidate list fails, and an empty one yields no image |
| `ImageResolution.NotAZipFails` | index.ts:96 | a buffer that is not a zip fails the manifest, every image lookup and the version lookup with a container error |
| `ImageResolution.MissingManifestFails` | index.ts:98-99 | an archive without `manifest.json` fails with "unable to find manifest", also for image lookups |
| `ImageResolution.AppImageIsApplicationEntry` | index.ts:124-126 | the application image is the manifest's `application` entry, with the archive contents of its two files |
| `ImageResolution.WellFormedAppImage` | index.ts:124-126 | a package whose `application` entry names two files the archive holds yields exactly that image as the application image |
| `ImageResolution.BaseImagePreference` | index.ts:120-122 | the base image is the softdevice if present, else the bootloader, else the combined image (each as an if-and-only-if) |
| `ImageResolution.NoAppImageNoVersion` | index.ts:129-130 | without an application image the version is absent, not an error |
| `ImageResolution.VersionIsLeftmostTokenOfAppBody` | index.ts:128-133 | a found version is the text of the leftmost regex match in the application body; none exactly when there is no application image or no match |
| `ImageResolution.CandidateOrderExample` | index.ts:107-115 | candidates `bootloader, softdevice` against a softdevice-only manifest resolve to the softdevice |
| `VersionToken.DigitRun` | index.ts:132 | the length of the longest digit prefix (`\d+` taken greedily): all digits before it, a non-digit or the end after it |
| `VersionToken.GroupsThenSuffix` | index.ts:132 | what the recogniser accepts after the first digit run, when it opens with a dot, continues with a digit: a dotted group is never empty |
| `VersionToken.IsVersionToken` | index.ts:132 | a version token starts with `v` and a digit |
| `VersionToken.NextNul` | index.ts:132 | the first NUL byte at or after a position, or the end; no NUL before it |
| `VersionToken.FindVersionToken` | index.ts:132 | a found token passes the recogniser and contains no NUL byte |
| `VersionToken.GroupsThenSuffixBytes` | index.ts:132 | what the recogniser accepts after the first digit run holds only dots and `[\w-]` bytes |
| `VersionToken.VersionTokenIsAscii` | index.ts:132 | every byte of a version token, and every character of its text, is ASCII, so decoding the body as UTF-8 leaves the token in place |
| `VersionToken.DottedGroupsBytes` | index.ts:132 | `(?:\.\d+)*` matches only digits and dots |
| `VersionToken.GroupsThenSuffixSound` | index.ts:132 | what the greedy recogniser accepts after the first digit run splits into dotted groups and a `[\w-]*` run |
| `VersionToken.GroupsThenSuffixComplete` | index.ts:132 | dotted groups followed by a `[\w-]*` run are accepted by the greedy recogniser |
| `VersionToken.RecognisedTokenMatchesPattern` | index.ts:132 | what the recogniser accepts, `v\d+(?:\.\d+)*[\w-]*` matches |
| `VersionToken.PatternMatchIsRecognised` | index.ts:132 | what `v\d+(?:\.\d+)*[\w-]*` matches, the recogniser accepts |
| `VersionToken.VersionTokenMatchesPattern` | index.ts:132 | the recogniser decides the pattern: both directions |
| `VersionToken.PatternHasNoNul` | index.ts:132 | neither character class admits NUL, so a matched token holds no NUL byte |
| `VersionToken.MatchClosesAtNextNul` | index.ts:132 | a match opening at a NUL byte closes at the next NUL byte: the token is the whole segment between them |
| `VersionToken.NoMatchWithoutNul` | index.ts:132 | no match opens at a byte that is not NUL |
| `VersionToken.MatchAtOpening` | index.ts:132 | a match opens at a NUL byte exactly when the segment up to the next NUL byte is a version token |
| `VersionToken.FoundTokenIsRecognised` | index.ts:132 | what the scan returns from any position passes the recogniser and holds no NUL byte |
| `VersionToken.ScanFromFindsLeftmost` | index.ts:132 | the scan from a position returns the capture of the leftmost match opening there or later, and nothing exactly when there is none |
| `VersionToken.FindVersionTokenIsLeftmostMatch` | index.ts:132 | the version token is the capture of the leftmost match of `\x00(v\d+(?:\.\d+)*[\w-]*)\x00`; absent exactly when the expression matches nowhere |
| `VersionToken.FoundTokenIsNulDelimited` | index.ts:132 | the found token contains no NUL and is immediately preceded and followed by a NUL byte of the body |
| `VersionToken.BetaTokenText` | index.ts:132 | the bytes of the example token read as `v2.1.0-beta` |
| `VersionToken.BetaTokenIsRecognised` | index.ts:132 | `v2.1.0-beta` is a version token |
| `VersionToken.BetaTokenExample` | index.ts:132 | a body `...\x00v2.1.0-beta\x00...` yields `v2.1.0-beta` |
| `VersionToken.DanglingDotExample` | index.ts:132 | `v1.` is not a version, and the scan goes on to the next segment and finds `v7` |

## Left out

- `main`, `writeFile`, `getenv`, `sleep`, `ASSET_NAME_WHITELIST` and `BASEURL` (index.ts:10-84) are left out. They are the release-mirroring I/O: GitHub API calls, HTTP downloads, file writes, console output and process exit.
- Zip decoding is left out. `JSZip.loadAsync` is the constructor parameter `unzip`, and an archive is a map from file entry names to decompressed bytes. A corrupt entry whose decompression rejects is not modelled, and neither are directory entries.
- JSON parsing is left out. Reading `manifest.json` as UTF-8 text and `JSON.parse(...).manifest` together are the constructor parameter `parse`, with three outcomes. `Unparsable` covers text that is not JSON and the document `null`, where reading `.manifest` throws a `TypeError`; both are reported as `ManifestSyntaxError`. `NoManifestKey` covers a document with no `manifest` value or a null one, including a number, string, array or boolean document. The third outcome is a manifest over the four kinds.
- A `manifest` value of some other shape is not modelled. Examples are a string, or an entry without `bin_file`, where the code would look up `undefined` as a file name.
- The reader's methods are not asynchronous in the model. Each method runs to completion. Interleavings of concurrent calls on one reader are not modelled. For example, two `getManifest` calls that both find `#zip` empty before either finishes would open the archive twice.
- `Promise.all` is not modelled as concurrent. The two file reads are made one after the other, and an error names the `dat_file` when both are missing.
- UTF-8 decoding of the body (`toString('utf8')`) is left out. The scan runs on the raw bytes. Every byte the expression can match is ASCII, and decoding keeps ASCII bytes in place, so the token found is the same.
- The `Buffer` and `Uint8Array` wrapper types are left out. Bytes are `seq<byte>`, where `byte` is the integers 0 to 255.
- The ghost `log` is instrumentation of the model. The source keeps no such record. The log only records which archive accesses a call makes.
