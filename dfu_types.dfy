/**
 * Values shared by the DFU package reader: archive contents, the decoded
 * manifest, resolved images and the errors the reader raises.
 */
module DfuTypes {

  /** A byte of the package buffer. */
  newtype byte = x: int | 0 <= x < 256

  datatype Option<+T> = None | Some(value: T)

  /** A result of the reader: a value, or the error the reader throws. */
  datatype Result<+T> = Ok(value: T) | Err(error: DfuError)

  datatype DfuError =
    /** The archive reader rejects the buffer: it is not a zip container. */
    | ContainerError
    /** "Unable to find manifest, is this a proper DFU package?" */
    | ManifestNotFound
    /**
     * The `manifest.json` entry is not valid JSON (the JSON parser throws), or
     * it is the document `null`, whose `manifest` property cannot be read.
     */
    | ManifestSyntaxError
    /** The manifest value is missing or null, and a kind is looked up in it. */
    | ManifestNotObject
    /** "Failed to read <name> from DFU package" */
    | FileNotFound(name: string)

  /** The four image kinds a package manifest may carry. */
  datatype ImageKind = Application | Softdevice | Bootloader | SoftdeviceBootloader

  /** A manifest entry: the archive names of the firmware payload and of its init packet. */
  datatype ImageFiles = ImageFiles(binFile: string, datFile: string)

  /** The decoded `manifest` object; a kind that is absent (or null) has no key. */
  type Manifest = map<ImageKind, ImageFiles>

  /** An opened zip container: file entry name to its decompressed bytes. */
  type Archive = map<string, seq<byte>>

  /** What the manifest parser makes of the text of `manifest.json`. */
  datatype ManifestJson =
    /** The text is not JSON, or it is the document `null`: reading `.manifest` throws. */
    | Unparsable
    /**
     * The document has no top-level `manifest` value, or it is null; this is
     * also the case for a document that is a number, string, array or boolean.
     */
    | NoManifestKey
    | Parsed(manifest: Manifest)

  /** A resolved image: its kind, the init-packet bytes and the payload bytes. */
  datatype Image = Image(kind: ImageKind, header: seq<byte>, body: seq<byte>)
}
