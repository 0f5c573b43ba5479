/** Values shared by every component: bytes, record fields and media records. */
module Media {
  type Byte = b: int | 0 <= b < 256
  type Bytes = seq<Byte>
  type Digest = string
  type Id = string
  type Path = string

  datatype Option<+T> = None | Some(value: T)

  datatype OriginalStorage = Referenced | Managed

  datatype Fingerprint = Fingerprint(algorithm: string, digest: Digest) {
    predicate IsValid() { algorithm != "" && digest != "" }
  }

  /** Where a source file was found, its size and its modification time (absent when unknown). */
  datatype FileIdentity = FileIdentity(absolutePath: Path, sizeBytes: int, lastModified: Option<int>) {
    predicate LooksUnchangedFrom(other: FileIdentity) {
      && 0 <= sizeBytes && 0 <= other.sizeBytes
      && lastModified.Some? && other.lastModified.Some?
      && sizeBytes == other.sizeBytes && lastModified == other.lastModified
    }
  }

  datatype MediaKind = Unknown | Image | Video

  datatype Metadata = Metadata(kind: MediaKind, fileName: string, folderPath: Path,
                               caption: string, tags: seq<string>, rest: string)

  datatype Recipe = Recipe(revision: int, operations: string)

  datatype Record = Record(id: Id, fingerprint: Fingerprint, identity: FileIdentity,
                           storage: OriginalStorage, managedPath: Path,
                           metadata: Metadata, recipe: Recipe)
}
