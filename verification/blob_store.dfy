/** The binary store for voice notes and images: blobs are kept under
    generated ids and referred to by `idb://<id>` paths (backend.ts
    `uploadFile`, `getFileBlob`, `removeFile`). The database handle and its
    transactions are not modelled; a missing id reads as absent. */
module BlobStore {
  import opened Wrappers
  import opened Types
  import opened RecordStore
  import Text

  const Scheme: string := "idb://"

  /** The id a path refers to: the path with its scheme prefix removed
      (the first occurrence of the scheme, which is the prefix). */
  function PathId(path: string): string
    requires Text.StartsWith(path, Scheme)
  {
    path[|Scheme|..]
  }

  /** `uploadFile(blob)`: stores the blob under the generated `id` and
      returns its path. */
  function UploadFile(s: Store, blob: Blob, id: string): (r: (Store, string))
    ensures Text.StartsWith(r.1, Scheme) && PathId(r.1) == id
    ensures r.0.blobs == s.blobs[id := blob]
    ensures r.0 == s.(blobs := r.0.blobs)
  {
    (s.(blobs := s.blobs[id := blob]), Scheme + id)
  }

  /** `getFileBlob(path)`: absent for a path outside the scheme. */
  function GetFileBlob(s: Store, path: string): (r: Option<Blob>)
    ensures !Text.StartsWith(path, Scheme) ==> r.None?
    ensures r.Some? ==> PathId(path) in s.blobs && r.value == s.blobs[PathId(path)]
    ensures Text.StartsWith(path, Scheme) && PathId(path) in s.blobs ==> r == Some(s.blobs[PathId(path)])
  {
    if !Text.StartsWith(path, Scheme) then None
    else if PathId(path) in s.blobs then Some(s.blobs[PathId(path)])
    else None
  }

  /** `removeFile(path)`: deletes the blob a scheme path refers to; other
      paths are ignored. */
  function RemoveFile(s: Store, path: string): (r: Store)
    ensures !Text.StartsWith(path, Scheme) ==> r == s
    ensures Text.StartsWith(path, Scheme) ==> r.blobs == s.blobs - {PathId(path)}
    ensures r == s.(blobs := r.blobs)
  {
    if !Text.StartsWith(path, Scheme) then s else s.(blobs := s.blobs - {PathId(path)})
  }

  /** An uploaded blob reads back through the returned path. */
  lemma UploadThenGet(s: Store, blob: Blob, id: string)
    ensures GetFileBlob(UploadFile(s, blob, id).0, UploadFile(s, blob, id).1) == Some(blob)
  {
    var p := UploadFile(s, blob, id).1;
    assert p[|Scheme|..] == id;
  }

  /** After removal the path reads as absent, and other blobs are kept. */
  lemma RemoveThenGet(s: Store, path: string, other: string)
    requires Text.StartsWith(other, Scheme) && Text.StartsWith(path, Scheme) && PathId(other) != PathId(path)
    ensures GetFileBlob(RemoveFile(s, path), path).None?
    ensures GetFileBlob(RemoveFile(s, path), other) == GetFileBlob(s, other)
  {
  }
}
