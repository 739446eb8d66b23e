/**
 * The upload handler's use of the store: the request-size ceiling, a
 * fresh identifier, the write under the composite name, and the reply
 * `{id, filename, size}`. Multipart parsing is outside the model: the
 * handler is given the body length, the file name from the part header
 * and the file's bytes.
 */
module Transfer {
  import opened Bytes
  import opened FileId
  import opened Naming
  import opened Store

  /** The ceiling on a request body: 100 MiB. */
  const MaxFileSize := 100 * 1024 * 1024

  /** What an upload reports. */
  datatype UploadResult =
    | TooLarge                     // "File too large or invalid form"
    | StorageFault                 // "Failed to save file"
    | Uploaded(id: seq<byte>, filename: seq<byte>, size: nat)

  /**
   * handleUpload from the size check on. A body over the ceiling is
   * refused before anything is written; otherwise the identifier is
   * generated from the random bytes (or the clock) and the upload is
   * stored under `id + "_" + filename`, as `filepath.Join` cleans it
   * (StoredName), and the reply carries the number of bytes stored.
   */
  method Upload(dir: Directory, bodyLength: nat, filename: seq<byte>, content: seq<byte>,
                random: RandomRead, nanos: int64, fault: WriteFault) returns (r: UploadResult)
    requires dir.Valid()
    requires |content| <= bodyLength   // the file travels inside the body
    requires random.Filled? ==> |random.bytes| == RandomLength
    modifies dir
    ensures dir.Valid()
    ensures r.TooLarge? <==> bodyLength > MaxFileSize
    ensures r.TooLarge? ==> dir.entries == old(dir.entries)
    ensures var name := StoredName(GenerateFileID(random, nanos), filename);
      r.Uploaded? <==> bodyLength <= MaxFileSize && fault.NoFault? && !IsDirectory(old(dir.entries), name)
    ensures r.Uploaded? ==>
      && r == Uploaded(GenerateFileID(random, nanos), filename, |content|)
      && |content| <= MaxFileSize
      && dir.entries == WriteFile(old(dir.entries), StoredName(r.id, filename), content)
    ensures var name := StoredName(GenerateFileID(random, nanos), filename);
      r.StorageFault? ==>
        if fault.CopyFails? && !IsDirectory(old(dir.entries), name) then
          dir.entries == WriteFile(old(dir.entries), name, Copied(content, fault))
        else
          dir.entries == old(dir.entries)
  {
    // http.MaxBytesReader and ParseMultipartForm
    if bodyLength > MaxFileSize {
      return TooLarge;
    }
    var fileID := GenerateFileID(random, nanos);
    var put := dir.Put(fileID, filename, content, fault);
    match put
    case Stored(size) =>
      r := Uploaded(fileID, filename, size);
    case _ =>
      r := StorageFault;
  }

  /**
   * An upload followed by a download of the identifier it returned, in a
   * directory where no file name starts with that identifier and with no
   * write fault: the download serves the uploaded bytes under the
   * uploaded file name, and the directory holds exactly the new file
   * besides what it held before.
   */
  method UploadThenDownload(dir: Directory, bodyLength: nat, filename: seq<byte>, content: seq<byte>,
                            random: RandomRead, nanos: int64) returns (up: UploadResult, down: DownloadResult)
    requires dir.Valid()
    requires |content| <= bodyLength <= MaxFileSize
    requires random.Filled? ==> |random.bytes| == RandomLength
    requires forall j :: 0 <= j < |dir.entries| ==> !Matches(dir.entries[j], GenerateFileID(random, nanos))
    requires !IsDirectory(dir.entries, StoredName(GenerateFileID(random, nanos), filename))
    modifies dir
    ensures dir.Valid()
    ensures dir.entries == WriteFile(old(dir.entries), StoredName(GenerateFileID(random, nanos), filename), content)
    ensures up == Uploaded(GenerateFileID(random, nanos), filename, |content|)
    ensures down == Found(if filename == [] || filename == [Slash] then up.id + [Underscore] else filename,
                          |content|, content)
  {
    ghost var before := dir.entries;
    up := Upload(dir, bodyLength, filename, content, random, nanos, NoFault);
    RoundTrip(before, up.id, filename, content);
    down := dir.Download(up.id);
  }
}
