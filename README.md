# A verified model of the ngrokcurl file-transfer store

ngrokcurl is a small HTTP file-transfer service. A client uploads a file
and gets back a short identifier. Anyone who has the identifier can then
download the file. All of its logic is in the upload and download
handlers of `main.go`, and this project models that logic:

- **Identifier generation** (`generateFileID`). Sixteen random bytes are
  hex-encoded and the encoding is cut to 12 characters. If the random
  source fails, the identifier is the `%d` rendering of the nanosecond
  Unix time instead. The random bytes and the clock reading are
  parameters, so generation is a deterministic function.
- **Write path** (`handleUpload`). The upload is stored in the upload
  directory under the composite name `id + "_" + filename`, using
  `os.Create` followed by `io.Copy`. The path goes through
  `filepath.Join`, which cleans it: for the file name `/` the trailing
  slash is dropped and the file is stored as `id + "_"`. A request body over 100 MiB is
  refused before anything is written.
- **Read path** (`handleDownload`). An empty identifier is refused. The
  directory is enumerated and the first file whose name starts with the
  identifier is served. Directories are skipped even when their names
  match. The original file name is recovered by dropping `len(id) + 1`
  bytes, but only from a name strictly longer than that. The file's exact
  size and its bytes are returned.

Go strings are byte strings, and Go compares, measures and slices them
byte by byte. So every name, identifier and file name here is a
`seq<byte>`.

The upload directory is the class `Store.Directory`. Its field `entries`
is the sequence of directory entries `(name, isDir, content)`. Downloads
read it through the `Download` method, whose `while` loop is the
handler's enumeration loop. Uploads change it through `Put`.

Two points of the code's behaviour are easy to miss:

- `os.ReadDir` returns entries sorted by file name. The directory
  therefore always keeps its entries in strict byte-wise name order,
  which also means names are unique. A new file is inserted at its
  place in that order, not appended. "The first match in enumeration
  order" is therefore the match with the least name
  (`Store.LookupPicksLeastName`).
- `os.Create` on a name that already exists truncates that file and
  rewrites it in place, and it fails on a directory. Each upload gets a
  fresh identifier, so in practice an upload does not overwrite an entry;
  the model keeps the overwrite case that `os.Create` allows.
  `Store.WriteFileNew` proves the "exactly one new entry" property for a
  name that is not already present.

A prefix match on the identifier alone means that any shorter prefix of
a stored identifier also matches the stored name. A download of such a
prefix `p`, if `p` is not empty, therefore serves that file unless an
earlier file (not directory) in the enumeration also starts with `p`.
The file name reported for it is then the identifier without its first
`len(p) + 1` bytes, then `_` and the file name; for the file name `/`,
the `/` is left out (`Naming.ShortPrefixMatch`).

Modules, one per component: `Bytes` (the byte type and ASCII codes),
`FileId` (identifier generation), `Naming` (composite names and
file-name recovery), `Store` (the directory, its write and read paths),
`Transfer` (the upload handler's use of the store).

## Model

| member | source | states |
|---|---|---|
| `FileId.GenerateFileID` | main.go:241-248 | Strong path: exactly 12 lower-case hex digits, the hex encoding of the first six random bytes that decodes back to them. Fallback: the decimal rendering of the timestamp, which reads back as that timestamp and is all digits when it is not negative. On both paths the id is non-empty and never holds `_`. |
| `FileId.HexEncode` | main.go:247 | Two lower-case hex digits per input byte. |
| `FileId.HexRoundTrip` | main.go:247 | Decoding the hex encoding gives back the bytes. |
| `FileId.HexEncodePrefix` | main.go:247 | Cutting the encoding to `2n` digits is the same as encoding the first `n` bytes. |
| `FileId.NatString` | main.go:245 | The decimal rendering of a natural number is non-empty and all digits. |
| `FileId.DecimalRoundTrip` | main.go:245 | Reading the `%d` rendering back gives the integer, negative ones included. |
| `Naming.CompositeName` | main.go:132 | The stored name starts with the identifier. |
| `Naming.StoredName` | main.go:132-133 | The name left in the directory starts with the identifier: `id + "_" + fn` as `filepath.Join` cleans it, which is `id + "_"` for the file name `/`. |
| `Naming.RecoverStoredName` | main.go:219-223 | A download reports a stored upload's file name exactly, except that the empty name and `/` are reported as `id + "_"`. |
| `Naming.RecoverCompositeName` | main.go:219-223 | For a non-empty file name, recovery from `id + "_" + fn` gives exactly `fn`, including any `_` inside `fn`. |
| `Naming.RecoverDegenerate` | main.go:220-223 | A name no longer than `len(id) + 1` is reported whole; an empty file name comes back as `id + "_"`. |
| `Naming.CompositeNameInjective` | main.go:132 | For identifiers without `_`, the composite name determines both the identifier and the file name. |
| `Naming.ShortPrefixMatch` | main.go:191-222 | A shorter prefix of a stored identifier also matches the stored name; the reported file name is then the identifier without its first `len(p) + 1` bytes, then `_` and the file name, also for the name actually stored, where the file name `/` leaves no `/`. |
| `Store.IndexOfName` | main.go:205 | Opening by name finds an entry with that name, or reports that none has it. |
| `Store.IndexOfNameUnique` | main.go:205 | In a sorted directory, opening an entry's name finds that very entry. |
| `Store.InsertSorted` | main.go:181 | Inserting a new name at its place keeps the directory strictly sorted, as the enumeration returns it. |
| `Store.WriteFileSorted` | main.go:136-145 | Creating and writing a file keeps the directory strictly sorted, so names stay unique. |
| `Store.WriteFileEntries` | main.go:136-145 | After a write, the file `name` holds the data. Every entry of another name is kept and nothing else appears. The directory grows by one exactly when the name was new. |
| `Store.WriteFileNew` | main.go:136-145 | Writing a new name adds exactly one new file entry and leaves every earlier entry unchanged and in order. |
| `Store.CreateThenCopy` | main.go:136-145 | Create (or truncate) followed by copying into the opened file gives the same directory as a single write of the data. |
| `Store.FirstMatch` | main.go:187-197 | Returns the first position whose entry is a file with the identifier as a prefix, with no such entry before it; or reports that no entry matches. |
| `Store.LookupRejectsOrNotFound` | main.go:171-202 | Empty id exactly when rejected. Not found exactly when the id is non-empty and no file name starts with it. |
| `Store.LookupSelects` | main.go:187-231 | The first matching file in enumeration order is served with its recovered name, its exact size and its bytes; directories are never selected. |
| `Store.LookupPicksLeastName` | main.go:181-197 | In the sorted enumeration the served file has the least name among the matching files. |
| `Store.LookupInsertNonMatching` | main.go:187-197 | An entry that does not match, such as a directory with a matching name, never changes what a download serves. |
| `Store.LookupAfterUnrelatedWrite` | main.go:187-197 | Storing under a name that does not start with `id` leaves the download of `id` unchanged. |
| `Store.RoundTrip` | main.go:132-231 | In a directory where no file name starts with `id`, storing `c` for file name `fn` makes `id` download as file name `fn` (as `id + "_"` when `fn` is empty or `/`), size `|c|` and bytes `c`. |
| `Store.Directory.constructor` | main.go:16 | The directory starts as the sorted list of entries already on disk. |
| `Store.Directory.Put` | main.go:132-150 | The file is created under the stored name (`id + "_" + fn`, cleaned by `filepath.Join`). A failed create, or a create over a directory, changes nothing. Otherwise the directory becomes the write of the copied bytes: the whole content, or only the bytes copied before a copy fault, which are left in place. A successful copy reports the full content length. |
| `Store.Directory.Download` | main.go:171-231 | The enumeration loop's result is exactly `Lookup` of the directory: a rejection, not-found, or the first matching file's recovered name, size and bytes. |
| `Transfer.Upload` | main.go:115-160 | A body over 100 MiB is refused and nothing is stored. Otherwise the upload succeeds exactly when there is no I/O fault and the stored name is not a directory. On success the reply holds the generated id, the file name and the exact content length, and the content is stored under `id + "_" + filename` as `filepath.Join` cleans it. A failed copy leaves the partial file. |
| `Transfer.UploadThenDownload` | main.go:129-231 | Uploading with no write fault into a directory with no file name starting with the new id leaves the directory as the write of the content under the stored name, still sorted. Downloading that id then serves the uploaded bytes and length under the uploaded file name, or under `id + "_"` when that name is empty or `/`. |

## Left out

- HTTP routing, the `GET`/`POST` method checks, `handleHome`, `handleHealth`, `getHost` and `main`'s `MkdirAll`: these are request glue with no store logic.
- Multipart parsing (`ParseMultipartForm`, `FormFile`): this is library code the model cannot see. `Transfer.Upload` gets the body length, the file name from the part header and the file's bytes directly. It does not model a missing file part. The multipart library passes on only the base name of the client's file name; the model takes that base name as given, and of base names only `/` holds a slash, which `Naming.StoredName` handles.
- Empty file names: Go's multipart parser turns a part whose `filename` is empty into a plain form value, so `FormFile` reports a missing file and the handler answers 400 (main.go:121-124). An empty file name therefore never reaches the store. The empty-file-name cases of `Transfer.Upload`, `Store.RoundTrip` and `Naming.RecoverDegenerate` cover more than the program can reach.
- `http.MaxBytesReader`: modelled only as a guard on the total body length. A body over the ceiling is refused with nothing written.
- `crypto/rand` and `time.Now`: their results are parameters (`RandomRead`, `nanos`). The probability of identifier collisions is out of scope.
- Concurrent requests, and two uploads racing on the same identifier: requests are modelled one at a time.
- I/O faults on the read side (`os.ReadDir`, `os.Open` or `file.Stat` failing): the modelled directory is always readable and the found file is always openable. Write faults are the caller-supplied `WriteFault`. This includes `os.Create` failures that depend on the name itself, such as a name holding a NUL byte or one longer than the file system's name limit (a 250-byte file name becomes a 263-byte stored name): the model does not derive these from the name, and the caller chooses `CreateFails` for them.
- Logging, the floating-point MB figure in the upload log, and rendering of the JSON reply and response headers: this is output formatting. The model returns the values that would be rendered.
- Streaming: `io.Copy` happens in one step. The whole content is copied, or a prefix of it when the copy fails.
- `filepath.Join`/`filepath.Base` in the download: for a directory entry's name, `Base(Join(dir, name))` is `name`, and the model uses the name directly.
