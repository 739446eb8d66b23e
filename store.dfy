/**
 * The upload directory as a content store. The directory is a sequence
 * of entries `(name, isDir, content)` kept in the order in which
 * `os.ReadDir` enumerates it: sorted by name, byte by byte. Names in one
 * directory are distinct, so the order is strict.
 *
 * Writing a file is `os.Create` (which makes a new empty file, truncates
 * an existing file of that name in place, and fails on a directory)
 * followed by `io.Copy` of the upload into it. Reading is a scan of the
 * enumeration for the first file whose name starts with the identifier.
 */
module Store {
  import opened Bytes
  import opened Naming

  datatype Option<T> = None | Some(value: T)

  /** One directory entry, with the bytes of a file. */
  datatype Entry = Entry(name: seq<byte>, isDir: bool, content: seq<byte>)

  // ---------------------------------------------------------------------
  // The enumeration order

  /** Go's `<` on strings: lexicographic on bytes. */
  predicate NameLess(a: seq<byte>, b: seq<byte>)
  {
    if a == [] then b != []
    else if b == [] then false
    else a[0] < b[0] || (a[0] == b[0] && NameLess(a[1..], b[1..]))
  }

  lemma {:induction false} NameLessIrreflexive(a: seq<byte>)
    ensures !NameLess(a, a)
  {
    if a != [] {
      NameLessIrreflexive(a[1..]);
    }
  }

  lemma {:induction false} NameLessTransitive(a: seq<byte>, b: seq<byte>, c: seq<byte>)
    requires NameLess(a, b) && NameLess(b, c)
    ensures NameLess(a, c)
  {
    if a != [] && b != [] && c != [] && a[0] == b[0] == c[0] {
      NameLessTransitive(a[1..], b[1..], c[1..]);
    }
  }

  lemma {:induction false} NameLessTotal(a: seq<byte>, b: seq<byte>)
    requires a != b
    ensures NameLess(a, b) || NameLess(b, a)
  {
    if a != [] && b != [] && a[0] == b[0] {
      assert a == [a[0]] + a[1..] && b == [b[0]] + b[1..];
      NameLessTotal(a[1..], b[1..]);
    }
  }

  /** The directory as `os.ReadDir` returns it: strictly sorted by name. */
  predicate Sorted(es: seq<Entry>)
  {
    forall i, j :: 0 <= i < j < |es| ==> NameLess(es[i].name, es[j].name)
  }

  /** In a sorted directory no two entries share a name. */
  lemma SortedNamesDistinct(es: seq<Entry>, i: nat, j: nat)
    requires Sorted(es) && i < |es| && j < |es| && i != j
    ensures es[i].name != es[j].name
  {
    if i < j {
      NameLessIrreflexive(es[i].name);
    } else {
      NameLessIrreflexive(es[j].name);
    }
  }

  // ---------------------------------------------------------------------
  // Finding an entry by its full name (what opening a path does)

  function IndexOfName(es: seq<Entry>, name: seq<byte>): (r: Option<nat>)
    ensures r.Some? ==> r.value < |es| && es[r.value].name == name
    ensures r.None? ==> forall i :: 0 <= i < |es| ==> es[i].name != name
  {
    if es == [] then None
    else if es[0].name == name then Some(0)
    else match IndexOfName(es[1..], name)
      case None =>
        assert forall i :: 1 <= i < |es| ==> es[i] == es[1..][i - 1];
        None
      case Some(k) => Some(k + 1)
  }

  /** In a sorted directory the entry with a given name is the only one. */
  lemma IndexOfNameUnique(es: seq<Entry>, i: nat)
    requires Sorted(es) && i < |es|
    ensures IndexOfName(es, es[i].name) == Some(i)
  {
    var r := IndexOfName(es, es[i].name);
    if r.value != i {
      SortedNamesDistinct(es, r.value, i);
    }
  }

  /** The name is that of a directory, on which `os.Create` fails. */
  predicate IsDirectory(es: seq<Entry>, name: seq<byte>)
  {
    match IndexOfName(es, name)
    case Some(i) => es[i].isDir
    case None => false
  }

  // ---------------------------------------------------------------------
  // Writing a file

  /** Where a new name goes in the enumeration: after every smaller name. */
  function InsertionPoint(es: seq<Entry>, name: seq<byte>): (k: nat)
    ensures k <= |es|
    ensures forall i :: 0 <= i < k ==> NameLess(es[i].name, name)
    ensures k < |es| ==> !NameLess(es[k].name, name)
  {
    if es == [] || !NameLess(es[0].name, name) then 0
    else
      var k := 1 + InsertionPoint(es[1..], name);
      assert forall i :: 1 <= i < k ==> es[i] == es[1..][i - 1];
      k
  }

  /** In a sorted directory without `name`, every entry from the insertion point on is larger. */
  lemma InsertionPointAfter(es: seq<Entry>, name: seq<byte>)
    requires Sorted(es) && IndexOfName(es, name).None?
    ensures forall i :: InsertionPoint(es, name) <= i < |es| ==> NameLess(name, es[i].name)
  {
    var k := InsertionPoint(es, name);
    if k < |es| {
      NameLessTotal(es[k].name, name);
      forall i | k < i < |es|
        ensures NameLess(name, es[i].name)
      {
        NameLessTransitive(name, es[k].name, es[i].name);
      }
    }
  }

  /** A new entry at its place in the enumeration. */
  function Insert(es: seq<Entry>, e: Entry): seq<Entry>
  {
    var k := InsertionPoint(es, e.name);
    es[..k] + [e] + es[k..]
  }

  lemma InsertSorted(es: seq<Entry>, e: Entry)
    requires Sorted(es) && IndexOfName(es, e.name).None?
    ensures Sorted(Insert(es, e))
  {
    var k := InsertionPoint(es, e.name);
    var r := Insert(es, e);
    InsertionPointAfter(es, e.name);
    assert forall i :: 0 <= i < k ==> r[i] == es[i];
    assert r[k] == e;
    assert forall i :: k < i < |r| ==> r[i] == es[i - 1];
    forall i, j | 0 <= i < j < |r|
      ensures NameLess(r[i].name, r[j].name)
    {
      if j < k || k < i {
        assert NameLess(r[i].name, r[j].name);
      } else if i < k < j {
        NameLessTransitive(es[i].name, e.name, es[j - 1].name);
      }
    }
  }

  /**
   * The directory after `os.Create(name)` and a copy of `data` into it:
   * an existing file of that name is rewritten where it stands, otherwise
   * a new file joins the enumeration. (Creating over a directory fails
   * before this point; see Directory.Put.)
   */
  function WriteFile(es: seq<Entry>, name: seq<byte>, data: seq<byte>): seq<Entry>
  {
    match IndexOfName(es, name)
    case Some(i) => es[i := Entry(name, false, data)]
    case None => Insert(es, Entry(name, false, data))
  }

  /** Writing keeps the directory a strictly sorted enumeration. */
  lemma WriteFileSorted(es: seq<Entry>, name: seq<byte>, data: seq<byte>)
    requires Sorted(es)
    ensures Sorted(WriteFile(es, name, data))
  {
    if IndexOfName(es, name).None? {
      InsertSorted(es, Entry(name, false, data));
    }
  }

  /**
   * What a write changes: afterwards the file `name` holds `data`, every
   * entry of another name is kept, nothing else appears, and the
   * directory grows by one entry exactly when `name` was new.
   */
  lemma WriteFileEntries(es: seq<Entry>, name: seq<byte>, data: seq<byte>)
    requires Sorted(es)
    ensures Entry(name, false, data) in WriteFile(es, name, data)
    ensures forall e :: e in WriteFile(es, name, data) ==> e == Entry(name, false, data) || (e in es && e.name != name)
    ensures forall e :: e in es && e.name != name ==> e in WriteFile(es, name, data)
    ensures |WriteFile(es, name, data)| == if IndexOfName(es, name).Some? then |es| else |es| + 1
  {
    var f := Entry(name, false, data);
    var r := WriteFile(es, name, data);
    match IndexOfName(es, name)
    case Some(i) =>
      assert r[i] == f;
      forall e | e in r
        ensures e == f || (e in es && e.name != name)
      {
        var j :| 0 <= j < |r| && r[j] == e;
        if j != i {
          SortedNamesDistinct(es, i, j);
        }
      }
      forall e | e in es && e.name != name
        ensures e in r
      {
        var j :| 0 <= j < |es| && es[j] == e;
        assert r[j] == e;
      }
    case None =>
      var k := InsertionPoint(es, name);
      assert r == es[..k] + [f] + es[k..];
      assert r[k] == f;
      forall e | e in es && e.name != name
        ensures e in r
      {
        var j :| 0 <= j < |es| && es[j] == e;
        if j < k {
          assert r[j] == e;
        } else {
          assert r[j + 1] == e;
        }
      }
  }

  /**
   * Creating a new name adds exactly one new file and leaves every
   * existing entry as it was, in the same relative order.
   */
  lemma WriteFileNew(es: seq<Entry>, name: seq<byte>, data: seq<byte>)
    requires IndexOfName(es, name).None?
    ensures exists k :: 0 <= k <= |es| && WriteFile(es, name, data) == es[..k] + [Entry(name, false, data)] + es[k..]
  {
    var k := InsertionPoint(es, name);
    assert WriteFile(es, name, data) == es[..k] + [Entry(name, false, data)] + es[k..];
  }

  /**
   * `os.Create` followed by `io.Copy`: creating (or truncating) the file
   * and then copying `data` into it leaves the directory as one write of
   * `data` would.
   */
  lemma CreateThenCopy(es: seq<Entry>, name: seq<byte>, data: seq<byte>)
    requires Sorted(es)
    ensures var created := WriteFile(es, name, []);
      IndexOfName(created, name).Some? &&
      created[IndexOfName(created, name).value := Entry(name, false, data)] == WriteFile(es, name, data)
  {
    var created := WriteFile(es, name, []);
    WriteFileSorted(es, name, []);
    match IndexOfName(es, name)
    case Some(i) =>
      assert created[i].name == name;
      IndexOfNameUnique(created, i);
    case None =>
      var k := InsertionPoint(es, name);
      assert created[k].name == name;
      IndexOfNameUnique(created, k);
      assert created[k := Entry(name, false, data)] == es[..k] + [Entry(name, false, data)] + es[k..];
  }

  // ---------------------------------------------------------------------
  // Reading a file back

  /** The entry a download for `id` accepts: a file whose name starts with `id`. */
  predicate Matches(e: Entry, id: seq<byte>)
  {
    !e.isDir && HasPrefix(e.name, id)
  }

  /** The position of the first accepted entry in enumeration order. */
  function FirstMatch(es: seq<Entry>, id: seq<byte>): (r: Option<nat>)
    ensures r.Some? ==> r.value < |es| && Matches(es[r.value], id)
    ensures r.Some? ==> forall j :: 0 <= j < r.value ==> !Matches(es[j], id)
    ensures r.None? ==> forall j :: 0 <= j < |es| ==> !Matches(es[j], id)
  {
    if es == [] then None
    else if Matches(es[0], id) then Some(0)
    else match FirstMatch(es[1..], id)
      case None =>
        assert forall j :: 1 <= j < |es| ==> es[j] == es[1..][j - 1];
        None
      case Some(k) =>
        assert forall j :: 1 <= j < k + 1 ==> es[j] == es[1..][j - 1];
        Some(k + 1)
  }

  /** What a download yields. */
  datatype DownloadResult =
    | MissingId                    // "File ID required"
    | NotFound                     // "File not found"
    | Found(filename: seq<byte>, size: nat, content: seq<byte>)

  /** The download of `id` from the directory `es`. */
  function Lookup(es: seq<Entry>, id: seq<byte>): DownloadResult
  {
    if id == [] then MissingId
    else match FirstMatch(es, id)
      case None => NotFound
      case Some(k) => Found(RecoverFilename(id, es[k].name), |es[k].content|, es[k].content)
  }

  /**
   * An empty identifier is refused before the directory is read; a
   * non-empty one is not found exactly when no file name starts with it.
   */
  lemma LookupRejectsOrNotFound(es: seq<Entry>, id: seq<byte>)
    ensures Lookup(es, id) == MissingId <==> id == []
    ensures Lookup(es, id) == NotFound <==> id != [] && forall j :: 0 <= j < |es| ==> !Matches(es[j], id)
  {
    if id != [] && FirstMatch(es, id).Some? {
      assert Matches(es[FirstMatch(es, id).value], id);
    }
  }

  /**
   * The first file in enumeration order whose name starts with `id` is
   * the one served, with its recovered name, its exact size and its bytes;
   * directories are passed over even when their names match.
   */
  lemma LookupSelects(es: seq<Entry>, id: seq<byte>, k: nat)
    requires id != [] && k < |es| && Matches(es[k], id)
    requires forall j :: 0 <= j < k ==> !Matches(es[j], id)
    ensures Lookup(es, id) == Found(RecoverFilename(id, es[k].name), |es[k].content|, es[k].content)
  {
    assert FirstMatch(es, id).Some?;
  }

  /**
   * Because the enumeration is sorted, the file served is the one with
   * the least name among all files whose name starts with `id`.
   */
  lemma LookupPicksLeastName(es: seq<Entry>, id: seq<byte>, j: nat)
    requires Sorted(es) && j < |es| && Matches(es[j], id)
    ensures FirstMatch(es, id).Some?
    ensures var k := FirstMatch(es, id).value; k == j || NameLess(es[k].name, es[j].name)
  {
  }

  /** An entry that does not match `id` (a directory, or another name) does not change its download. */
  lemma LookupInsertNonMatching(es: seq<Entry>, k: nat, e: Entry, id: seq<byte>)
    requires k <= |es| && !Matches(e, id)
    ensures Lookup(es[..k] + [e] + es[k..], id) == Lookup(es, id)
  {
    var r := es[..k] + [e] + es[k..];
    assert forall i :: 0 <= i < k ==> r[i] == es[i];
    assert r[k] == e;
    assert forall i :: k < i < |r| ==> r[i] == es[i - 1];
    if id != [] {
      match FirstMatch(es, id)
      case Some(m) =>
        if m < k {
          LookupSelects(r, id, m);
        } else {
          LookupSelects(r, id, m + 1);
        }
      case None =>
        LookupRejectsOrNotFound(r, id);
        LookupRejectsOrNotFound(es, id);
    }
  }

  /** Replacing a non-matching entry by another non-matching one does not change the download. */
  lemma LookupReplaceNonMatching(es: seq<Entry>, i: nat, e: Entry, id: seq<byte>)
    requires i < |es| && !Matches(es[i], id) && !Matches(e, id)
    ensures Lookup(es[i := e], id) == Lookup(es, id)
  {
    var r := es[i := e];
    if id != [] {
      match FirstMatch(es, id)
      case Some(m) =>
        LookupSelects(r, id, m);
      case None =>
        LookupRejectsOrNotFound(r, id);
        LookupRejectsOrNotFound(es, id);
    }
  }

  /**
   * Storing under a name that does not start with `id` leaves the
   * download of `id` as it was: an upload never disturbs what an
   * existing identifier retrieves unless its name carries that prefix.
   */
  lemma LookupAfterUnrelatedWrite(es: seq<Entry>, name: seq<byte>, data: seq<byte>, id: seq<byte>)
    requires !HasPrefix(name, id)
    ensures Lookup(WriteFile(es, name, data), id) == Lookup(es, id)
  {
    match IndexOfName(es, name)
    case Some(i) =>
      LookupReplaceNonMatching(es, i, Entry(name, false, data), id);
    case None =>
      LookupInsertNonMatching(es, InsertionPoint(es, name), Entry(name, false, data), id);
  }

  /**
   * The round trip: in a directory where no file name starts with `id`,
   * storing `content` for `filename` and then downloading `id` gives back
   * the file name (`id + "_"` when the file name is empty or `/`), the
   * exact size and the same bytes.
   */
  lemma RoundTrip(es: seq<Entry>, id: seq<byte>, filename: seq<byte>, content: seq<byte>)
    requires Sorted(es) && id != []
    requires forall j :: 0 <= j < |es| ==> !Matches(es[j], id)
    requires !IsDirectory(es, StoredName(id, filename))
    ensures Lookup(WriteFile(es, StoredName(id, filename), content), id)
         == Found(if filename == [] || filename == [Slash] then id + [Underscore] else filename, |content|, content)
  {
    var name := StoredName(id, filename);
    var f := Entry(name, false, content);
    match IndexOfName(es, name)
    case Some(i) =>
      assert false;
    case None =>
      var k := InsertionPoint(es, name);
      var r := WriteFile(es, name, content);
      assert r == es[..k] + [f] + es[k..];
      assert forall j :: 0 <= j < k ==> r[j] == es[j];
      LookupSelects(r, id, k);
      RecoverStoredName(id, filename);
  }

  // ---------------------------------------------------------------------
  // The directory object

  /** An I/O fault while writing, supplied by the caller's environment. */
  datatype WriteFault =
    | NoFault
    | CreateFails                   // `os.Create` reports an error
    | CopyFails(written: nat)       // `io.Copy` reports an error after `written` bytes

  /** The bytes that end up in the file: all of them, or those copied before a fault. */
  function Copied(content: seq<byte>, fault: WriteFault): seq<byte>
  {
    match fault
    case CopyFails(n) => if n < |content| then content[..n] else content
    case _ => content
  }

  /** What the write path reports. */
  datatype PutResult = CreateFailed | CopyFailed | Stored(size: nat)

  /** The upload directory, shared by all requests. */
  class Directory {
    var entries: seq<Entry>

    ghost predicate Valid()
      reads this
    {
      Sorted(entries)
    }

    /** The directory as found on disk at start-up. */
    constructor (existing: seq<Entry>)
      requires Sorted(existing)
      ensures Valid() && entries == existing
    {
      entries := existing;
    }

    /**
     * The write path of handleUpload: create `id + "_" + filename`, as
     * `filepath.Join` cleans it, then copy the upload into it. A failed create changes nothing; a failed
     * copy leaves the file with what was copied so far; a successful one
     * reports the number of bytes copied.
     */
    method Put(id: seq<byte>, filename: seq<byte>, content: seq<byte>, fault: WriteFault) returns (r: PutResult)
      requires Valid()
      modifies this
      ensures Valid()
      ensures var name := StoredName(id, filename);
        if fault.CreateFails? || IsDirectory(old(entries), name) then
          r == CreateFailed && entries == old(entries)
        else
          entries == WriteFile(old(entries), name, Copied(content, fault)) &&
          r == (if fault.CopyFails? then CopyFailed else Stored(|content|))
    {
      // fileID + "_" + header.Filename, joined onto the upload directory
      var fileName := StoredName(id, filename);
      // os.Create
      if fault.CreateFails? || IsDirectory(entries, fileName) {
        return CreateFailed;
      }
      ghost var before := entries;
      CreateThenCopy(entries, fileName, Copied(content, fault));
      WriteFileSorted(entries, fileName, []);
      entries := WriteFile(entries, fileName, []);
      // io.Copy
      var dst := IndexOfName(entries, fileName).value;
      entries := entries[dst := Entry(fileName, false, Copied(content, fault))];
      WriteFileSorted(before, fileName, Copied(content, fault));
      if fault.CopyFails? {
        return CopyFailed;
      }
      r := Stored(|content|);
    }

    /**
     * The read path of handleDownload: refuse an empty identifier, scan
     * the enumeration for the first file whose name starts with it, open
     * that file and report its recovered name, size and content.
     */
    method Download(id: seq<byte>) returns (r: DownloadResult)
      requires Valid()
      ensures r == Lookup(entries, id)
    {
      if id == [] {
        return MissingId;
      }
      var filePath: seq<byte> := [];
      var found := false;
      var i := 0;
      while i < |entries|
        invariant 0 <= i <= |entries|
        invariant forall j :: 0 <= j < i ==> !Matches(entries[j], id)
      {
        var entry := entries[i];
        if !entry.isDir {
          var name := entry.name;
          if |name| >= |id| && name[..|id|] == id {
            filePath := name;
            found := true;
            break;
          }
        }
        i := i + 1;
      }
      if !found {
        LookupRejectsOrNotFound(entries, id);
        return NotFound;
      }
      // os.Open(filePath) and file.Stat()
      IndexOfNameUnique(entries, i);
      var file := entries[IndexOfName(entries, filePath).value];
      var size := |file.content|;
      var originalFilename := RecoverFilename(id, filePath);
      LookupSelects(entries, id, i);
      r := Found(originalFilename, size, file.content);
    }
  }
}
