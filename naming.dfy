/**
 * The storage naming scheme. An upload is stored under the composite
 * name `id + "_" + filename` (handleUpload); a download recognises a
 * stored name by its identifier prefix and recovers the original file
 * name by dropping `len(id) + 1` bytes, but only from a name strictly
 * longer than that (handleDownload).
 */
module Naming {
  import opened Bytes

  /** The download's match test: `len(name) >= len(id) && name[:len(id)] == id`. */
  predicate HasPrefix(name: seq<byte>, id: seq<byte>) {
    |name| >= |id| && name[..|id|] == id
  }

  /** `fileID + "_" + header.Filename`. */
  function CompositeName(id: seq<byte>, filename: seq<byte>): (name: seq<byte>)
    ensures HasPrefix(name, id)
  {
    id + [Underscore] + filename
  }

  /**
   * The name the upload actually leaves in the directory.
   * `filepath.Join(uploadDir, fileName)` cleans its result, and cleaning
   * drops a trailing `/`. The multipart layer passes on only base names,
   * and the one base name that holds `/` is `/` itself. So for the file
   * name `/` the file is stored as `id + "_"`, and otherwise under the
   * composite name.
   */
  function StoredName(id: seq<byte>, filename: seq<byte>): (name: seq<byte>)
    ensures HasPrefix(name, id)
  {
    if filename == [Slash] then id + [Underscore] else CompositeName(id, filename)
  }

  /** The original file name the download reports for a matched `name`. */
  function RecoverFilename(id: seq<byte>, name: seq<byte>): seq<byte>
  {
    var idx := |id| + 1;
    if |name| > idx then name[idx..] else name
  }

  /**
   * A non-empty file name comes back exactly, separators inside it
   * included: only the identifier and one separator are removed.
   */
  lemma RecoverCompositeName(id: seq<byte>, filename: seq<byte>)
    requires filename != []
    ensures RecoverFilename(id, CompositeName(id, filename)) == filename
  {
    assert CompositeName(id, filename)[|id| + 1..] == filename;
  }

  /**
   * A name no longer than the identifier plus separator is reported
   * whole; so an empty file name comes back as `id + "_"`.
   */
  lemma RecoverDegenerate(id: seq<byte>, name: seq<byte>)
    requires |name| <= |id| + 1
    ensures RecoverFilename(id, name) == name
    ensures RecoverFilename(id, CompositeName(id, [])) == id + [Underscore]
  {
  }

  /**
   * What a download reports for a stored upload: the file name itself,
   * except that the empty file name and `/` both come back as `id + "_"`.
   */
  lemma RecoverStoredName(id: seq<byte>, filename: seq<byte>)
    ensures RecoverFilename(id, StoredName(id, filename))
         == if filename == [] || filename == [Slash] then id + [Underscore] else filename
  {
    if filename == [Slash] {
      RecoverDegenerate(id, id + [Underscore]);
    } else if filename == [] {
      RecoverDegenerate(id, CompositeName(id, []));
    } else {
      RecoverCompositeName(id, filename);
    }
  }

  /**
   * Because identifiers never hold the separator, a composite name
   * determines both its identifier and its file name.
   */
  lemma {:induction false} CompositeNameInjective(id1: seq<byte>, fn1: seq<byte>, id2: seq<byte>, fn2: seq<byte>)
    requires Underscore !in id1 && Underscore !in id2
    requires CompositeName(id1, fn1) == CompositeName(id2, fn2)
    ensures id1 == id2 && fn1 == fn2
  {
    var name := CompositeName(id1, fn1);
    // the first separator in the name sits right after the identifier
    assert forall i :: 0 <= i < |id1| ==> name[i] == id1[i] != Underscore;
    assert forall i :: 0 <= i < |id2| ==> name[i] == id2[i] != Underscore;
    assert name[|id1|] == Underscore && name[|id2|] == Underscore;
    assert id1 == name[..|id1|] == id2;
    assert fn1 == name[|id1| + 1..] == fn2;
  }

  /**
   * The match is on the identifier as a prefix, not on `id + "_"`: any
   * shorter prefix `p` of a stored identifier also matches the stored
   * name, so a download of a non-empty `p` serves it unless an earlier
   * file in the enumeration also starts with `p`. The file name reported
   * for it is then the identifier without its first `|p| + 1` bytes, the
   * separator and the file name (for the file name `/`, without the `/`).
   */
  lemma ShortPrefixMatch(id: seq<byte>, filename: seq<byte>, p: seq<byte>)
    requires HasPrefix(id, p) && |p| < |id|
    ensures HasPrefix(CompositeName(id, filename), p)
    ensures RecoverFilename(p, CompositeName(id, filename)) == id[|p| + 1..] + [Underscore] + filename
    ensures HasPrefix(StoredName(id, filename), p)
    ensures RecoverFilename(p, StoredName(id, filename))
         == id[|p| + 1..] + [Underscore] + (if filename == [Slash] then [] else filename)
  {
    var name := CompositeName(id, filename);
    assert name[..|p|] == id[..|p|];
    assert name[|p| + 1..] == id[|p| + 1..] + [Underscore] + filename;
    var stored := id + [Underscore];
    assert stored[..|p|] == id[..|p|];
    assert stored[|p| + 1..] == id[|p| + 1..] + [Underscore];
  }
}
