/**
 * ZipPackage: the bookkeeping around a read-only ZIP archive. The archive
 * itself is abstracted as its ordered list of entries (name and size) and a
 * read oracle that either yields an entry's bytes or fails.
 */
module Zip {
  import opened JsValues

  type Byte = bv8

  /** One ZipInfo of the archive's infolist(): an entry's name and uncompressed size. */
  datatype ZipInfo = ZipInfo(filename: string, fileSize: nat)

  /** What ZipFile.read does for a name: yield bytes, raise zlib.error, or raise something else. */
  datatype Fetch = Data(bytes: seq<Byte>) | DecompressError | OtherError

  /** The metadata record package_contents keeps for one file. */
  datatype FileDoc = FileDoc(name: string, size: nat, nameLower: string, extension: string)

  /** A failed read: the zlib.error re-raised after blacklisting, or any other error passed through. */
  datatype ReadError = Corrupt | Failed

  datatype ReadResult = Ok(bytes: seq<Byte>) | Err(error: ReadError)

  /** Lower-casing of one character, ASCII only. */
  function LowerChar(c: char): char
  {
    if 'A' <= c <= 'Z' then (c as int - 'A' as int + 'a' as int) as char else c
  }

  /** str.lower(), ASCII only. */
  function Lower(s: string): string
  {
    seq(|s|, i requires 0 <= i < |s| => LowerChar(s[i]))
  }

  /**
   * r is the text after the last '.' of s, or all of s when it has no '.':
   * a dot-free suffix of s that is all of s or follows a '.'.
   */
  predicate IsLastSegment(s: string, r: string)
  {
    && |r| <= |s| && r == s[|s| - |r|..]
    && '.' !in r
    && (|r| < |s| ==> s[|s| - |r| - 1] == '.')
  }

  /** s.split(".")[-1]. */
  function LastSegment(s: string): (r: string)
    ensures IsLastSegment(s, r)
  {
    if s == [] then []
    else if s[|s| - 1] == '.' then []
    else LastSegment(s[..|s| - 1]) + [s[|s| - 1]]
  }

  /** Lower-casing and taking the last '.'-separated segment commute. */
  lemma {:induction false} LowerLastSegment(s: string)
    ensures LastSegment(Lower(s)) == Lower(LastSegment(s))
  {
    if s != [] {
      var init := s[..|s| - 1];
      assert Lower(s)[..|s| - 1] == Lower(init);
      assert LowerChar(s[|s| - 1]) == '.' <==> s[|s| - 1] == '.';
      if s[|s| - 1] != '.' {
        LowerLastSegment(init);
        assert Lower(LastSegment(init) + [s[|s| - 1]]) == Lower(LastSegment(init)) + [LowerChar(s[|s| - 1])];
      }
    }
  }

  /** namelist(): the entry names in archive order. */
  function NameList(infos: seq<ZipInfo>): (names: seq<string>)
    ensures |names| == |infos|
    ensures forall i :: 0 <= i < |infos| ==> names[i] == infos[i].filename
  {
    seq(|infos|, i requires 0 <= i < |infos| => infos[i].filename)
  }

  /** The names iteration yields: the archive's names in order, without the broken ones. */
  function Visible(names: seq<string>, broken: set<string>): (visible: seq<string>)
  {
    if names == [] then []
    else
      var last := names[|names| - 1];
      Visible(names[..|names| - 1], broken) + (if last in broken then [] else [last])
  }

  /** A name is visible exactly when the archive lists it and it is not broken. */
  lemma {:induction false} VisibleMembers(names: seq<string>, broken: set<string>, x: string)
    ensures x in Visible(names, broken) <==> x in names && x !in broken
  {
    if names != [] {
      var init := names[..|names| - 1];
      VisibleMembers(init, broken, x);
      assert names == init + [names[|names| - 1]];
    }
  }

  /**
   * Blacklisting one more name removes exactly its occurrences from the
   * iteration and keeps every other name where it was.
   */
  lemma {:induction false} VisibleAfterBreak(names: seq<string>, broken: set<string>, x: string)
    ensures Visible(names, broken + {x}) == Visible(Visible(names, broken), {x})
  {
    if names != [] {
      var init := names[..|names| - 1];
      var last := names[|names| - 1];
      VisibleAfterBreak(init, broken, x);
      var v := Visible(init, broken);
      var tail := if last in broken then [] else [last];
      VisibleConcat(v, tail, {x});
    }
  }

  lemma {:induction false} VisibleConcat(a: seq<string>, b: seq<string>, broken: set<string>)
    requires |b| <= 1
    ensures Visible(a + b, broken) == Visible(a, broken) + Visible(b, broken)
  {
    if b == [] {
      assert a + b == a;
    } else {
      assert (a + b)[..|a + b| - 1] == a;
      assert b[..0] == [];
    }
  }

  /** The metadata of one entry: its name, size, lower-cased name and the extension of that. */
  function DocOf(f: ZipInfo): (doc: FileDoc)
  {
    var nameLower := Lower(f.filename);
    FileDoc(f.filename, f.fileSize, nameLower, LastSegment(nameLower))
  }

  /**
   * An entry's recorded extension is the lower-cased text after the last '.'
   * of its name: a dot-free suffix of the lower-cased name.
   */
  lemma DocOfExtension(f: ZipInfo)
    ensures DocOf(f).extension == Lower(LastSegment(f.filename))
    ensures IsLastSegment(DocOf(f).nameLower, DocOf(f).extension)
  {
    LowerLastSegment(f.filename);
  }

  /**
   * What package_contents computes: entries taken in archive order, broken ones
   * skipped, a later entry of the same name replacing an earlier one.
   */
  function ContentsOf(infos: seq<ZipInfo>, broken: set<string>): (contents: map<string, FileDoc>)
  {
    if infos == [] then map[]
    else
      var m := ContentsOf(infos[..|infos| - 1], broken);
      var f := infos[|infos| - 1];
      if f.filename in broken then m else m[f.filename := DocOf(f)]
  }

  /** The metadata has a key exactly for each listed, unbroken name. */
  lemma {:induction false} ContentsKeys(infos: seq<ZipInfo>, broken: set<string>, k: string)
    ensures k in ContentsOf(infos, broken) <==> k in NameList(infos) && k !in broken
  {
    if infos != [] {
      var init := infos[..|infos| - 1];
      var f := infos[|infos| - 1];
      ContentsKeys(init, broken, k);
      assert NameList(infos) == NameList(init) + [f.filename];
      assert ContentsOf(infos, broken) ==
        if f.filename in broken then ContentsOf(init, broken) else ContentsOf(init, broken)[f.filename := DocOf(f)];
    }
  }

  /** Each metadata entry describes the last archive entry of that name. */
  lemma {:induction false} ContentsEntry(infos: seq<ZipInfo>, broken: set<string>, k: string)
    requires k in ContentsOf(infos, broken)
    ensures exists i :: && 0 <= i < |infos| && infos[i].filename == k
                        && ContentsOf(infos, broken)[k] == DocOf(infos[i])
                        && forall j :: i < j < |infos| ==> infos[j].filename != k
  {
    var n := |infos|;
    var init := infos[..n - 1];
    var f := infos[n - 1];
    ContentsKeys(infos, broken, k);
    assert ContentsOf(infos, broken) ==
      if f.filename in broken then ContentsOf(init, broken) else ContentsOf(init, broken)[f.filename := DocOf(f)];
    if f.filename == k {
      assert infos[n - 1].filename == k && ContentsOf(infos, broken)[k] == DocOf(infos[n - 1]);
    } else {
      ContentsEntry(init, broken, k);
      var i :| 0 <= i < |init| && init[i].filename == k
        && ContentsOf(init, broken)[k] == DocOf(init[i])
        && forall j :: i < j < |init| ==> init[j].filename != k;
      assert infos[i] == init[i];
      assert forall j :: i < j < n ==> infos[j].filename != k by {
        forall j | i < j < n ensures infos[j].filename != k {
          if j < n - 1 { assert infos[j] == init[j]; }
        }
      }
    }
  }

  /** Python's truthiness of the stored contents cache: present and non-empty. */
  predicate CacheTruthy(cache: Option<map<string, FileDoc>>)
  {
    cache.Some? && cache.value != map[]
  }

  class ZipPackage {
    const infos: seq<ZipInfo>
    const fetch: string -> Fetch
    const filename: string
    const extension: string
    var contentsCache: Option<map<string, FileDoc>>
    var brokenFiles: set<string>
    var fileCache: map<string, seq<Byte>>

    /**
     * The cache invariants: memoised bytes are what the archive yields, a
     * blacklisted name is one whose read raised zlib.error, and a stored
     * contents cache is current whenever nothing has been blacklisted.
     */
    ghost predicate Valid()
      reads this
    {
      && (forall n :: n in fileCache ==> fetch(n) == Data(fileCache[n]))
      && (forall n :: n in brokenFiles ==> fetch(n) == DecompressError)
      && (contentsCache.Some? && brokenFiles == {} ==> contentsCache.value == ContentsOf(infos, {}))
    }

    /**
     * __init__ on an opened archive; `name` is the optional display name, and
     * `name or package` falls back to the package path when it is None or empty.
     */
    constructor (package: string, name: Option<string>, infos: seq<ZipInfo>, fetch: string -> Fetch)
      ensures Valid()
      ensures this.infos == infos
      ensures filename == if name.Some? && name.value != "" then name.value else package
      ensures extension == LastSegment(filename)
      ensures contentsCache == None && brokenFiles == {} && fileCache == map[]
    {
      this.infos := infos;
      this.fetch := fetch;
      var chosen := if name.Some? && name.value != "" then name.value else package;
      filename := chosen;
      extension := LastSegment(chosen);
      contentsCache := None;
      brokenFiles := {};
      fileCache := map[];
    }

    /** __iter__: the archive's names in order, skipping blacklisted ones. */
    method Iter() returns (names: seq<string>)
      ensures names == Visible(NameList(infos), brokenFiles)
    {
      var all := NameList(infos);
      names := [];
      for i := 0 to |all|
        invariant names == Visible(all[..i], brokenFiles)
      {
        assert all[..i + 1][..i] == all[..i];
        if all[i] !in brokenFiles {
          names := names + [all[i]];
        }
      }
      assert all[..|all|] == all;
    }

    /** __contains__: false for a blacklisted name, otherwise membership in the name list. */
    function Contains(item: string): (b: bool)
      reads this
      ensures b <==> item !in brokenFiles && exists i :: 0 <= i < |infos| && infos[i].filename == item
    {
      if item in brokenFiles then false else item in NameList(infos)
    }

    /** package_contents: the cached metadata when it is usable, else recomputed and stored. */
    method PackageContents() returns (out: map<string, FileDoc>)
      requires Valid()
      modifies this
      ensures Valid()
      ensures out == ContentsOf(infos, brokenFiles)
      ensures brokenFiles == old(brokenFiles) && fileCache == old(fileCache)
      ensures CacheTruthy(old(contentsCache)) && old(brokenFiles) == {} ==>
        contentsCache == old(contentsCache) && out == old(contentsCache).value
      ensures !(CacheTruthy(old(contentsCache)) && old(brokenFiles) == {}) ==> contentsCache == Some(out)
    {
      if CacheTruthy(contentsCache) && brokenFiles == {} {
        return contentsCache.value;
      }
      var files := infos;
      var outFiles := map[];
      for i := 0 to |files|
        invariant outFiles == ContentsOf(files[..i], brokenFiles)
      {
        assert files[..i + 1][..i] == files[..i];
        var f := files[i];
        if f.filename in brokenFiles {
          continue;
        }
        var nameLower := Lower(f.filename);
        var doc := FileDoc(f.filename, f.fileSize, nameLower, LastSegment(nameLower));
        outFiles := outFiles[f.filename := doc];
      }
      assert files[..|files|] == files;
      contentsCache := Some(outFiles);
      out := outFiles;
    }

    /** info: the metadata of one file; None stands for the KeyError of a missing or broken name. */
    method Info(name: string) returns (doc: Option<FileDoc>)
      requires Valid()
      modifies this
      ensures Valid()
      ensures brokenFiles == old(brokenFiles) && fileCache == old(fileCache)
      ensures name in ContentsOf(infos, brokenFiles) ==> doc == Some(ContentsOf(infos, brokenFiles)[name])
      ensures name !in ContentsOf(infos, brokenFiles) ==> doc == None
      ensures CacheTruthy(old(contentsCache)) && old(brokenFiles) == {} ==> contentsCache == old(contentsCache)
      ensures !(CacheTruthy(old(contentsCache)) && old(brokenFiles) == {}) ==>
        contentsCache == Some(ContentsOf(infos, brokenFiles))
    {
      var contents := PackageContents();
      if name in contents {
        doc := Some(contents[name]);
      } else {
        doc := None;
      }
    }

    /**
     * read: memoised bytes when present; otherwise read the archive, memoising
     * success and blacklisting the name when decompression fails.
     */
    method Read(name: string) returns (r: ReadResult)
      requires Valid()
      modifies this
      ensures Valid()
      ensures contentsCache == old(contentsCache)
      ensures r.Ok? ==> fetch(name) == Data(r.bytes)
      ensures name in old(fileCache) ==>
        r == Ok(old(fileCache)[name]) && fileCache == old(fileCache) && brokenFiles == old(brokenFiles)
      ensures name !in old(fileCache) && fetch(name).Data? ==>
        && r == Ok(fetch(name).bytes)
        && fileCache == old(fileCache)[name := fetch(name).bytes]
        && brokenFiles == old(brokenFiles)
      ensures name !in old(fileCache) && fetch(name) == DecompressError ==>
        r == Err(Corrupt) && fileCache == old(fileCache) && brokenFiles == old(brokenFiles) + {name}
      ensures name !in old(fileCache) && fetch(name) == OtherError ==>
        r == Err(Failed) && fileCache == old(fileCache) && brokenFiles == old(brokenFiles)
    {
      if name in fileCache {
        return Ok(fileCache[name]);
      }
      var output := fetch(name);
      match output {
        case DecompressError =>
          brokenFiles := brokenFiles + {name};
          r := Err(Corrupt);
        case OtherError =>
          r := Err(Failed);
        case Data(bytes) =>
          fileCache := fileCache[name := bytes];
          r := Ok(bytes);
      }
    }
  }

  /** Membership and iteration agree: a name is contained exactly when iteration yields it. */
  lemma ContainsAgreesWithIter(p: ZipPackage, x: string)
    ensures p.Contains(x) <==> x in Visible(NameList(p.infos), p.brokenFiles)
  {
    VisibleMembers(NameList(p.infos), p.brokenFiles, x);
  }

  /**
   * Reading an entry and then iterating: a corrupt entry disappears from the
   * listing and from membership, while every other name keeps its place.
   */
  method ReadThenList(p: ZipPackage, name: string) returns (r: ReadResult, names: seq<string>)
    requires p.Valid()
    modifies p
    ensures p.Valid()
    ensures r == Err(Corrupt) ==> name !in names && !p.Contains(name)
    ensures r == Err(Corrupt) ==> names == Visible(Visible(NameList(p.infos), old(p.brokenFiles)), {name})
    ensures r != Err(Corrupt) ==> names == Visible(NameList(p.infos), old(p.brokenFiles))
  {
    r := p.Read(name);
    names := p.Iter();
    if r == Err(Corrupt) {
      VisibleAfterBreak(NameList(p.infos), old(p.brokenFiles), name);
      VisibleMembers(NameList(p.infos), p.brokenFiles, name);
    }
  }
}
