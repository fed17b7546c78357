/**
  `search_templates`: walk the template folder and keep the path of every
  `.yaml` file whose lower-cased content contains the lower-cased term. The
  directory walk and the file reads are abstracted as the sequence of
  directories the walk yields, each with its files' names and contents.
 */
module Scanner {
  import opened Text
  import opened Paths

  /** A file the walk lists, with the text a read of it returns. */
  datatype FileRecord = FileRecord(name: string, content: string)

  /** One `(root, dirs, files)` triple of the walk; the sub-directory names only steer the walk. */
  datatype WalkDir = WalkDir(root: string, files: seq<FileRecord>)

  /** A walked file together with the directory it was listed in. */
  datatype WalkedFile = WalkedFile(dir: string, name: string, content: string)

  const Extension: string := ".yaml"

  /** The test applied to each walked file. */
  predicate Matches(term: string, f: WalkedFile)
    ensures Matches(term, f) <==>
              EndsWith(f.name, Extension) && exists i :: OccursAt(Lower(f.content), Lower(term), i)
  {
    ContainsIffOccurs(Lower(f.content), Lower(term));
    EndsWith(f.name, Extension) && Contains(Lower(f.content), Lower(term))
  }

  function PathOf(f: WalkedFile): string {
    PathJoin(f.dir, f.name)
  }

  /** The files of one directory, in listing order. */
  function Entries(d: WalkDir): (fs: seq<WalkedFile>)
    ensures |fs| == |d.files|
    ensures forall k :: 0 <= k < |fs| ==>
              fs[k] == WalkedFile(d.root, d.files[k].name, d.files[k].content)
  {
    seq(|d.files|, k requires 0 <= k < |d.files| =>
      WalkedFile(d.root, d.files[k].name, d.files[k].content))
  }

  /** All walked files, in walk order. */
  function Flatten(walk: seq<WalkDir>): seq<WalkedFile> {
    if walk == [] then []
    else Flatten(walk[..|walk| - 1]) + Entries(walk[|walk| - 1])
  }

  /** The files that match, in their original order. */
  function Kept(term: string, fs: seq<WalkedFile>): seq<WalkedFile> {
    if fs == [] then []
    else
      var last := fs[|fs| - 1];
      Kept(term, fs[..|fs| - 1]) + (if Matches(term, last) then [last] else [])
  }

  /** The positions of the matching files, in increasing order. */
  function MatchIndices(term: string, fs: seq<WalkedFile>): seq<nat> {
    if fs == [] then []
    else
      MatchIndices(term, fs[..|fs| - 1]) +
      (if Matches(term, fs[|fs| - 1]) then [|fs| - 1] else [])
  }

  /** The path of every file, position by position. */
  function PathsOf(fs: seq<WalkedFile>): (ps: seq<string>)
    ensures |ps| == |fs|
    ensures forall k :: 0 <= k < |fs| ==> ps[k] == PathOf(fs[k])
  {
    if fs == [] then [] else PathsOf(fs[..|fs| - 1]) + [PathOf(fs[|fs| - 1])]
  }

  /** What `search_templates(term, folder)` returns for the given walk. */
  function Search(term: string, walk: seq<WalkDir>): (r: seq<string>)
    ensures var fs := Flatten(walk); var ix := MatchIndices(term, fs);
      |r| == |ix| &&
      forall k :: 0 <= k < |ix| ==> ix[k] < |fs| && Matches(term, fs[ix[k]]) && r[k] == PathOf(fs[ix[k]])
  {
    KeptAtMatchIndices(term, Flatten(walk));
    PathsOf(Kept(term, Flatten(walk)))
  }

  /** The search as the source runs it: a loop over directories, and inside it a loop over files. */
  method SearchTemplates(term: string, walk: seq<WalkDir>) returns (results: seq<string>)
    ensures results == Search(term, walk)
  {
    results := [];
    ghost var seen: seq<WalkedFile> := [];
    var i := 0;
    while i < |walk|
      invariant 0 <= i <= |walk|
      invariant seen == Flatten(walk[..i])
      invariant results == PathsOf(Kept(term, seen))
    {
      results := ScanDir(term, walk[i], seen, results);
      seen := seen + Entries(walk[i]);
      FlattenSnoc(walk, i);
      i := i + 1;
    }
    assert walk[..i] == walk;
  }

  /**
    The inner loop over one directory's files: it appends to `acc`, the
    paths kept from the files `seen` before, the paths this directory adds.
   */
  method ScanDir(term: string, d: WalkDir, ghost seen: seq<WalkedFile>, acc: seq<string>) returns (results: seq<string>)
    requires acc == PathsOf(Kept(term, seen))
    ensures results == PathsOf(Kept(term, seen + Entries(d)))
  {
    results := acc;
    ghost var done := seen;
    var j := 0;
    assert Entries(d)[..0] == [];
    while j < |d.files|
      invariant 0 <= j <= |d.files|
      invariant done == seen + Entries(d)[..j]
      invariant results == PathsOf(Kept(term, done))
    {
      var file := d.files[j];
      KeptStep(term, done, d.root, file);
      if EndsWith(file.name, Extension) {
        var filePath := PathJoin(d.root, file.name);
        var content := file.content;
        if Contains(Lower(content), Lower(term)) {
          results := results + [filePath];
        }
      }
      EntriesSnoc(seen, d, j);
      done := done + [WalkedFile(d.root, file.name, file.content)];
      j := j + 1;
    }
    assert Entries(d)[..j] == Entries(d);
  }

  /** One step of the inner loop: the file either adds its joined path or adds nothing. */
  lemma KeptStep(term: string, fs: seq<WalkedFile>, root: string, f: FileRecord)
    ensures PathsOf(Kept(term, fs + [WalkedFile(root, f.name, f.content)])) ==
            PathsOf(Kept(term, fs)) +
            (if EndsWith(f.name, Extension) && Contains(Lower(f.content), Lower(term)) then [PathJoin(root, f.name)] else [])
  {
    assert (fs + [WalkedFile(root, f.name, f.content)])[..|fs|] == fs;
  }

  /** The files seen before a directory, then its first `j + 1` files. */
  lemma EntriesSnoc(seen: seq<WalkedFile>, d: WalkDir, j: nat)
    requires j < |d.files|
    ensures seen + Entries(d)[..j + 1] ==
            (seen + Entries(d)[..j]) + [WalkedFile(d.root, d.files[j].name, d.files[j].content)]
  {
    var es := Entries(d);
    assert es[..j + 1] == es[..j] + [es[j]];
  }

  lemma FlattenSnoc(walk: seq<WalkDir>, i: nat)
    requires i < |walk|
    ensures Flatten(walk[..i + 1]) == Flatten(walk[..i]) + Entries(walk[i])
  {
    assert walk[..i + 1][..i] == walk[..i];
  }

  /** The k-th kept file is the file at the k-th match position. */
  lemma {:induction false} KeptAtIndices(term: string, fs: seq<WalkedFile>)
    ensures |MatchIndices(term, fs)| == |Kept(term, fs)|
    ensures forall k :: 0 <= k < |MatchIndices(term, fs)| ==>
              MatchIndices(term, fs)[k] < |fs| && Kept(term, fs)[k] == fs[MatchIndices(term, fs)[k]]
  {
    if fs != [] {
      var init := fs[..|fs| - 1];
      KeptAtIndices(term, init);
      var ix, ix0 := MatchIndices(term, fs), MatchIndices(term, init);
      var kept, kept0 := Kept(term, fs), Kept(term, init);
      assert forall k :: 0 <= k < |ix0| ==> ix[k] == ix0[k] && kept[k] == kept0[k] && fs[ix0[k]] == init[ix0[k]];
    }
  }

  /** The match positions increase strictly, so no file is kept twice. */
  lemma {:induction false} MatchIndicesIncrease(term: string, fs: seq<WalkedFile>)
    ensures forall k :: 0 <= k < |MatchIndices(term, fs)| ==> MatchIndices(term, fs)[k] < |fs|
    ensures forall k1, k2 :: 0 <= k1 < k2 < |MatchIndices(term, fs)| ==>
              MatchIndices(term, fs)[k1] < MatchIndices(term, fs)[k2]
  {
    if fs != [] {
      var init := fs[..|fs| - 1];
      MatchIndicesIncrease(term, init);
      var ix, ix0 := MatchIndices(term, fs), MatchIndices(term, init);
      assert forall k :: 0 <= k < |ix0| ==> ix[k] == ix0[k];
    }
  }

  /** A position is a match position exactly when its file matches. */
  lemma {:induction false} MatchIndicesIff(term: string, fs: seq<WalkedFile>)
    ensures forall j :: 0 <= j < |fs| ==> (j in MatchIndices(term, fs) <==> Matches(term, fs[j]))
  {
    if fs != [] {
      var init := fs[..|fs| - 1];
      MatchIndicesIff(term, init);
      MatchIndicesIncrease(term, init);
      var ix, ix0 := MatchIndices(term, fs), MatchIndices(term, init);
      forall j | 0 <= j < |fs|
        ensures j in ix <==> Matches(term, fs[j])
      {
        if j < |init| {
          assert fs[j] == init[j];
          assert j in ix <==> j in ix0;
        } else {
          assert |fs| - 1 !in ix0;
        }
      }
    }
  }

  /**
    The kept files are exactly the matching ones, taken in their order: the
    k-th kept file sits at position `MatchIndices[k]`, those positions
    increase strictly (so no file is kept twice), and a position is among
    them exactly when its file matches.
   */
  lemma KeptAtMatchIndices(term: string, fs: seq<WalkedFile>)
    ensures |MatchIndices(term, fs)| == |Kept(term, fs)|
    ensures forall k :: 0 <= k < |MatchIndices(term, fs)| ==>
              MatchIndices(term, fs)[k] < |fs| && Kept(term, fs)[k] == fs[MatchIndices(term, fs)[k]]
    ensures forall k1, k2 :: 0 <= k1 < k2 < |MatchIndices(term, fs)| ==>
              MatchIndices(term, fs)[k1] < MatchIndices(term, fs)[k2]
    ensures forall j :: 0 <= j < |fs| ==> (j in MatchIndices(term, fs) <==> Matches(term, fs[j]))
  {
    KeptAtIndices(term, fs);
    MatchIndicesIncrease(term, fs);
    MatchIndicesIff(term, fs);
  }

  /** The search result, stated over the walked files. */
  lemma SearchAtMatchIndices(term: string, walk: seq<WalkDir>)
    ensures var fs := Flatten(walk); var ix := MatchIndices(term, fs);
      |Search(term, walk)| == |ix| &&
      (forall k :: 0 <= k < |ix| ==> ix[k] < |fs| && Search(term, walk)[k] == PathOf(fs[ix[k]])) &&
      (forall k1, k2 :: 0 <= k1 < k2 < |ix| ==> ix[k1] < ix[k2]) &&
      (forall j :: 0 <= j < |fs| ==> (j in ix <==> Matches(term, fs[j])))
  {
    KeptAtMatchIndices(term, Flatten(walk));
  }

  /** Each returned path ends in `.yaml`; no file with another name is ever returned. */
  lemma OnlyYamlReturned(term: string, walk: seq<WalkDir>)
    ensures forall k :: 0 <= k < |Search(term, walk)| ==> EndsWith(Search(term, walk)[k], Extension)
    ensures forall j :: 0 <= j < |Flatten(walk)| && !EndsWith(Flatten(walk)[j].name, Extension) ==>
              j !in MatchIndices(term, Flatten(walk))
  {
    var fs := Flatten(walk);
    SearchAtMatchIndices(term, walk);
    forall k | 0 <= k < |Search(term, walk)| ensures EndsWith(Search(term, walk)[k], Extension) {
      var f := fs[MatchIndices(term, fs)[k]];
      EndsWithTrans(PathOf(f), f.name, Extension);
    }
  }

  /** With the empty term every `.yaml` file is returned. */
  lemma EmptyTermKeepsEveryYaml(walk: seq<WalkDir>)
    ensures forall j :: 0 <= j < |Flatten(walk)| ==>
              (j in MatchIndices("", Flatten(walk)) <==> EndsWith(Flatten(walk)[j].name, Extension))
  {
    KeptAtMatchIndices("", Flatten(walk));
    forall j | 0 <= j < |Flatten(walk)| ensures Matches("", Flatten(walk)[j]) == EndsWith(Flatten(walk)[j].name, Extension) {
      ContainsEmpty(Lower(Flatten(walk)[j].content));
    }
  }

  /** The filter only sees the lower-cased term. */
  lemma {:induction false} KeptSameLowerTerm(a: string, b: string, fs: seq<WalkedFile>)
    requires Lower(a) == Lower(b)
    ensures Kept(a, fs) == Kept(b, fs)
  {
    if fs != [] {
      KeptSameLowerTerm(a, b, fs[..|fs| - 1]);
    }
  }

  /** Every case variant of the term gives the same results. */
  lemma SearchCaseInsensitive(a: string, b: string, walk: seq<WalkDir>)
    requires CaseVariants(a, b)
    ensures Search(a, walk) == Search(b, walk)
  {
    CaseVariantsIffSameLower(a, b);
    KeptSameLowerTerm(a, b, Flatten(walk));
  }

  /** Lower-casing the term before the call changes nothing. */
  lemma SearchLoweredTerm(term: string, walk: seq<WalkDir>)
    ensures Search(Lower(term), walk) == Search(term, walk)
  {
    LowerIdempotent(term);
    KeptSameLowerTerm(Lower(term), term, Flatten(walk));
  }

  /**
    A folder with `a/x.yaml` holding "token123", `b/y.yaml` holding
    "TOKEN123" and `b/z.txt` holding "token123": searching "token123" returns
    the two `.yaml` paths in walk order and not the `.txt` file.
   */
  const TokenWalk: seq<WalkDir> := [
    WalkDir("t", []),
    WalkDir("t/a", [FileRecord("x.yaml", "id: token123")]),
    WalkDir("t/b", [FileRecord("y.yaml", "TOKEN123"), FileRecord("z.txt", "token123")])]

  lemma TokenWalkFiles()
    ensures Flatten(TokenWalk) == [
              WalkedFile("t/a", "x.yaml", "id: token123"),
              WalkedFile("t/b", "y.yaml", "TOKEN123"),
              WalkedFile("t/b", "z.txt", "token123")]
  {
    var walk := TokenWalk;
    assert walk[..3] == walk;
    FlattenSnoc(walk, 0);
    FlattenSnoc(walk, 1);
    FlattenSnoc(walk, 2);
  }

  lemma TokenLowered()
    ensures Lower("token123") == "token123"
    ensures Lower("TOKEN123") == "token123"
    ensures Lower("id: token123") == "id: token123"
  {
  }

  lemma TokenFound()
    ensures Contains("id: token123", "token123")
  {
    assert "id: token123"[4..12] == "token123";
    ContainsIffOccurs("id: token123", "token123");
    assert OccursAt("id: token123", "token123", 4);
  }

  lemma TokenWalkMatches()
    ensures Matches("token123", WalkedFile("t/a", "x.yaml", "id: token123"))
    ensures Matches("token123", WalkedFile("t/b", "y.yaml", "TOKEN123"))
    ensures !Matches("token123", WalkedFile("t/b", "z.txt", "token123"))
  {
    TokenLowered();
    TokenFound();
  }

  /** Three files of which the first two match: the first two are kept. */
  lemma KeptFirstTwo(term: string, x: WalkedFile, y: WalkedFile, z: WalkedFile)
    requires Matches(term, x) && Matches(term, y) && !Matches(term, z)
    ensures Kept(term, [x, y, z]) == [x, y]
  {
    assert [x, y, z][..2] == [x, y];
    assert [x, y][..1] == [x];
    assert [x][..0] == [];
    assert Kept(term, [x]) == [x];
    assert Kept(term, [x, y]) == [x, y];
  }

  lemma TokenPaths()
    ensures PathOf(WalkedFile("t/a", "x.yaml", "id: token123")) == "t/a/x.yaml"
    ensures PathOf(WalkedFile("t/b", "y.yaml", "TOKEN123")) == "t/b/y.yaml"
  {
    assert "t/a" + [Sep] + "x.yaml" == "t/a/x.yaml";
    assert "t/b" + [Sep] + "y.yaml" == "t/b/y.yaml";
  }

  lemma PathsOfTwo(x: WalkedFile, y: WalkedFile)
    ensures PathsOf([x, y]) == [PathOf(x), PathOf(y)]
  {
  }

  lemma TokenExample()
    ensures Search("token123", TokenWalk) == ["t/a/x.yaml", "t/b/y.yaml"]
  {
    var x := WalkedFile("t/a", "x.yaml", "id: token123");
    var y := WalkedFile("t/b", "y.yaml", "TOKEN123");
    var z := WalkedFile("t/b", "z.txt", "token123");
    TokenWalkFiles();
    TokenWalkMatches();
    KeptFirstTwo("token123", x, y, z);
    TokenPaths();
    PathsOfTwo(x, y);
  }
}
