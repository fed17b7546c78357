/**
  POSIX path handling as the search and the result list use it: the
  separator `os.sep`, `os.path.join(root, file)`, `path.split(os.sep)` and
  `os.sep.join(components)`.
 */
module Paths {
  import opened Text

  /** `os.sep` on a POSIX system. */
  const Sep: char := '/'

  /**
    `os.path.join(dir, name)`: an absolute `name` replaces `dir`; an empty
    `dir` or one ending in the separator is extended directly; otherwise a
    separator is put between the two.
   */
  function PathJoin(dir: string, name: string): (r: string)
    ensures EndsWith(r, name)
    ensures |name| > 0 && name[0] == Sep ==> r == name
    ensures !(|name| > 0 && name[0] == Sep) ==>
              (r == dir + name || r == dir + [Sep] + name) &&
              (r == dir + name <==> dir == [] || dir[|dir| - 1] == Sep)
  {
    if |name| > 0 && name[0] == Sep then name
    else if dir == [] || dir[|dir| - 1] == Sep then dir + name
    else dir + [Sep] + name
  }

  /** Number of separators in `s`. */
  function Count(s: string): nat {
    if s == [] then 0 else (if s[0] == Sep then 1 else 0) + Count(s[1..])
  }

  /**
    `s.split(os.sep)`: the pieces between separators, empty pieces included;
    there is always at least one.
   */
  function Split(s: string): (parts: seq<string>)
    ensures |parts| == Count(s) + 1
    ensures forall k :: 0 <= k < |parts| ==> Sep !in parts[k]
  {
    if s == [] then [[]]
    else
      var rest := Split(s[1..]);
      if s[0] == Sep then [[]] + rest
      else [[s[0]] + rest[0]] + rest[1..]
  }

  /** `os.sep.join(parts)`. */
  function Join(parts: seq<string>): (r: string)
    ensures |parts| == 1 ==> r == parts[0]
    ensures Count(r) >= |parts| - 1
  {
    if |parts| == 0 then []
    else if |parts| == 1 then parts[0]
    else
      CountAppend(parts[0] + [Sep], Join(parts[1..]));
      CountAppend(parts[0], [Sep]);
      parts[0] + [Sep] + Join(parts[1..])
  }

  lemma {:induction false} CountAppend(a: string, b: string)
    ensures Count(a + b) == Count(a) + Count(b)
  {
    if a != [] {
      assert (a + b)[1..] == a[1..] + b;
      CountAppend(a[1..], b);
    } else {
      assert a + b == b;
    }
  }

  /** Joining the split pieces gives back the original string. */
  lemma {:induction false} JoinSplit(s: string)
    ensures Join(Split(s)) == s
  {
    if s != [] {
      var rest := Split(s[1..]);
      JoinSplit(s[1..]);
      if s[0] == Sep {
        assert Split(s)[1..] == rest;
        assert s == [] + [Sep] + s[1..];
      } else {
        var parts := Split(s);
        assert parts[1..] == rest[1..];
        if |rest| == 1 {
          assert s == [s[0]] + s[1..];
        } else {
          assert rest == [rest[0]] + rest[1..];
          assert Join(rest) == rest[0] + [Sep] + Join(rest[1..]);
          assert s == [s[0]] + s[1..];
          assert Join(parts) == ([s[0]] + rest[0]) + [Sep] + Join(rest[1..]);
        }
      }
    }
  }

  /** Splitting a join of separator-free pieces gives back the pieces. */
  lemma {:induction false} SplitJoin(parts: seq<string>)
    requires |parts| >= 1
    requires forall k :: 0 <= k < |parts| ==> Sep !in parts[k]
    ensures Split(Join(parts)) == parts
    decreases |parts|, |parts[0]|
  {
    if |parts| == 1 {
      SplitNoSep(parts[0]);
    } else if parts[0] == [] {
      var tail := parts[1..];
      SplitJoin(tail);
      var j := Join(parts);
      assert j == [Sep] + Join(tail);
      assert j[1..] == Join(tail);
      assert Split(j) == [[]] + tail;
      assert parts == [[]] + tail;
    } else {
      var c := parts[0][0];
      var shorter := [parts[0][1..]] + parts[1..];
      assert shorter[0] == parts[0][1..] && shorter[1..] == parts[1..];
      assert forall k :: 0 <= k < |shorter| ==> Sep !in shorter[k] by {
        forall k | 0 <= k < |shorter| ensures Sep !in shorter[k] {
          if k == 0 {
            assert parts[0] == [c] + parts[0][1..];
          }
        }
      }
      SplitJoin(shorter);
      var j := Join(parts);
      assert parts[0] == [c] + parts[0][1..];
      assert Join(shorter) == parts[0][1..] + [Sep] + Join(parts[1..]);
      assert j == [c] + Join(shorter);
      assert j[1..] == Join(shorter);
      assert c != Sep;
      assert Split(j) == [[c] + shorter[0]] + shorter[1..];
    }
  }

  lemma {:induction false} SplitNoSep(s: string)
    requires Sep !in s
    ensures Split(s) == [s]
  {
    if s != [] {
      SplitNoSep(s[1..]);
      assert s == [s[0]] + s[1..];
    }
  }

  /** With two or more pieces, the join ends in a separator and the last piece. */
  lemma {:induction false} JoinLast(parts: seq<string>)
    requires |parts| >= 2
    ensures Join(parts) == Join(parts[..|parts| - 1]) + [Sep] + parts[|parts| - 1]
    decreases |parts|
  {
    if |parts| > 2 {
      JoinLast(parts[1..]);
      assert parts[1..][..|parts| - 2] == parts[..|parts| - 1][1..];
    }
  }
}
