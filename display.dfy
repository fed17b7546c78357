/**
  `display_results`: one numbered line per result. Each line indents the
  path by one space per separator, then shows the directory part followed by
  a separator, then the file name. The colour codes around the two parts are
  terminal styling and are not part of the line record.
 */
module Display {
  import opened Text
  import opened Paths

  /** The pieces of one printed line `"{number}. {indent}{prefix}{fileName}"`. */
  datatype Line = Line(number: nat, indent: string, prefix: string, fileName: string)

  function Spaces(n: nat): (r: string)
    ensures |r| == n
    ensures forall k :: 0 <= k < n ==> r[k] == ' '
  {
    seq(n, _ => ' ')
  }

  /** What a line shows of `path`: the path itself when it has a directory part, else a lone separator before it. */
  ghost predicate Shows(l: Line, path: string) {
    if Count(path) > 0 then l.prefix + l.fileName == path
    else l.prefix == [Sep] && l.fileName == path
  }

  /** The line printed for `path` as result number `number`. */
  function FormatLine(number: nat, path: string): (l: Line)
    ensures l.number == number
    ensures |l.indent| == Count(path)
    ensures forall k :: 0 <= k < |l.indent| ==> l.indent[k] == ' '
    ensures Sep !in l.fileName && EndsWith(path, l.fileName)
    ensures |l.prefix| > 0 && l.prefix[|l.prefix| - 1] == Sep
    ensures Shows(l, path)
  {
    var components := Split(path);
    var n := |components|;
    var fileName := components[n - 1];
    var prefix := Join(components[..n - 1]) + [Sep];
    JoinSplit(path);
    var l := Line(number, Spaces(n - 1), prefix, fileName);
    if n >= 2 then
      JoinLast(components);
      l
    else
      l
  }

  /** The loop over `enumerate(results, 1)`. */
  method DisplayResults(results: seq<string>) returns (lines: seq<Line>)
    ensures |lines| == |results|
    ensures forall i :: 0 <= i < |results| ==> lines[i] == FormatLine(i + 1, results[i])
    ensures forall i :: 0 <= i < |results| ==> lines[i].number == i + 1 && Shows(lines[i], results[i])
  {
    lines := [];
    var i := 0;
    while i < |results|
      invariant 0 <= i <= |results|
      invariant |lines| == i
      invariant forall k :: 0 <= k < i ==> lines[k] == FormatLine(k + 1, results[k])
    {
      lines := lines + [FormatLine(i + 1, results[i])];
      i := i + 1;
    }
    forall i | 0 <= i < |results|
      ensures lines[i].number == i + 1 && Shows(lines[i], results[i])
    {
      assert lines[i] == FormatLine(i + 1, results[i]);
    }
  }
}
