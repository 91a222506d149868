/** The line helpers of the older `ctxp` package: a row count taken from a
    line scanner, the same splitter as lx's, and a slicer that tests the
    "nothing to cut" cases in a different order. Each agrees with its lx
    counterpart on every input. */
module LegacyLines {
  import opened ByteText
  import opened Lines

  const CR: Byte := '\r'

  /** The position of the first `c` in `d`. */
  function IndexOf(d: Bytes, c: Byte): (i: nat)
    requires c in d
    ensures i < |d| && d[i] == c && c !in d[..i]
  {
    if d[0] == c then 0
    else
      assert c in d[1..] by {
        var k :| 0 <= k < |d| && d[k] == c;
        assert d[1..][k - 1] == c;
      }
      var j := IndexOf(d[1..], c);
      assert d[..j + 1] == [d[0]] + d[1..][..j];
      j + 1
  }

  /** A final carriage return removed, as the line scanner does. */
  function DropCR(s: Bytes): (r: Bytes)
    ensures |s| > 0 && s[|s| - 1] == CR ==> r == s[..|s| - 1]
    ensures !(|s| > 0 && s[|s| - 1] == CR) ==> r == s
  {
    if |s| > 0 && s[|s| - 1] == CR then s[..|s| - 1] else s
  }

  /** The rows `bufio.ScanLines` hands out for `d`: each newline ends a
      row, the newline and a carriage return just before it are dropped,
      and what follows the last newline is a final row when it is not
      empty. */
  function ScanTokens(d: Bytes): seq<Bytes>
    decreases |d|
  {
    if |d| == 0 then []
    else if NL in d then
      var i := IndexOf(d, NL);
      [DropCR(d[..i])] + ScanTokens(d[i + 1..])
    else [DropCR(d)]
  }

  /** What a scanner row is made from a logical line: the text without its
      newline and without a carriage return in front of it. */
  function Chomp(l: Bytes): Bytes
  {
    DropCR(if |l| > 0 && l[|l| - 1] == NL then l[..|l| - 1] else l)
  }

  function Rows(ls: seq<Bytes>): (rs: seq<Bytes>)
    ensures |rs| == |ls|
    ensures forall i :: 0 <= i < |ls| ==> rs[i] == Chomp(ls[i])
  {
    seq(|ls|, i requires 0 <= i < |ls| => Chomp(ls[i]))
  }

  /** The scanner sees exactly the logical lines of the splitter, each
      without its line ending. */
  lemma {:induction false} ScanIsSplit(d: Bytes)
    ensures ScanTokens(d) == Rows(SplitLines(d))
    decreases |d|
  {
    if |d| > 0 {
      if NL in d {
        var i := IndexOf(d, NL);
        var l, x := d[..i + 1], d[i + 1..];
        assert d == l + x;
        assert IsLine(l) && Terminated(l) by {
          assert l[..|l| - 1] == d[..i];
        }
        assert Chomp(l) == DropCR(d[..i]) by {
          assert l[..|l| - 1] == d[..i];
        }
        ScanIsSplit(x);
        if |x| > 0 {
          SplitLinesCons(l, x);
          RowsCons(l, SplitLines(x));
        } else {
          assert d == l;
          SplitSingleLine(l);
          assert Rows([l]) == [Chomp(l)];
        }
      } else {
        assert IsLine(d) by {
          assert NL !in d[..|d| - 1];
        }
        SplitSingleLine(d);
        assert Rows([d]) == [Chomp(d)];
      }
    }
  }

  lemma RowsCons(l: Bytes, ls: seq<Bytes>)
    ensures Rows([l] + ls) == [Chomp(l)] + Rows(ls)
  {
    var a, b := Rows([l] + ls), [Chomp(l)] + Rows(ls);
    assert |a| == |b|;
    forall i | 0 <= i < |a|
      ensures a[i] == b[i]
    {
      if i > 0 {
        assert ([l] + ls)[i] == ls[i - 1];
      }
    }
  }

  /** `countLines` of ctxp: how many times the scanner yields a row. */
  method CountRows(data: Bytes) returns (n: nat)
    ensures n == |ScanTokens(data)|
    ensures n == CountLines(data)
  {
    if |data| == 0 {
      return 0;
    }
    n := 0;
    var rest := data;
    while |rest| > 0
      invariant n + |ScanTokens(rest)| == |ScanTokens(data)|
      decreases |rest|
    {
      if NL in rest {
        var i := IndexOf(rest, NL);
        rest := rest[i + 1..];
      } else {
        rest := [];
      }
      n := n + 1;
    }
    ScanIsSplit(data);
    SplitLinesSpec(data);
  }

  /** `splitLines` of ctxp. The guard for an empty split never fires:
      `bytes.SplitAfter` always yields at least one piece. */
  function LegacySplitLines(data: Bytes): (lines: seq<Bytes>)
    ensures lines == SplitLines(data)
  {
    if |data| == 0 then []
    else
      var lines := SplitAfter(data);
      if |lines| == 0 then lines
      else if |lines[|lines| - 1]| == 0 then lines[..|lines| - 1]
      else lines
  }

  /** `sliceLines` of ctxp: the "no limit" test comes before the split,
      and an empty file is caught by its row count. */
  function LegacySliceLines(data: Bytes, head: int, tail: int): Bytes
  {
    if head <= 0 && tail <= 0 then data
    else
      var lines := LegacySplitLines(data);
      if |lines| == 0 then data
      else LegacyCut(data, lines, head, tail)
  }

  /** The rest of ctxp's `sliceLines` once the data is split: the kept
      pieces gathered into one list and joined. */
  function LegacyCut(data: Bytes, lines: seq<Bytes>, head: int, tail: int): Bytes
    requires !(head <= 0 && tail <= 0)
  {
    var total := |lines|;
    if head >= total || tail >= total || (head > 0 && tail > 0 && head + tail >= total) then data
    else if head > 0 && tail > 0 then
      Concat(lines[..head] + [Ellipsis(total - head - tail)] + lines[total - tail..])
    else if head > 0 then Concat(lines[..head])
    else Concat(lines[total - tail..])
  }

  /** Joining the gathered pieces once is joining each part and laying the
      results end to end, as lx does. */
  lemma CutAgrees(data: Bytes, lines: seq<Bytes>, head: int, tail: int)
    requires !(head <= 0 && tail <= 0)
    ensures LegacyCut(data, lines, head, tail) == CutLines(data, lines, head, tail)
  {
    var total := |lines|;
    if !CoversAll(total, head, tail) && head > 0 && tail > 0 {
      JoinThree(lines[..head], Ellipsis(total - head - tail), lines[total - tail..]);
    }
  }

  lemma JoinThree(a: seq<Bytes>, e: Bytes, b: seq<Bytes>)
    ensures Concat(a + [e] + b) == Concat(a) + e + Concat(b)
  {
    ConcatAppend(a + [e], b);
    ConcatAppend(a, [e]);
    ConcatSingle(e);
  }

  /** Whatever the order of the checks, the ctxp slicer returns exactly the
      view lx's `prepareView` returns. */
  lemma SliceAgrees(data: Bytes, head: int, tail: int)
    ensures LegacySliceLines(data, head, tail) == PrepareView(data, head, tail).text
  {
    if !(head <= 0 && tail <= 0) && |data| > 0 {
      SplitLinesSpec(data);
      assert PrepareView(data, head, tail).text == CutLines(data, SplitLines(data), head, tail);
      CutAgrees(data, SplitLines(data), head, tail);
    }
  }

  /** The ctxp row count is the number of pieces the ctxp splitter makes. */
  lemma CountIsSplit(data: Bytes)
    ensures |ScanTokens(data)| == |LegacySplitLines(data)|
  {
    ScanIsSplit(data);
  }

  /** The ctxp slicer keeps the data whole in the cases lx does, and
      otherwise yields the kept lines. */
  lemma LegacySliceSpec(data: Bytes, head: int, tail: int)
    ensures |data| == 0 || CoversAll(CountLines(data), head, tail) ==> LegacySliceLines(data, head, tail) == data
    ensures |data| > 0 && !CoversAll(|SplitLines(data)|, head, tail) ==>
      SplitLines(LegacySliceLines(data, head, tail)) == KeptLines(SplitLines(data), head, tail)
  {
    SliceAgrees(data, head, tail);
    SplitLinesSpec(data);
    if |data| > 0 && !CoversAll(CountLines(data), head, tail) {
      ViewLines(data, head, tail);
    }
  }
}
