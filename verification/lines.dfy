/** Line splitting, head/tail view selection and line numbering of the
    `lx` tool (lx/lines.go). */
module Lines {
  import opened ByteText
  import opened Decimal

  // ---------------------------------------------------------------------
  // Logical lines.

  /** A logical line: non-empty, and a newline can only be its last byte. */
  predicate IsLine(l: Bytes)
  {
    |l| > 0 && NL !in l[..|l| - 1]
  }

  predicate Terminated(l: Bytes)
  {
    |l| > 0 && l[|l| - 1] == NL
  }

  /** Lines as a file is made of them: each a logical line, and all but
      the last one newline-terminated. */
  predicate WellFormed(ls: seq<Bytes>)
  {
    && (forall i :: 0 <= i < |ls| ==> IsLine(ls[i]))
    && (forall i :: 0 <= i < |ls| - 1 ==> Terminated(ls[i]))
  }

  /** `bytes.SplitAfter(d, "\n")`: cut just after every newline; the last
      piece holds what follows the last newline, possibly nothing. */
  function SplitAfter(d: Bytes): (r: seq<Bytes>)
    ensures |r| > 0
  {
    if |d| == 0 then [[]]
    else
      var rest := SplitAfter(d[1..]);
      if d[0] == NL then [[NL]] + rest
      else [[d[0]] + rest[0]] + rest[1..]
  }

  /** `splitLines`: the SplitAfter pieces without the empty piece that a
      final newline leaves behind. */
  function SplitLines(d: Bytes): seq<Bytes>
  {
    if |d| == 0 then []
    else
      var pieces := SplitAfter(d);
      if |pieces[|pieces| - 1]| == 0 then pieces[..|pieces| - 1] else pieces
  }

  /** `countLines`: the newlines, plus one for a last row without one. */
  function CountLines(d: Bytes): nat
  {
    if |d| == 0 then 0
    else Count(d, NL) + (if d[|d| - 1] != NL then 1 else 0)
  }

  /** The SplitAfter pieces put back together give the data. */
  lemma {:induction false} SplitAfterConcat(d: Bytes)
    ensures Concat(SplitAfter(d)) == d
  {
    if |d| > 0 {
      var rest := SplitAfter(d[1..]);
      SplitAfterConcat(d[1..]);
      if d[0] == NL {
        assert SplitAfter(d) == [[NL]] + rest;
        assert ([[NL]] + rest)[1..] == rest;
      } else {
        var r := [[d[0]] + rest[0]] + rest[1..];
        assert r[1..] == rest[1..];
        assert Concat(rest) == rest[0] + Concat(rest[1..]);
        assert [d[0]] + d[1..] == d;
      }
    }
  }

  /** There is one piece more than there are newlines. */
  lemma {:induction false} SplitAfterCount(d: Bytes)
    ensures |SplitAfter(d)| == Count(d, NL) + 1
  {
    if |d| > 0 {
      SplitAfterCount(d[1..]);
    }
  }

  /** Every piece but the last is a terminated line, and the last holds no
      newline. */
  lemma {:induction false} SplitAfterLines(d: Bytes)
    ensures forall i :: 0 <= i < |SplitAfter(d)| - 1 ==> IsLine(SplitAfter(d)[i]) && Terminated(SplitAfter(d)[i])
    ensures NL !in SplitAfter(d)[|SplitAfter(d)| - 1]
  {
    if |d| > 0 {
      var rest := SplitAfter(d[1..]);
      SplitAfterLines(d[1..]);
      if d[0] == NL {
        SplitAfterLinesNewline(d, rest);
      } else {
        SplitAfterLinesOther(d, rest);
      }
    }
  }

  lemma SplitAfterLinesNewline(d: Bytes, rest: seq<Bytes>)
    requires |d| > 0 && d[0] == NL && rest == SplitAfter(d[1..])
    requires forall i :: 0 <= i < |rest| - 1 ==> IsLine(rest[i]) && Terminated(rest[i])
    requires NL !in rest[|rest| - 1]
    ensures forall i :: 0 <= i < |SplitAfter(d)| - 1 ==> IsLine(SplitAfter(d)[i]) && Terminated(SplitAfter(d)[i])
    ensures NL !in SplitAfter(d)[|SplitAfter(d)| - 1]
  {
    var r := SplitAfter(d);
    assert r == [[NL]] + rest;
    assert forall i :: 1 <= i < |r| ==> r[i] == rest[i - 1];
  }

  lemma SplitAfterLinesOther(d: Bytes, rest: seq<Bytes>)
    requires |d| > 0 && d[0] != NL && rest == SplitAfter(d[1..])
    requires forall i :: 0 <= i < |rest| - 1 ==> IsLine(rest[i]) && Terminated(rest[i])
    requires NL !in rest[|rest| - 1]
    ensures forall i :: 0 <= i < |SplitAfter(d)| - 1 ==> IsLine(SplitAfter(d)[i]) && Terminated(SplitAfter(d)[i])
    ensures NL !in SplitAfter(d)[|SplitAfter(d)| - 1]
  {
    var r := SplitAfter(d);
    var first := [d[0]] + rest[0];
    assert r == [first] + rest[1..];
    forall i | 0 <= i < |r| - 1
      ensures IsLine(r[i]) && Terminated(r[i])
    {
      if i == 0 {
        PrependToLine(d[0], rest[0]);
      } else {
        assert r[i] == rest[i];
      }
    }
    if |rest| == 1 {
      PrependToLast(d[0], rest[0]);
    } else {
      assert r[|r| - 1] == rest[|rest| - 1];
    }
  }

  lemma PrependToLine(c: Byte, l: Bytes)
    requires c != NL && IsLine(l) && Terminated(l)
    ensures IsLine([c] + l) && Terminated([c] + l)
  {
    assert ([c] + l)[..|l|] == [c] + l[..|l| - 1];
  }

  lemma PrependToLast(c: Byte, l: Bytes)
    requires c != NL && NL !in l
    ensures NL !in [c] + l
  {
  }

  /** Splitting round-trips and yields well-formed lines, as many as
      `countLines` reports. */
  lemma SplitLinesSpec(d: Bytes)
    ensures Concat(SplitLines(d)) == d
    ensures WellFormed(SplitLines(d))
    ensures |SplitLines(d)| == CountLines(d)
    ensures |d| == 0 <==> |SplitLines(d)| == 0
  {
    if |d| > 0 {
      var p := SplitAfter(d);
      var n := |p|;
      SplitAfterConcat(d);
      SplitAfterCount(d);
      SplitAfterLines(d);
      ConcatLast(p);
      if |p[n - 1]| == 0 {
        DropEmptyLast(d, p);
      } else {
        assert d[|d| - 1] == p[n - 1][|p[n - 1]| - 1];
        assert NL !in p[n - 1][..|p[n - 1]| - 1];
      }
    }
  }

  lemma ConcatLast(p: seq<Bytes>)
    requires |p| > 0
    ensures Concat(p) == Concat(p[..|p| - 1]) + p[|p| - 1]
  {
    ConcatAppend(p[..|p| - 1], [p[|p| - 1]]);
    ConcatSingle(p[|p| - 1]);
    assert p == p[..|p| - 1] + [p[|p| - 1]];
  }

  /** When the data ends in a newline, SplitAfter's last piece is empty and
      the piece before it carries that newline. */
  lemma DropEmptyLast(d: Bytes, p: seq<Bytes>)
    requires |d| > 0 && p == SplitAfter(d) && |p[|p| - 1]| == 0
    requires Concat(p) == d && Concat(p) == Concat(p[..|p| - 1]) + p[|p| - 1]
    requires forall i :: 0 <= i < |p| - 1 ==> IsLine(p[i]) && Terminated(p[i])
    ensures |p| >= 2 && d[|d| - 1] == NL
  {
    var n := |p|;
    assert d == Concat(p[..n - 1]);
    assert n >= 2;
    var q := p[..n - 1];
    ConcatLast(q);
    assert q[n - 2] == p[n - 2];
    assert d[|d| - 1] == p[n - 2][|p[n - 2]| - 1];
  }

  lemma {:induction false} SplitAfterNoNewline(d: Bytes)
    requires NL !in d
    ensures SplitAfter(d) == [d]
  {
    if |d| > 0 {
      assert NL !in d[1..];
      SplitAfterNoNewline(d[1..]);
      assert [d[0]] + d[1..] == d;
    }
  }

  lemma {:induction false} SplitAfterLine(l: Bytes, x: Bytes)
    requires IsLine(l) && Terminated(l)
    ensures SplitAfter(l + x) == [l] + SplitAfter(x)
  {
    var s := l + x;
    assert s[1..] == l[1..] + x;
    if |l| == 1 {
      assert l == [NL];
    } else {
      assert l[0] != NL by { assert l[0] == l[..|l| - 1][0]; }
      assert l[1..][..|l| - 2] == l[..|l| - 1][1..];
      SplitAfterLine(l[1..], x);
      assert [l[0]] + l[1..] == l;
    }
  }

  /** A well-formed sequence of lines is exactly what splitting its
      concatenation gives back: splitting is the unique decomposition of
      the data into logical lines. */
  lemma {:induction false} SplitConcat(ls: seq<Bytes>)
    requires WellFormed(ls)
    ensures SplitLines(Concat(ls)) == ls
  {
    if |ls| == 1 {
      ConcatSingle(ls[0]);
      SplitSingleLine(ls[0]);
    } else if |ls| > 1 {
      var rest := ls[1..];
      assert WellFormed(rest) by {
        assert forall i :: 0 <= i < |rest| ==> rest[i] == ls[i + 1];
      }
      SplitConcat(rest);
      assert |Concat(rest)| > 0 by {
        assert Concat(rest) == rest[0] + Concat(rest[1..]);
      }
      SplitLinesCons(ls[0], Concat(rest));
      assert [ls[0]] + rest == ls;
    }
  }

  /** One logical line splits into itself. */
  lemma SplitSingleLine(l: Bytes)
    requires IsLine(l)
    ensures SplitLines(l) == [l]
  {
    if Terminated(l) {
      SplitAfterLine(l, []);
      assert l + [] == l;
      assert SplitAfter([]) == [[]];
    } else {
      assert l[..|l| - 1] + [l[|l| - 1]] == l;
      SplitAfterNoNewline(l);
    }
  }

  /** A terminated line in front of non-empty data is split off as the
      first line. */
  lemma SplitLinesCons(l: Bytes, x: Bytes)
    requires IsLine(l) && Terminated(l) && |x| > 0
    ensures SplitLines(l + x) == [l] + SplitLines(x)
  {
    SplitAfterLine(l, x);
    var p := SplitAfter(x);
    assert ([l] + p)[|p|] == p[|p| - 1];
    assert ([l] + p)[..|p|] == [l] + p[..|p| - 1];
  }

  // ---------------------------------------------------------------------
  // View selection.

  /** The view of a file and the row count of the whole file. */
  datatype View = View(text: Bytes, total: nat)

  /** The line that stands for the rows a head+tail view leaves out. */
  function Ellipsis(skipped: int): Bytes
  {
    "... (" + Itoa(skipped) + " rows skipped)\n"
  }

  /** Slicing would remove nothing: no limit at all, one limit alone
      reaching the row count, or both together reaching it. */
  predicate CoversAll(total: int, head: int, tail: int)
  {
    (head <= 0 && tail <= 0) || head >= total || tail >= total || (head > 0 && tail > 0 && head + tail >= total)
  }

  /** `prepareView`: the view of `data` under the head/tail limits, and
      the row count of the whole data. */
  function PrepareView(data: Bytes, head: int, tail: int): (v: View)
    ensures v.total == CountLines(data)
    ensures |data| == 0 || CoversAll(v.total, head, tail) ==> v.text == data
  {
    if |data| == 0 then View(data, 0)
    else
      SplitLinesSpec(data);
      View(CutLines(data, SplitLines(data), head, tail), |SplitLines(data)|)
  }

  /** The rest of `prepareView` once the data has been split into `lines`:
      the full data when slicing would remove nothing, else the kept head
      lines, the ellipsis line and the kept tail lines joined together. */
  function CutLines(data: Bytes, lines: seq<Bytes>, head: int, tail: int): Bytes
  {
    var total := |lines|;
    if head <= 0 && tail <= 0 then data
    else if head >= total || tail >= total || (head > 0 && tail > 0 && head + tail >= total) then data
    else if head > 0 && tail > 0 then
      var skipped := total - head - tail;
      Concat(lines[..head]) + Ellipsis(skipped) + Concat(lines[total - tail..])
    else if head > 0 then Concat(lines[..head])
    else
      // tail > 0 here: the switch in the source has no other case left
      Concat(lines[total - tail..])
  }

  /** `sliceLines`: the view alone. */
  function SliceLines(data: Bytes, head: int, tail: int): Bytes
  {
    PrepareView(data, head, tail).text
  }

  /** Reference definition of the lines a view keeps when slicing removes
      something: the first `head` lines, one ellipsis line counting the
      rows in between, and the last `tail` lines, each part present only
      when its limit is in force. */
  function KeptLines(lines: seq<Bytes>, head: int, tail: int): seq<Bytes>
    requires !CoversAll(|lines|, head, tail)
  {
    var n := |lines|;
    if head > 0 && tail > 0 then lines[..head] + [Ellipsis(n - head - tail)] + lines[n - tail..]
    else if tail <= 0 then lines[..head]
    else lines[n - tail..]
  }

  /** A view that removes something is exactly its kept lines: it splits
      back into them, and at least one row is skipped between a head and
      a tail. */
  lemma ViewLines(data: Bytes, head: int, tail: int)
    requires |data| > 0 && !CoversAll(CountLines(data), head, tail)
    ensures head > 0 && tail > 0 ==> CountLines(data) - head - tail >= 1
    ensures SplitLines(PrepareView(data, head, tail).text) == KeptLines(SplitLines(data), head, tail)
    ensures Concat(KeptLines(SplitLines(data), head, tail)) == PrepareView(data, head, tail).text
  {
    SplitLinesSpec(data);
    var lines := SplitLines(data);
    CutIsKept(data, lines, head, tail);
  }

  lemma CutIsKept(data: Bytes, lines: seq<Bytes>, head: int, tail: int)
    requires WellFormed(lines) && !CoversAll(|lines|, head, tail)
    ensures SplitLines(CutLines(data, lines, head, tail)) == KeptLines(lines, head, tail)
    ensures Concat(KeptLines(lines, head, tail)) == CutLines(data, lines, head, tail)
  {
    var n := |lines|;
    if head > 0 && tail > 0 {
      MixedLines(lines, head, tail);
    } else if tail <= 0 {
      HeadLines(lines, head);
    } else {
      TailLines(lines, tail);
    }
  }

  lemma HeadLines(lines: seq<Bytes>, head: nat)
    requires WellFormed(lines) && head <= |lines|
    ensures SplitLines(Concat(lines[..head])) == lines[..head]
  {
    WellFormedSlice(lines, 0, head);
    assert lines[..head] == lines[0..head];
    SplitConcat(lines[..head]);
  }

  lemma MixedLines(lines: seq<Bytes>, head: nat, tail: nat)
    requires WellFormed(lines) && 0 < head && 0 < tail && head + tail < |lines|
    ensures Concat(lines[..head] + [Ellipsis(|lines| - head - tail)] + lines[|lines| - tail..])
      == Concat(lines[..head]) + Ellipsis(|lines| - head - tail) + Concat(lines[|lines| - tail..])
    ensures SplitLines(Concat(lines[..head]) + Ellipsis(|lines| - head - tail) + Concat(lines[|lines| - tail..]))
      == lines[..head] + [Ellipsis(|lines| - head - tail)] + lines[|lines| - tail..]
  {
    var hs := lines[..head];
    var e := Ellipsis(|lines| - head - tail);
    var ts := lines[|lines| - tail..];
    assert Concat(hs + [e] + ts) == Concat(hs) + e + Concat(ts) by {
      ConcatAppend(hs + [e], ts);
      ConcatAppend(hs, [e]);
      ConcatSingle(e);
    }
    assert WellFormed(hs + [e] + ts) by {
      WellFormedSlice(lines, 0, head);
      assert hs == lines[0..head];
      assert WellFormed([e]) by {
        EllipsisIsLine(|lines| - head - tail);
      }
      WellFormedAppend(hs, [e]);
      WellFormedSlice(lines, |lines| - tail, |lines|);
      assert ts == lines[|lines| - tail..|lines|];
      WellFormedAppend(hs + [e], ts);
    }
    SplitConcat(hs + [e] + ts);
  }

  lemma TailLines(lines: seq<Bytes>, tail: nat)
    requires WellFormed(lines) && tail <= |lines|
    ensures SplitLines(Concat(lines[|lines| - tail..])) == lines[|lines| - tail..]
  {
    WellFormedSlice(lines, |lines| - tail, |lines|);
    assert lines[|lines| - tail..] == lines[|lines| - tail..|lines|];
    SplitConcat(lines[|lines| - tail..]);
  }

  /** A run of consecutive lines of a file is well-formed, and all of its
      lines are terminated unless the run reaches the end. */
  lemma WellFormedSlice(lines: seq<Bytes>, lo: nat, hi: nat)
    requires WellFormed(lines) && lo <= hi <= |lines|
    ensures WellFormed(lines[lo..hi])
    ensures lo < hi < |lines| ==> Terminated(lines[lo..hi][hi - lo - 1])
  {
    assert forall i :: 0 <= i < hi - lo ==> lines[lo..hi][i] == lines[lo + i];
  }

  /** Well-formed runs join into a well-formed run when the first one
      ends in a newline. */
  lemma WellFormedAppend(xs: seq<Bytes>, ys: seq<Bytes>)
    requires WellFormed(xs) && WellFormed(ys)
    requires |xs| > 0 && |ys| > 0 ==> Terminated(xs[|xs| - 1])
    ensures WellFormed(xs + ys)
  {
    forall i | 0 <= i < |xs + ys|
      ensures IsLine((xs + ys)[i]) && (i < |xs + ys| - 1 ==> Terminated((xs + ys)[i]))
    {
      if i < |xs| {
        assert (xs + ys)[i] == xs[i];
      } else {
        assert (xs + ys)[i] == ys[i - |xs|];
      }
    }
  }

  lemma EllipsisIsLine(skipped: int)
    ensures IsLine(Ellipsis(skipped)) && Terminated(Ellipsis(skipped))
  {
    var e := Ellipsis(skipped);
    var digits := Itoa(skipped);
    assert e[..|e| - 1] == "... (" + digits + " rows skipped)";
    assert forall i :: 0 <= i < |digits| ==> digits[i] != NL;
  }

  lemma {:induction false} NonEmptyLines(ls: seq<Bytes>)
    requires forall i :: 0 <= i < |ls| ==> |ls[i]| > 0
    ensures |Concat(ls)| >= |ls|
  {
    if |ls| > 0 {
      NonEmptyLines(ls[1..]);
    }
  }

  /** A view that removes something is non-empty and shorter than the
      data; a head-only view is a prefix of the data and a tail-only view
      a suffix of it. */
  lemma ViewIsCut(data: Bytes, head: int, tail: int)
    requires |data| > 0 && !CoversAll(CountLines(data), head, tail)
    ensures |PrepareView(data, head, tail).text| > 0
    ensures tail <= 0 ==> IsPrefix(PrepareView(data, head, tail).text, data) && |PrepareView(data, head, tail).text| < |data|
    ensures head <= 0 ==> IsSuffix(PrepareView(data, head, tail).text, data) && |PrepareView(data, head, tail).text| < |data|
  {
    SplitLinesSpec(data);
    var text := CutLines(data, SplitLines(data), head, tail);
    assert PrepareView(data, head, tail).text == text;
    CutIsProper(data, SplitLines(data), head, tail);
  }

  lemma CutIsProper(data: Bytes, lines: seq<Bytes>, head: int, tail: int)
    requires WellFormed(lines) && Concat(lines) == data && !CoversAll(|lines|, head, tail)
    ensures |CutLines(data, lines, head, tail)| > 0
    ensures tail <= 0 ==> IsPrefix(CutLines(data, lines, head, tail), data) && |CutLines(data, lines, head, tail)| < |data|
    ensures head <= 0 ==> IsSuffix(CutLines(data, lines, head, tail), data) && |CutLines(data, lines, head, tail)| < |data|
  {
    if head > 0 && tail > 0 {
      var e := Ellipsis(|lines| - head - tail);
      assert |CutLines(data, lines, head, tail)| >= |e|;
    } else if tail <= 0 {
      HeadIsProperPrefix(lines, head);
    } else {
      TailIsProperSuffix(lines, tail);
    }
  }

  lemma HeadIsProperPrefix(lines: seq<Bytes>, head: nat)
    requires WellFormed(lines) && 0 < head < |lines|
    ensures IsPrefix(Concat(lines[..head]), Concat(lines))
    ensures |Concat(lines[..head])| < |Concat(lines)|
    ensures |Concat(lines[..head])| > 0
  {
    assert lines == lines[..head] + lines[head..];
    ConcatAppend(lines[..head], lines[head..]);
    NonEmptyLines(lines[head..]);
    NonEmptyLines(lines[..head]);
  }

  lemma TailIsProperSuffix(lines: seq<Bytes>, tail: nat)
    requires WellFormed(lines) && 0 < tail < |lines|
    ensures IsSuffix(Concat(lines[|lines| - tail..]), Concat(lines))
    ensures |Concat(lines[|lines| - tail..])| < |Concat(lines)|
    ensures |Concat(lines[|lines| - tail..])| > 0
  {
    var cut := |lines| - tail;
    assert lines == lines[..cut] + lines[cut..];
    ConcatAppend(lines[..cut], lines[cut..]);
    NonEmptyLines(lines[..cut]);
    NonEmptyLines(lines[cut..]);
  }

  // ---------------------------------------------------------------------
  // Line numbering.

  /** The label in front of a numbered line. */
  function Label(n: int): Bytes
  {
    Itoa(n) + ": "
  }

  /** The `numberLines` closure: each line behind its label, labels
      counting up from `start`. */
  function NumberLines(ls: seq<Bytes>, start: int): Bytes
  {
    if |ls| == 0 then [] else Label(start) + ls[0] + NumberLines(ls[1..], start + 1)
  }

  /** Reference numbering: rows lo+1 .. hi of the original file, each
      behind the label of its own row number. */
  function Numbered(lines: seq<Bytes>, lo: nat, hi: nat): Bytes
    requires lo <= hi <= |lines|
    decreases hi - lo
  {
    if lo == hi then [] else Numbered(lines, lo, hi - 1) + Label(hi) + lines[hi - 1]
  }

  /** `addLineNumbers`: re-derives the original row numbers from
      `totalRows`, `head` and `tail` and numbers the view accordingly. */
  function AddLineNumbers(data: Bytes, totalRows: int, head: int, tail: int): Bytes
  {
    if |data| == 0 then data
    else NumberRows(data, SplitLines(data), totalRows, head, tail)
  }

  /** The rest of `addLineNumbers` once the data has been split into
      `lines`. */
  function NumberRows(data: Bytes, lines: seq<Bytes>, totalRows: int, head: int, tail: int): Bytes
  {
    if |lines| == 0 then data
    else if CoversAll(totalRows, head, tail) then NumberLines(lines, 1)
    else if head > 0 && tail > 0 && head + tail < totalRows then
      var h := if head > |lines| then |lines| else head;
      (if h > 0 then NumberLines(lines[..h], 1) else [])
      + (if h < |lines| then lines[h] else [])
      + (if h + 1 < |lines| then NumberLines(lines[h + 1..], totalRows - tail + 1) else [])
    else if head > 0 && tail <= 0 then NumberLines(lines, 1)
    else if tail > 0 && head <= 0 then NumberLines(lines, totalRows - tail + 1)
    else NumberLines(lines, 1)
  }

  lemma {:induction false} NumberLinesSnoc(ls: seq<Bytes>, x: Bytes, start: int)
    ensures NumberLines(ls + [x], start) == NumberLines(ls, start) + Label(start + |ls|) + x
  {
    if |ls| == 0 {
      assert ls + [x] == [x];
      assert NumberLines([x], start) == Label(start) + x + NumberLines([], start + 1);
    } else {
      var t := ls[1..];
      assert (ls + [x])[1..] == t + [x];
      NumberLinesSnoc(t, x, start + 1);
      var a, b := Label(start), ls[0];
      var c, d := NumberLines(t, start + 1), Label(start + |ls|);
      assert NumberLines(ls + [x], start) == a + b + (c + d + x);
      assert NumberLines(ls, start) == a + b + c;
      Associate(a, b, c, d, x);
    }
  }


  /** Numbering a run of original lines from the row number of its first
      line labels every line with its own row number. */
  lemma {:induction false} NumberLinesFromRow(lines: seq<Bytes>, lo: nat, hi: nat)
    requires lo <= hi <= |lines|
    ensures NumberLines(lines[lo..hi], lo + 1) == Numbered(lines, lo, hi)
    decreases hi - lo
  {
    if lo < hi {
      var front := lines[lo..hi - 1];
      var last := lines[hi - 1];
      NumberLinesFromRow(lines, lo, hi - 1);
      assert lines[lo..hi] == front + [last];
      NumberLinesSnoc(front, last, lo + 1);
      assert lo + 1 + |front| == hi;
      assert Numbered(lines, lo, hi) == Numbered(lines, lo, hi - 1) + Label(hi) + last;
    }
  }

  /** The first `head` lines numbered from 1 carry their own row numbers. */
  lemma NumberedHeadRows(lines: seq<Bytes>, head: nat)
    requires head <= |lines|
    ensures NumberLines(lines[..head], 1) == Numbered(lines, 0, head)
  {
    assert lines[..head] == lines[0..head];
    NumberLinesFromRow(lines, 0, head);
  }

  /** The last `tail` lines numbered from |lines| - tail + 1 carry their
      own row numbers. */
  lemma NumberedTailRows(lines: seq<Bytes>, tail: nat)
    requires tail <= |lines|
    ensures NumberLines(lines[|lines| - tail..], |lines| - tail + 1) == Numbered(lines, |lines| - tail, |lines|)
  {
    assert lines[|lines| - tail..] == lines[|lines| - tail..|lines|];
    NumberLinesFromRow(lines, |lines| - tail, |lines|);
  }

  /** Whenever the full-file rule holds for the row count handed in, or
      only a head limit is in force, every line of the data is labelled
      1, 2, 3, ... in order. */
  lemma NumberingFromOne(data: Bytes, totalRows: int, head: int, tail: int)
    requires |data| > 0
    requires CoversAll(totalRows, head, tail) || (head > 0 && tail <= 0)
    ensures AddLineNumbers(data, totalRows, head, tail) == Numbered(SplitLines(data), 0, |SplitLines(data)|)
  {
    var lines := SplitLines(data);
    SplitLinesSpec(data);
    NumberedHeadRows(lines, |lines|);
    assert lines[..|lines|] == lines;
  }

  /** What numbering a view is meant to show: every kept original line
      behind the label of its own row number, and the ellipsis line of a
      head+tail view as it is. */
  function ExpectedNumbering(lines: seq<Bytes>, head: int, tail: int): Bytes
  {
    var n := |lines|;
    if CoversAll(n, head, tail) then Numbered(lines, 0, n)
    else if head > 0 && tail > 0 then
      Numbered(lines, 0, head) + Ellipsis(n - head - tail) + Numbered(lines, n - tail, n)
    else if tail <= 0 then Numbered(lines, 0, head)
    else Numbered(lines, n - tail, n)
  }

  /** Numbering the kept lines of a view with the row count of the whole
      file gives every original line its own row number and leaves the
      ellipsis line as it is. In particular the clamps of the head+tail
      branch never change anything and the trailing fallback is never
      taken. */
  lemma NumberKept(data: Bytes, lines: seq<Bytes>, head: int, tail: int)
    requires !CoversAll(|lines|, head, tail)
    ensures NumberRows(data, KeptLines(lines, head, tail), |lines|, head, tail) == ExpectedNumbering(lines, head, tail)
  {
    var kept := KeptLines(lines, head, tail);
    if head > 0 && tail > 0 {
      assert NumberRows(data, kept, |lines|, head, tail)
        == Numbered(lines, 0, head) + Ellipsis(|lines| - head - tail) + Numbered(lines, |lines| - tail, |lines|) by {
        NumberKeptMixed(data, lines, head, tail, kept);
      }
    } else if tail <= 0 {
      NumberedHeadRows(lines, head);
    } else {
      NumberedTailRows(lines, tail);
    }
  }

  lemma NumberKeptMixed(data: Bytes, lines: seq<Bytes>, head: int, tail: int, kept: seq<Bytes>)
    requires !CoversAll(|lines|, head, tail) && head > 0 && tail > 0
    requires kept == lines[..head] + [Ellipsis(|lines| - head - tail)] + lines[|lines| - tail..]
    ensures NumberRows(data, kept, |lines|, head, tail)
      == Numbered(lines, 0, head) + Ellipsis(|lines| - head - tail) + Numbered(lines, |lines| - tail, |lines|)
  {
    var hs, e, ts := lines[..head], Ellipsis(|lines| - head - tail), lines[|lines| - tail..];
    var numbered := NumberRows(data, kept, |lines|, head, tail);
    assert numbered == NumberLines(hs, 1) + e + NumberLines(ts, |lines| - tail + 1) by {
      NumberRowsMixed(data, kept, hs, e, ts, |lines|, head, tail);
    }
    assert NumberLines(hs, 1) == Numbered(lines, 0, head) by {
      NumberedHeadRows(lines, head);
    }
    assert NumberLines(ts, |lines| - tail + 1) == Numbered(lines, |lines| - tail, |lines|) by {
      NumberedTailRows(lines, tail);
    }
    Rewrite3(numbered, NumberLines(hs, 1), Numbered(lines, 0, head), e,
      NumberLines(ts, |lines| - tail + 1), Numbered(lines, |lines| - tail, |lines|));
  }

  /** Replacing the outer parts of a three-part sequence by equal ones. */
  lemma Rewrite3<T>(x: seq<T>, a: seq<T>, a': seq<T>, m: seq<T>, b: seq<T>, b': seq<T>)
    requires x == a + m + b && a == a' && b == b'
    ensures x == a' + m + b'
  {
  }

  /** The head+tail branch of `addLineNumbers` on head lines, one middle
      line and tail lines: the head lines numbered from 1, the middle line
      as it is, the tail lines numbered from totalRows - tail + 1. */
  lemma NumberRowsMixed(data: Bytes, ls: seq<Bytes>, hs: seq<Bytes>, e: Bytes, ts: seq<Bytes>, totalRows: int, head: int, tail: int)
    requires !CoversAll(totalRows, head, tail) && head > 0 && tail > 0
    requires ls == hs + [e] + ts && |hs| == head && |ts| == tail
    ensures NumberRows(data, ls, totalRows, head, tail)
      == NumberLines(hs, 1) + e + NumberLines(ts, totalRows - tail + 1)
  {
    ThreeParts(hs, e, ts);
  }

  lemma Associate<T>(a: seq<T>, b: seq<T>, c: seq<T>, d: seq<T>, e: seq<T>)
    ensures a + b + (c + d + e) == (a + b + c) + d + e
  {
  }

  lemma ThreeParts<T>(a: seq<T>, x: T, b: seq<T>)
    ensures |a + [x] + b| == |a| + 1 + |b|
    ensures (a + [x] + b)[..|a|] == a && (a + [x] + b)[|a|] == x && (a + [x] + b)[|a| + 1..] == b
  {
  }

  /** Numbering the view `prepareView` produced, with the row count and
      limits it was given, labels every original line with its own row
      number and leaves the ellipsis line as it is. */
  lemma NumberedView(data: Bytes, head: int, tail: int)
    ensures |data| == 0 ==>
      AddLineNumbers(PrepareView(data, head, tail).text, PrepareView(data, head, tail).total, head, tail) == []
    ensures |data| > 0 ==>
      AddLineNumbers(PrepareView(data, head, tail).text, PrepareView(data, head, tail).total, head, tail)
        == ExpectedNumbering(SplitLines(data), head, tail)
  {
    if |data| > 0 {
      SplitLinesSpec(data);
      var lines := SplitLines(data);
      var v := PrepareView(data, head, tail);
      if CoversAll(|lines|, head, tail) {
        NumberingFromOne(data, |lines|, head, tail);
      } else {
        var kept := KeptLines(lines, head, tail);
        ViewLines(data, head, tail);
        assert |v.text| > 0 by {
          ViewIsCut(data, head, tail);
        }
        assert AddLineNumbers(v.text, v.total, head, tail) == NumberRows(v.text, kept, |lines|, head, tail);
        NumberKept(v.text, lines, head, tail);
      }
    }
  }
}
