/** The renderer of the older `ctxp` package: angle-bracket placeholders,
    only the file name and the row count substituted, the footer written as
    it is, and the view cut by the ctxp slicer. */
module LegacyRunner {
  import opened ByteText
  import opened Decimal
  import opened Replace
  import opened Lines
  import opened LegacyLines
  import opened Runner

  /** The ctxp runner: view limits and the two templates. */
  datatype CtxpRunner = CtxpRunner(head: int, tail: int, prefix: Bytes, postfix: Bytes)

  /** A ctxp placeholder: its name in angle brackets, `<filename>`. */
  function Angled(name: Bytes): Bytes
  {
    Wrapped('<', name, '>')
  }

  /** What follows the row count in the default header. */
  const HeaderRest: Bytes := " rows)" + "\n---\n" + "```\n"

  /** "<filename> (<row_count> rows)\n---\n```\n" */
  const CtxpDefaultPrefix: Bytes := Angled(PFilename) + (" (" + (Angled(PRowCount) + HeaderRest))

  /** "```\n" */
  const CtxpDefaultPostfix: Bytes := "```" + "\n"

  /** The defaults `Run` puts in for empty templates. */
  function WithDefaults(r: CtxpRunner): (d: CtxpRunner)
    ensures d.head == r.head && d.tail == r.tail
    ensures d.prefix != [] && d.postfix != []
    ensures r.prefix != [] ==> d.prefix == r.prefix
    ensures r.postfix != [] ==> d.postfix == r.postfix
    ensures r.prefix == [] ==> d.prefix == CtxpDefaultPrefix
    ensures r.postfix == [] ==> d.postfix == CtxpDefaultPostfix
  {
    r.(prefix := if r.prefix == [] then CtxpDefaultPrefix else r.prefix,
       postfix := if r.postfix == [] then CtxpDefaultPostfix else r.postfix)
  }

  /** The two replace-all passes over the header template. */
  function Header(prefix: Bytes, path: Bytes, rows: int): Bytes
  {
    ReplaceAll(ReplaceAll(prefix, Angled(PFilename), path), Angled(PRowCount), Itoa(rows))
  }

  /** The row count of the header: the scanner's rows of the whole file. */
  function RowCount(data: Bytes): nat
  {
    |ScanTokens(data)|
  }

  lemma RowCountIsLines(data: Bytes)
    ensures RowCount(data) == CountLines(data)
  {
    ScanIsSplit(data);
    SplitLinesSpec(data);
  }

  /** The output for one file: header, view, footer. */
  function Render(r: CtxpRunner, path: Bytes, data: Bytes): Bytes
  {
    Header(r.prefix, path, RowCount(data)) + LegacySliceLines(data, r.head, r.tail) + r.postfix
  }

  /** The ctxp output for a file differs from lx's only in the header and
      footer: the row count is lx's and the view is lx's view. */
  lemma RenderSpec(r: CtxpRunner, path: Bytes, data: Bytes)
    ensures Render(r, path, data)
         == Header(r.prefix, path, PrepareView(data, r.head, r.tail).total)
            + PrepareView(data, r.head, r.tail).text + r.postfix
  {
    RowCountIsLines(data);
    SliceAgrees(data, r.head, r.tail);
  }

  /** A header template without '<' comes out as written. */
  lemma HeaderWithoutAngle(prefix: Bytes, path: Bytes, rows: int)
    requires '<' !in prefix
    ensures Header(prefix, path, rows) == prefix
  {
    OpenerFreeHasNoOccurrence(prefix, Angled(PFilename), '<');
    UnchangedIffAbsent(prefix, Angled(PFilename), path);
    OpenerFreeHasNoOccurrence(prefix, Angled(PRowCount), '<');
    UnchangedIffAbsent(prefix, Angled(PRowCount), Itoa(rows));
  }

  lemma NamesDiffer()
    ensures !IsPrefix(Angled(PFilename), Angled(PRowCount)) && !IsPrefix(Angled(PRowCount), Angled(PFilename))
    ensures TokenShaped(Angled(PFilename), '<') && TokenShaped(Angled(PRowCount), '<')
  {
    assert Bare(PFilename, '<', '>') && Bare(PRowCount, '<', '>');
    WrappedNotPrefix('<', '>', PFilename, PRowCount);
    WrappedNotPrefix('<', '>', PRowCount, PFilename);
    assert Angled(PFilename)[1..] == PFilename + ">";
    assert Angled(PRowCount)[1..] == PRowCount + ">";
  }

  /** The default header of a file whose path contains no '<':
      "<path> (<rows> rows)", "---" and the opening fence, one per line. */
  lemma DefaultHeader(path: Bytes, rows: int)
    requires '<' !in path
    ensures Header(CtxpDefaultPrefix, path, rows) == path + (" (" + (Itoa(rows) + HeaderRest))
  {
    var f, c := Angled(PFilename), Angled(PRowCount);
    var rowsText := Itoa(rows);
    assert '<' !in HeaderRest;
    NamesDiffer();
    assert ReplaceAll(CtxpDefaultPrefix, f, path) == path + (" (" + (c + HeaderRest)) by {
      PassOverPattern(f, " (" + (c + HeaderRest), path);
      PassOverFreeText(" (", c + HeaderRest, f, path, '<');
      PassOverOtherToken(c, HeaderRest, f, path, '<');
      PassOverFreeText(HeaderRest, [], f, path, '<');
      assert HeaderRest + [] == HeaderRest;
      assert ReplaceAll([], f, path) == [];
    }
    assert ReplaceAll(path + (" (" + (c + HeaderRest)), c, rowsText) == path + (" (" + (rowsText + HeaderRest)) by {
      PassOverFreeText(path, " (" + (c + HeaderRest), c, rowsText, '<');
      PassOverFreeText(" (", c + HeaderRest, c, rowsText, '<');
      PassOverPattern(c, HeaderRest, rowsText);
      PassOverFreeText(HeaderRest, [], c, rowsText, '<');
      assert HeaderRest + [] == HeaderRest;
      assert ReplaceAll([], c, rowsText) == [];
    }
  }

  /** A file named on the command line and what reading it gives. */
  datatype CtxpFile = CtxpFile(path: Bytes, contents: Contents)

  /** One file: a read failure names the path; otherwise the output. */
  function RunFile(r: CtxpRunner, f: CtxpFile): (res: FileResult)
    ensures f.contents.ReadFailed? <==> res == Failed(ReadError(f.path))
    ensures f.contents.Contents? ==> res == Rendered(Render(r, f.path, f.contents.data))
  {
    match f.contents
    case ReadFailed => Failed(ReadError(f.path))
    case Contents(data) => Rendered(Render(r, f.path, data))
  }

  function CtxpResults(r: CtxpRunner, files: seq<CtxpFile>): (rs: seq<FileResult>)
    ensures |rs| == |files|
    ensures forall i :: 0 <= i < |files| ==> rs[i] == RunFile(r, files[i])
  {
    seq(|files|, i requires 0 <= i < |files| => RunFile(r, files[i]))
  }

  /** `Run`: the defaults first, then the files in order, stopping at the
      first one that cannot be read. */
  function Run(r: CtxpRunner, files: seq<CtxpFile>): Outcome
  {
    Collect(CtxpResults(WithDefaults(r), files))
  }

  /** A file that cannot be read stops the run; the output of the files
      before it stands, and the failure names it. */
  lemma RunStops(r: CtxpRunner, before: seq<CtxpFile>, f: CtxpFile, after: seq<CtxpFile>)
    requires forall i :: 0 <= i < |before| ==> before[i].contents.Contents?
    requires f.contents.ReadFailed?
    ensures Run(r, before + [f] + after) == Outcome(Run(r, before).out, Stopped(ReadError(f.path)))
  {
    var d := WithDefaults(r);
    var rb := CtxpResults(d, before);
    var all := CtxpResults(d, before + [f] + after);
    assert NoFailure(rb);
    assert all == rb + [RunFile(d, f)] + CtxpResults(d, after);
    CollectStops(rb, RunFile(d, f), CtxpResults(d, after));
    CollectAppend(rb, []);
  }

  /** The outputs of readable files, one per file, in input order. */
  function Texts(d: CtxpRunner, files: seq<CtxpFile>): (ts: seq<Bytes>)
    requires forall i :: 0 <= i < |files| ==> files[i].contents.Contents?
    ensures |ts| == |files|
    ensures forall i :: 0 <= i < |files| ==> ts[i] == Render(d, files[i].path, files[i].contents.data)
  {
    seq(|files|, i requires 0 <= i < |files| => Render(d, files[i].path, files[i].contents.data))
  }

  /** A run over files that can all be read completes, and its output is
      the outputs of the files laid end to end in input order. */
  lemma {:induction false} RunReadable(r: CtxpRunner, files: seq<CtxpFile>)
    requires forall i :: 0 <= i < |files| ==> files[i].contents.Contents?
    ensures Run(r, files) == Outcome(Concat(Texts(WithDefaults(r), files)), Done)
    decreases |files|
  {
    if |files| > 0 {
      var d := WithDefaults(r);
      var rest := files[1..];
      assert forall i :: 0 <= i < |rest| ==> rest[i] == files[i + 1];
      RunReadable(r, rest);
      assert CtxpResults(d, files)[1..] == CtxpResults(d, rest);
      assert Texts(d, files)[1..] == Texts(d, rest);
    }
  }

  /** The default output for one readable file: the header with the whole
      file's row count, the view, and the closing fence. */
  lemma DefaultRender(r: CtxpRunner, path: Bytes, data: Bytes)
    requires r.prefix == [] && r.postfix == [] && '<' !in path
    ensures Render(WithDefaults(r), path, data)
         == path + (" (" + (Itoa(CountLines(data)) + HeaderRest)) + LegacySliceLines(data, r.head, r.tail) + CtxpDefaultPostfix
  {
    RowCountIsLines(data);
    DefaultHeader(path, RowCount(data));
  }

  /** A file made of well-formed lines has as many rows as lines. */
  lemma RowsOfLines(ls: seq<Bytes>)
    requires WellFormed(ls)
    ensures CountLines(Concat(ls)) == |ls|
    ensures LegacySplitLines(Concat(ls)) == ls
  {
    SplitConcat(ls);
    SplitLinesSpec(Concat(ls));
  }

  /** A file shown whole under the default templates, with `rows` as its
      row count. */
  function Whole(path: Bytes, rows: Bytes, ls: seq<Bytes>): Bytes
  {
    path + (" (" + (rows + HeaderRest)) + Concat(ls) + CtxpDefaultPostfix
  }

  /** Two files of two and three lines with the default templates and no
      limits: each comes out whole, with its row count in its header. */
  lemma ExampleDefaults(p1: Bytes, p2: Bytes, f1: seq<Bytes>, f2: seq<Bytes>)
    requires '<' !in p1 && '<' !in p2
    requires WellFormed(f1) && |f1| == 2 && WellFormed(f2) && |f2| == 3
    ensures Run(CtxpRunner(0, 0, [], []), [CtxpFile(p1, Contents(Concat(f1))), CtxpFile(p2, Contents(Concat(f2)))])
         == Outcome(Whole(p1, "2", f1) + Whole(p2, "3", f2), Done)
  {
    var r := CtxpRunner(0, 0, [], []);
    var d := WithDefaults(r);
    var files := [CtxpFile(p1, Contents(Concat(f1))), CtxpFile(p2, Contents(Concat(f2)))];
    RunReadable(r, files);
    var ts := Texts(d, files);
    assert Concat(ts) == ts[0] + ts[1] by {
      assert ts[1..] == [ts[1]];
      ConcatSingle(ts[1]);
    }
    RowsOfLines(f1);
    RowsOfLines(f2);
    DefaultRender(r, p1, Concat(f1));
    DefaultRender(r, p2, Concat(f2));
  }

  /** Head and tail that together reach past the end of a five-line file
      leave it whole, and the header reports all five rows. */
  lemma ExampleHeadPlusTail(p: Bytes, ls: seq<Bytes>)
    requires '<' !in p && WellFormed(ls) && |ls| == 5
    ensures Render(WithDefaults(CtxpRunner(3, 3, [], [])), p, Concat(ls))
         == p + (" (" + ("5" + HeaderRest)) + Concat(ls) + CtxpDefaultPostfix
  {
    RowsOfLines(ls);
    LegacySliceSpec(Concat(ls), 3, 3);
    DefaultRender(CtxpRunner(3, 3, [], []), p, Concat(ls));
  }

  /** A six-line file cut to two head and two tail rows: the header counts
      the whole file, six rows, and the view marks the two rows left out. */
  lemma ExampleSixRows(p: Bytes, ls: seq<Bytes>)
    requires '<' !in p && WellFormed(ls) && |ls| == 6
    ensures Render(WithDefaults(CtxpRunner(2, 2, [], [])), p, Concat(ls))
         == p + (" (" + ("6" + HeaderRest))
            + (Concat(ls[..2]) + Ellipsis(2) + Concat(ls[4..])) + CtxpDefaultPostfix
  {
    RowsOfLines(ls);
    assert LegacySliceLines(Concat(ls), 2, 2) == Concat(ls[..2] + [Ellipsis(2)] + ls[4..]);
    JoinThree(ls[..2], Ellipsis(2), ls[4..]);
    DefaultRender(CtxpRunner(2, 2, [], []), p, Concat(ls));
  }
}
