/** The lx runner: per-file rendering of a header built from a template, the
    selected view of the file (optionally numbered), and a footer; and the
    run over a list of files that stops at the first file it cannot read. */
module Runner {
  import opened ByteText
  import opened Decimal
  import opened Replace
  import opened Lines
  import opened Language

  /** The configured runner: view limits, header and footer templates, and
      whether to number the lines. */
  datatype Runner = Runner(head: int, tail: int, prefix: Bytes, postfix: Bytes, lineNumbers: bool)

  /** A header or footer placeholder: its name in braces, `{filename}`. */
  function Braced(name: Bytes): Bytes
  {
    Wrapped('{', name, '}')
  }

  /** "{filename} ({row_count} rows){n}---{n}```{language}{n}" */
  const DefaultPrefix: Bytes :=
    Braced(PFilename) + (" (" + (Braced(PRowCount) + (" rows)" + (Braced(PNewline)
    + ("---" + (Braced(PNewline) + ("```" + (Braced(PLanguage) + Braced(PNewline)))))))))

  /** "```{n}{n}" */
  const DefaultPostfix: Bytes := "```" + (Braced(PNewline) + Braced(PNewline))

  /** `NewRunner`: an empty template is replaced by the default one. */
  function NewRunner(head: int, tail: int, prefix: Bytes, postfix: Bytes, lineNumbers: bool): (r: Runner)
    ensures r.head == head && r.tail == tail && r.lineNumbers == lineNumbers
    ensures r.prefix != [] && r.postfix != []
    ensures prefix != [] ==> r.prefix == prefix
    ensures postfix != [] ==> r.postfix == postfix
    ensures prefix == [] ==> r.prefix == DefaultPrefix
    ensures postfix == [] ==> r.postfix == DefaultPostfix
  {
    Runner(head, tail, if prefix == [] then DefaultPrefix else prefix,
           if postfix == [] then DefaultPostfix else postfix, lineNumbers)
  }

  /** Building a runner from a built runner's own fields changes nothing. */
  lemma NewRunnerStable(head: int, tail: int, prefix: Bytes, postfix: Bytes, lineNumbers: bool)
    ensures var r := NewRunner(head, tail, prefix, postfix, lineNumbers);
      NewRunner(r.head, r.tail, r.prefix, r.postfix, r.lineNumbers) == r
  {
  }

  /** The platform line break substituted for `{n}`. */
  function Newline(windows: bool): (nl: Bytes)
    ensures windows ==> nl == "\r\n"
    ensures !windows ==> nl == "\n"
  {
    if windows then "\r\n" else "\n"
  }

  /** The header placeholders, in the order `buildPrefix` replaces them. */
  const PrefixTokens: seq<Bytes> := WrapAll('{', PrefixNames, '}')

  /** One replace-all pass for the placeholder called `name`. */
  function Pass(s: Bytes, name: Bytes, value: Bytes): Bytes
  {
    ReplaceAll(s, Braced(name), value)
  }

  /** `buildPrefix`: six replace-all passes over the header template. The
      byte size is a 64-bit count, rendered in decimal as Itoa renders it. */
  function BuildPrefix(r: Runner, path: Bytes, totalRows: int, byteSize: int, lastMod: Bytes, lang: Bytes, windows: bool): Bytes
  {
    var p1 := Pass(r.prefix, PFilename, path);
    var p2 := Pass(p1, PRowCount, Itoa(totalRows));
    var p3 := Pass(p2, PByteSize, Itoa(byteSize));
    var p4 := Pass(p3, PLastModified, lastMod);
    var p5 := Pass(p4, PLanguage, lang);
    Pass(p5, PNewline, Newline(windows))
  }

  /** `buildPostfix`: only `{n}` is replaced in the footer. */
  function BuildPostfix(r: Runner, windows: bool): Bytes
  {
    Pass(r.postfix, PNewline, Newline(windows))
  }

  /** The values `buildPrefix` puts in for the tokens, in token order. */
  function PrefixValues(path: Bytes, totalRows: int, byteSize: int, lastMod: Bytes, lang: Bytes, windows: bool): (vs: seq<Bytes>)
    ensures |vs| == |PrefixTokens|
  {
    [path, Itoa(totalRows), Itoa(byteSize), lastMod, lang, Newline(windows)]
  }

  /** The six passes of `buildPrefix` are the passes of the placeholder
      table, in table order. */
  lemma BuildPrefixPasses(r: Runner, path: Bytes, totalRows: int, byteSize: int, lastMod: Bytes, lang: Bytes, windows: bool)
    ensures PrefixTable()
    ensures BuildPrefix(r, path, totalRows, byteSize, lastMod, lang, windows)
         == ReplaceEach(r.prefix, PrefixTokens, PrefixValues(path, totalRows, byteSize, lastMod, lang, windows))
  {
    PrefixTableHolds();
    PrefixTokenNames();
    PassesInOrder(r.prefix, PrefixTokens, PrefixValues(path, totalRows, byteSize, lastMod, lang, windows));
  }

  lemma PassesInOrder(s: Bytes, t: seq<Bytes>, vs: seq<Bytes>)
    requires |t| == 6 && |vs| == 6
    requires t[0] == Braced(PFilename) && t[1] == Braced(PRowCount) && t[2] == Braced(PByteSize)
    requires t[3] == Braced(PLastModified) && t[4] == Braced(PLanguage) && t[5] == Braced(PNewline)
    ensures forall k :: 0 <= k < |t| ==> |t[k]| > 0
    ensures ReplaceEach(s, t, vs) == Pass(Pass(Pass(Pass(Pass(Pass(s, PFilename, vs[0]), PRowCount, vs[1]),
      PByteSize, vs[2]), PLastModified, vs[3]), PLanguage, vs[4]), PNewline, vs[5])
  {
    var s1 := Pass(s, PFilename, vs[0]);
    assert ReplaceEach(s, t, vs) == ReplaceEach(s1, t[1..], vs[1..]);
    var s2 := Pass(s1, PRowCount, vs[1]);
    assert ReplaceEach(s1, t[1..], vs[1..]) == ReplaceEach(s2, t[2..], vs[2..]) by {
      assert t[1..][1..] == t[2..] && vs[1..][1..] == vs[2..];
    }
    var s3 := Pass(s2, PByteSize, vs[2]);
    assert ReplaceEach(s2, t[2..], vs[2..]) == ReplaceEach(s3, t[3..], vs[3..]) by {
      assert t[2..][1..] == t[3..] && vs[2..][1..] == vs[3..];
    }
    var s4 := Pass(s3, PLastModified, vs[3]);
    assert ReplaceEach(s3, t[3..], vs[3..]) == ReplaceEach(s4, t[4..], vs[4..]) by {
      assert t[3..][1..] == t[4..] && vs[3..][1..] == vs[4..];
    }
    var s5 := Pass(s4, PLanguage, vs[4]);
    assert ReplaceEach(s4, t[4..], vs[4..]) == ReplaceEach(s5, t[5..], vs[5..]) by {
      assert t[4..][1..] == t[5..] && vs[4..][1..] == vs[5..];
    }
    var s6 := Pass(s5, PNewline, vs[5]);
    assert ReplaceEach(s5, t[5..], vs[5..]) == s6 by {
      assert t[5..][1..] == [] && vs[5..][1..] == [];
    }
  }

  /** A header template made of placeholder slots and brace-free text comes
      out of the six passes with every slot holding its value, as long as
      the values its slots receive contain no '{'. Otherwise a value can be
      rewritten by a later pass (see `PathWithPlaceholder`). */
  lemma RenderPrefix(r: Runner, ps: seq<Piece>, path: Bytes, totalRows: int, byteSize: int, lastMod: Bytes, lang: Bytes, windows: bool)
    requires SlotsIn(ps, |PrefixTokens|) && TextFree(ps, '{')
    requires r.prefix == Partial(ps, PrefixTokens, [])
    requires ValuesFree(ps, PrefixValues(path, totalRows, byteSize, lastMod, lang, windows), '{')
    ensures BuildPrefix(r, path, totalRows, byteSize, lastMod, lang, windows)
         == Partial(ps, PrefixTokens, PrefixValues(path, totalRows, byteSize, lastMod, lang, windows))
  {
    BuildPrefixPasses(r, path, totalRows, byteSize, lastMod, lang, windows);
    RenderTemplate(ps, PrefixTokens, PrefixValues(path, totalRows, byteSize, lastMod, lang, windows), '{');
  }

  lemma PrefixTokenNames()
    ensures PrefixTokens[0] == Braced(PFilename) && PrefixTokens[1] == Braced(PRowCount)
    ensures PrefixTokens[2] == Braced(PByteSize) && PrefixTokens[3] == Braced(PLastModified)
    ensures PrefixTokens[4] == Braced(PLanguage) && PrefixTokens[5] == Braced(PNewline)
  {
  }

  predicate PrefixTable()
  {
    TokenTable(PrefixTokens, '{')
  }

  /** The names inside the header placeholders. */
  const PrefixNames: seq<Bytes> := [PFilename, PRowCount, PByteSize, PLastModified, PLanguage, PNewline]

  /** The placeholder names. */
  const PFilename: Bytes := "filename"
  const PRowCount: Bytes := "row_count"
  const PByteSize: Bytes := "byte_size"
  const PLastModified: Bytes := "last_modified"
  const PLanguage: Bytes := "language"
  const PNewline: Bytes := "n"

  lemma PrefixTableHolds()
    ensures PrefixTable()
  {
    PrefixNamesBare();
    PrefixNamesDistinct();
    WrappedTable('{', '}', PrefixNames, PrefixTokens);
  }

  lemma PrefixNamesBare()
    ensures forall k :: 0 <= k < |PrefixNames| ==> Bare(PrefixNames[k], '{', '}')
  {
  }

  lemma PrefixNamesDistinct()
    ensures forall j, k :: 0 <= j < |PrefixNames| && 0 <= k < |PrefixNames| && j != k ==> PrefixNames[j] != PrefixNames[k]
  {
  }

  // ---------------------------------------------------------------------
  // The default templates.

  /** The default header as plain text and slots: filename, " (", row
      count, " rows)", newline, "---", newline, "```", language, newline. */
  const DefaultPieces: seq<Piece> := [
    Slot(0), Text(" ("), Slot(1), Text(" rows)"), Slot(5),
    Text("---"), Slot(5), Text("```"), Slot(4), Slot(5)
  ]

  /** `ps` is laid out as `DefaultPieces`. */
  predicate DefaultShape(ps: seq<Piece>)
  {
    && |ps| == 10
    && ps[0] == Slot(0) && ps[1] == Text(" (") && ps[2] == Slot(1) && ps[3] == Text(" rows)")
    && ps[4] == Slot(5) && ps[5] == Text("---") && ps[6] == Slot(5) && ps[7] == Text("```")
    && ps[8] == Slot(4) && ps[9] == Slot(5)
  }

  /** The second half of a template of the default shape. */
  lemma DefaultBack(ps: seq<Piece>, t: seq<Bytes>, values: seq<Bytes>)
    requires DefaultShape(ps) && |t| == 6 && |values| <= 6
    ensures SlotsIn(ps, |t|) && SlotsIn(ps[5..], |t|)
    ensures Partial(ps[5..], t, values) == "---" + (Filled(Slot(5), t, values) + ("```" + (Filled(Slot(4), t, values) + (Filled(Slot(5), t, values)))))
  {
    assert SlotsIn(ps, |t|);
    assert Partial(ps[10..], t, values) == [] by { assert ps[10..] == []; }
    assert Partial(ps[9..], t, values) == Filled(Slot(5), t, values) by {
      PartialStep(ps, t, values, 9);
      assert Filled(Slot(5), t, values) + [] == Filled(Slot(5), t, values);
    }
    assert Partial(ps[8..], t, values) == Filled(Slot(4), t, values) + (Filled(Slot(5), t, values)) by {
      PartialStep(ps, t, values, 8);
    }
    assert Partial(ps[7..], t, values) == "```" + (Filled(Slot(4), t, values) + (Filled(Slot(5), t, values))) by {
      PartialStep(ps, t, values, 7);
    }
    assert Partial(ps[6..], t, values) == Filled(Slot(5), t, values) + ("```" + (Filled(Slot(4), t, values) + (Filled(Slot(5), t, values)))) by {
      PartialStep(ps, t, values, 6);
    }
    assert Partial(ps[5..], t, values) == "---" + (Filled(Slot(5), t, values) + ("```" + (Filled(Slot(4), t, values) + (Filled(Slot(5), t, values))))) by {
      PartialStep(ps, t, values, 5);
    }
  }

  /** A template of the default shape, piece by piece, whatever has been
      filled in so far. */
  lemma DefaultFill(ps: seq<Piece>, t: seq<Bytes>, values: seq<Bytes>)
    requires DefaultShape(ps) && |t| == 6 && |values| <= 6
    ensures SlotsIn(ps, |t|)
    ensures Partial(ps, t, values) == Filled(Slot(0), t, values) + (" (" + (Filled(Slot(1), t, values) + (" rows)" + (Filled(Slot(5), t, values) + ("---" + (Filled(Slot(5), t, values) + ("```" + (Filled(Slot(4), t, values) + (Filled(Slot(5), t, values))))))))))
  {
    DefaultBack(ps, t, values);
    assert Partial(ps[4..], t, values) == Filled(Slot(5), t, values) + ("---" + (Filled(Slot(5), t, values) + ("```" + (Filled(Slot(4), t, values) + (Filled(Slot(5), t, values)))))) by {
      PartialStep(ps, t, values, 4);
    }
    assert Partial(ps[3..], t, values) == " rows)" + (Filled(Slot(5), t, values) + ("---" + (Filled(Slot(5), t, values) + ("```" + (Filled(Slot(4), t, values) + (Filled(Slot(5), t, values))))))) by {
      PartialStep(ps, t, values, 3);
    }
    assert Partial(ps[2..], t, values) == Filled(Slot(1), t, values) + (" rows)" + (Filled(Slot(5), t, values) + ("---" + (Filled(Slot(5), t, values) + ("```" + (Filled(Slot(4), t, values) + (Filled(Slot(5), t, values)))))))) by {
      PartialStep(ps, t, values, 2);
    }
    assert Partial(ps[1..], t, values) == " (" + (Filled(Slot(1), t, values) + (" rows)" + (Filled(Slot(5), t, values) + ("---" + (Filled(Slot(5), t, values) + ("```" + (Filled(Slot(4), t, values) + (Filled(Slot(5), t, values))))))))) by {
      PartialStep(ps, t, values, 1);
    }
    assert Partial(ps[0..], t, values) == Filled(Slot(0), t, values) + (" (" + (Filled(Slot(1), t, values) + (" rows)" + (Filled(Slot(5), t, values) + ("---" + (Filled(Slot(5), t, values) + ("```" + (Filled(Slot(4), t, values) + (Filled(Slot(5), t, values)))))))))) by {
      PartialStep(ps, t, values, 0);
    }
    assert ps[0..] == ps;
  }

  lemma DefaultPiecesShape()
    ensures DefaultShape(DefaultPieces)
    ensures SlotsIn(DefaultPieces, |PrefixTokens|) && TextFree(DefaultPieces, '{')
  {
    assert DefaultShape(DefaultPieces);
    DefaultShapeFree(DefaultPieces);
  }

  lemma DefaultShapeFree(ps: seq<Piece>)
    requires DefaultShape(ps)
    ensures SlotsIn(ps, 6) && TextFree(ps, '{')
  {
    forall i | 0 <= i < |ps| && ps[i].Text?
      ensures '{' !in ps[i].text
    {
      assert i in {1, 3, 5, 7};
    }
  }

  /** The default header is the template `DefaultPieces` with no slot
      filled in yet. */
  lemma DefaultPrefixIsTemplate()
    ensures SlotsIn(DefaultPieces, |PrefixTokens|) && TextFree(DefaultPieces, '{')
    ensures DefaultPrefix == Partial(DefaultPieces, PrefixTokens, [])
  {
    DefaultPiecesShape();
    PrefixTokenNames();
    DefaultFill(DefaultPieces, PrefixTokens, []);
  }

  lemma ItoaHasNoBrace(n: int)
    ensures '{' !in Itoa(n)
  {
    var r := Itoa(n);
    forall i | 0 <= i < |r|
      ensures r[i] != '{'
    {
      assert IsDigit(r[i]) || r[i] == '-';
    }
  }

  /** The values the default header receives contain no '{' when the path
      contains none: the row count is digits, the tag lower-case letters,
      the newline control bytes. */
  lemma DefaultValuesFree(path: Bytes, totalRows: int, byteSize: int, lastMod: Bytes, windows: bool)
    requires '{' !in path
    ensures ValuesFree(DefaultPieces, PrefixValues(path, totalRows, byteSize, lastMod, LanguageFromPath(path), windows), '{')
  {
    var vs := PrefixValues(path, totalRows, byteSize, lastMod, LanguageFromPath(path), windows);
    ItoaHasNoBrace(totalRows);
    TagsHaveNoBrace(ToLower(Ext(path)));
    assert '{' !in vs[0] && '{' !in vs[1] && '{' !in vs[4] && '{' !in vs[5];
    DefaultPiecesShape();
    DefaultShapeValuesFree(DefaultPieces, vs);
  }

  /** A template of the default shape uses slots 0, 1, 4 and 5 only. */
  lemma DefaultShapeValuesFree(ps: seq<Piece>, vs: seq<Bytes>)
    requires DefaultShape(ps) && |vs| == 6
    requires '{' !in vs[0] && '{' !in vs[1] && '{' !in vs[4] && '{' !in vs[5]
    ensures ValuesFree(ps, vs, '{')
  {
    forall i | 0 <= i < |ps| && ps[i].Slot? && ps[i].index < |vs|
      ensures '{' !in vs[ps[i].index]
    {
      assert ps[i].index in {0, 1, 4, 5};
    }
  }

  /** With the default header, a file whose path contains no '{' gets the
      header "<path> (<rows> rows)", a line of "---", and the opening fence
      with the language tag, each line ended by the platform newline. */
  lemma DefaultHeader(head: int, tail: int, lineNumbers: bool, path: Bytes, totalRows: int, byteSize: int, lastMod: Bytes, windows: bool)
    requires '{' !in path
    ensures var nl := Newline(windows);
      BuildPrefix(NewRunner(head, tail, [], [], lineNumbers), path, totalRows, byteSize, lastMod, LanguageFromPath(path), windows)
        == path + (" (" + (Itoa(totalRows) + (" rows)" + (nl + ("---" + (nl + ("```" + (LanguageFromPath(path) + nl))))))))
  {
    var r := NewRunner(head, tail, [], [], lineNumbers);
    var lang := LanguageFromPath(path);
    var vs := PrefixValues(path, totalRows, byteSize, lastMod, lang, windows);
    var nl := Newline(windows);
    assert BuildPrefix(r, path, totalRows, byteSize, lastMod, lang, windows) == Partial(DefaultPieces, PrefixTokens, vs) by {
      DefaultPrefixIsTemplate();
      DefaultValuesFree(path, totalRows, byteSize, lastMod, windows);
      RenderPrefix(r, DefaultPieces, path, totalRows, byteSize, lastMod, lang, windows);
    }
    assert Partial(DefaultPieces, PrefixTokens, vs)
        == path + (" (" + (Itoa(totalRows) + (" rows)" + (nl + ("---" + (nl + ("```" + (lang + nl)))))))) by {
      DefaultPiecesShape();
      DefaultFill(DefaultPieces, PrefixTokens, vs);
    }
  }

  /** The default footer closes the fence and adds an empty line. */
  lemma DefaultFooter(head: int, tail: int, prefix: Bytes, lineNumbers: bool, windows: bool)
    ensures BuildPostfix(NewRunner(head, tail, prefix, [], lineNumbers), windows)
         == "```" + (Newline(windows) + Newline(windows))
  {
    var n, nl := Braced(PNewline), Newline(windows);
    assert Pass("```" + (n + n), PNewline, nl) == "```" + Pass(n + n, PNewline, nl) by {
      PassOverFreeText("```", n + n, n, nl, '{');
    }
    assert Pass(n + n, PNewline, nl) == nl + nl by {
      PassOverOwnName(PNewline, n, nl);
      PassOverOwnName(PNewline, [], nl);
      assert n + [] == n;
    }
  }

  // ---------------------------------------------------------------------
  // What the passes do to text around the placeholders.

  /** A pass leaves text without '{' alone. */
  lemma PassWithoutBrace(s: Bytes, name: Bytes, value: Bytes)
    requires '{' !in s
    ensures Pass(s, name, value) == s
  {
    OpenerFreeHasNoOccurrence(s, Braced(name), '{');
    UnchangedIffAbsent(s, Braced(name), value);
  }

  /** A template without '{' is its own header and its own footer. */
  lemma NoBraceUnchanged(r: Runner, path: Bytes, totalRows: int, byteSize: int, lastMod: Bytes, lang: Bytes, windows: bool)
    ensures '{' !in r.prefix ==> BuildPrefix(r, path, totalRows, byteSize, lastMod, lang, windows) == r.prefix
    ensures '{' !in r.postfix ==> BuildPostfix(r, windows) == r.postfix
  {
    if '{' !in r.prefix {
      var s := r.prefix;
      PassWithoutBrace(s, PFilename, path);
      PassWithoutBrace(s, PRowCount, Itoa(totalRows));
      PassWithoutBrace(s, PByteSize, Itoa(byteSize));
      PassWithoutBrace(s, PLastModified, lastMod);
      PassWithoutBrace(s, PLanguage, lang);
      PassWithoutBrace(s, PNewline, Newline(windows));
    }
    if '{' !in r.postfix {
      PassWithoutBrace(r.postfix, PNewline, Newline(windows));
    }
  }

  /** A pass for one placeholder leaves a different placeholder alone. */
  lemma PassOverOtherName(a: Bytes, b: Bytes, value: Bytes)
    requires Bare(a, '{', '}') && Bare(b, '{', '}') && a != b
    ensures Pass(Braced(a), b, value) == Braced(a)
  {
    PassOverOtherFront(a, [], b, value);
    assert Braced(a) + [] == Braced(a);
  }

  /** A different placeholder at the front of the text is kept and the pass
      goes on after it. */
  lemma PassOverOtherFront(a: Bytes, y: Bytes, b: Bytes, value: Bytes)
    requires Bare(a, '{', '}') && Bare(b, '{', '}') && a != b
    ensures Pass(Braced(a) + y, b, value) == Braced(a) + Pass(y, b, value)
  {
    WrappedNotPrefix('{', '}', a, b);
    WrappedNotPrefix('{', '}', b, a);
    assert Braced(a)[1..] == a + "}";
    assert Braced(b)[1..] == b + "}";
    PassOverOtherToken(Braced(a), y, Braced(b), value, '{');
  }

  /** The footer only knows `{n}`: a `{filename}` anywhere in it stays as
      written, and the pass goes on over the text after it. */
  lemma FooterKeepsFilename(r: Runner, x: Bytes, y: Bytes, windows: bool)
    requires r.postfix == x + Braced(PFilename) + y && '{' !in x
    ensures BuildPostfix(r, windows) == x + Braced(PFilename) + Pass(y, PNewline, Newline(windows))
  {
    var f, n, nl := Braced(PFilename), Braced(PNewline), Newline(windows);
    assert r.postfix == x + (f + y);
    PassOverFreeText(x, f + y, n, nl, '{');
    PrefixNamesBare();
    PrefixNamesDistinct();
    assert PrefixNames[0] == PFilename && PrefixNames[5] == PNewline;
    PassOverOtherFront(PFilename, y, PNewline, nl);
  }

  /** A pass replaces its own placeholder at the front of the text by the
      value and goes on after it. */
  lemma PassOverOwnName(name: Bytes, y: Bytes, value: Bytes)
    ensures Pass(Braced(name) + y, name, value) == value + Pass(y, name, value)
  {
    PassOverPattern(Braced(name), y, value);
  }

  /** A pass over exactly its own placeholder yields the value. */
  lemma PassOverOwnAlone(name: Bytes, value: Bytes)
    ensures Pass(Braced(name), name, value) == value
  {
    PassOverOwnName(name, [], value);
    assert Braced(name) + [] == Braced(name);
    assert value + [] == value;
  }

  /** The passes for the row count, byte size, modification time and
      language leave the newline placeholder alone. */
  lemma MiddlePassesKeep(a: Bytes, b: Bytes, c: Bytes, d: Bytes)
    ensures Pass(Pass(Pass(Pass(Braced(PNewline), PRowCount, a), PByteSize, b), PLastModified, c), PLanguage, d) == Braced(PNewline)
  {
    var n := Braced(PNewline);
    assert Pass(n, PRowCount, a) == n by { PassOverOtherName(PNewline, PRowCount, a); }
    assert Pass(n, PByteSize, b) == n by { PassOverOtherName(PNewline, PByteSize, b); }
    assert Pass(n, PLastModified, c) == n by { PassOverOtherName(PNewline, PLastModified, c); }
    assert Pass(n, PLanguage, d) == n by { PassOverOtherName(PNewline, PLanguage, d); }
  }

  /** Later passes work on what earlier passes put in: with the header
      template `{filename}` and a file whose path is `{n}`, the header is
      the platform newline, not the path. */
  lemma PathWithPlaceholder(r: Runner, totalRows: int, byteSize: int, lastMod: Bytes, lang: Bytes, windows: bool)
    requires r.prefix == Braced(PFilename)
    ensures BuildPrefix(r, Braced(PNewline), totalRows, byteSize, lastMod, lang, windows) == Newline(windows)
    ensures Newline(windows) != Braced(PNewline)
  {
    var n := Braced(PNewline);
    var p1 := Pass(r.prefix, PFilename, n);
    assert p1 == n by { PassOverOwnAlone(PFilename, n); }
    MiddlePassesKeep(Itoa(totalRows), Itoa(byteSize), lastMod, lang);
    var p5 := Pass(Pass(Pass(Pass(p1, PRowCount, Itoa(totalRows)), PByteSize, Itoa(byteSize)), PLastModified, lastMod), PLanguage, lang);
    assert Pass(p5, PNewline, Newline(windows)) == Newline(windows) by { PassOverOwnAlone(PNewline, Newline(windows)); }
    assert |n| == 3;
  }

  // ---------------------------------------------------------------------
  // Files and runs.

  /** What `os.Stat` reports: failure, or the size and the modification
      time already formatted as RFC 3339 text. */
  datatype Stat = StatFailed | Stat(size: int, lastModified: Bytes)

  /** What `os.ReadFile` reports. */
  datatype Contents = ReadFailed | Contents(data: Bytes)

  /** A file named on the command line, with what the file system answers
      for it. */
  datatype File = File(path: Bytes, stat: Stat, contents: Contents)

  /** Why a file could not be shown; both name the path. */
  datatype Failure = StatError(path: Bytes) | ReadError(path: Bytes)

  datatype FileResult = Rendered(out: Bytes) | Failed(failure: Failure)

  /** The data part of a file's output: the view, numbered or not. */
  function Body(r: Runner, data: Bytes): Bytes
  {
    var v := PrepareView(data, r.head, r.tail);
    if r.lineNumbers then AddLineNumbers(v.text, v.total, r.head, r.tail) else v.text
  }

  /** The output for a file that could be read: header, body, footer. The
      header gets the row count of the whole file. */
  function Render(r: Runner, path: Bytes, size: int, lastMod: Bytes, data: Bytes, windows: bool): Bytes
  {
    var total := PrepareView(data, r.head, r.tail).total;
    BuildPrefix(r, path, total, size, lastMod, LanguageFromPath(path), windows)
      + Body(r, data) + BuildPostfix(r, windows)
  }

  /** `runFile`: stat first, then read, then render. */
  function RunFile(r: Runner, f: File, windows: bool): (res: FileResult)
    ensures f.stat.StatFailed? <==> res == Failed(StatError(f.path))
    ensures f.stat.Stat? && f.contents.ReadFailed? <==> res == Failed(ReadError(f.path))
    ensures res.Rendered? <==> f.stat.Stat? && f.contents.Contents?
    ensures f.stat.Stat? && f.contents.Contents?
            ==> res == Rendered(Render(r, f.path, f.stat.size, f.stat.lastModified, f.contents.data, windows))
  {
    match f.stat
    case StatFailed => Failed(StatError(f.path))
    case Stat(size, lastMod) =>
      match f.contents
      case ReadFailed => Failed(ReadError(f.path))
      case Contents(data) => Rendered(Render(r, f.path, size, lastMod, data, windows))
  }

  /** How a run ends: after the last file, or at a file that failed. */
  datatype Status = Done | Stopped(failure: Failure)

  datatype Outcome = Outcome(out: Bytes, status: Status)

  /** What each file yields, in order, as if every file were tried. */
  function Results(r: Runner, files: seq<File>, windows: bool): (rs: seq<FileResult>)
    ensures |rs| == |files|
    ensures forall i :: 0 <= i < |files| ==> rs[i] == RunFile(r, files[i], windows)
  {
    seq(|files|, i requires 0 <= i < |files| => RunFile(r, files[i], windows))
  }

  /** The outputs of the results up to the first failure, laid end to end,
      and that failure if there is one. */
  function Collect(rs: seq<FileResult>): Outcome
  {
    if |rs| == 0 then Outcome([], Done)
    else
      match rs[0]
      case Failed(e) => Outcome([], Stopped(e))
      case Rendered(o) =>
        var rest := Collect(rs[1..]);
        Outcome(o + rest.out, rest.status)
  }

  /** `Run`: the files in order, each file's output after the previous
      one's, stopping at the first failure. Results after that failure are
      never consulted, which `RunStops` states. */
  function Run(r: Runner, files: seq<File>, windows: bool): Outcome
  {
    Collect(Results(r, files, windows))
  }

  predicate AllRendered(r: Runner, files: seq<File>, windows: bool)
  {
    forall i :: 0 <= i < |files| ==> RunFile(r, files[i], windows).Rendered?
  }

  predicate NoFailure(rs: seq<FileResult>)
  {
    forall i :: 0 <= i < |rs| ==> rs[i].Rendered?
  }

  /** The outputs of results without a failure, in order. */
  function Outputs(rs: seq<FileResult>): Bytes
    requires NoFailure(rs)
  {
    if |rs| == 0 then [] else rs[0].out + Outputs(rs[1..])
  }

  /** Results that all rendered contribute their outputs in order, and
      collecting goes on with whatever follows. */
  lemma {:induction false} CollectAppend(a: seq<FileResult>, b: seq<FileResult>)
    requires NoFailure(a)
    ensures Collect(a).status == Done && Collect(a).out == Outputs(a)
    ensures Collect(a + b) == Outcome(Outputs(a) + Collect(b).out, Collect(b).status)
    decreases |a|
  {
    if |a| == 0 {
      assert a + b == b;
    } else {
      assert (a + b)[0] == a[0];
      assert (a + b)[1..] == a[1..] + b;
      assert NoFailure(a[1..]) by {
        forall i | 0 <= i < |a[1..]|
          ensures a[1..][i].Rendered?
        {
          assert a[1..][i] == a[i + 1];
        }
      }
      CollectAppend(a[1..], b);
      assert a[0].out + (Outputs(a[1..]) + Collect(b).out) == a[0].out + Outputs(a[1..]) + Collect(b).out;
    }
  }

  lemma ResultsAppend(r: Runner, a: seq<File>, b: seq<File>, windows: bool)
    ensures Results(r, a + b, windows) == Results(r, a, windows) + Results(r, b, windows)
  {
    var x, y := Results(r, a + b, windows), Results(r, a, windows) + Results(r, b, windows);
    forall i | 0 <= i < |x|
      ensures x[i] == y[i]
    {
      if i < |a| {
        assert (a + b)[i] == a[i];
      } else {
        assert (a + b)[i] == b[i - |a|];
      }
    }
  }

  /** Collecting ends `Done` exactly when nothing failed. */
  lemma CollectDone(rs: seq<FileResult>)
    ensures Collect(rs).status == Done <==> NoFailure(rs)
    ensures NoFailure(rs) ==> Collect(rs).out == Outputs(rs)
  {
    if NoFailure(rs) {
      CollectAppend(rs, []);
    } else {
      var i :| 0 <= i < |rs| && rs[i].Failed?;
      var j := FirstFailure(rs, i);
      CollectStops(rs[..j], rs[j], rs[j + 1..]);
      assert rs == rs[..j] + [rs[j]] + rs[j + 1..];
    }
  }

  /** A run ends `Done` exactly when every file renders, and then its
      output is every file's output in order. */
  lemma RunDone(r: Runner, files: seq<File>, windows: bool)
    ensures Run(r, files, windows).status == Done <==> AllRendered(r, files, windows)
    ensures AllRendered(r, files, windows) ==> Run(r, files, windows).out == Outputs(Results(r, files, windows))
  {
    var rs := Results(r, files, windows);
    CollectDone(rs);
    assert NoFailure(rs) <==> AllRendered(r, files, windows);
  }

  /** A failure in `rs` at `i` means there is a first one, at or before `i`. */
  lemma {:induction false} FirstFailure(rs: seq<FileResult>, i: nat) returns (j: nat)
    requires i < |rs| && rs[i].Failed?
    ensures j <= i && rs[j].Failed? && NoFailure(rs[..j])
    decreases i
  {
    if NoFailure(rs[..i]) {
      j := i;
    } else {
      var k :| 0 <= k < i && rs[..i][k].Failed?;
      j := FirstFailure(rs, k);
    }
  }

  lemma CollectStops(before: seq<FileResult>, f: FileResult, after: seq<FileResult>)
    requires NoFailure(before) && f.Failed?
    ensures Collect(before + [f] + after) == Outcome(Outputs(before), Stopped(f.failure))
  {
    assert before + [f] + after == before + ([f] + after);
    CollectAppend(before, [f] + after);
    assert ([f] + after)[0] == f;
  }

  /** A file that fails stops the run: the output of the files before it
      stands, what comes after it does not matter, and the failure names
      it. */
  lemma RunStops(r: Runner, before: seq<File>, f: File, after: seq<File>, windows: bool)
    requires AllRendered(r, before, windows)
    requires RunFile(r, f, windows).Failed?
    ensures Run(r, before + [f] + after, windows)
         == Outcome(Run(r, before, windows).out, Stopped(RunFile(r, f, windows).failure))
  {
    var rb := Results(r, before, windows);
    ResultsAppend(r, before + [f], after, windows);
    ResultsAppend(r, before, [f], windows);
    assert Results(r, [f], windows) == [RunFile(r, f, windows)];
    CollectStops(rb, RunFile(r, f, windows), Results(r, after, windows));
    CollectAppend(rb, []);
  }

  /** Files that all render contribute their outputs in order, and the run
      goes on with whatever follows. */
  lemma RunAppend(r: Runner, a: seq<File>, b: seq<File>, windows: bool)
    requires AllRendered(r, a, windows)
    ensures Run(r, a, windows).status == Done
    ensures Run(r, a + b, windows) == Outcome(Run(r, a, windows).out + Run(r, b, windows).out, Run(r, b, windows).status)
  {
    ResultsAppend(r, a, b, windows);
    CollectAppend(Results(r, a, windows), Results(r, b, windows));
  }

  /** A run over one readable file is that file's output. */
  lemma RunOne(r: Runner, f: File, windows: bool)
    requires f.stat.Stat? && f.contents.Contents?
    ensures Run(r, [f], windows)
         == Outcome(Render(r, f.path, f.stat.size, f.stat.lastModified, f.contents.data, windows), Done)
  {
    var rs := Results(r, [f], windows);
    assert rs[0] == RunFile(r, f, windows);
    assert Collect(rs[1..]) == Outcome([], Done) by { assert rs[1..] == []; }
    assert rs[0].out + [] == rs[0].out;
  }

  /** What the body shows: the data itself when the limits remove nothing,
      otherwise exactly the kept lines; with line numbers, every original
      line behind its own row number and the ellipsis line as it is. */
  lemma BodySpec(r: Runner, data: Bytes)
    ensures !r.lineNumbers && (|data| == 0 || CoversAll(CountLines(data), r.head, r.tail)) ==> Body(r, data) == data
    ensures !r.lineNumbers && |data| > 0 && !CoversAll(CountLines(data), r.head, r.tail) ==>
      SplitLines(Body(r, data)) == KeptLines(SplitLines(data), r.head, r.tail)
    ensures r.lineNumbers && |data| == 0 ==> Body(r, data) == []
    ensures r.lineNumbers && |data| > 0 ==> Body(r, data) == ExpectedNumbering(SplitLines(data), r.head, r.tail)
  {
    NumberedView(data, r.head, r.tail);
    if |data| > 0 && !CoversAll(CountLines(data), r.head, r.tail) {
      ViewLines(data, r.head, r.tail);
    }
  }

  /** The whole output for one file under the default templates: the
      header with the row count of the whole file, the body, and the
      closing fence followed by an empty line. */
  lemma RenderDefault(head: int, tail: int, lineNumbers: bool, path: Bytes, size: int, lastMod: Bytes, data: Bytes, windows: bool)
    requires '{' !in path
    ensures var r := NewRunner(head, tail, [], [], lineNumbers);
      var nl := Newline(windows);
      Render(r, path, size, lastMod, data, windows)
        == (path + (" (" + (Itoa(CountLines(data)) + (" rows)" + (nl + ("---" + (nl + ("```" + (LanguageFromPath(path) + nl)))))))))
           + (Body(r, data) + ("```" + (nl + nl)))
  {
    var r := NewRunner(head, tail, [], [], lineNumbers);
    var total := PrepareView(data, head, tail).total;
    var h := BuildPrefix(r, path, total, size, lastMod, LanguageFromPath(path), windows);
    var f := BuildPostfix(r, windows);
    DefaultHeader(head, tail, lineNumbers, path, total, size, lastMod, windows);
    DefaultFooter(head, tail, [], lineNumbers, windows);
    assert h + Body(r, data) + f == h + (Body(r, data) + f);
  }
}
