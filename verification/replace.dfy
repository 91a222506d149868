/** Literal placeholder substitution, as `strings.ReplaceAll` performs it,
    and what a sequence of such passes does to a template built from
    placeholder tokens and plain text. */
module Replace {
  import opened ByteText

  /** `pat` occurs in `s` starting at index `i`. */
  predicate OccursAt(s: Bytes, pat: Bytes, i: int)
  {
    0 <= i && i + |pat| <= |s| && s[i..i + |pat|] == pat
  }

  predicate Occurs(s: Bytes, pat: Bytes)
  {
    exists i :: 0 <= i <= |s| && OccursAt(s, pat, i)
  }

  /** `strings.ReplaceAll(s, pat, rep)` for a non-empty `pat`: scans from
      the left and replaces every non-overlapping occurrence, resuming
      after each replaced one. */
  function ReplaceAll(s: Bytes, pat: Bytes, rep: Bytes): Bytes
    requires |pat| > 0
    decreases |s|
  {
    if |s| < |pat| then s
    else if s[..|pat|] == pat then rep + ReplaceAll(s[|pat|..], pat, rep)
    else [s[0]] + ReplaceAll(s[1..], pat, rep)
  }

  /** How many occurrences ReplaceAll replaces. */
  function Replacements(s: Bytes, pat: Bytes): nat
    requires |pat| > 0
    decreases |s|
  {
    if |s| < |pat| then 0
    else if s[..|pat|] == pat then 1 + Replacements(s[|pat|..], pat)
    else Replacements(s[1..], pat)
  }

  /** Every replacement swaps |pat| bytes for |rep| bytes and nothing else
      changes length: the length moves in the direction of |rep| - |pat|
      exactly when something is replaced. */
  lemma {:induction false} ReplaceAllLength(s: Bytes, pat: Bytes, rep: Bytes)
    requires |pat| > 0
    ensures Replacements(s, pat) == 0 || |rep| == |pat| ==> |ReplaceAll(s, pat, rep)| == |s|
    ensures Replacements(s, pat) > 0 && |rep| > |pat| ==> |ReplaceAll(s, pat, rep)| > |s|
    ensures Replacements(s, pat) > 0 && |rep| < |pat| ==> |ReplaceAll(s, pat, rep)| < |s|
    decreases |s|
  {
    if |s| < |pat| {
    } else if s[..|pat|] == pat {
      ReplaceAllLength(s[|pat|..], pat, rep);
    } else {
      ReplaceAllLength(s[1..], pat, rep);
    }
  }

  /** An occurrence in `s` is one at its first byte or one in the rest. */
  lemma OccursStep(s: Bytes, pat: Bytes)
    requires |s| > 0
    ensures Occurs(s, pat) <==> OccursAt(s, pat, 0) || Occurs(s[1..], pat)
  {
    var t := s[1..];
    if Occurs(t, pat) {
      var i :| 0 <= i <= |t| && OccursAt(t, pat, i);
      assert s[i + 1..i + 1 + |pat|] == t[i..i + |pat|];
      assert OccursAt(s, pat, i + 1);
    }
    if Occurs(s, pat) && !OccursAt(s, pat, 0) {
      var i :| 0 <= i <= |s| && OccursAt(s, pat, i);
      assert t[i - 1..i - 1 + |pat|] == s[i..i + |pat|];
      assert OccursAt(t, pat, i - 1);
    }
  }

  /** ReplaceAll replaces something exactly when the pattern occurs. */
  lemma {:induction false} ReplacementsIffOccurs(s: Bytes, pat: Bytes)
    requires |pat| > 0
    ensures Replacements(s, pat) > 0 <==> Occurs(s, pat)
    decreases |s|
  {
    if |s| < |pat| {
    } else if s[..|pat|] == pat {
      assert OccursAt(s, pat, 0);
    } else {
      ReplacementsIffOccurs(s[1..], pat);
      OccursStep(s, pat);
    }
  }

  /** With no occurrence of the pattern the text comes back unchanged; and
      when the replacement differs in length from the pattern, an unchanged
      result means there was no occurrence. */
  lemma UnchangedIffAbsent(s: Bytes, pat: Bytes, rep: Bytes)
    requires |pat| > 0
    ensures !Occurs(s, pat) ==> ReplaceAll(s, pat, rep) == s
    ensures |rep| != |pat| && ReplaceAll(s, pat, rep) == s ==> !Occurs(s, pat)
  {
    ReplacementsIffOccurs(s, pat);
    ReplaceAllLength(s, pat, rep);
    if Replacements(s, pat) == 0 {
      NoReplacementIdentity(s, pat, rep);
    }
  }

  lemma {:induction false} NoReplacementIdentity(s: Bytes, pat: Bytes, rep: Bytes)
    requires |pat| > 0 && Replacements(s, pat) == 0
    ensures ReplaceAll(s, pat, rep) == s
    decreases |s|
  {
    if |s| >= |pat| {
      NoReplacementIdentity(s[1..], pat, rep);
      assert [s[0]] + s[1..] == s;
    }
  }

  /** A pattern that begins with the byte `o` cannot occur in text free of `o`. */
  lemma OpenerFreeHasNoOccurrence(s: Bytes, pat: Bytes, o: Byte)
    requires |pat| > 0 && pat[0] == o && o !in s
    ensures !Occurs(s, pat)
  {
    forall i | 0 <= i && i + |pat| <= |s|
      ensures s[i..i + |pat|][0] == s[i]
    {
    }
  }

  // ---------------------------------------------------------------------
  // Templates made of placeholder tokens and plain text.

  /** A placeholder token: it opens with `o` and `o` does not recur in it
      (`{filename}` with `o` = '{', `<row_count>` with `o` = '<'). */
  predicate TokenShaped(t: Bytes, o: Byte)
  {
    |t| > 0 && t[0] == o && o !in t[1..]
  }

  /** A table of tokens, none of which is a prefix of another. */
  predicate TokenTable(tokens: seq<Bytes>, o: Byte)
  {
    && (forall k :: 0 <= k < |tokens| ==> TokenShaped(tokens[k], o))
    && (forall j, k :: 0 <= j < |tokens| && 0 <= k < |tokens| && j != k ==> !IsPrefix(tokens[j], tokens[k]))
  }

  /** A piece of a template: plain text, or the placeholder number `index`
      of a token table. */
  datatype Piece = Text(text: Bytes) | Slot(index: nat)

  predicate SlotsIn(ps: seq<Piece>, n: nat)
  {
    forall i :: 0 <= i < |ps| ==> ps[i].Slot? ==> ps[i].index < n
  }

  /** The text pieces do not contain the opener byte. */
  predicate TextFree(ps: seq<Piece>, o: Byte)
  {
    forall i :: 0 <= i < |ps| ==> ps[i].Text? ==> o !in ps[i].text
  }

  /** The values already filled into slots that the template uses do not
      contain the opener byte. */
  predicate ValuesFree(ps: seq<Piece>, values: seq<Bytes>, o: Byte)
  {
    forall i :: 0 <= i < |ps| ==> ps[i].Slot? && ps[i].index < |values| ==> o !in values[ps[i].index]
  }

  /** The template with slots `0 .. |values|-1` holding their values and the
      remaining slots still spelled as their tokens. With `values` empty it is
      the template itself; with one value per token it is the filled-in text. */
  function Partial(ps: seq<Piece>, tokens: seq<Bytes>, values: seq<Bytes>): Bytes
    requires SlotsIn(ps, |tokens|) && |values| <= |tokens|
  {
    if |ps| == 0 then []
    else
      (match ps[0]
       case Text(t) => t
       case Slot(k) => if k < |values| then values[k] else tokens[k])
      + Partial(ps[1..], tokens, values)
  }

  /** What one piece contributes to `Partial`. */
  function Filled(p: Piece, tokens: seq<Bytes>, values: seq<Bytes>): Bytes
    requires p.Slot? ==> p.index < |tokens|
  {
    match p
    case Text(t) => t
    case Slot(k) => if k < |values| then values[k] else tokens[k]
  }

  /** `Partial` piece by piece, from position `k` on. */
  lemma PartialStep(ps: seq<Piece>, tokens: seq<Bytes>, values: seq<Bytes>, k: nat)
    requires SlotsIn(ps, |tokens|) && |values| <= |tokens| && k < |ps|
    ensures SlotsIn(ps[k..], |tokens|) && SlotsIn(ps[k + 1..], |tokens|)
    ensures Partial(ps[k..], tokens, values) == Filled(ps[k], tokens, values) + Partial(ps[k + 1..], tokens, values)
  {
    assert forall i :: 0 <= i < |ps[k..]| ==> ps[k..][i] == ps[k + i];
    var rest := ps[k + 1..];
    assert forall i :: 0 <= i < |rest| ==> rest[i] == ps[k + 1 + i];
    assert ps[k..][1..] == ps[k + 1..];
  }

  /** Text free of the opener passes through a replace-all pass untouched,
      whatever follows it. */
  lemma {:induction false} PassOverFreeText(x: Bytes, y: Bytes, pat: Bytes, rep: Bytes, o: Byte)
    requires |pat| > 0 && pat[0] == o && o !in x
    ensures ReplaceAll(x + y, pat, rep) == x + ReplaceAll(y, pat, rep)
    decreases |x|
  {
    if |x| > 0 {
      var s := x + y;
      assert s[1..] == x[1..] + y;
      assert o !in x[1..];
      PassOverFreeText(x[1..], y, pat, rep, o);
      if |s| >= |pat| {
        assert s[0] == x[0] != o;
        assert s[..|pat|] != pat by { assert s[..|pat|][0] != pat[0]; }
      } else {
        assert |y| < |pat|;
        assert ReplaceAll(y, pat, rep) == y;
        assert ReplaceAll(x[1..] + y, pat, rep) == x[1..] + y;
      }
    } else {
      assert x + y == y;
    }
  }

  /** The pattern at the front is replaced and the scan resumes after it. */
  lemma PassOverPattern(pat: Bytes, y: Bytes, rep: Bytes)
    requires |pat| > 0
    ensures ReplaceAll(pat + y, pat, rep) == rep + ReplaceAll(y, pat, rep)
  {
    var s := pat + y;
    assert s[..|pat|] == pat && s[|pat|..] == y;
  }

  /** A token other than the pattern passes through untouched. */
  lemma PassOverOtherToken(t: Bytes, y: Bytes, pat: Bytes, rep: Bytes, o: Byte)
    requires TokenShaped(t, o) && TokenShaped(pat, o)
    requires !IsPrefix(t, pat) && !IsPrefix(pat, t)
    ensures ReplaceAll(t + y, pat, rep) == t + ReplaceAll(y, pat, rep)
  {
    var s := t + y;
    if |s| >= |pat| {
      assert s[..|pat|] != pat by {
        if |pat| <= |t| {
          assert s[..|pat|] == t[..|pat|];
        } else {
          assert s[..|pat|][..|t|] == t;
        }
      }
      assert s[1..] == t[1..] + y;
      PassOverFreeText(t[1..], y, pat, rep, o);
      assert [t[0]] + t[1..] == t;
    } else {
      assert |t| < |pat|;
      assert |y| < |pat|;
      assert ReplaceAll(y, pat, rep) == y;
    }
  }

  /** One replace-all pass for token number `|values|` fills in exactly the
      slots of that token, provided the values filled in so far and all
      text pieces are free of the opener byte. */
  lemma {:induction false} PassFillsSlot(ps: seq<Piece>, tokens: seq<Bytes>, values: seq<Bytes>, v: Bytes, o: Byte)
    requires TokenTable(tokens, o) && SlotsIn(ps, |tokens|) && TextFree(ps, o)
    requires |values| < |tokens|
    requires ValuesFree(ps, values, o)
    ensures ReplaceAll(Partial(ps, tokens, values), tokens[|values|], v) == Partial(ps, tokens, values + [v])
  {
    var pat := tokens[|values|];
    var vs := values + [v];
    if |ps| > 0 {
      var rest := Partial(ps[1..], tokens, values);
      assert SlotsIn(ps[1..], |tokens|) && TextFree(ps[1..], o) && ValuesFree(ps[1..], values, o);
      PassFillsSlot(ps[1..], tokens, values, v, o);
      match ps[0]
      case Text(t) =>
        PassOverFreeText(t, rest, pat, v, o);
      case Slot(k) =>
        if k < |values| {
          PassOverFreeText(values[k], rest, pat, v, o);
        } else if k == |values| {
          var s := pat + rest;
          assert s[..|pat|] == pat;
          assert s[|pat|..] == rest;
        } else {
          PassOverOtherToken(tokens[k], rest, pat, v, o);
        }
    }
  }

  /** The pass for token `k` turns the template with the first `k` slots
      filled into the template with the first `k + 1` filled. */
  lemma PassFillsNext(ps: seq<Piece>, tokens: seq<Bytes>, values: seq<Bytes>, k: nat, o: Byte)
    requires TokenTable(tokens, o) && SlotsIn(ps, |tokens|) && TextFree(ps, o)
    requires |values| == |tokens| && k < |tokens|
    requires ValuesFree(ps, values, o)
    ensures ReplaceAll(Partial(ps, tokens, values[..k]), tokens[k], values[k]) == Partial(ps, tokens, values[..k + 1])
  {
    var done := values[..k];
    forall i | 0 <= i < |ps| && ps[i].Slot? && ps[i].index < |done|
      ensures o !in done[ps[i].index]
    {
      assert done[ps[i].index] == values[ps[i].index];
    }
    PassFillsSlot(ps, tokens, done, values[k], o);
    assert done + [values[k]] == values[..k + 1];
  }

  /** Replace-all passes in order: every `pats[k]` by `reps[k]`, each pass
      working on the previous one's output. */
  function ReplaceEach(s: Bytes, pats: seq<Bytes>, reps: seq<Bytes>): Bytes
    requires |pats| == |reps|
    requires forall k :: 0 <= k < |pats| ==> |pats[k]| > 0
    decreases |pats|
  {
    if |pats| == 0 then s
    else ReplaceEach(ReplaceAll(s, pats[0], reps[0]), pats[1..], reps[1..])
  }

  /** The passes for the remaining tokens fill the remaining slots. */
  lemma {:induction false} FillRemaining(ps: seq<Piece>, tokens: seq<Bytes>, values: seq<Bytes>, k: nat, o: Byte)
    requires TokenTable(tokens, o) && SlotsIn(ps, |tokens|) && TextFree(ps, o)
    requires |values| == |tokens| && k <= |tokens|
    requires ValuesFree(ps, values, o)
    ensures ReplaceEach(Partial(ps, tokens, values[..k]), tokens[k..], values[k..]) == Partial(ps, tokens, values)
    decreases |tokens| - k
  {
    if k == |tokens| {
      assert values[..k] == values;
    } else {
      PassFillsNext(ps, tokens, values, k, o);
      assert tokens[k..][1..] == tokens[k + 1..];
      assert values[k..][1..] == values[k + 1..];
      FillRemaining(ps, tokens, values, k + 1, o);
    }
  }

  /** Filling a template by one pass per token, in table order, gives the
      template with every slot holding its value, provided the text pieces
      and the values its slots receive are free of the opener byte. */
  lemma RenderTemplate(ps: seq<Piece>, tokens: seq<Bytes>, values: seq<Bytes>, o: Byte)
    requires TokenTable(tokens, o) && SlotsIn(ps, |tokens|) && TextFree(ps, o)
    requires |values| == |tokens|
    requires ValuesFree(ps, values, o)
    ensures ReplaceEach(Partial(ps, tokens, []), tokens, values) == Partial(ps, tokens, values)
  {
    assert values[..0] == [] && tokens[0..] == tokens && values[0..] == values;
    FillRemaining(ps, tokens, values, 0, o);
  }

  /** A token spelled as its name between an opening and a closing byte, as
      in `{filename}` or `<row_count>`. */
  function Wrapped(o: Byte, name: Bytes, c: Byte): (t: Bytes)
    ensures |t| == |name| + 2 && t[0] == o && t[|t| - 1] == c
  {
    [o] + name + [c]
  }

  /** Each name wrapped, in order. */
  function WrapAll(o: Byte, names: seq<Bytes>, c: Byte): (ts: seq<Bytes>)
    ensures |ts| == |names|
    ensures forall k :: 0 <= k < |names| ==> ts[k] == Wrapped(o, names[k], c)
  {
    if |names| == 0 then [] else [Wrapped(o, names[0], c)] + WrapAll(o, names[1..], c)
  }

  /** A name that holds neither delimiter byte. */
  predicate Bare(name: Bytes, o: Byte, c: Byte)
  {
    o !in name && c !in name
  }

  /** Wrapped tokens with different bare names are not prefixes of each
      other: the closing byte of the shorter meets a name byte of the
      longer, or, at equal length, the names differ at some position. */
  lemma WrappedNotPrefix(o: Byte, c: Byte, a: Bytes, b: Bytes)
    requires o != c && Bare(a, o, c) && Bare(b, o, c) && a != b
    ensures !IsPrefix(Wrapped(o, a, c), Wrapped(o, b, c))
  {
    var ta := Wrapped(o, a, c);
    var tb := Wrapped(o, b, c);
    assert forall i :: 0 <= i < |a| ==> ta[i + 1] == a[i];
    assert forall i :: 0 <= i < |b| ==> tb[i + 1] == b[i];
    if |ta| <= |tb| {
      var pre := tb[..|ta|];
      if |a| < |b| {
        assert pre[|a| + 1] == b[|a|] != c == ta[|a| + 1];
      } else {
        var i :| 0 <= i < |a| && a[i] != b[i];
        assert pre[i + 1] == b[i] != a[i] == ta[i + 1];
      }
    }
  }

  /** Distinct bare names, wrapped, form a token table. */
  lemma WrappedTable(o: Byte, c: Byte, names: seq<Bytes>, tokens: seq<Bytes>)
    requires o != c
    requires |tokens| == |names|
    requires forall k :: 0 <= k < |names| ==> Bare(names[k], o, c) && tokens[k] == Wrapped(o, names[k], c)
    requires forall j, k :: 0 <= j < |names| && 0 <= k < |names| && j != k ==> names[j] != names[k]
    ensures TokenTable(tokens, o)
  {
    forall k | 0 <= k < |tokens|
      ensures TokenShaped(tokens[k], o)
    {
      var t := tokens[k];
      assert t[1..] == names[k] + [c];
    }
    forall j, k | 0 <= j < |tokens| && 0 <= k < |tokens| && j != k
      ensures !IsPrefix(tokens[j], tokens[k])
    {
      WrappedNotPrefix(o, c, names[j], names[k]);
    }
  }
}
