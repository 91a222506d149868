/** Command-line argument normalisation: a glued short flag with a numeric
    value, such as "-n5", is split into the flag and its value ("-n", "5")
    so that the flag parser sees an integer flag followed by its argument.
    The rewrite is parameterised by the set of flag letters it applies to;
    lx uses n, t and h. */
module Args {
  import opened ByteText
  import opened Decimal

  /** `a` is '-', a flag letter, and a non-empty run of ASCII digits. Go
      ranges over the runes of the suffix, but a byte outside '0'..'9' never
      decodes to a digit rune, so testing bytes is the same test. */
  predicate Glued(a: Bytes, flags: set<Byte>)
  {
    |a| > 2 && a[0] == '-' && a[1] in flags && AllDigits(a[2..])
  }

  /** What one argument becomes. */
  function Expand(a: Bytes, flags: set<Byte>): (r: seq<Bytes>)
    ensures Concat(r) == a
    ensures |r| == (if Glued(a, flags) then 2 else 1)
    ensures Glued(a, flags) ==> |r[0]| == 2 && r[0][0] == '-' && r[0][1] == a[1] && |r[1]| > 0 && AllDigits(r[1])
    ensures !Glued(a, flags) ==> r[0] == a
  {
    if Glued(a, flags) then
      var r := [a[..2], a[2..]];
      assert r[1..] == [a[2..]];
      ConcatSingle(a[2..]);
      assert a[..2] + a[2..] == a;
      r
    else
      ConcatSingle(a);
      [a]
  }

  /** `NormalizeArgs`, argument by argument in input order. */
  function Normalize(args: seq<Bytes>, flags: set<Byte>): seq<Bytes>
  {
    if |args| == 0 then args
    else Normalize(args[..|args| - 1], flags) + Expand(args[|args| - 1], flags)
  }

  /** How many arguments are split. */
  function GluedCount(args: seq<Bytes>, flags: set<Byte>): nat
  {
    if |args| == 0 then 0
    else GluedCount(args[..|args| - 1], flags) + (if Glued(args[|args| - 1], flags) then 1 else 0)
  }

  /** The loop of `NormalizeArgs`: out grows by one or two elements per
      argument. */
  method NormalizeArgs(args: seq<Bytes>, flags: set<Byte>) returns (out: seq<Bytes>)
    ensures out == Normalize(args, flags)
    ensures Concat(out) == Concat(args)
    ensures |out| == |args| + GluedCount(args, flags)
  {
    if |args| == 0 {
      return args;
    }
    out := [];
    var i := 0;
    while i < |args|
      invariant 0 <= i <= |args|
      invariant out == Normalize(args[..i], flags)
    {
      var a := args[i];
      assert args[..i + 1][..i] == args[..i];
      if Glued(a, flags) {
        out := out + [a[..2], a[2..]];
      } else {
        out := out + [a];
      }
      i := i + 1;
    }
    assert args[..|args|] == args;
    NormalizeConcat(args, flags);
    NormalizeLength(args, flags);
  }

  /** Splitting never loses or reorders a byte: the arguments laid end to
      end are the same before and after. */
  lemma {:induction false} NormalizeConcat(args: seq<Bytes>, flags: set<Byte>)
    ensures Concat(Normalize(args, flags)) == Concat(args)
    decreases |args|
  {
    if |args| > 0 {
      var init := args[..|args| - 1];
      var a := args[|args| - 1];
      NormalizeConcat(init, flags);
      ConcatAppend(Normalize(init, flags), Expand(a, flags));
      assert init + [a] == args;
      ConcatAppend(init, [a]);
      ConcatSingle(a);
    }
  }

  /** One extra element per split argument. */
  lemma {:induction false} NormalizeLength(args: seq<Bytes>, flags: set<Byte>)
    ensures |Normalize(args, flags)| == |args| + GluedCount(args, flags)
    decreases |args|
  {
    if |args| > 0 {
      NormalizeLength(args[..|args| - 1], flags);
    }
  }

  /** The rewrite works argument by argument: normalising a concatenation
      is normalising each part, in order. */
  lemma {:induction false} NormalizeAppend(a: seq<Bytes>, b: seq<Bytes>, flags: set<Byte>)
    ensures Normalize(a + b, flags) == Normalize(a, flags) + Normalize(b, flags)
    decreases |b|
  {
    if |b| == 0 {
      assert a + b == a;
    } else {
      var init := b[..|b| - 1];
      assert (a + b)[..|a + b| - 1] == a + init;
      NormalizeAppend(a, init, flags);
    }
  }

  /** The split count is zero exactly when no argument is glued. */
  lemma {:induction false} GluedCountZero(args: seq<Bytes>, flags: set<Byte>)
    ensures GluedCount(args, flags) == 0 <==> forall i :: 0 <= i < |args| ==> !Glued(args[i], flags)
    decreases |args|
  {
    if |args| > 0 {
      var init := args[..|args| - 1];
      GluedCountZero(init, flags);
      if forall i :: 0 <= i < |init| ==> !Glued(init[i], flags) {
        if !Glued(args[|args| - 1], flags) {
          forall i | 0 <= i < |args|
            ensures !Glued(args[i], flags)
          {
            if i < |init| {
              assert args[i] == init[i];
            }
          }
        }
      } else {
        var i :| 0 <= i < |init| && Glued(init[i], flags);
        assert args[i] == init[i];
      }
    }
  }

  /** Arguments with nothing to split come back unchanged, and an unchanged
      list means nothing was split. */
  lemma {:induction false} NormalizeIdentity(args: seq<Bytes>, flags: set<Byte>)
    ensures Normalize(args, flags) == args <==> forall i :: 0 <= i < |args| ==> !Glued(args[i], flags)
    decreases |args|
  {
    NormalizeLength(args, flags);
    GluedCountZero(args, flags);
    if forall i :: 0 <= i < |args| ==> !Glued(args[i], flags) {
      NoneGluedIdentity(args, flags);
    }
  }

  lemma {:induction false} NoneGluedIdentity(args: seq<Bytes>, flags: set<Byte>)
    requires forall i :: 0 <= i < |args| ==> !Glued(args[i], flags)
    ensures Normalize(args, flags) == args
    decreases |args|
  {
    if |args| > 0 {
      var init := args[..|args| - 1];
      assert forall i :: 0 <= i < |init| ==> init[i] == args[i];
      NoneGluedIdentity(init, flags);
      assert init + [args[|args| - 1]] == args;
    }
  }

  /** Nothing in the output is glued any more: a split yields a two-byte
      flag and a digit string, and neither has the shape again. */
  lemma {:induction false} OutputNotGlued(args: seq<Bytes>, flags: set<Byte>)
    ensures forall i :: 0 <= i < |Normalize(args, flags)| ==> !Glued(Normalize(args, flags)[i], flags)
    decreases |args|
  {
    if |args| > 0 {
      var init := args[..|args| - 1];
      OutputNotGlued(init, flags);
      var prev := Normalize(init, flags);
      var a := args[|args| - 1];
      var e := Expand(a, flags);
      forall i | 0 <= i < |e|
        ensures !Glued(e[i], flags)
      {
        if Glued(a, flags) && i == 1 {
          assert IsDigit(e[1][0]);
        }
      }
      assert forall i :: 0 <= i < |prev + e| ==> (prev + e)[i] == (if i < |prev| then prev[i] else e[i - |prev|]);
    }
  }

  /** Normalising twice is normalising once. */
  lemma Idempotent(args: seq<Bytes>, flags: set<Byte>)
    ensures Normalize(Normalize(args, flags), flags) == Normalize(args, flags)
  {
    OutputNotGlued(args, flags);
    NoneGluedIdentity(Normalize(args, flags), flags);
  }

  /** The flag letters lx splits. */
  const LxFlags: set<Byte> := {'n', 't', 'h'}

  lemma {:induction false} NormalizeOne(a: Bytes, flags: set<Byte>)
    ensures Normalize([a], flags) == Expand(a, flags)
  {
    assert [a][..0] == [];
  }

  lemma ExampleSplits()
    ensures Normalize(["-n5"], LxFlags) == ["-n", "5"]
    ensures Normalize(["-t10"], LxFlags) == ["-t", "10"]
    ensures Normalize(["-h5"], LxFlags) == ["-h", "5"]
  {
    NormalizeOne("-n5", LxFlags);
    assert "-n5"[..2] == "-n" && "-n5"[2..] == "5";
    NormalizeOne("-t10", LxFlags);
    assert "-t10"[..2] == "-t" && "-t10"[2..] == "10";
    NormalizeOne("-h5", LxFlags);
    assert "-h5"[..2] == "-h" && "-h5"[2..] == "5";
  }

  /** A flag letter followed by something other than digits stays whole. */
  lemma ExampleNotDigits()
    ensures Normalize(["-nfoo"], LxFlags) == ["-nfoo"]
    ensures Normalize(["-h-5"], LxFlags) == ["-h-5"]
  {
    assert !Glued("-nfoo", LxFlags) by {
      assert !IsDigit("-nfoo"[2]);
    }
    NormalizeOne("-nfoo", LxFlags);
    assert !Glued("-h-5", LxFlags) by {
      assert !IsDigit("-h-5"[2]);
    }
    NormalizeOne("-h-5", LxFlags);
  }

  /** Other letters, and a bare flag, stay whole. */
  lemma ExampleOtherFlags()
    ensures Normalize(["-x2"], LxFlags) == ["-x2"]
    ensures Normalize(["-n"], LxFlags) == ["-n"]
  {
    assert !Glued("-x2", LxFlags);
    NormalizeOne("-x2", LxFlags);
    NormalizeOne("-n", LxFlags);
  }
}
