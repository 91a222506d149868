/** The older argument normalisation of ctxp: the same rewrite as lx's, but
    only for the flag letters n and t. */
module LegacyCli {
  import opened ByteText
  import opened Args

  const LegacyFlags: set<Byte> := {'n', 't'}

  /** An argument the two variants treat differently: "-h" glued to digits. */
  predicate GluedHead(a: Bytes)
  {
    Glued(a, {'h'})
  }

  lemma GluedSplit(a: Bytes)
    ensures Glued(a, LxFlags) <==> Glued(a, LegacyFlags) || GluedHead(a)
    ensures !(Glued(a, LegacyFlags) && GluedHead(a))
  {
  }

  /** lx splits exactly the arguments ctxp splits plus the glued "-h" ones. */
  lemma {:induction false} GluedCountSplit(args: seq<Bytes>)
    ensures GluedCount(args, LxFlags) == GluedCount(args, LegacyFlags) + GluedCount(args, {'h'})
    decreases |args|
  {
    if |args| > 0 {
      GluedSplit(args[|args| - 1]);
      GluedCountSplit(args[..|args| - 1]);
    }
  }

  lemma {:induction false} SameWithoutHead(args: seq<Bytes>)
    requires forall i :: 0 <= i < |args| ==> !GluedHead(args[i])
    ensures Normalize(args, LxFlags) == Normalize(args, LegacyFlags)
    decreases |args|
  {
    if |args| > 0 {
      var init := args[..|args| - 1];
      assert forall i :: 0 <= i < |init| ==> init[i] == args[i];
      SameWithoutHead(init);
      GluedSplit(args[|args| - 1]);
    }
  }

  /** The two variants agree on an argument list exactly when no argument
      is "-h" glued to digits. */
  lemma Agreement(args: seq<Bytes>)
    ensures Normalize(args, LxFlags) == Normalize(args, LegacyFlags) <==> forall i :: 0 <= i < |args| ==> !GluedHead(args[i])
  {
    if forall i :: 0 <= i < |args| ==> !GluedHead(args[i]) {
      SameWithoutHead(args);
    } else {
      GluedCountZero(args, {'h'});
      GluedCountSplit(args);
      NormalizeLength(args, LxFlags);
      NormalizeLength(args, LegacyFlags);
    }
  }

  lemma ExampleHeadNotSplit()
    ensures Normalize(["-h5"], LegacyFlags) == ["-h5"]
    ensures Normalize(["-h5"], LxFlags) == ["-h", "5"]
    ensures Normalize(["-n2"], LegacyFlags) == ["-n", "2"]
  {
    NormalizeOne("-h5", LegacyFlags);
    NormalizeOne("-h5", LxFlags);
    assert "-h5"[..2] == "-h" && "-h5"[2..] == "5";
    NormalizeOne("-n2", LegacyFlags);
    assert "-n2"[..2] == "-n" && "-n2"[2..] == "2";
  }
}
