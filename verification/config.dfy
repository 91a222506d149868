/** Option resolution: how `-n`, `--head` and `--tail` combine into the
    head and tail limits of the runner. `-n` supplies the value for every
    side that was not given explicitly; it is neither split between the two
    sides nor clamped. */
module Config {
  import opened ByteText
  import opened Runner

  /** The options as the command line leaves them: the values of the three
      integer flags, whether each was given, the two templates, and whether
      to number lines. */
  datatype Options = Options(
    files: seq<Bytes>,
    head: int, tail: int, nBoth: int,
    headSet: bool, tailSet: bool, nSet: bool,
    prefix: Bytes, postfix: Bytes, lineNumbers: bool)

  /** `Options.Effective`: `-n` fills in each side that was not given
      explicitly; templates and numbering go to `NewRunner` as they are. */
  function Effective(o: Options): (r: Runner)
    ensures !o.nSet || o.headSet ==> r.head == o.head
    ensures !o.nSet || o.tailSet ==> r.tail == o.tail
    ensures o.nSet && !o.headSet ==> r.head == o.nBoth
    ensures o.nSet && !o.tailSet ==> r.tail == o.nBoth
    ensures r.lineNumbers == o.lineNumbers
    ensures o.prefix != [] ==> r.prefix == o.prefix
    ensures o.postfix != [] ==> r.postfix == o.postfix
    ensures o.prefix == [] ==> r.prefix == DefaultPrefix
    ensures o.postfix == [] ==> r.postfix == DefaultPostfix
  {
    var head := if o.nSet && !o.headSet then o.nBoth else o.head;
    var tail := if o.nSet && !o.tailSet then o.nBoth else o.tail;
    NewRunner(head, tail, o.prefix, o.postfix, o.lineNumbers)
  }

  /** With both sides explicit, the value of `-n` plays no part. */
  lemma BothExplicitIgnoresN(o: Options, n: int)
    requires o.headSet && o.tailSet
    ensures Effective(o) == Effective(o.(nBoth := n, nSet := !o.nSet))
  {
  }

  /** The file list never influences the runner. */
  lemma FilesIgnored(o: Options, files: seq<Bytes>)
    ensures Effective(o.(files := files)) == Effective(o)
  {
  }

  /** Head and tail are resolved by the same rule: exchanging the two sides
      of the options exchanges the two limits. */
  function Swap(o: Options): Options
  {
    o.(head := o.tail, tail := o.head, headSet := o.tailSet, tailSet := o.headSet)
  }

  lemma SwapSides(o: Options)
    ensures Effective(Swap(o)).head == Effective(o).tail
    ensures Effective(Swap(o)).tail == Effective(o).head
  {
  }

  /** The rule never produces a value that is not one of the inputs: no
      split of `-n` between the sides and no clamping. */
  lemma NoSplitNoClamp(o: Options)
    ensures Effective(o).head in {o.head, o.nBoth}
    ensures Effective(o).tail in {o.tail, o.nBoth}
    ensures o.nSet && !o.headSet && !o.tailSet ==> Effective(o).head + Effective(o).tail == 2 * o.nBoth
  {
  }

  /** The cases of the option tests: (head, tail) for the given flags. */
  lemma ExampleCases(files: seq<Bytes>)
    ensures Effective(Options(files, 2, 3, 5, true, true, false, [], [], false)).head == 2
    ensures Effective(Options(files, 2, 3, 5, true, true, false, [], [], false)).tail == 3
    ensures Effective(Options(files, 0, 0, 5, false, false, true, [], [], false)).head == 5
    ensures Effective(Options(files, 0, 0, 5, false, false, true, [], [], false)).tail == 5
    ensures Effective(Options(files, 2, 0, 5, true, false, true, [], [], false)).head == 2
    ensures Effective(Options(files, 2, 0, 5, true, false, true, [], [], false)).tail == 5
    ensures Effective(Options(files, 0, 7, 5, false, true, true, [], [], false)).head == 5
    ensures Effective(Options(files, 0, 7, 5, false, true, true, [], [], false)).tail == 7
    ensures Effective(Options(files, 2, 7, 5, true, true, true, [], [], false)).head == 2
    ensures Effective(Options(files, 2, 7, 5, true, true, true, [], [], false)).tail == 7
  {
  }

  /** Templates and line numbering reach the runner as given. */
  lemma ExampleTemplates(files: seq<Bytes>)
    ensures var r := Effective(Options(files, 1, 0, 0, true, false, false, "PRE\n", "POST\n", true));
      r.head == 1 && r.tail == 0 && r.prefix == "PRE\n" && r.postfix == "POST\n" && r.lineNumbers
  {
  }
}
