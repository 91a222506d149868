/** Byte strings as the Go code handles them. Go's `[]byte` and `string`
    are both plain byte sequences, so one type serves for file contents,
    paths, templates and command-line arguments alike. */
module ByteText {

  /** A byte, written as the character with the same code, so that the
      source's literals ("\n", "{n}", "-n") read the same way here. */
  type Byte = c: char | c as int < 256

  type Bytes = seq<Byte>

  const NL: Byte := '\n'

  /** `bytes.Join(parts, nil)`: the parts laid end to end. */
  function Concat(parts: seq<Bytes>): Bytes
  {
    if |parts| == 0 then [] else parts[0] + Concat(parts[1..])
  }

  lemma {:induction false} ConcatAppend(a: seq<Bytes>, b: seq<Bytes>)
    ensures Concat(a + b) == Concat(a) + Concat(b)
  {
    if |a| == 0 {
      assert a + b == b;
    } else {
      assert (a + b)[1..] == a[1..] + b;
      ConcatAppend(a[1..], b);
    }
  }

  lemma ConcatSingle(p: Bytes)
    ensures Concat([p]) == p
  {
    assert [p][1..] == [];
  }

  /** `bytes.Count(d, []byte{b})`: how many times `b` occurs in `d`. */
  function Count(d: Bytes, b: Byte): nat
  {
    if |d| == 0 then 0 else (if d[0] == b then 1 else 0) + Count(d[1..], b)
  }

  lemma {:induction false} CountAppend(a: Bytes, c: Bytes, b: Byte)
    ensures Count(a + c, b) == Count(a, b) + Count(c, b)
  {
    if |a| == 0 {
      assert a + c == c;
    } else {
      assert (a + c)[1..] == a[1..] + c;
      CountAppend(a[1..], c, b);
    }
  }

  lemma {:induction false} CountAbsent(d: Bytes, b: Byte)
    requires b !in d
    ensures Count(d, b) == 0
  {
    if |d| > 0 {
      assert b !in d[1..];
      CountAbsent(d[1..], b);
    }
  }

  /** `p` is a prefix of `s`. */
  predicate IsPrefix(p: Bytes, s: Bytes)
  {
    |p| <= |s| && s[..|p|] == p
  }

  /** `p` is a suffix of `s`. */
  predicate IsSuffix(p: Bytes, s: Bytes)
  {
    |p| <= |s| && s[|s| - |p|..] == p
  }
}
