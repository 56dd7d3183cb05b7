/** Bytes and byte strings. */
module Bytes {

  type byte = b: int | 0 <= b < 256

  /** Joins byte strings in order. */
  function Concat(parts: seq<seq<byte>>): seq<byte> {
    if parts == [] then [] else parts[0] + Concat(parts[1..])
  }

  lemma {:induction false} ConcatAppend(l: seq<seq<byte>>, m: seq<seq<byte>>)
    ensures Concat(l + m) == Concat(l) + Concat(m)
    decreases |l|
  {
    if l == [] {
      assert l + m == m;
      assert [] + Concat(m) == Concat(m);
    } else {
      assert (l + m)[0] == l[0] && (l + m)[1..] == l[1..] + m;
      ConcatAppend(l[1..], m);
      Associate(l[0], Concat(l[1..]), Concat(m));
    }
  }

  lemma ConcatSnoc(l: seq<seq<byte>>, p: seq<byte>)
    ensures Concat(l + [p]) == Concat(l) + p
  {
    ConcatAppend(l, [p]);
    assert Concat([p]) == p + Concat([p][1..]);
  }

  lemma Associate(a: seq<byte>, b: seq<byte>, c: seq<byte>)
    ensures a + (b + c) == (a + b) + c
  {
  }
}
