/** Bytes, nibbles and the nibble vector the trie keys are turned into.
    The nibble vector itself belongs to an external crate; only the layout the
    key layer relies on is modelled: two nibbles per byte, high nibble first. */
module Nibbles {

  type Byte = x: int | 0 <= x < 256

  type Nibble = x: int | 0 <= x < 16

  /** NibbleVec::from_byte_vec: each byte becomes its high nibble followed by
      its low nibble (the assumed layout of the external representation). */
  function FromByteVec(bytes: seq<Byte>): (n: seq<Nibble>)
    ensures |n| == 2 * |bytes|
    ensures forall i :: 0 <= i < |bytes| ==> n[2 * i] == bytes[i] / 16 && n[2 * i + 1] == bytes[i] % 16
  {
    if bytes == [] then []
    else
      var rest := FromByteVec(bytes[1..]);
      assert forall i :: 1 <= i < |bytes| ==> bytes[i] == bytes[1..][i - 1];
      [bytes[0] / 16, bytes[0] % 16] + rest
  }

  /** The nibble vector of a concatenation is the concatenation of the nibble vectors. */
  lemma {:induction false} FromByteVecAppend(a: seq<Byte>, b: seq<Byte>)
    ensures FromByteVec(a + b) == FromByteVec(a) + FromByteVec(b)
  {
    if a == [] {
      assert a + b == b;
    } else {
      assert (a + b)[1..] == a[1..] + b;
      FromByteVecAppend(a[1..], b);
    }
  }

  /** Two byte vectors with the same nibble vector are equal: no information is lost. */
  lemma {:induction false} FromByteVecInjective(a: seq<Byte>, b: seq<Byte>)
    requires FromByteVec(a) == FromByteVec(b)
    ensures a == b
  {
    if a != [] {
      assert |b| == |a|;
      assert a[0] == 16 * (a[0] / 16) + a[0] % 16;
      assert b[0] == 16 * (b[0] / 16) + b[0] % 16;
      assert FromByteVec(a)[0] == FromByteVec(b)[0] && FromByteVec(a)[1] == FromByteVec(b)[1];
      assert FromByteVec(a) == [a[0] / 16, a[0] % 16] + FromByteVec(a[1..]);
      assert FromByteVec(b) == [b[0] / 16, b[0] % 16] + FromByteVec(b[1..]);
      assert FromByteVec(a[1..]) == FromByteVec(a)[2..] == FromByteVec(b)[2..] == FromByteVec(b[1..]);
      FromByteVecInjective(a[1..], b[1..]);
      assert a == [a[0]] + a[1..] && b == [b[0]] + b[1..];
    }
  }

  /** A byte vector is a prefix of another exactly when its nibble vector is a
      prefix of the other's: the trie's nibble-level prefixes are byte-level ones
      whenever they end on a byte boundary. */
  lemma FromByteVecPrefix(a: seq<Byte>, b: seq<Byte>)
    ensures a <= b <==> FromByteVec(a) <= FromByteVec(b)
  {
    if a <= b {
      assert b == a + b[|a|..];
      FromByteVecAppend(a, b[|a|..]);
    }
    if FromByteVec(a) <= FromByteVec(b) {
      assert |a| <= |b|;
      assert b == b[..|a|] + b[|a|..];
      FromByteVecAppend(b[..|a|], b[|a|..]);
      assert FromByteVec(b[..|a|]) == FromByteVec(b)[..2 * |a|] == FromByteVec(a);
      FromByteVecInjective(b[..|a|], a);
    }
  }
}
