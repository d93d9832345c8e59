/** Fixed-width integers as the `endian_type` crate's BigEndian wrapper stores
    them: the two's-complement bit pattern of the value, most significant byte
    first. Also the lexicographic order on byte vectors that Rust's `Vec<u8>`
    uses, under which the big-endian encoding of unsigned integers is monotone. */
module BigEndian {
  import opened Nibbles

  /** 256 to the power `w`: the number of values of a `w`-byte integer. */
  function Pow256(w: nat): (p: nat)
    ensures p >= 1
  {
    if w == 0 then 1 else 256 * Pow256(w - 1)
  }

  /** Half the range of a `w`-byte integer: a signed `w`-byte value lies in
      `[-SignedBound(w), SignedBound(w))`. */
  function SignedBound(w: nat): int
  {
    Pow256(w) / 2
  }

  /** The bit pattern of `x` read as an unsigned `w`-byte integer (Rust's `as`
      cast between a signed type and the unsigned type of the same width). */
  function AsUnsigned(x: int, w: nat): (u: nat)
    requires -SignedBound(w) <= x < Pow256(w)
    ensures u < Pow256(w)
  {
    if x < 0 then x + Pow256(w) else x
  }

  /** The two's-complement bit pattern identifies a signed value in range. */
  lemma AsUnsignedInjective(x: int, y: int, w: nat)
    requires -SignedBound(w) <= x < SignedBound(w)
    requires -SignedBound(w) <= y < SignedBound(w)
    requires AsUnsigned(x, w) == AsUnsigned(y, w)
    ensures x == y
  {
  }

  /** BigEndian::from on a `w`-byte unsigned value: its `w` bytes, most
      significant first (the least significant byte is the last one). */
  function BigEndianBytes(x: nat, w: nat): (r: seq<Byte>)
    requires x < Pow256(w)
    ensures |r| == w
    decreases w
  {
    if w == 0 then [] else BigEndianBytes(x / 256, w - 1) + [x % 256]
  }

  /** The value a big-endian byte vector denotes; the inverse of BigEndianBytes. */
  function FromBigEndian(bytes: seq<Byte>): (x: nat)
    ensures x < Pow256(|bytes|)
  {
    if bytes == [] then 0
    else 256 * FromBigEndian(bytes[..|bytes| - 1]) + bytes[|bytes| - 1]
  }

  /** Decoding the big-endian bytes of `x` gives back `x`. */
  lemma {:induction false} BigEndianRoundTrip(x: nat, w: nat)
    requires x < Pow256(w)
    ensures FromBigEndian(BigEndianBytes(x, w)) == x
  {
    if w > 0 {
      var bytes := BigEndianBytes(x, w);
      assert bytes[..w - 1] == BigEndianBytes(x / 256, w - 1);
      BigEndianRoundTrip(x / 256, w - 1);
    }
  }

  /** Distinct values of one width have distinct big-endian encodings. */
  lemma BigEndianInjective(x: nat, y: nat, w: nat)
    requires x < Pow256(w) && y < Pow256(w)
    requires BigEndianBytes(x, w) == BigEndianBytes(y, w)
    ensures x == y
  {
    BigEndianRoundTrip(x, w);
    BigEndianRoundTrip(y, w);
  }

  /** The lexicographic order of Rust's `Vec<u8>`: the first differing byte
      decides, and a proper prefix is smaller. */
  predicate LexLess(a: seq<Byte>, b: seq<Byte>)
  {
    if a == [] then b != []
    else b != [] && (a[0] < b[0] || (a[0] == b[0] && LexLess(a[1..], b[1..])))
  }

  /** Between vectors of one length, one more byte at the end decides only a tie. */
  lemma {:induction false} LexLessSnoc(a: seq<Byte>, b: seq<Byte>, x: Byte, y: Byte)
    requires |a| == |b|
    ensures LexLess(a + [x], b + [y]) <==> LexLess(a, b) || (a == b && x < y)
  {
    if a != [] {
      assert (a + [x])[1..] == a[1..] + [x];
      assert (b + [y])[1..] == b[1..] + [y];
      LexLessSnoc(a[1..], b[1..], x, y);
      assert a == [a[0]] + a[1..] && b == [b[0]] + b[1..];
    }
  }

  /** Big-endian encoding preserves order, in both directions: for values of one
      width, `x < y` exactly when the encoding of `x` sorts before that of `y`. */
  lemma {:induction false} BigEndianOrder(x: nat, y: nat, w: nat)
    requires x < Pow256(w) && y < Pow256(w)
    ensures x < y <==> LexLess(BigEndianBytes(x, w), BigEndianBytes(y, w))
  {
    if w > 0 {
      BigEndianOrder(x / 256, y / 256, w - 1);
      LexLessSnoc(BigEndianBytes(x / 256, w - 1), BigEndianBytes(y / 256, w - 1), x % 256, y % 256);
      if BigEndianBytes(x / 256, w - 1) == BigEndianBytes(y / 256, w - 1) {
        BigEndianInjective(x / 256, y / 256, w - 1);
      }
    }
  }

  /** The bytes a `BigEndian<T>` made by `BigEndian::from(x)` stores, for a
      `w`-byte integer type `T` (signed or unsigned): the bit pattern of `x`,
      most significant byte first. */
  function BigEndianFrom(x: int, w: nat): (r: seq<Byte>)
    requires -SignedBound(w) <= x < Pow256(w)
    ensures |r| == w
  {
    BigEndianBytes(AsUnsigned(x, w), w)
  }

  /** Two integers of one `w`-byte type, both signed or both unsigned, with
      the same stored bytes are equal. */
  lemma BigEndianFromInjective(x: int, y: int, w: nat)
    requires -SignedBound(w) <= x < Pow256(w) && -SignedBound(w) <= y < Pow256(w)
    requires (x < SignedBound(w) && y < SignedBound(w)) || (0 <= x && 0 <= y)
    requires BigEndianFrom(x, w) == BigEndianFrom(y, w)
    ensures x == y
  {
    BigEndianInjective(AsUnsigned(x, w), AsUnsigned(y, w), w);
  }
}
