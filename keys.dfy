/** The `TrieKey` encoding contract and its implementations for the standard
    key types, the `encode` step into nibbles, and the `check_keys` guard. */
module Keys {
  import opened Nibbles
  import opened BigEndian
  import opened KeyMatching

  type int8 = x: int | -0x80 <= x < 0x80
  type uint16 = x: int | 0 <= x < 0x1_0000
  type int16 = x: int | -0x8000 <= x < 0x8000
  type uint32 = x: int | 0 <= x < 0x1_0000_0000
  type int32 = x: int | -0x8000_0000 <= x < 0x8000_0000
  type uint64 = x: int | 0 <= x < 0x1_0000_0000_0000_0000
  type int64 = x: int | -0x8000_0000_0000_0000 <= x < 0x8000_0000_0000_0000

  /** The two ways this layer panics. */
  datatype Failure =
    | Unimplemented  // a key type kept the default `encode_bytes`
    | Collision      // two unequal keys share an encoding

  datatype Result<T> = Ok(value: T) | Err(failure: Failure)

  datatype Outcome = Pass | Fail(failure: Failure)

  /** A key of one of the types that implement `TrieKey`. String keys are
      carried as their UTF-8 bytes, wrapper keys as the bytes they store, and
      `usize`/`isize` as 64-bit integers. `DefaultCodecKey` stands for a key
      type that implements `TrieKey` overriding neither `encode_bytes` nor
      `encode`, so that both keep their defaults. */
  datatype Key =
    | VecKey(vec: seq<Byte>)              // Vec<u8>
    | SliceKey(slice: seq<Byte>)          // &[u8]
    | StringKey(stringBytes: seq<Byte>)   // String
    | StrKey(strBytes: seq<Byte>)         // &str
    | I8Key(i8: int8)
    | U8Key(u8: Byte)
    | LittleEndianKey(leStored: seq<Byte>) // LittleEndian<T>
    | BigEndianKey(beStored: seq<Byte>)    // BigEndian<T>
    | U16Key(u16: uint16)
    | U32Key(u32: uint32)
    | U64Key(u64: uint64)
    | I16Key(i16: int16)
    | I32Key(i32: int32)
    | I64Key(i64: int64)
    | UsizeKey(usize: uint64)
    | IsizeKey(isize: int64)
    | DefaultCodecKey(id: nat)

  /** The Rust type of a key; `check_keys` only ever compares keys of one type. */
  datatype KeyType =
    | VecU8 | SliceU8 | StringType | StrType | I8 | U8 | LittleEndianType | BigEndianType
    | U16 | U32 | U64 | I16 | I32 | I64 | Usize | Isize | DefaultCodecType

  function TypeOf(k: Key): KeyType
  {
    match k
    case VecKey(_) => VecU8
    case SliceKey(_) => SliceU8
    case StringKey(_) => StringType
    case StrKey(_) => StrType
    case I8Key(_) => I8
    case U8Key(_) => U8
    case LittleEndianKey(_) => LittleEndianType
    case BigEndianKey(_) => BigEndianType
    case U16Key(_) => U16
    case U32Key(_) => U32
    case U64Key(_) => U64
    case I16Key(_) => I16
    case I32Key(_) => I32
    case I64Key(_) => I64
    case UsizeKey(_) => Usize
    case IsizeKey(_) => Isize
    case DefaultCodecKey(_) => DefaultCodecType
  }

  /** The integer types listed in `int_keys!`, which go through `BigEndian`. */
  predicate IsMultiByteInt(t: KeyType)
  {
    t in {U16, U32, U64, I16, I32, I64, Usize, Isize}
  }

  predicate IsInt(t: KeyType)
  {
    t in {I8, U8} || IsMultiByteInt(t)
  }

  predicate IsUnsignedInt(t: KeyType)
  {
    t in {U8, U16, U32, U64, Usize}
  }

  predicate IsSignedInt(t: KeyType)
  {
    t in {I8, I16, I32, I64, Isize}
  }

  /** The number of bytes of an integer type (`usize`/`isize` on a 64-bit target). */
  function IntWidth(t: KeyType): nat
  {
    match t
    case I8 | U8 => 1
    case U16 | I16 => 2
    case U32 | I32 => 4
    case U64 | I64 | Usize | Isize => 8
    case _ => 0
  }

  /** The numeric value of an integer key. */
  function IntValue(k: Key): int
  {
    match k
    case I8Key(x) => x
    case U8Key(x) => x
    case U16Key(x) => x
    case U32Key(x) => x
    case U64Key(x) => x
    case I16Key(x) => x
    case I32Key(x) => x
    case I64Key(x) => x
    case UsizeKey(x) => x
    case IsizeKey(x) => x
    case _ => 0
  }

  lemma PowersOf256()
    ensures Pow256(1) == 0x100 && Pow256(2) == 0x1_0000
    ensures Pow256(4) == 0x1_0000_0000 && Pow256(8) == 0x1_0000_0000_0000_0000
  {
    assert Pow256(1) == 0x100;
    assert Pow256(2) == 0x1_0000;
    assert Pow256(3) == 0x100_0000;
    assert Pow256(4) == 0x1_0000_0000;
    assert Pow256(5) == 0x100_0000_0000;
    assert Pow256(6) == 0x1_0000_0000_0000;
    assert Pow256(7) == 0x100_0000_0000_0000;
  }

  /** TrieKey::encode_bytes for each key type. Byte vectors, slices, strings
      and the endian wrappers copy their bytes; `u8` and `i8` give their one
      byte (the bit pattern, for `i8`); the `int_keys!` integers wrap the value
      in `BigEndian` and emit that wrapper's bytes; the default panics. */
  function EncodeBytes(k: Key): (r: Result<seq<Byte>>)
    ensures r.Err? <==> k.DefaultCodecKey?
    ensures r.Err? ==> r.failure == Unimplemented
    decreases if k.SliceKey? || k.BigEndianKey? then 0 else 1
  {
    PowersOf256();
    match k
    case VecKey(v) => Ok(v)
    case SliceKey(s) => Ok(s)
    case StringKey(b) => EncodeBytes(SliceKey(b))
    case StrKey(b) => EncodeBytes(SliceKey(b))
    case I8Key(x) => Ok([AsUnsigned(x, 1)])
    case U8Key(x) => Ok([x])
    case LittleEndianKey(stored) => EncodeBytes(SliceKey(stored))
    case BigEndianKey(stored) => Ok(stored)
    case U16Key(x) => EncodeBytes(BigEndianKey(BigEndianFrom(x, 2)))
    case U32Key(x) => EncodeBytes(BigEndianKey(BigEndianFrom(x, 4)))
    case U64Key(x) => EncodeBytes(BigEndianKey(BigEndianFrom(x, 8)))
    case I16Key(x) => EncodeBytes(BigEndianKey(BigEndianFrom(x, 2)))
    case I32Key(x) => EncodeBytes(BigEndianKey(BigEndianFrom(x, 4)))
    case I64Key(x) => EncodeBytes(BigEndianKey(BigEndianFrom(x, 8)))
    case UsizeKey(x) => EncodeBytes(BigEndianKey(BigEndianFrom(x, 8)))
    case IsizeKey(x) => EncodeBytes(BigEndianKey(BigEndianFrom(x, 8)))
    case DefaultCodecKey(_) => Err(Unimplemented)
  }

  /** The `int_keys!` integers encode to the bytes `BigEndian::from` stores
      for their value at their width. */
  lemma MultiByteIntBytes(k: Key)
    requires IsMultiByteInt(TypeOf(k))
    ensures -SignedBound(IntWidth(TypeOf(k))) <= IntValue(k) < Pow256(IntWidth(TypeOf(k)))
    ensures IsSignedInt(TypeOf(k)) ==> IntValue(k) < SignedBound(IntWidth(TypeOf(k)))
    ensures !IsSignedInt(TypeOf(k)) ==> 0 <= IntValue(k)
    ensures EncodeBytes(k) == Ok(BigEndianFrom(IntValue(k), IntWidth(TypeOf(k))))
  {
    PowersOf256();
    match k
    case U16Key(x) =>
    case U32Key(x) =>
    case U64Key(x) =>
    case I16Key(x) =>
    case I32Key(x) =>
    case I64Key(x) =>
    case UsizeKey(x) =>
    case IsizeKey(x) =>
  }

  /** Every integer key encodes to exactly as many bytes as its type is wide. */
  lemma EncodeBytesWidth(k: Key)
    requires IsInt(TypeOf(k))
    ensures EncodeBytes(k).Ok? && |EncodeBytes(k).value| == IntWidth(TypeOf(k))
  {
    if IsMultiByteInt(TypeOf(k)) {
      MultiByteIntBytes(k);
    }
  }

  /** The default TrieKey::encode: the nibble vector of the key's bytes, two
      nibbles per byte; it fails exactly where `encode_bytes` does. */
  function Encode(k: Key): (r: Result<seq<Nibble>>)
    ensures r.Err? <==> k.DefaultCodecKey?
    ensures r.Err? ==> r.failure == Unimplemented
    ensures r.Ok? ==> |r.value| == 2 * |EncodeBytes(k).value|
  {
    match EncodeBytes(k)
    case Ok(bytes) => Ok(FromByteVec(bytes))
    case Err(e) => Err(e)
  }

  /** check_keys: passes exactly when the two keys are equal, and otherwise
      fails with a collision. */
  function CheckKeys<K(==)>(key1: K, key2: K): (r: Outcome)
    ensures r == Pass <==> key1 == key2
    ensures r.Fail? ==> r.failure == Collision
  {
    if key1 != key2 then Fail(Collision) else Pass
  }

  /** The bytes a byte-like key (vector, slice, string, or endian wrapper) holds. */
  function Payload(k: Key): seq<Byte>
  {
    match k
    case VecKey(v) => v
    case SliceKey(v) => v
    case StringKey(v) => v
    case StrKey(v) => v
    case LittleEndianKey(v) => v
    case BigEndianKey(v) => v
    case _ => []
  }

  predicate IsByteLike(t: KeyType)
  {
    t in {VecU8, SliceU8, StringType, StrType, LittleEndianType, BigEndianType}
  }

  /** Byte-like keys encode to exactly their own bytes, and so to the nibble
      vector of those bytes; the empty key gives no bytes and no nibbles. */
  lemma ByteLikeEncoding(k: Key)
    requires IsByteLike(TypeOf(k))
    ensures EncodeBytes(k) == Ok(Payload(k))
    ensures Encode(k) == Ok(FromByteVec(Payload(k)))
    ensures Payload(k) == [] ==> Encode(k) == Ok([])
  {
  }

  /** `u8` encodes to its own byte, and `i8` to its value modulo 256: the bit
      pattern is reinterpreted, so -1 becomes 255. */
  lemma EightBitEncodings(x: Byte, y: int8)
    ensures EncodeBytes(U8Key(x)) == Ok([x])
    ensures EncodeBytes(I8Key(y)) == Ok([y % 256])
    ensures EncodeBytes(I8Key(-1)) == Ok([255])
  {
    PowersOf256();
    if y < 0 {
      assert y % 256 == y + 256;
    }
  }

  /** The `int_keys!` integers of one type with equal encodings are equal. */
  lemma MultiByteIntInjective(k1: Key, k2: Key)
    requires TypeOf(k1) == TypeOf(k2) && IsMultiByteInt(TypeOf(k1))
    requires EncodeBytes(k1) == EncodeBytes(k2)
    ensures IntValue(k1) == IntValue(k2)
  {
    MultiByteIntBytes(k1);
    MultiByteIntBytes(k2);
    BigEndianFromInjective(IntValue(k1), IntValue(k2), IntWidth(TypeOf(k1)));
  }

  /** No two distinct keys of one type share an encoding: the injectivity every
      `TrieKey` implementation must provide holds for all the built-in ones. */
  lemma EncodeBytesInjective(k1: Key, k2: Key)
    requires TypeOf(k1) == TypeOf(k2)
    requires EncodeBytes(k1).Ok? && EncodeBytes(k1) == EncodeBytes(k2)
    ensures k1 == k2
  {
    var t := TypeOf(k1);
    if IsMultiByteInt(t) {
      MultiByteIntInjective(k1, k2);
    } else if t == I8 {
      PowersOf256();
      AsUnsignedInjective(IntValue(k1), IntValue(k2), 1);
    }
  }

  /** The same holds one step later, for the nibble vectors `encode` produces. */
  lemma EncodeInjective(k1: Key, k2: Key)
    requires TypeOf(k1) == TypeOf(k2)
    requires Encode(k1).Ok? && Encode(k1) == Encode(k2)
    ensures k1 == k2
  {
    FromByteVecInjective(EncodeBytes(k1).value, EncodeBytes(k2).value);
    EncodeBytesInjective(k1, k2);
  }

  /** For unsigned integer keys of one type, numeric order and the byte order of
      the encodings agree, in both directions. */
  lemma UnsignedKeyOrder(k1: Key, k2: Key)
    requires TypeOf(k1) == TypeOf(k2) && IsUnsignedInt(TypeOf(k1))
    ensures EncodeBytes(k1).Ok? && EncodeBytes(k2).Ok?
    ensures IntValue(k1) < IntValue(k2) <==> LexLess(EncodeBytes(k1).value, EncodeBytes(k2).value)
  {
    if TypeOf(k1) == U8 {
      assert EncodeBytes(k1).value[1..] == [] == EncodeBytes(k2).value[1..];
    } else {
      MultiByteIntBytes(k1);
      MultiByteIntBytes(k2);
      BigEndianOrder(IntValue(k1), IntValue(k2), IntWidth(TypeOf(k1)));
    }
  }

  /** Signed keys do not sort numerically by their encoding: -1 sorts after 0
      as an `i16`, and after 1 as an `i8`. */
  lemma SignedKeysNotNumericallyOrdered()
    ensures EncodeBytes(I16Key(0)) == Ok([0x00, 0x00])
    ensures EncodeBytes(I16Key(-1)) == Ok([0xff, 0xff])
    ensures LexLess(EncodeBytes(I16Key(0)).value, EncodeBytes(I16Key(-1)).value)
    ensures LexLess(EncodeBytes(I8Key(1)).value, EncodeBytes(I8Key(-1)).value)
  {
    PowersOf256();
    MultiByteIntBytes(I16Key(0));
    MultiByteIntBytes(I16Key(-1));
    assert AsUnsigned(-1, 2) == 0xffff;
    assert BigEndianBytes(0xff, 1) == BigEndianBytes(0, 0) + [0xff] == [0xff];
    assert BigEndianBytes(0xffff, 2) == BigEndianBytes(0xff, 1) + [0xff] == [0xff, 0xff];
    assert BigEndianBytes(0, 1) == BigEndianBytes(0, 0) + [0] == [0];
    assert BigEndianBytes(0, 2) == BigEndianBytes(0, 1) + [0] == [0, 0];
  }

  /** On the built-in key types the guard never fires after a genuine match:
      two keys of one type with the same nibble vector pass `check_keys`. */
  lemma CheckKeysPassesOnEqualEncodings(k1: Key, k2: Key)
    requires TypeOf(k1) == TypeOf(k2)
    requires Encode(k1).Ok? && Encode(k1) == Encode(k2)
    ensures CheckKeys(k1, k2) == Pass
  {
    EncodeInjective(k1, k2);
  }

  /** Comparing two encoded keys of one type from the start: `Full` exactly when
      the keys are equal, `FirstPrefix` exactly when the first key's bytes are a
      proper prefix of the second's, `SecondPrefix` exactly when the reverse. */
  lemma MatchEncodedKeys(k1: Key, k2: Key)
    requires TypeOf(k1) == TypeOf(k2)
    requires Encode(k1).Ok? && Encode(k2).Ok?
    ensures var r := Compare(Encode(k1).value, Encode(k2).value);
      var b1, b2 := EncodeBytes(k1).value, EncodeBytes(k2).value;
      && (r == Full <==> k1 == k2)
      && (r == FirstPrefix <==> b1 < b2)
      && (r == SecondPrefix <==> b2 < b1)
  {
    var n1, n2 := Encode(k1).value, Encode(k2).value;
    var b1, b2 := EncodeBytes(k1).value, EncodeBytes(k2).value;
    ComparePrefixes(n1, n2);
    FromByteVecPrefix(b1, b2);
    FromByteVecPrefix(b2, b1);
    if n1 == n2 {
      EncodeInjective(k1, k2);
    }
  }

  /** The UTF-8 bytes of "cat", "car" and "carpet". */
  const Cat: seq<Byte> := [0x63, 0x61, 0x74]
  const Car: seq<Byte> := [0x63, 0x61, 0x72]
  const Carpet: seq<Byte> := [0x63, 0x61, 0x72, 0x70, 0x65, 0x74]

  lemma ExampleNibbles()
    ensures Encode(StrKey(Cat)) == Ok([6, 3, 6, 1, 7, 4])
    ensures Encode(StrKey(Car)) == Ok([6, 3, 6, 1, 7, 2])
    ensures Encode(StrKey(Carpet)) == Ok([6, 3, 6, 1, 7, 2, 7, 0, 6, 5, 7, 4])
  {
    assert FromByteVec(Cat) == [6, 3, 6, 1, 7, 4];
    assert FromByteVec(Car) == [6, 3, 6, 1, 7, 2];
    assert FromByteVec(Carpet) == [6, 3, 6, 1, 7, 2, 7, 0, 6, 5, 7, 4];
  }

  /** "cat" and "car" first differ at nibble 5: the low nibble of 't' (0x74)
      against that of 'r' (0x72). */
  lemma MatchCatCar()
    ensures Compare(Encode(StrKey(Cat)).value, Encode(StrKey(Car)).value) == Partial(5)
  {
    ExampleNibbles();
    var a, b := [6, 3, 6, 1, 7, 4], [6, 3, 6, 1, 7, 2];
    assert IsMatch(0, a, b, Partial(5));
    CompareFrom(0, a, b);
    assert a[0..] == a;
    MatchUnique(0, a, b, Partial(5), Compare(a, b));
  }

  /** "car" is a proper prefix of "carpet", and "carpet" extends "car". */
  lemma MatchCarCarpet()
    ensures Compare(Encode(StrKey(Car)).value, Encode(StrKey(Carpet)).value) == FirstPrefix
    ensures Compare(Encode(StrKey(Carpet)).value, Encode(StrKey(Car)).value) == SecondPrefix
  {
    ExampleNibbles();
    var a, b := [6, 3, 6, 1, 7, 2], [6, 3, 6, 1, 7, 2, 7, 0, 6, 5, 7, 4];
    assert IsMatch(0, a, b, FirstPrefix);
    assert IsMatch(0, b, a, SecondPrefix);
    CompareFrom(0, a, b);
    CompareFrom(0, b, a);
    assert a[0..] == a && b[0..] == b;
    MatchUnique(0, a, b, FirstPrefix, Compare(a, b));
    MatchUnique(0, b, a, SecondPrefix, Compare(b, a));
  }

  /** The empty key encodes to no nibbles, so it matches every other key as a
      prefix, or fully when that key is empty too. */
  lemma MatchEmptyKey(other: seq<Nibble>)
    ensures Encode(StrKey([])) == Ok([])
    ensures Compare(Encode(StrKey([])).value, other) == if other == [] then Full else FirstPrefix
  {
    MatchKeysAtEnd([], other);
  }
}
