# Radix trie keys: encoding and nibble comparison

This project models the key layer of `radix_trie`, a compressed radix trie
that branches on nibbles (4-bit units). The layer has three jobs:

- **Encoding.** `TrieKey::encode_bytes` turns a key into bytes, and
  `TrieKey::encode` turns those bytes into a nibble vector.
- **Comparison.** `match_keys` compares two nibble vectors, resuming at an
  offset into the first one. It classifies the pair as `Partial(i)`,
  `FirstPrefix`, `SecondPrefix` or `Full`.
- **Collision guard.** `check_keys` panics when two keys that share a trie
  slot are not equal.

Modules:

- `Nibbles` (nibbles.dfy) holds bytes, nibbles and `FromByteVec`.
  `FromByteVec` stands for the external `NibbleVec::from_byte_vec`.
  The model assumes that crate's layout: two nibbles per byte, high nibble first.
- `BigEndian` (big_endian.dfy) models what `BigEndian::from` of the
  `endian_type` crate stores for an integer. That is its two's-complement bit
  pattern, most significant byte first. The module also defines `LexLess`, the
  lexicographic order of Rust's `Vec<u8>`.
- `KeyMatching` (key_match.dfy) holds `KeyMatch` and `MatchKeys`.
  `MatchKeys` is the `for` loop with its early return. It is proved equal to
  `Compare`, a structurally recursive reference definition. `IsMatch` states
  what each of the four outcomes means.
- `Keys` (keys.dfy) holds the key layer itself:
  - `Key` has one variant per `TrieKey` implementation.
  - `DefaultCodecKey` stands for a type that keeps both defaults, the
    `encode_bytes` that panics and the `encode` that calls it.
  - `EncodeBytes` dispatches on the variant.
  - `Encode` is the trait's default `encode`, which every built-in key type uses.
  - `CheckKeys` is the collision guard.

Panics are values here. `Result.Err(Unimplemented)` models the default
`encode_bytes`, and `Outcome.Fail(Collision)` models `check_keys`. The unsigned
subtraction `first.len() - start_idx` in `match_keys` is a precondition,
`start <= |first|`, because for larger offsets the source underflows.

## Model

| member | source | states |
|---|---|---|
| Nibbles.FromByteVec | src/keys.rs:19-21 | the nibble vector has two nibbles per byte; nibble 2i is the high half and nibble 2i+1 the low half of byte i (assumed layout of the external crate) |
| Nibbles.FromByteVecInjective | src/keys.rs:19-21 | two byte vectors with the same nibble vector are equal, so `encode` loses nothing |
| Nibbles.FromByteVecPrefix | src/keys.rs:19-21 | a byte vector is a prefix of another exactly when its nibble vector is a prefix of the other's |
| BigEndian.BigEndianFrom | src/keys.rs:130-143 | the stored bytes of `BigEndian::from(x)` for a w-byte integer are exactly w bytes |
| BigEndian.BigEndianRoundTrip | src/keys.rs:130-143 | decoding the big-endian bytes of an unsigned value gives the value back |
| BigEndian.BigEndianInjective | src/keys.rs:130-143 | distinct w-byte values have distinct big-endian bytes |
| BigEndian.AsUnsignedInjective | src/keys.rs:130-143 | the two's-complement bit pattern identifies a signed value within its range |
| BigEndian.BigEndianFromInjective | src/keys.rs:130-143 | two signed, or two unsigned, integers of one width with equal stored bytes are equal |
| BigEndian.BigEndianOrder | src/keys.rs:130-143 | for unsigned w-byte values, x < y exactly when the bytes of x sort lexicographically before those of y |
| KeyMatching.Compare | src/keys.rs:37-53 | a `Partial(i)` result lies inside both keys |
| KeyMatching.CompareSound | src/keys.rs:37-53 | the comparison's result fits the meaning of its variant: agreement before a `Partial` index and a difference at it, or full agreement with the length relation of the prefix variants and `Full` |
| KeyMatching.MatchUnique | src/keys.rs:24-35 | the four variants are exclusive: at most one outcome fits any pair of keys and offset |
| KeyMatching.MatchKeys | src/keys.rs:37-53 | the index loop with early return yields exactly the classification of the reference comparison of `first[start..]` with `second`; it requires `start <= first.len()` |
| KeyMatching.MatchKeysOutcomes | src/keys.rs:39-52 | `Partial(i)`: i < min(remaining, second.len()), the nibbles before i agree and those at i differ. `FirstPrefix`, `Full`, `SecondPrefix`: each holds exactly when all compared nibbles agree and the remaining length is less than, equal to, or greater than second.len() |
| KeyMatching.MatchKeysAtEnd | src/keys.rs:39-52 | starting at the end of the first key gives `FirstPrefix` for a non-empty second key and `Full` for an empty one |
| KeyMatching.ComparePrefixes | src/keys.rs:24-35 | from offset 0, `Full` means equal, `FirstPrefix` means the first is a proper prefix of the second, `SecondPrefix` the reverse; each holds exactly then |
| Keys.EncodeBytes | src/keys.rs:14-16 | encoding fails, with the "unimplemented" panic, exactly for a key type that keeps the default `encode_bytes` (and the default `encode`) |
| Keys.Encode | src/keys.rs:18-21 | the default `encode` fails exactly where `encode_bytes` does; otherwise it has two nibbles per byte |
| Keys.ByteLikeEncoding | src/keys.rs:74-96 | `Vec<u8>`, `&[u8]`, `String` and `&str` keys, and the endian wrappers, encode to exactly their own bytes; the empty key gives no nibbles |
| Keys.EightBitEncodings | src/keys.rs:98-112 | `u8` encodes to `[x]`; `i8` encodes to `[x mod 256]`, so -1 becomes `[255]` |
| Keys.MultiByteIntBytes | src/keys.rs:130-143 | each `int_keys!` integer lies in its type's range and encodes to the bytes `BigEndian::from` stores for it at its width |
| Keys.EncodeBytesWidth | src/keys.rs:98-143 | every integer key encodes to exactly as many bytes as its type is wide (1, 2, 4 or 8) |
| Keys.MultiByteIntInjective | src/keys.rs:130-143 | two `int_keys!` integers of one type with equal encodings have equal values |
| Keys.EncodeBytesInjective | src/keys.rs:4-11 | no two distinct keys of one type share a byte encoding (the trait's injectivity requirement, for every built-in implementation) |
| Keys.EncodeInjective | src/keys.rs:4-21 | no two distinct keys of one type share a nibble vector |
| Keys.UnsignedKeyOrder | src/keys.rs:130-143 | for `u8`, `u16`, `u32`, `u64` and `usize` keys of one type, a < b exactly when the encoding of a sorts before that of b |
| Keys.SignedKeysNotNumericallyOrdered | src/keys.rs:98-143 | signed keys are not ordered numerically by their encoding: as `i16`, -1 is `[ff, ff]` and sorts after 0, which is `[00, 00]`; as `i8`, -1 sorts after 1 |
| Keys.CheckKeys | src/keys.rs:55-62 | `check_keys` passes exactly when the keys are equal, and otherwise fails with the collision panic |
| Keys.CheckKeysPassesOnEqualEncodings | src/keys.rs:55-62 | two built-in keys of one type with the same nibble vector always pass `check_keys` |
| Keys.MatchEncodedKeys | src/keys.rs:37-53 | comparing two encoded keys of one type from offset 0: `Full` exactly when the keys are equal, `FirstPrefix` exactly when the first key's bytes are a proper prefix of the second's, `SecondPrefix` exactly for the reverse |
| Keys.ExampleNibbles | src/keys.rs:18-21 | "cat", "car" and "carpet" encode to nibbles 6 3 6 1 7 4, 6 3 6 1 7 2 and 6 3 6 1 7 2 7 0 6 5 7 4 |
| Keys.MatchCatCar | src/keys.rs:42-46 | "cat" against "car" is `Partial(5)` |
| Keys.MatchCarCarpet | src/keys.rs:48-52 | "car" against "carpet" is `FirstPrefix`, and "carpet" against "car" is `SecondPrefix` |
| Keys.MatchEmptyKey | src/keys.rs:92-96 | the empty `&str` key encodes to no nibbles, and is `FirstPrefix` against a non-empty key and `Full` against an empty one |

## Left out

- flame/src/main.rs is not part of this model. It is a profiling driver: it reads text files and loops the trie's insert, get and remove operations.
- The internals of the nibble vector crate are not modelled: storage, `get` and `len`. A nibble vector is a `seq<Nibble>`, and the two-nibbles-per-byte, high-first layout of `from_byte_vec` is an assumption.
- The internals of the `endian_type` crate are not modelled. `LittleEndian<T>` and `BigEndian<T>` keys carry the bytes their wrapper stores, and the model emits exactly those. The model does not reason about host byte order. A wrapper key here may carry any number of bytes, and one key type stands for every payload type `T`, whereas in Rust a `LittleEndian<T>` stores exactly `size_of::<T>()` bytes and `LittleEndian<u16>` and `LittleEndian<u32>` are different types; the wrapper lemmas are therefore proved over a larger set of keys than Rust allows. For the `int_keys!` integers, `BigEndian::from` is modelled as storing the value's two's-complement bytes, most significant first.
- `String` and `&str` keys are carried as their UTF-8 bytes. UTF-8 validity, which Rust's types guarantee, is not modelled.
- `usize` and `isize` are modelled as 64-bit integers. Other pointer widths are not modelled.
- Panics are modelled as error values, not as unwinding.
- KeyMatching.MatchKeys: `start_idx > first.len()` is excluded by a precondition. In the source that input underflows (it panics in a debug build and wraps in a release build); the model does not describe what happens then.
- The `i8` and `u8` encoders push one byte into a fresh local `Vec`. The model builds that one-element sequence as a value; the vector is never shared, so nothing is lost.
- `check_keys` firing on a real collision needs a user key type whose `encode_bytes` is not injective. `Keys.CheckKeys` states the failure for any two unequal keys. Every built-in encoder is proved injective, so no built-in pair triggers it.
- Key types that override `encode` directly are not modelled; `Keys.Encode` is the trait's default `encode` only. Such a type is a working key whose `encode` succeeds while a direct `encode_bytes` call would still panic.
- Keys.Encode: its own contract gives only the failure case and the length. The nibble contents follow from `Nibbles.FromByteVec`'s contract and from `Keys.ByteLikeEncoding`.
