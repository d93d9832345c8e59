/** Comparison of two nibble vectors, resuming at an offset into the first one:
    the `KeyMatch` classification and `match_keys`. */
module KeyMatching {
  import opened Nibbles

  /** How the remainder of the first key relates to the second key. */
  datatype KeyMatch =
    | Partial(index: nat)  // the keys agree before `index` and differ at it
    | FirstPrefix          // the first key is a proper prefix of the second
    | SecondPrefix         // the second key is a proper prefix of the first
    | Full                 // the keys are equal

  function Min(x: nat, y: nat): nat
  {
    if x < y then x else y
  }

  /** The closing `match` on the two lengths once no nibble differed. */
  function ClassifyLengths(firstLen: nat, secondLen: nat): KeyMatch
  {
    if firstLen < secondLen then FirstPrefix
    else if firstLen == secondLen then Full
    else SecondPrefix
  }

  /** `first` from `start` and `second` agree on their first `n` nibbles. */
  ghost predicate AgreeUpTo(start: nat, first: seq<Nibble>, second: seq<Nibble>, n: nat)
    requires start + n <= |first| && n <= |second|
  {
    forall k :: 0 <= k < n ==> first[start + k] == second[k]
  }

  /** The meaning of each outcome of comparing `first` from `start` with `second`. */
  ghost predicate IsMatch(start: nat, first: seq<Nibble>, second: seq<Nibble>, r: KeyMatch)
    requires start <= |first|
  {
    var rest := |first| - start;
    match r
    case Partial(i) =>
      i < Min(rest, |second|) && AgreeUpTo(start, first, second, i) && first[start + i] != second[i]
    case FirstPrefix => rest < |second| && AgreeUpTo(start, first, second, rest)
    case Full => rest == |second| && AgreeUpTo(start, first, second, rest)
    case SecondPrefix => rest > |second| && AgreeUpTo(start, first, second, |second|)
  }

  /** A reference definition by structural recursion on the two keys: compare
      the heads, and shift a mismatch found in the tails by one. */
  function Compare(a: seq<Nibble>, b: seq<Nibble>): (r: KeyMatch)
    ensures r.Partial? ==> r.index < |a| && r.index < |b|
  {
    if a == [] || b == [] then ClassifyLengths(|a|, |b|)
    else if a[0] != b[0] then Partial(0)
    else
      match Compare(a[1..], b[1..])
      case Partial(i) => Partial(i + 1)
      case other => other
  }

  /** Compare classifies correctly. */
  lemma {:induction false} CompareSound(a: seq<Nibble>, b: seq<Nibble>)
    ensures IsMatch(0, a, b, Compare(a, b))
  {
    if a != [] && b != [] && a[0] == b[0] {
      CompareSound(a[1..], b[1..]);
    }
  }

  /** At most one outcome fits a given pair of keys. */
  lemma MatchUnique(start: nat, first: seq<Nibble>, second: seq<Nibble>, r1: KeyMatch, r2: KeyMatch)
    requires start <= |first|
    requires IsMatch(start, first, second, r1) && IsMatch(start, first, second, r2)
    ensures r1 == r2
  {
  }

  lemma CompareFrom(start: nat, first: seq<Nibble>, second: seq<Nibble>)
    requires start <= |first|
    ensures IsMatch(start, first, second, Compare(first[start..], second))
  {
    var a := first[start..];
    CompareSound(a, second);
    assert forall k :: 0 <= k < |a| ==> a[k] == first[start + k];
  }

  /** match_keys. The caller must not start beyond the end of `first`: in the
      source the remaining length `first.len() - start_idx` is an unsigned
      subtraction. */
  method MatchKeys(start: nat, first: seq<Nibble>, second: seq<Nibble>) returns (r: KeyMatch)
    requires start <= |first|
    ensures r == Compare(first[start..], second)
  {
    var firstLen := |first| - start;
    var minLength := Min(firstLen, |second|);
    for i := 0 to minLength
      invariant AgreeUpTo(start, first, second, i)
    {
      if first[start + i] != second[i] {
        r := Partial(i);
        CompareFrom(start, first, second);
        MatchUnique(start, first, second, r, Compare(first[start..], second));
        return;
      }
    }
    r := ClassifyLengths(firstLen, |second|);
    CompareFrom(start, first, second);
    MatchUnique(start, first, second, r, Compare(first[start..], second));
  }

  /** The four outcomes of match_keys, stated on the nibbles it reads. A
      `Partial(i)` marks the first disagreement inside the shorter length; each
      of the other three holds exactly when every compared nibble agrees and
      the remaining length of the first key is less than, equal to, or greater
      than the length of the second. */
  lemma MatchKeysOutcomes(start: nat, first: seq<Nibble>, second: seq<Nibble>)
    requires start <= |first|
    ensures var r := Compare(first[start..], second);
      && (r.Partial? ==>
            && r.index < Min(|first| - start, |second|)
            && (forall k :: 0 <= k < r.index ==> first[start + k] == second[k])
            && first[start + r.index] != second[r.index])
      && (r == FirstPrefix <==>
            |first| - start < |second| && forall k :: 0 <= k < |first| - start ==> first[start + k] == second[k])
      && (r == Full <==>
            |first| - start == |second| && forall k :: 0 <= k < |second| ==> first[start + k] == second[k])
      && (r == SecondPrefix <==>
            |first| - start > |second| && forall k :: 0 <= k < |second| ==> first[start + k] == second[k])
  {
    var r := Compare(first[start..], second);
    CompareFrom(start, first, second);
    var rest := |first| - start;
    if rest < |second| && AgreeUpTo(start, first, second, rest) {
      MatchUnique(start, first, second, r, FirstPrefix);
    }
    if rest == |second| && AgreeUpTo(start, first, second, rest) {
      MatchUnique(start, first, second, r, Full);
    }
    if rest > |second| && AgreeUpTo(start, first, second, |second|) {
      MatchUnique(start, first, second, r, SecondPrefix);
    }
  }

  /** Starting at the end of the first key leaves nothing of it to compare: a
      non-empty second key is then a longer key, an empty one an equal key. */
  lemma MatchKeysAtEnd(first: seq<Nibble>, second: seq<Nibble>)
    ensures Compare(first[|first|..], second) == if second == [] then Full else FirstPrefix
  {
  }

  /** Read from the start, the three non-`Partial` outcomes are the equality
      and the two proper-prefix relations between the keys. */
  lemma {:induction false} ComparePrefixes(a: seq<Nibble>, b: seq<Nibble>)
    ensures Compare(a, b) == Full <==> a == b
    ensures Compare(a, b) == FirstPrefix <==> a < b
    ensures Compare(a, b) == SecondPrefix <==> b < a
  {
    if a != [] && b != [] {
      ComparePrefixes(a[1..], b[1..]);
      assert a == [a[0]] + a[1..] && b == [b[0]] + b[1..];
    }
  }
}
