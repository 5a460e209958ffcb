/** The candidate space: every digit vector of a given length, listed in the
    order of the binary numbers the vectors spell. */
module Candidates {

  /** A guess or a candidate answer. Generated vectors hold only the digits 0
      and 1; vectors handed in by the caller are taken as they come. */
  type Vector = seq<int>

  function Pow2(n: nat): (r: nat)
    ensures r >= 1
  {
    if n == 0 then 1 else 2 * Pow2(n - 1)
  }

  /** The `len`-digit base-2 numeral of `i`, most significant digit first,
      padded on the left with zeros. Meant for `i < Pow2(len)`, where no digit
      is lost. */
  function Bits(i: nat, len: nat): (v: Vector)
    ensures |v| == len
  {
    if len == 0 then [] else Bits(i / 2, len - 1) + [i % 2]
  }

  /** The number a digit vector spells in base 2, most significant digit first. */
  function Value(v: Vector): int
  {
    if |v| == 0 then 0 else 2 * Value(v[..|v| - 1]) + v[|v| - 1]
  }

  predicate IsBinary(v: Vector)
  {
    forall k :: 0 <= k < |v| ==> v[k] == 0 || v[k] == 1
  }

  /** Element `i` of the candidate space is the padded numeral of `i`. */
  function AllVectors(len: nat): (all: seq<Vector>)
    ensures |all| == Pow2(len)
  {
    seq(Pow2(len), i requires 0 <= i < Pow2(len) => Bits(i, len))
  }

  /** Writing `i` in binary and reading the digits back gives `i`. */
  lemma {:induction false} BitsRoundTrip(i: nat, len: nat)
    requires i < Pow2(len)
    ensures IsBinary(Bits(i, len)) && Value(Bits(i, len)) == i
  {
    if len > 0 {
      var half := i / 2;
      assert half < Pow2(len - 1);
      BitsRoundTrip(half, len - 1);
      var prefix := Bits(half, len - 1);
      var v := Bits(i, len);
      assert v == prefix + [i % 2];
      assert v[..len - 1] == prefix;
      forall k | 0 <= k < len
        ensures v[k] == 0 || v[k] == 1
      {
        if k < len - 1 {
          assert v[k] == prefix[k];
        }
      }
      assert Value(v) == 2 * Value(prefix) + i % 2;
    }
  }

  /** Reading a binary vector as a number and writing it back gives the vector. */
  lemma {:induction false} ValueRoundTrip(v: Vector)
    requires IsBinary(v)
    ensures 0 <= Value(v) < Pow2(|v|) && Bits(Value(v), |v|) == v
  {
    if |v| > 0 {
      var p := v[..|v| - 1];
      ValueRoundTrip(p);
      assert v == p + [v[|v| - 1]];
    }
  }

  /** The candidate space holds 2^len vectors; vector `i` is a binary vector of
      length `len` that spells `i`, so no two of them are equal. */
  lemma AllVectorsExact(len: nat)
    ensures |AllVectors(len)| == Pow2(len)
    ensures forall i :: 0 <= i < Pow2(len) ==>
      |AllVectors(len)[i]| == len && IsBinary(AllVectors(len)[i]) && Value(AllVectors(len)[i]) == i
    ensures forall i, j :: 0 <= i < j < Pow2(len) ==> AllVectors(len)[i] != AllVectors(len)[j]
  {
    forall i | 0 <= i < Pow2(len)
      ensures IsBinary(AllVectors(len)[i]) && Value(AllVectors(len)[i]) == i
    {
      BitsRoundTrip(i, len);
    }
  }

  /** A vector belongs to the candidate space exactly when it is a binary
      vector of length `len`, and then it sits at the index it spells. */
  lemma AllVectorsMembers(len: nat, v: Vector)
    ensures v in AllVectors(len) <==> |v| == len && IsBinary(v)
    ensures v in AllVectors(len) ==> 0 <= Value(v) < Pow2(len) && AllVectors(len)[Value(v)] == v
  {
    AllVectorsExact(len);
    if |v| == len && IsBinary(v) {
      ValueRoundTrip(v);
      assert AllVectors(len)[Value(v)] == v;
    }
  }

  /** generateAllPossibleNumbers: one numeral per integer below 2^len. The
      source's numeral is not padded down for a length of 0, so the length
      must be positive for the two to agree. */
  method GenerateAllPossibleNumbers(len: nat) returns (numbers: seq<Vector>)
    requires len >= 1
    ensures numbers == AllVectors(len)
  {
    numbers := [];
    var count := Pow2(len);
    var i := 0;
    while i < count
      invariant 0 <= i <= count
      invariant numbers == AllVectors(len)[..i]
    {
      numbers := numbers + [Bits(i, len)];
      i := i + 1;
    }
  }
}
