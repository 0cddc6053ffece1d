/** `generate_balanced_truth_table(n)`: `2^n // 2` ones followed by as many
    zeros, shuffled in place, then checked for balance. */
module TruthTables {
  import opened Bits
  import opened Sequences
  import opened Errors

  /** `[v] * k`: `k` elements, each equal to `v`. */
  function Repeat(v: int, k: nat): (r: seq<int>)
    ensures |r| == k
    ensures forall i :: 0 <= i < |r| ==> r[i] == v
  {
    seq(k, _ => v)
  }

  /** The list before the shuffle, `[1] * half + [0] * half`: `2 * half`
      entries, the first `half` of them 1 and the rest 0. */
  function Unshuffled(half: nat): (r: seq<int>)
    ensures |r| == 2 * half
    ensures forall i :: 0 <= i < |r| ==> r[i] == if i < half then 1 else 0
  {
    Repeat(1, half) + Repeat(0, half)
  }

  /** `random.shuffle(a)`: the Fisher–Yates shuffle, drawing each swap
      partner `j` with `0 <= j <= i` from a source this model leaves
      unspecified. Whatever is drawn, the result is a permutation. */
  method Shuffle(a: array<int>)
    modifies a
    ensures multiset(a[..]) == old(multiset(a[..]))
  {
    var i := a.Length - 1;
    while i > 0
      invariant i < a.Length
      invariant multiset(a[..]) == old(multiset(a[..]))
    {
      var j :| 0 <= j <= i;
      a[i], a[j] := a[j], a[i];
      i := i - 1;
    }
  }

  /** A balanced table: `2^n` entries, half of them 1 and half 0. */
  ghost predicate IsBalanced(n: nat, table: seq<int>)
  {
    && |table| == Pow2(n)
    && Count(table, 1) == Pow2(n) / 2
    && Count(table, 0) == Pow2(n) / 2
  }

  /** The check after the shuffle never fails, so ValueError is never
      raised; the table is a permutation of the unshuffled list, holds only
      0 and 1, and for `n >= 1` is balanced with `2^(n-1)` of each. For
      `n = 0` the halves are empty and so is the table. */
  method GenerateBalancedTruthTable(n: nat) returns (r: Result<seq<int>>)
    ensures r.Ok?
    ensures multiset(r.value) == multiset(Unshuffled(Pow2(n) / 2))
    ensures Count(r.value, 1) == Pow2(n) / 2 && Count(r.value, 0) == Pow2(n) / 2
    ensures forall k :: 0 <= k < |r.value| ==> r.value[k] == 0 || r.value[k] == 1
    ensures n >= 1 ==> IsBalanced(n, r.value) && Pow2(n) / 2 == Pow2(n - 1)
    ensures n == 0 ==> r.value == []
  {
    var size := Pow2(n);
    var halfSize := size / 2;
    var initial := Unshuffled(halfSize);
    var truthTable := new int[|initial|](k requires 0 <= k < |initial| => initial[k]);
    assert truthTable[..] == initial;
    Shuffle(truthTable);
    var table := truthTable[..];
    CountIsMultiplicity(table, 1);
    CountIsMultiplicity(table, 0);
    UnshuffledCounts(halfSize);
    if Count(table, 1) != halfSize || Count(table, 0) != halfSize {
      return Err(ValueError("Truth table is not balanced!"));
    }
    forall k | 0 <= k < |table|
      ensures table[k] == 0 || table[k] == 1
    {
      assert table[k] in multiset(initial);
    }
    assert |table| == |initial| == 2 * halfSize;
    if n >= 1 {
      assert size == 2 * Pow2(n - 1);
      assert halfSize == Pow2(n - 1) && |table| == size;
    }
    return Ok(table);
  }

  /** The unshuffled list holds `half` ones and `half` zeros. */
  lemma UnshuffledCounts(half: nat)
    ensures multiset(Unshuffled(half))[1] == half
    ensures multiset(Unshuffled(half))[0] == half
  {
    CountRepeat(1, 0, half);
    CountRepeat(0, 1, half);
    CountIsMultiplicity(Repeat(1, half), 1);
    CountIsMultiplicity(Repeat(1, half), 0);
    CountIsMultiplicity(Repeat(0, half), 1);
    CountIsMultiplicity(Repeat(0, half), 0);
  }

  /** `[v] * k` holds `k` copies of `v` and none of any other value `w`. */
  lemma {:induction false} CountRepeat(v: int, w: int, k: nat)
    requires v != w
    ensures Count(Repeat(v, k), v) == k
    ensures Count(Repeat(v, k), w) == 0
  {
    if k > 0 {
      assert Repeat(v, k)[..k - 1] == Repeat(v, k - 1);
      CountRepeat(v, w, k - 1);
    }
  }
}
