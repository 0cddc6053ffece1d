/** Python's `list.count` and `str.join`, as functions on sequences. */
module Sequences {

  /** `s.count(v)`: how many elements of `s` equal `v`; never more than
      there are elements. */
  function Count(s: seq<int>, v: int): (c: nat)
    ensures c <= |s|
  {
    if s == [] then 0
    else Count(s[..|s| - 1], v) + (if s[|s| - 1] == v then 1 else 0)
  }

  /** The count is the multiplicity of `v` in the multiset of `s`, so it
      is the same for every permutation of `s`. */
  lemma {:induction false} CountIsMultiplicity(s: seq<int>, v: int)
    ensures Count(s, v) == multiset(s)[v]
  {
    if s != [] {
      var init := s[..|s| - 1];
      assert s == init + [s[|s| - 1]];
      CountIsMultiplicity(init, v);
    }
  }

  /** A sequence that is 1 at position `p` and 0 elsewhere contains exactly
      one 1. */
  lemma {:induction false} CountUnit(s: seq<int>, p: nat)
    requires p < |s|
    requires forall k :: 0 <= k < |s| ==> s[k] == if k == p then 1 else 0
    ensures Count(s, 1) == 1
  {
    var init := s[..|s| - 1];
    if p < |s| - 1 {
      CountUnit(init, p);
    } else {
      CountNone(init, 1);
    }
  }

  /** A sequence without `v` counts no `v`. */
  lemma {:induction false} CountNone(s: seq<int>, v: int)
    requires forall k :: 0 <= k < |s| ==> s[k] != v
    ensures Count(s, v) == 0
  {
    if s != [] {
      CountNone(s[..|s| - 1], v);
    }
  }

  /** `sep.join(parts)`: the parts in order with `sep` between neighbours.
      The joined string starts with the first part. */
  function Join(parts: seq<string>, sep: string): (r: string)
    ensures parts != [] ==> parts[0] <= r
  {
    if parts == [] then ""
    else if |parts| == 1 then parts[0]
    else parts[0] + sep + Join(parts[1..], sep)
  }

  /** Joining one more part appends the separator and that part: the text
      grows the way a loop appending to a list would build it. */
  lemma {:induction false} JoinSnoc(parts: seq<string>, sep: string, last: string)
    requires parts != []
    ensures Join(parts + [last], sep) == Join(parts, sep) + sep + last
  {
    if |parts| > 1 {
      assert (parts + [last])[1..] == parts[1..] + [last];
      JoinSnoc(parts[1..], sep, last);
    }
  }
}
