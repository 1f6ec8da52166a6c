/** Python's substring test `needle in hay` on `str` values. */
module Substrings {

  /** `needle` occurs in `hay` starting at index `i`. */
  ghost predicate OccursAt(hay: string, needle: string, i: nat)
  {
    i <= |hay| && needle <= hay[i..]
  }

  /** `needle in hay`: tries every starting index from the left. */
  function Contains(hay: string, needle: string): bool
    decreases |hay|
  {
    needle <= hay || (hay != [] && Contains(hay[1..], needle))
  }

  /** The scan agrees with the definition: some index of `hay` starts a copy of `needle`. */
  lemma {:induction false} ContainsIffOccurs(hay: string, needle: string)
    ensures Contains(hay, needle) <==> exists i: nat :: OccursAt(hay, needle, i)
    decreases |hay|
  {
    if needle <= hay {
      assert OccursAt(hay, needle, 0);
    } else if hay != [] {
      ContainsIffOccurs(hay[1..], needle);
      forall i: nat | OccursAt(hay[1..], needle, i)
        ensures OccursAt(hay, needle, i + 1)
      {
        assert hay[1..][i..] == hay[i + 1..];
      }
      assert hay[0..] == hay;
      forall i: nat | OccursAt(hay, needle, i)
        ensures i >= 1 && OccursAt(hay[1..], needle, i - 1)
      {
        assert i != 0;
        assert hay[1..][i - 1..] == hay[i..];
      }
    }
  }
}
