/**
  Definitions shared by the two grammar transformers: an optional value and
  the allocator of fresh nonterminal names.  Both `elimination_left_recur.py`
  and `left_factor.py` build a new name by appending prime marks (`'`) to a
  base name until the name is not already taken.
 */
module Common {

  datatype Option<T> = None | Some(value: T)

  /** `n` prime marks. */
  function Primes(n: nat): (r: string)
    ensures |r| == n
    ensures forall i | 0 <= i < n :: r[i] == '\''
  {
    if n == 0 then "" else Primes(n - 1) + "'"
  }

  /** `name` is `base` followed by one or more prime marks. */
  predicate IsPrimed(name: string, base: string)
  {
    && |name| > |base|
    && name[..|base|] == base
    && forall i | |base| <= i < |name| :: name[i] == '\''
  }

  lemma PrimedIsBasePlusPrimes(name: string, base: string)
    requires IsPrimed(name, base)
    ensures name == base + Primes(|name| - |base|)
  {
    var p := Primes(|name| - |base|);
    assert forall i | 0 <= i < |name| :: name[i] == (base + p)[i];
  }

  /** A name primed from a primed name is primed from the original base. */
  lemma PrimedTransitive(a: string, b: string, c: string)
    requires IsPrimed(a, b) && IsPrimed(b, c)
    ensures IsPrimed(a, c)
  {
    assert a[..|c|] == a[..|b|][..|c|];
  }

  /** The names ending with the same base and more primes, taken from `taken`. */
  ghost function TakenFrom(taken: set<string>, len: nat): set<string>
  {
    set x | x in taken && |x| >= len
  }

  /**
    The first of `base'`, `base''`, `base'''`, ... that is not in `taken`:
    the `while name in taken: name += "'"` loop of both transformers.
   */
  function FreshName(base: string, taken: set<string>): (r: string)
    ensures IsPrimed(r, base)
    ensures r !in taken
  {
    FreshFrom(base, base + "'", taken)
  }

  /** Every shorter primed name was taken: the fresh name is the first free one. */
  lemma FreshNameFirst(base: string, taken: set<string>)
    ensures forall n | 1 <= n < |FreshName(base, taken)| - |base| :: base + Primes(n) in taken
  {
    var r := FreshFrom(base, base + "'", taken);
  }

  function FreshFrom(base: string, name: string, taken: set<string>): (r: string)
    requires IsPrimed(name, base)
    requires forall n | 1 <= n < |name| - |base| :: base + Primes(n) in taken
    ensures IsPrimed(r, base)
    ensures r !in taken
    ensures |r| >= |name|
    ensures forall n | 1 <= n < |r| - |base| :: base + Primes(n) in taken
    decreases TakenFrom(taken, |name|)
  {
    if name in taken then
      PrimedIsBasePlusPrimes(name, base);
      assert name in TakenFrom(taken, |name|) - TakenFrom(taken, |name| + 1);
      FreshFrom(base, name + "'", taken)
    else
      name
  }
}
