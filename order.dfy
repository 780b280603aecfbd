/**
 * The visitation order: get_shuffled_order seeds the generator with a fixed
 * seed and shuffles the row positions 0 .. n-1 in place.  The shuffle is the
 * Fisher-Yates walk numpy performs, driven by an abstract stream of draws that
 * stands for the seeded generator; only the permutation property and the
 * dependence on nothing but the seed and the row count are modelled.
 */
module Order {

  /** The seed get_shuffled_order uses by default. */
  const ShuffleSeed: nat := 42

  /** A seeded generator: the seed gives a stream, the stream the k-th draw. */
  type Generator = nat -> nat -> nat

  /** The row positions of a freshly read table, 0 .. n-1 (`df.index.tolist()`). */
  function Range(n: nat): (r: seq<nat>)
    ensures |r| == n
    ensures forall i :: 0 <= i < n ==> r[i] == i
  {
    seq(n, i requires 0 <= i < n => i)
  }

  /**
   * The swap index drawn for a walk step with `bound` choices: the draw
   * reduced into 0 .. bound-1 by repeated subtraction (its remainder modulo
   * `bound`, as `ReduceIsRemainder` shows).
   */
  function Reduce(x: nat, bound: nat): (j: nat)
    requires bound > 0
    ensures j < bound
    decreases x
  {
    if x < bound then x else Reduce(x - bound, bound)
  }

  /**
   * `Reduce` is the remainder of Euclidean division: the draw is a whole
   * number `q` of multiples of `bound` plus the reduced index.
   */
  lemma {:induction false} ReduceIsRemainder(x: nat, bound: nat) returns (q: nat)
    requires bound > 0
    ensures x == q * bound + Reduce(x, bound)
    decreases x
  {
    if x < bound {
      q := 0;
    } else {
      var q' := ReduceIsRemainder(x - bound, bound);
      q := q' + 1;
    }
  }

  /** `s` exchanges the elements at positions i and j. */
  function Swap<T>(s: seq<T>, i: nat, j: nat): (r: seq<T>)
    requires i < |s| && j < |s|
    ensures |r| == |s| && r[i] == s[j] && r[j] == s[i]
    ensures forall k :: 0 <= k < |s| && k != i && k != j ==> r[k] == s[k]
  {
    s[i := s[j]][j := s[i]]
  }

  /** An exchange keeps the elements and their multiplicities. */
  lemma SwapPermutes<T>(s: seq<T>, i: nat, j: nat)
    requires i < |s| && j < |s|
    ensures multiset(Swap(s, i, j)) == multiset(s)
  {
  }

  /**
   * The Fisher-Yates walk from the top: with positions i .. |s|-1 already
   * placed, position i-1 is exchanged with a position j in 0 .. i-1 chosen by
   * the next draw, until one position is left.  Draw number |s| - i is used for
   * position i-1, as the walk starts at the end of the list.
   */
  function FisherYates<T>(s: seq<T>, i: nat, draw: nat -> nat): (r: seq<T>)
    requires i <= |s|
    ensures |r| == |s|
    decreases i
  {
    if i <= 1 then s
    else FisherYates(Swap(s, i - 1, Reduce(draw(|s| - i), i)), i - 1, draw)
  }

  /** The walk only exchanges elements, so its result is a permutation of its input. */
  lemma {:induction false} FisherYatesPermutes<T>(s: seq<T>, i: nat, draw: nat -> nat)
    requires i <= |s|
    ensures multiset(FisherYates(s, i, draw)) == multiset(s)
    decreases i
  {
    if i > 1 {
      var j := Reduce(draw(|s| - i), i);
      SwapPermutes(s, i - 1, j);
      FisherYatesPermutes(Swap(s, i - 1, j), i - 1, draw);
    }
  }

  /** One step of the walk: exchange position i-1 with the drawn position, then walk the rest. */
  lemma FisherYatesStep<T>(s: seq<T>, i: nat, draw: nat -> nat)
    requires 1 < i <= |s|
    ensures FisherYates(s, i, draw) == FisherYates(Swap(s, i - 1, Reduce(draw(|s| - i), i)), i - 1, draw)
  {
  }

  /** The order get_shuffled_order returns for n rows and a seeded stream of draws. */
  function ShuffledOrder(n: nat, draw: nat -> nat): seq<nat>
  {
    FisherYates(Range(n), n, draw)
  }

  /** `order` lists each row position 0 .. n-1 exactly once. */
  predicate IsPermutation(order: seq<nat>, n: nat)
  {
    multiset(order) == multiset(Range(n))
  }

  /** Every element of `order` is a row position of a table of n rows. */
  predicate InRange(order: seq<nat>, n: nat)
  {
    forall k :: 0 <= k < |order| ==> order[k] < n
  }

  /** No row position of 0 .. n-1 occurs in Range(n) twice. */
  lemma {:induction false} RangeCountsOnce(n: nat, x: nat)
    ensures multiset(Range(n))[x] == if x < n then 1 else 0
  {
    if n > 0 {
      RangeCountsOnce(n - 1, x);
      assert Range(n) == Range(n - 1) + [n - 1];
    }
  }

  /** An element found at two positions of a sequence is counted twice by its multiset. */
  lemma TwiceCountedTwice<T>(s: seq<T>, j: nat, k: nat)
    requires j < k < |s| && s[j] == s[k]
    ensures multiset(s)[s[j]] >= 2
  {
    assert s == s[..k] + s[k..];
    assert s[j] in s[..k];
    assert s[k] in s[k..];
  }

  /**
   * What a permutation of the row positions is: as long as the table, every
   * element a row position, every row position present, and no duplicates.
   */
  lemma PermutationFacts(order: seq<nat>, n: nat)
    requires IsPermutation(order, n)
    ensures |order| == n
    ensures InRange(order, n)
    ensures forall i :: 0 <= i < n ==> i in order
    ensures forall j, k :: 0 <= j < k < |order| ==> order[j] != order[k]
  {
    assert |multiset(order)| == |order|;
    forall k | 0 <= k < |order|
      ensures order[k] < n
    {
      assert order[k] in multiset(order);
      RangeCountsOnce(n, order[k]);
    }
    forall i | 0 <= i < n
      ensures i in order
    {
      RangeCountsOnce(n, i);
      assert i in multiset(order);
    }
    forall j, k | 0 <= j < k < |order|
      ensures order[j] != order[k]
    {
      if order[j] == order[k] {
        TwiceCountedTwice(order, j, k);
        RangeCountsOnce(n, order[j]);
      }
    }
  }

  /** The shuffled order is a permutation of the row positions. */
  lemma ShuffledOrderIsPermutation(n: nat, draw: nat -> nat)
    ensures IsPermutation(ShuffledOrder(n, draw), n)
    ensures |ShuffledOrder(n, draw)| == n
  {
    FisherYatesPermutes(Range(n), n, draw);
  }

  /** `np.random.shuffle`: the Fisher-Yates walk, in place on the list of positions. */
  method ShuffleInPlace(a: array<nat>, draw: nat -> nat)
    modifies a
    ensures a[..] == FisherYates(old(a[..]), a.Length, draw)
    ensures multiset(a[..]) == multiset(old(a[..]))
  {
    var i := a.Length;
    while i > 1
      invariant 0 <= i <= a.Length
      invariant FisherYates(a[..], i, draw) == FisherYates(old(a[..]), a.Length, draw)
    {
      WalkStep(a, i, draw);
      i := i - 1;
    }
    FisherYatesPermutes(old(a[..]), a.Length, draw);
  }

  /** One step of the in-place walk: exchange position i-1 with the drawn position. */
  method WalkStep(a: array<nat>, i: nat, draw: nat -> nat)
    requires 1 < i <= a.Length
    modifies a
    ensures a[..] == Swap(old(a[..]), i - 1, Reduce(draw(a.Length - i), i))
    ensures FisherYates(a[..], i - 1, draw) == FisherYates(old(a[..]), i, draw)
  {
    ghost var before := a[..];
    var j := Reduce(draw(a.Length - i), i);
    var t := a[i - 1];
    a[i - 1] := a[j];
    a[j] := t;
    assert a[..] == Swap(before, i - 1, j);
    FisherYatesStep(before, i, draw);
  }

  /**
   * get_shuffled_order: seed the generator, list the row positions and shuffle
   * them.  The result depends on nothing but the row count, the generator and
   * the seed, and it is a permutation of the row positions.
   */
  method GetShuffledOrder(n: nat, gen: Generator, seed: nat) returns (order: seq<nat>)
    ensures order == ShuffledOrder(n, gen(seed))
    ensures IsPermutation(order, n)
  {
    var indices := new nat[n](i => i);
    assert indices[..] == Range(n);
    ShuffleInPlace(indices, gen(seed));
    order := indices[..];
    ShuffledOrderIsPermutation(n, gen(seed));
  }
}
