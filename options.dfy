/**
  The four answer options of one multiple-choice item (Backend/app.py:215-224):
  the distractors `random.sample` picks, the `Option {n}` padding, the
  in-place `random.shuffle` and the `list.index` lookup of the answer.

  Randomness is an input. A sample is given by the positions `random.sample`
  picks, in the order it returns them; a shuffle is given by the index
  `randbelow(i + 1)` returns for each position i, as `random.shuffle` swaps
  from the last position down to position 1.
 */
module McqOptions {
  import opened PyStr

  // ---------------------------------------------------------------- sampling

  /** No position is picked twice: `random.sample` draws without replacement. */
  predicate Distinct(idx: seq<nat>) {
    forall i, j :: 0 <= i < j < |idx| ==> idx[i] != idx[j]
  }

  predicate InRange(idx: seq<nat>, n: nat) {
    forall i :: 0 <= i < |idx| ==> idx[i] < n
  }

  /** The positions `random.sample(population, min(3, n))` can return for a population of size n. */
  predicate IsSampleOf(idx: seq<nat>, n: nat) {
    |idx| == Min(3, n) && InRange(idx, n) && Distinct(idx)
  }

  /** The elements at the picked positions, in the order picked. */
  function Pick<T>(s: seq<T>, idx: seq<nat>): (r: seq<T>)
    requires InRange(idx, |s|)
    ensures |r| == |idx|
    ensures forall k :: 0 <= k < |r| ==> r[k] == s[idx[k]]
  {
    seq(|idx|, k requires 0 <= k < |idx| => s[idx[k]])
  }

  /** Counting the elements of `s` at the positions of a set. */
  function CountAt<T>(s: seq<T>, positions: set<nat>): (m: multiset<T>)
    requires forall p :: p in positions ==> p < |s|
    decreases |s|
  {
    if s == [] then multiset{}
    else
      var last := |s| - 1;
      CountAt(s[..last], positions - {last}) + (if last in positions then multiset{s[last]} else multiset{})
  }

  lemma {:induction false} CountAtSub<T>(s: seq<T>, positions: set<nat>)
    requires forall p :: p in positions ==> p < |s|
    ensures CountAt(s, positions) <= multiset(s)
    decreases |s|
  {
    if s != [] {
      var last := |s| - 1;
      CountAtSub(s[..last], positions - {last});
      assert s == s[..last] + [s[last]];
    }
  }

  lemma {:induction false} CountAtAll<T>(s: seq<T>, positions: set<nat>)
    requires forall p :: p in positions ==> p < |s|
    requires forall p: nat :: p < |s| ==> p in positions
    ensures CountAt(s, positions) == multiset(s)
    decreases |s|
  {
    if s != [] {
      var last := |s| - 1;
      CountAtAll(s[..last], positions - {last});
      assert s == s[..last] + [s[last]];
    }
  }

  /** Adding a position not yet counted adds its element. */
  lemma {:induction false} CountAtAdd<T>(s: seq<T>, positions: set<nat>, p: nat)
    requires forall q :: q in positions ==> q < |s|
    requires p < |s| && p !in positions
    ensures CountAt(s, positions + {p}) == CountAt(s, positions) + multiset{s[p]}
    decreases |s|
  {
    var last := |s| - 1;
    if p == last {
      assert (positions + {p}) - {last} == positions - {last};
    } else {
      assert (positions + {p}) - {last} == (positions - {last}) + {p};
      CountAtAdd(s[..last], positions - {last}, p);
    }
  }

  /** The positions a sample picks, as a set. */
  function PickedSet(idx: seq<nat>): (r: set<nat>)
    ensures forall p :: p in r <==> exists k :: 0 <= k < |idx| && idx[k] == p
  {
    if idx == [] then {} else PickedSet(idx[..|idx| - 1]) + {idx[|idx| - 1]}
  }

  lemma {:induction false} CountAtNone<T>(s: seq<T>)
    ensures CountAt(s, {}) == multiset{}
    decreases |s|
  {
    if s != [] {
      assert {} - {|s| - 1} == {};
      CountAtNone(s[..|s| - 1]);
    }
  }

  lemma {:induction false} PickCount<T>(s: seq<T>, idx: seq<nat>)
    requires InRange(idx, |s|) && Distinct(idx)
    ensures multiset(Pick(s, idx)) == CountAt(s, PickedSet(idx))
  {
    if idx == [] {
      CountAtNone(s);
    } else {
      var n := |idx| - 1;
      var front := idx[..n];
      PickCount(s, front);
      assert Pick(s, idx) == Pick(s, front) + [s[idx[n]]];
      assert idx[n] !in PickedSet(front);
      assert PickedSet(idx) == PickedSet(front) + {idx[n]};
      CountAtAdd(s, PickedSet(front), idx[n]);
      calc {
        multiset(Pick(s, idx));
        multiset(Pick(s, front)) + multiset{s[idx[n]]};
        CountAt(s, PickedSet(front)) + multiset{s[idx[n]]};
        CountAt(s, PickedSet(front) + {idx[n]});
      }
    }
  }

  /**
    Sampling without replacement: the sample is a sub-multiset of the
    population, and all of it when every position is picked.
   */
  lemma PickSubMultiset<T>(s: seq<T>, idx: seq<nat>)
    requires InRange(idx, |s|) && Distinct(idx)
    ensures multiset(Pick(s, idx)) <= multiset(s)
    ensures |idx| == |s| ==> multiset(Pick(s, idx)) == multiset(s)
  {
    PickCount(s, idx);
    CountAtSub(s, PickedSet(idx));
    if |idx| == |s| {
      PigeonholeAll(idx, |s|);
      CountAtAll(s, PickedSet(idx));
    }
  }

  /** n distinct positions below n are all of them. */
  lemma PigeonholeAll(idx: seq<nat>, n: nat)
    requires |idx| == n && InRange(idx, n) && Distinct(idx)
    ensures forall p: nat :: p < n ==> p in PickedSet(idx)
  {
    var picked := PickedSet(idx);
    var below := Below(n);
    DistinctCard(idx);
    assert picked <= below;
    assert picked == below by {
      if picked != below {
        assert picked < below;
        ProperSubsetCard(picked, below);
      }
    }
  }

  /** The positions 0..n-1. */
  function Below(n: nat): (r: set<nat>)
    ensures forall p: nat :: p in r <==> p < n
    ensures |r| == n
  {
    if n == 0 then {}
    else
      var r := Below(n - 1) + {n - 1};
      r
  }

  lemma ProperSubsetCard(a: set<nat>, b: set<nat>)
    requires a < b
    ensures |a| < |b|
  {
    var x :| x in b && x !in a;
    assert a <= b - {x};
    assert |b - {x}| == |b| - 1;
    SubsetCard(a, b - {x});
  }

  lemma {:induction false} SubsetCard(a: set<nat>, b: set<nat>)
    requires a <= b
    ensures |a| <= |b|
    decreases |a|
  {
    if a != {} {
      var x :| x in a;
      SubsetCard(a - {x}, b - {x});
    }
  }

  lemma {:induction false} DistinctCard(idx: seq<nat>)
    requires Distinct(idx)
    ensures |PickedSet(idx)| == |idx|
  {
    if idx != [] {
      var n := |idx| - 1;
      DistinctCard(idx[..n]);
      assert idx[n] !in PickedSet(idx[..n]);
    }
  }

  // ---------------------------------------------------------------- padding

  /** `f"Option {n}"`. */
  function OptionLabel(n: nat): string {
    "Option " + NatToString(n)
  }

  /** Line 215: the distractors when no word qualifies, `[f"Option {i}" for i in range(1, 4)]`. */
  function Placeholders(): (r: seq<string>)
    ensures |r| == 3 && forall k :: 0 <= k < 3 ==> r[k] == OptionLabel(k + 1)
  {
    [OptionLabel(1), OptionLabel(2), OptionLabel(3)]
  }

  /**
    Lines 219-220 as a function: options are appended until there are four,
    each labelled with the count before it. Options never shrink, the
    existing ones stay first, and position k >= the old count holds
    `Option {k}`.
   */
  function Padded(options: seq<string>): (r: seq<string>)
    ensures |r| == if |options| >= 4 then |options| else 4
    ensures r[..|options|] == options
    ensures forall k :: |options| <= k < |r| ==> r[k] == OptionLabel(k)
    decreases 4 - |options|
  {
    if |options| >= 4 then options
    else
      var next := options + [OptionLabel(|options|)];
      var r := Padded(next);
      assert r[..|options|] == r[..|next|][..|options|];
      r
  }

  /** Lines 219-220: the `while len(options) < 4` loop appending `Option {len(options)}`. */
  method PadOptions(options: seq<string>) returns (padded: seq<string>)
    ensures |padded| == if |options| >= 4 then |options| else 4
    ensures padded[..|options|] == options
    ensures forall k :: |options| <= k < |padded| ==> padded[k] == OptionLabel(k)
    ensures padded == Padded(options)
  {
    padded := options;
    while |padded| < 4
      invariant |options| <= |padded| <= (if |options| >= 4 then |options| else 4)
      invariant padded[..|options|] == options
      invariant forall k :: |options| <= k < |padded| ==> padded[k] == OptionLabel(k)
      invariant Padded(padded) == Padded(options)
      decreases 4 - |padded|
    {
      var old_padded := padded;
      padded := padded + [OptionLabel(|padded|)];
      assert padded[..|options|] == old_padded[..|options|];
    }
  }

  // ---------------------------------------------------------------- shuffling

  /** The draws `random.shuffle` makes on a list of n: for position i, an index in 0..i. */
  predicate IsShuffleChoice(choice: seq<nat>, n: nat) {
    |choice| == n && forall i :: 0 <= i < n ==> choice[i] <= i
  }

  /** `x[i], x[j] = x[j], x[i]`. */
  function Swap<T>(s: seq<T>, i: nat, j: nat): (r: seq<T>)
    requires i < |s| && j < |s|
    ensures |r| == |s|
  {
    s[i := s[j]][j := s[i]]
  }

  lemma SwapPermutes<T>(s: seq<T>, i: nat, j: nat)
    requires i < |s| && j < |s|
    ensures multiset(Swap(s, i, j)) == multiset(s)
  {
  }

  /** The swaps for positions k-1 down to 1. */
  function ShuffleDown<T>(s: seq<T>, choice: seq<nat>, k: nat): (r: seq<T>)
    requires IsShuffleChoice(choice, |s|) && k <= |s|
    ensures |r| == |s|
    decreases k
  {
    if k <= 1 then s else ShuffleDown(Swap(s, k - 1, choice[k - 1]), choice, k - 1)
  }

  /** `random.shuffle(x)` with its draws given. */
  function Shuffled<T>(s: seq<T>, choice: seq<nat>): (r: seq<T>)
    requires IsShuffleChoice(choice, |s|)
    ensures |r| == |s|
  {
    ShuffleDown(s, choice, |s|)
  }

  /** A shuffle is a permutation of its input, whatever the draws. */
  lemma {:induction false} ShuffleDownPermutes<T>(s: seq<T>, choice: seq<nat>, k: nat)
    requires IsShuffleChoice(choice, |s|) && k <= |s|
    ensures multiset(ShuffleDown(s, choice, k)) == multiset(s)
    decreases k
  {
    if k > 1 {
      SwapPermutes(s, k - 1, choice[k - 1]);
      ShuffleDownPermutes(Swap(s, k - 1, choice[k - 1]), choice, k - 1);
    }
  }

  lemma ShuffledPermutes<T>(s: seq<T>, choice: seq<nat>)
    requires IsShuffleChoice(choice, |s|)
    ensures multiset(Shuffled(s, choice)) == multiset(s)
  {
    ShuffleDownPermutes(s, choice, |s|);
  }

  /** Line 222: `random.shuffle(options)` in place, from the last position down to 1. */
  method Shuffle(a: array<string>, choice: seq<nat>)
    requires IsShuffleChoice(choice, a.Length)
    modifies a
    ensures a[..] == Shuffled(old(a[..]), choice)
  {
    var k := a.Length;
    while k > 1
      invariant 0 <= k <= a.Length
      invariant ShuffleDown(a[..], choice, k) == Shuffled(old(a[..]), choice)
      decreases k
    {
      var i, j := k - 1, choice[k - 1];
      ghost var before := a[..];
      a[i], a[j] := a[j], a[i];
      assert a[..] == Swap(before, i, j);
      assert ShuffleDown(before, choice, k) == ShuffleDown(a[..], choice, k - 1);
      k := k - 1;
    }
  }

  // ---------------------------------------------------------------- lookup

  /** `xs.index(x)`: the first position holding x, or nothing (Python raises ValueError). */
  function FirstIndex<T(==)>(xs: seq<T>, x: T): (r: Option<nat>)
    ensures r.None? <==> x !in xs
    ensures r.Some? ==> r.value < |xs| && xs[r.value] == x && x !in xs[..r.value]
  {
    if xs == [] then None
    else if xs[0] == x then Some(0)
    else
      match FirstIndex(xs[1..], x)
      case None => None
      case Some(k) => assert xs[..k + 1] == [xs[0]] + xs[1..][..k]; Some(k + 1)
  }
}
