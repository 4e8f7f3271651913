/**
 Bubble sort by a "must swap" relation: what it always does, what it does when the
 relation is a weak order, and that a weak order is also necessary.
 */
module StableSorting {

  // ---------- the algorithm, as functions ----------

  datatype Bubbled<T> = Bubbled(items: seq<T>, swaps: nat)

  function SwapAt<T>(s: seq<T>, i: nat): (r: seq<T>)
    requires i + 1 < |s|
    ensures |r| == |s|
  {
    s[i := s[i + 1]][i + 1 := s[i]]
  }

  /** One pass over positions i up to limit. */
  function Pass<T>(b: Bubbled<T>, i: nat, limit: nat, gt: (T, T) -> bool): (r: Bubbled<T>)
    requires limit < |b.items| || limit == 0
    ensures |r.items| == |b.items|
    decreases limit - i
  {
    if i >= limit then b
    else if gt(b.items[i], b.items[i + 1]) then Pass(Bubbled(SwapAt(b.items, i), b.swaps + 1), i + 1, limit, gt)
    else Pass(b, i + 1, limit, gt)
  }

  /** Passes number p, p + 1, ... */
  function Passes<T>(b: Bubbled<T>, p: nat, gt: (T, T) -> bool): (r: Bubbled<T>)
    ensures |r.items| == |b.items|
    decreases |b.items| - p
  {
    if p + 1 >= |b.items| then b
    else Passes(Pass(b, 0, |b.items| - 1 - p, gt), p + 1, gt)
  }

  function BubbleSort<T>(s: seq<T>, gt: (T, T) -> bool): Bubbled<T> {
    Passes(Bubbled(s, 0), 0, gt)
  }

  // ---------- reference: stable insertion, and inversions ----------

  /** Put x before the first element that it need not be behind. */
  function StableInsert<T>(x: T, s: seq<T>, gt: (T, T) -> bool): seq<T> {
    if s == [] || !gt(x, s[0]) then [x] + s else [s[0]] + StableInsert(x, s[1..], gt)
  }

  function StableSort<T>(s: seq<T>, gt: (T, T) -> bool): seq<T> {
    if s == [] then [] else StableInsert(s[0], StableSort(s[1..], gt), gt)
  }

  /** How many elements of s must not be behind x. */
  function CountBelow<T>(x: T, s: seq<T>, gt: (T, T) -> bool): nat {
    if s == [] then 0 else (if gt(x, s[0]) then 1 else 0) + CountBelow(x, s[1..], gt)
  }

  /** The pairs of positions that stand the wrong way round. */
  function Inversions<T>(s: seq<T>, gt: (T, T) -> bool): nat {
    if s == [] then 0 else CountBelow(s[0], s[1..], gt) + Inversions(s[1..], gt)
  }

  ghost predicate Sorted<T>(s: seq<T>, gt: (T, T) -> bool) {
    forall i, j | 0 <= i < j < |s| :: !gt(s[i], s[j])
  }

  ghost predicate Asymmetric<T(!new)>(gt: (T, T) -> bool) {
    forall x, y :: gt(x, y) ==> !gt(y, x)
  }

  /** No three elements of the set contradict a linear arrangement. */
  ghost predicate WeakOrderOn<T>(values: set<T>, gt: (T, T) -> bool) {
    forall x, y, z | x in values && y in values && z in values :: !gt(x, y) && !gt(y, z) ==> !gt(x, z)
  }

  function Elements<T>(s: seq<T>): set<T> {
    set x | x in s
  }

  // ---------- always: a permutation, one inversion fewer with each swap ----------

  lemma SwapSplits<T>(s: seq<T>, i: nat)
    requires i + 1 < |s|
    ensures s == s[..i] + [s[i], s[i + 1]] + s[i + 2..]
    ensures SwapAt(s, i) == s[..i] + [s[i + 1], s[i]] + s[i + 2..]
  {
  }

  lemma {:induction false} CountBelowSwap<T>(x: T, pre: seq<T>, a: T, b: T, post: seq<T>, gt: (T, T) -> bool)
    ensures CountBelow(x, pre + [a, b] + post, gt) == CountBelow(x, pre + [b, a] + post, gt)
  {
    if pre == [] {
      assert pre + [a, b] + post == [a] + ([b] + post) && pre + [b, a] + post == [b] + ([a] + post);
      assert ([a] + ([b] + post))[1..] == [b] + post && ([b] + post)[1..] == post;
      assert ([b] + ([a] + post))[1..] == [a] + post && ([a] + post)[1..] == post;
    } else {
      assert (pre + [a, b] + post)[1..] == pre[1..] + [a, b] + post;
      assert (pre + [b, a] + post)[1..] == pre[1..] + [b, a] + post;
      CountBelowSwap(x, pre[1..], a, b, post, gt);
    }
  }

  lemma {:induction false} InversionsSwap<T(!new)>(pre: seq<T>, a: T, b: T, post: seq<T>, gt: (T, T) -> bool)
    requires Asymmetric(gt) && gt(a, b)
    ensures Inversions(pre + [a, b] + post, gt) == Inversions(pre + [b, a] + post, gt) + 1
  {
    if pre == [] {
      assert pre + [a, b] + post == [a] + ([b] + post) && pre + [b, a] + post == [b] + ([a] + post);
      assert ([a] + ([b] + post))[1..] == [b] + post && ([b] + post)[1..] == post;
      assert ([b] + ([a] + post))[1..] == [a] + post && ([a] + post)[1..] == post;
    } else {
      assert (pre + [a, b] + post)[1..] == pre[1..] + [a, b] + post;
      assert (pre + [b, a] + post)[1..] == pre[1..] + [b, a] + post;
      InversionsSwap(pre[1..], a, b, post, gt);
      CountBelowSwap(pre[0], pre[1..], a, b, post, gt);
    }
  }

  /** The two things every swap preserves. */
  ghost predicate Accounts<T>(s: seq<T>, b: Bubbled<T>, gt: (T, T) -> bool) {
    multiset(b.items) == multiset(s) && b.swaps + Inversions(b.items, gt) == Inversions(s, gt)
  }

  lemma SwapAccounts<T(!new)>(s: seq<T>, b: Bubbled<T>, i: nat, gt: (T, T) -> bool)
    requires Asymmetric(gt) && i + 1 < |b.items| && gt(b.items[i], b.items[i + 1]) && Accounts(s, b, gt)
    ensures Accounts(s, Bubbled(SwapAt(b.items, i), b.swaps + 1), gt)
  {
    hide SwapAt, Inversions;
    SwapSplits(b.items, i);
    InversionsSwap(b.items[..i], b.items[i], b.items[i + 1], b.items[i + 2..], gt);
  }

  lemma {:induction false} PassAccounts<T(!new)>(s: seq<T>, b: Bubbled<T>, i: nat, limit: nat, gt: (T, T) -> bool)
    requires Asymmetric(gt) && (limit < |b.items| || limit == 0) && Accounts(s, b, gt)
    ensures Accounts(s, Pass(b, i, limit, gt), gt)
    decreases limit - i
  {
    hide Accounts, SwapAt;
    if i < limit {
      if gt(b.items[i], b.items[i + 1]) {
        SwapAccounts(s, b, i, gt);
        PassAccounts(s, Bubbled(SwapAt(b.items, i), b.swaps + 1), i + 1, limit, gt);
      } else {
        PassAccounts(s, b, i + 1, limit, gt);
      }
    }
  }

  lemma {:induction false} PassesAccounts<T(!new)>(s: seq<T>, b: Bubbled<T>, p: nat, gt: (T, T) -> bool)
    requires Asymmetric(gt) && Accounts(s, b, gt)
    ensures Accounts(s, Passes(b, p, gt), gt)
    decreases |b.items| - p
  {
    if p + 1 < |b.items| {
      PassAccounts(s, b, 0, |b.items| - 1 - p, gt);
      PassesAccounts(s, Pass(b, 0, |b.items| - 1 - p, gt), p + 1, gt);
    }
  }

  /**
   For any asymmetric relation: the result is a permutation, and the number of swaps is
   the number of inversions removed.
   */
  lemma BubbleSortAccounts<T(!new)>(s: seq<T>, gt: (T, T) -> bool)
    requires Asymmetric(gt)
    ensures var b := BubbleSort(s, gt);
            multiset(b.items) == multiset(s) && b.swaps + Inversions(b.items, gt) == Inversions(s, gt)
  {
    PassesAccounts(s, Bubbled(s, 0), 0, gt);
  }

  lemma {:induction false} CountBelowNone<T>(x: T, s: seq<T>, gt: (T, T) -> bool)
    ensures CountBelow(x, s, gt) == 0 <==> forall y <- s :: !gt(x, y)
  {
    if s != [] {
      CountBelowNone(x, s[1..], gt);
      assert s == [s[0]] + s[1..];
    }
  }

  lemma {:induction false} NoInversionsIsSorted<T>(s: seq<T>, gt: (T, T) -> bool)
    ensures Inversions(s, gt) == 0 <==> Sorted(s, gt)
  {
    if s != [] {
      CountBelowNone(s[0], s[1..], gt);
      NoInversionsIsSorted(s[1..], gt);
      if Inversions(s, gt) == 0 {
        forall i, j | 0 <= i < j < |s| ensures !gt(s[i], s[j]) {
          assert s[j] == s[1..][j - 1];
          if i > 0 { assert s[i] == s[1..][i - 1]; }
        }
      }
      if Sorted(s, gt) {
        forall y <- s[1..] ensures !gt(s[0], y) {
          var j :| 0 <= j < |s[1..]| && s[1..][j] == y;
          assert s[j + 1] == y;
        }
        assert Sorted(s[1..], gt);
      }
    }
  }

  // ---------- on a weak order: sorted, and equal to the stable sort ----------

  ghost predicate Within<T>(s: seq<T>, values: set<T>) {
    forall x <- s :: x in values
  }

  /** Every element at or after position k may stand behind everything before it. */
  ghost predicate SettledFrom<T>(s: seq<T>, k: nat, gt: (T, T) -> bool) {
    forall i, j | 0 <= i < j < |s| && k <= j :: !gt(s[i], s[j])
  }

  /** The element at position i may stand behind everything before it. */
  ghost predicate LargestUpTo<T>(s: seq<T>, i: nat, gt: (T, T) -> bool) {
    i < |s| ==> forall j | 0 <= j < i :: !gt(s[j], s[i])
  }

  lemma {:induction false} PassSettles<T(!new)>(b: Bubbled<T>, i: nat, limit: nat, values: set<T>, gt: (T, T) -> bool)
    requires Asymmetric(gt) && WeakOrderOn(values, gt) && Within(b.items, values)
    requires i <= limit < |b.items| && SettledFrom(b.items, limit + 1, gt) && LargestUpTo(b.items, i, gt)
    ensures var r := Pass(b, i, limit, gt); Within(r.items, values) && SettledFrom(r.items, limit, gt)
    decreases limit - i
  {
    if i < limit {
      if gt(b.items[i], b.items[i + 1]) {
        assert Within(SwapAt(b.items, i), values);
        PassSettles(Bubbled(SwapAt(b.items, i), b.swaps + 1), i + 1, limit, values, gt);
      } else {
        PassSettles(b, i + 1, limit, values, gt);
      }
    }
  }

  lemma {:induction false} PassesSort<T(!new)>(b: Bubbled<T>, p: nat, values: set<T>, gt: (T, T) -> bool)
    requires Asymmetric(gt) && WeakOrderOn(values, gt) && Within(b.items, values)
    requires p < |b.items| && SettledFrom(b.items, |b.items| - p, gt)
    ensures Sorted(Passes(b, p, gt).items, gt)
    decreases |b.items| - p
  {
    if p + 1 < |b.items| {
      var limit := |b.items| - 1 - p;
      PassSettles(b, 0, limit, values, gt);
      PassesSort(Pass(b, 0, limit, gt), p + 1, values, gt);
    }
  }

  lemma BubbleSortSorts<T(!new)>(s: seq<T>, gt: (T, T) -> bool)
    requires Asymmetric(gt) && WeakOrderOn(Elements(s), gt)
    ensures Sorted(BubbleSort(s, gt).items, gt)
  {
    if s != [] {
      PassesSort(Bubbled(s, 0), 0, Elements(s), gt);
    }
  }

  /** Sorting swaps exactly as often as there are inversions to remove. */
  lemma SwapsAreInversions<T(!new)>(s: seq<T>, gt: (T, T) -> bool)
    requires Asymmetric(gt) && WeakOrderOn(Elements(s), gt)
    ensures BubbleSort(s, gt).swaps == Inversions(s, gt)
  {
    BubbleSortAccounts(s, gt);
    BubbleSortSorts(s, gt);
    NoInversionsIsSorted(BubbleSort(s, gt).items, gt);
  }

  /** Two elements that must be swapped can be inserted in either order. */
  lemma {:induction false} InsertsCommute<T(!new)>(a: T, b: T, s: seq<T>, values: set<T>, gt: (T, T) -> bool)
    requires Asymmetric(gt) && WeakOrderOn(values, gt) && a in values && b in values && Within(s, values)
    requires gt(a, b)
    ensures StableInsert(a, StableInsert(b, s, gt), gt) == StableInsert(b, StableInsert(a, s, gt), gt)
  {
    if s != [] {
      assert s == [s[0]] + s[1..] && s[0] in values;
      assert forall x <- s[1..] :: x in s;
      InsertsCommute(a, b, s[1..], values, gt);
    }
  }

  lemma {:induction false} InsertWithin<T>(x: T, s: seq<T>, values: set<T>, gt: (T, T) -> bool)
    requires x in values && Within(s, values)
    ensures Within(StableInsert(x, s, gt), values)
  {
    if s != [] && gt(x, s[0]) {
      assert forall y <- s[1..] :: y in s;
      InsertWithin(x, s[1..], values, gt);
    }
  }

  lemma {:induction false} StableSortWithin<T>(s: seq<T>, values: set<T>, gt: (T, T) -> bool)
    requires Within(s, values)
    ensures Within(StableSort(s, gt), values)
  {
    if s != [] {
      assert forall y <- s[1..] :: y in s;
      StableSortWithin(s[1..], values, gt);
      InsertWithin(s[0], StableSort(s[1..], gt), values, gt);
    }
  }

  /** Swapping neighbours that stand the wrong way round does not change the stable sort. */
  lemma {:induction false} StableSortSwap<T(!new)>(pre: seq<T>, a: T, b: T, post: seq<T>, values: set<T>,
                                                   gt: (T, T) -> bool)
    requires Asymmetric(gt) && WeakOrderOn(values, gt) && gt(a, b)
    requires a in values && b in values && Within(post, values)
    ensures StableSort(pre + [a, b] + post, gt) == StableSort(pre + [b, a] + post, gt)
  {
    if pre == [] {
      assert pre + [a, b] + post == [a] + ([b] + post) && pre + [b, a] + post == [b] + ([a] + post);
      assert ([a] + ([b] + post))[1..] == [b] + post && ([b] + post)[1..] == post;
      assert ([b] + ([a] + post))[1..] == [a] + post && ([a] + post)[1..] == post;
      StableSortWithin(post, values, gt);
      InsertsCommute(a, b, StableSort(post, gt), values, gt);
    } else {
      assert (pre + [a, b] + post)[1..] == pre[1..] + [a, b] + post;
      assert (pre + [b, a] + post)[1..] == pre[1..] + [b, a] + post;
      StableSortSwap(pre[1..], a, b, post, values, gt);
    }
  }

  lemma {:induction false} StableSortOfSorted<T>(s: seq<T>, gt: (T, T) -> bool)
    requires Sorted(s, gt)
    ensures StableSort(s, gt) == s
  {
    if s != [] {
      StableSortOfSorted(s[1..], gt);
      if |s| > 1 {
        assert !gt(s[0], s[1]);
      }
    }
  }

  lemma SwapAtKeepsStableSort<T(!new)>(s: seq<T>, i: nat, values: set<T>, gt: (T, T) -> bool)
    requires Asymmetric(gt) && WeakOrderOn(values, gt) && Within(s, values)
    requires i + 1 < |s| && gt(s[i], s[i + 1])
    ensures Within(SwapAt(s, i), values) && StableSort(SwapAt(s, i), gt) == StableSort(s, gt)
  {
    SwapSplits(s, i);
    assert forall x <- SwapAt(s, i) :: x in multiset(s);
    assert Within(s[i + 2..], values);
    StableSortSwap(s[..i], s[i], s[i + 1], s[i + 2..], values, gt);
  }

  lemma {:induction false} PassKeepsStableSort<T(!new)>(b: Bubbled<T>, i: nat, limit: nat, values: set<T>,
                                                        gt: (T, T) -> bool)
    requires Asymmetric(gt) && WeakOrderOn(values, gt) && Within(b.items, values)
    requires limit < |b.items| || limit == 0
    ensures var r := Pass(b, i, limit, gt);
            Within(r.items, values) && StableSort(r.items, gt) == StableSort(b.items, gt)
    decreases limit - i
  {
    hide StableSort, SwapAt;
    if i < limit {
      if gt(b.items[i], b.items[i + 1]) {
        SwapAtKeepsStableSort(b.items, i, values, gt);
        PassKeepsStableSort(Bubbled(SwapAt(b.items, i), b.swaps + 1), i + 1, limit, values, gt);
      } else {
        PassKeepsStableSort(b, i + 1, limit, values, gt);
      }
    }
  }

  lemma {:induction false} PassesKeepStableSort<T(!new)>(b: Bubbled<T>, p: nat, values: set<T>, gt: (T, T) -> bool)
    requires Asymmetric(gt) && WeakOrderOn(values, gt) && Within(b.items, values)
    ensures StableSort(Passes(b, p, gt).items, gt) == StableSort(b.items, gt)
    decreases |b.items| - p
  {
    if p + 1 < |b.items| {
      PassKeepsStableSort(b, 0, |b.items| - 1 - p, values, gt);
      PassesKeepStableSort(Pass(b, 0, |b.items| - 1 - p, gt), p + 1, values, gt);
    }
  }

  /** On a weak order, bubble sort is the stable sort. */
  lemma BubbleSortIsStable<T(!new)>(s: seq<T>, gt: (T, T) -> bool)
    requires Asymmetric(gt) && WeakOrderOn(Elements(s), gt)
    ensures BubbleSort(s, gt).items == StableSort(s, gt)
  {
    BubbleSortSorts(s, gt);
    StableSortOfSorted(BubbleSort(s, gt).items, gt);
    PassesKeepStableSort(Bubbled(s, 0), 0, Elements(s), gt);
  }

  // ---------- what the stable sort is ----------

  /** The elements that tie with k, in order. */
  function Ties<T>(s: seq<T>, k: T, gt: (T, T) -> bool): seq<T> {
    if s == [] then []
    else (if !gt(s[0], k) && !gt(k, s[0]) then [s[0]] else []) + Ties(s[1..], k, gt)
  }

  lemma {:induction false} InsertKeepsTies<T(!new)>(x: T, s: seq<T>, k: T, values: set<T>, gt: (T, T) -> bool)
    requires Asymmetric(gt) && WeakOrderOn(values, gt) && x in values && k in values && Within(s, values)
    ensures Ties(StableInsert(x, s, gt), k, gt) == Ties([x] + s, k, gt)
  {
    hide Ties;
    if s != [] && gt(x, s[0]) {
      var y, t := s[0], s[1..];
      assert s == [y] + t && y in values;
      assert forall z <- t :: z in s;
      InsertKeepsTies(x, t, k, values, gt);
      TiesFirst(y, StableInsert(x, t, gt), k, gt);
      TiesFirst(x, t, k, gt);
      TiesFirst(x, [y] + t, k, gt);
      TiesFirst(y, t, k, gt);
    }
  }

  lemma TiesFirst<T>(x: T, s: seq<T>, k: T, gt: (T, T) -> bool)
    ensures Ties([x] + s, k, gt) == (if !gt(x, k) && !gt(k, x) then [x] else []) + Ties(s, k, gt)
  {
    assert ([x] + s)[1..] == s;
  }

  /** Elements that tie keep their order: the result is stable. */
  lemma {:induction false} StableSortKeepsTies<T(!new)>(s: seq<T>, k: T, values: set<T>, gt: (T, T) -> bool)
    requires Asymmetric(gt) && WeakOrderOn(values, gt) && k in values && Within(s, values)
    ensures Ties(StableSort(s, gt), k, gt) == Ties(s, k, gt)
  {
    if s != [] {
      assert s == [s[0]] + s[1..] && forall y <- s[1..] :: y in s;
      StableSortKeepsTies(s[1..], k, values, gt);
      StableSortWithin(s[1..], values, gt);
      InsertKeepsTies(s[0], StableSort(s[1..], gt), k, values, gt);
      assert ([s[0]] + StableSort(s[1..], gt))[1..] == StableSort(s[1..], gt);
    }
  }

  // ---------- where each element comes from ----------

  /** Of two positions, the first belongs in front: its element is smaller, or ties and stands first. */
  ghost predicate Precedes<T>(s: seq<T>, a: nat, b: nat, gt: (T, T) -> bool)
    requires a < |s| && b < |s|
  {
    gt(s[b], s[a]) || (!gt(s[a], s[b]) && a < b)
  }

  /** All positions of s, each once. */
  ghost predicate Places<T>(s: seq<T>, p: seq<nat>) {
    && |p| == |s| && (forall i | 0 <= i < |p| :: p[i] < |s|)
    && (forall j | 0 <= j < |s| :: j in p)
  }

  /** A position, once position k has been taken out of the list. */
  function Beside(k: nat, p: seq<nat>): (q: seq<nat>)
    ensures |q| == |p| && forall i | 0 <= i < |p| :: q[i] == if p[i] < k then p[i] else p[i] + 1
  {
    seq(|p|, i requires 0 <= i < |p| => if p[i] < k then p[i] else p[i] + 1)
  }

  /** A permutation takes each element from a position of its own. */
  lemma {:induction false} PermutedPlaces<T>(a: seq<T>, b: seq<T>) returns (p: seq<nat>)
    requires multiset(a) == multiset(b)
    ensures Places(b, p) && |a| == |b| && forall i | 0 <= i < |a| :: a[i] == b[p[i]]
    ensures forall i, j | 0 <= i < j < |p| :: p[i] != p[j]
  {
    p := [];
    if a == [] {
      assert |multiset(b)| == |b|;
    } else {
      var k := TakenOut(a, b);
      var q := PermutedPlaces(a[..|a| - 1], b[..k] + b[k + 1..]);
      p := Beside(k, q) + [k];
      PutBack(a, b, k, q, p);
    }
  }

  lemma TakenOut<T>(a: seq<T>, b: seq<T>) returns (k: nat)
    requires multiset(a) == multiset(b) && a != []
    ensures k < |b| && b[k] == a[|a| - 1]
    ensures multiset(a[..|a| - 1]) == multiset(b[..k] + b[k + 1..])
  {
    var n := |a| - 1;
    assert a[n] in multiset(a);
    k :| 0 <= k < |b| && b[k] == a[n];
    WithoutOne(b, k);
    WithoutOne(a, n);
    assert a[..n] + a[n + 1..] == a[..n];
  }

  lemma WithoutOne<T>(b: seq<T>, k: nat)
    requires k < |b|
    ensures multiset(b[..k] + b[k + 1..]) == multiset(b) - multiset{b[k]}
  {
    assert b == b[..k] + [b[k]] + b[k + 1..];
  }

  lemma PutBack<T>(a: seq<T>, b: seq<T>, k: nat, q: seq<nat>, p: seq<nat>)
    requires a != [] && k < |b| && b[k] == a[|a| - 1] && p == Beside(k, q) + [k]
    requires Places(b[..k] + b[k + 1..], q) && |a| == |b|
    requires forall i | 0 <= i < |q| :: a[i] == (b[..k] + b[k + 1..])[q[i]]
    requires forall i, j | 0 <= i < j < |q| :: q[i] != q[j]
    ensures Places(b, p) && forall i | 0 <= i < |a| :: a[i] == b[p[i]]
    ensures forall i, j | 0 <= i < j < |p| :: p[i] != p[j]
  {
    forall j | 0 <= j < |b| ensures j in p {
      if j == k {
        assert p[|q|] == k;
      } else {
        var before := if j < k then j else j - 1;
        assert before in q;
        var i :| 0 <= i < |q| && q[i] == before;
        assert p[i] == j;
      }
    }
  }

  /** The positions in the order in which their elements belong. */
  ghost predicate Arranges<T>(s: seq<T>, p: seq<nat>, gt: (T, T) -> bool) {
    Places(s, p) && forall i, j | 0 <= i < j < |p| :: Precedes(s, p[i], p[j], gt)
  }

  lemma {:induction false} InsertedAt<T>(x: T, s: seq<T>, gt: (T, T) -> bool) returns (k: nat)
    ensures k <= |s| && StableInsert(x, s, gt) == s[..k] + [x] + s[k..]
    ensures (forall i | 0 <= i < k :: gt(x, s[i])) && (k < |s| ==> !gt(x, s[k]))
  {
    k := 0;
    if s == [] || !gt(x, s[0]) {
      assert s[..0] + [x] + s[0..] == [x] + s;
    } else {
      var m := InsertedAt(x, s[1..], gt);
      k := m + 1;
      assert s[..k] == [s[0]] + s[1..][..m] && s[k..] == s[1..][m..];
    }
  }

  /** The positions of a tail, with position 0 put in at k. */
  function PutFirst(q: seq<nat>, k: nat): (p: seq<nat>)
    requires k <= |q|
    ensures |p| == |q| + 1 && p[k] == 0
    ensures forall i | 0 <= i < |q| :: p[if i < k then i else i + 1] == q[i] + 1
  {
    seq(|q| + 1, i requires 0 <= i <= |q| => if i < k then q[i] + 1 else if i == k then 0 else q[i - 1] + 1)
  }

  lemma PutFirstPlaces<T>(s: seq<T>, q: seq<nat>, k: nat)
    requires s != [] && Places(s[1..], q) && k <= |q|
    ensures Places(s, PutFirst(q, k))
  {
    var p := PutFirst(q, k);
    forall j | 0 <= j < |s| ensures j in p {
      if j == 0 {
        assert p[k] == 0;
      } else {
        assert (j - 1) in q;
        var i :| 0 <= i < |q| && q[i] == j - 1;
        assert p[if i < k then i else i + 1] == j;
      }
    }
    forall i | 0 <= i < |p| ensures p[i] < |s| {
      if i != k {
        var a := if i < k then i else i - 1;
        assert p[if a < k then a else a + 1] == q[a] + 1;
      }
    }
  }

  /** Position k of the list with the first element put in, against the others. */
  lemma PutFirstPrecedes<T(!new)>(s: seq<T>, values: set<T>, gt: (T, T) -> bool, q: seq<nat>, k: nat, a: nat)
    requires Asymmetric(gt) && WeakOrderOn(values, gt) && Within(s, values) && s != []
    requires Arranges(s[1..], q, gt) && k <= |q| && a < |q|
    requires forall i | 0 <= i < k :: gt(s[0], s[q[i] + 1])
    requires k < |q| ==> !gt(s[0], s[q[k] + 1])
    ensures if a < k then Precedes(s, q[a] + 1, 0, gt) else Precedes(s, 0, q[a] + 1, gt)
  {
    if k < a {
      assert Precedes(s[1..], q[k], q[a], gt);
      assert s[0] in s && s[q[k] + 1] in s && s[q[a] + 1] in s;
    }
  }

  lemma PutFirstArranges<T(!new)>(s: seq<T>, values: set<T>, gt: (T, T) -> bool, q: seq<nat>, k: nat)
    requires Asymmetric(gt) && WeakOrderOn(values, gt) && Within(s, values) && s != []
    requires Arranges(s[1..], q, gt) && k <= |q|
    requires forall i | 0 <= i < k :: gt(s[0], s[q[i] + 1])
    requires k < |q| ==> !gt(s[0], s[q[k] + 1])
    ensures Arranges(s, PutFirst(q, k), gt)
  {
    hide WeakOrderOn, Asymmetric;
    var p := PutFirst(q, k);
    PutFirstPlaces(s, q, k);
    forall i, j | 0 <= i < j < |p| ensures Precedes(s, p[i], p[j], gt) {
      var a, b := if i < k then i else i - 1, if j < k then j else j - 1;
      if i == k {
        PutFirstPrecedes(s, values, gt, q, k, b);
      } else if j == k {
        PutFirstPrecedes(s, values, gt, q, k, a);
      } else {
        assert Precedes(s[1..], q[a], q[b], gt);
      }
    }
  }

  lemma PutFirstReads<T>(s: seq<T>, q: seq<nat>, t: seq<T>, k: nat)
    requires s != [] && k <= |q| == |t| && forall i | 0 <= i < |q| :: q[i] + 1 < |s| && t[i] == s[q[i] + 1]
    ensures var p := PutFirst(q, k);
            forall i | 0 <= i <= |q| :: p[i] < |s| && (t[..k] + [s[0]] + t[k..])[i] == s[p[i]]
  {
    var p := PutFirst(q, k);
    forall i | 0 <= i <= |q| ensures p[i] < |s| && (t[..k] + [s[0]] + t[k..])[i] == s[p[i]] {
      if i != k {
        var a := if i < k then i else i - 1;
        assert p[if a < k then a else a + 1] == q[a] + 1;
      }
    }
  }

  /** The stable sort takes its elements from these positions: smaller ones first, ties in their old order. */
  lemma {:induction false} StableSortArranges<T(!new)>(s: seq<T>, values: set<T>, gt: (T, T) -> bool)
    returns (p: seq<nat>)
    requires Asymmetric(gt) && WeakOrderOn(values, gt) && Within(s, values)
    ensures Arranges(s, p, gt) && |StableSort(s, gt)| == |s|
    ensures forall i | 0 <= i < |s| :: StableSort(s, gt)[i] == s[p[i]]
  {
    p := [];
    if s != [] {
      assert forall y <- s[1..] :: y in s;
      var q := StableSortArranges(s[1..], values, gt);
      var t := StableSort(s[1..], gt);
      var k := InsertedAt(s[0], t, gt);
      p := PutFirst(q, k);
      assert forall i | 0 <= i < |t| :: t[i] == s[q[i] + 1];
      assert StableSort(s, gt) == t[..k] + [s[0]] + t[k..];
      hide StableInsert, Asymmetric, WeakOrderOn, PutFirst, StableSort, Precedes;
      PutFirstArranges(s, values, gt, q, k);
      PutFirstReads(s, q, t, k);
    }
  }

  // ---------- a weak order is necessary ----------

  /** The algorithm leaves no inversion, whatever list of these values it is given. */
  ghost predicate SortsEveryList<T(!new)>(values: set<T>, gt: (T, T) -> bool) {
    forall s: seq<T> | Within(s, values) :: Sorted(BubbleSort(s, gt).items, gt)
  }

  lemma SortedTripleUntouched<T>(x: T, y: T, z: T, gt: (T, T) -> bool)
    requires !gt(x, y) && !gt(y, z)
    ensures BubbleSort([x, y, z], gt).items == [x, y, z]
  {
    var b := Bubbled([x, y, z], 0);
    assert Pass(b, 2, 2, gt) == b && Pass(b, 1, 2, gt) == b && Pass(b, 0, 2, gt) == b;
    assert Pass(b, 1, 1, gt) == b && Pass(b, 0, 1, gt) == b;
    assert Passes(b, 2, gt) == b && Passes(b, 1, gt) == b;
  }

  /** Bubble sort sorts every list over a set of values exactly when the relation is a weak order on them. */
  lemma SortsExactlyWeakOrders<T(!new)>(values: set<T>, gt: (T, T) -> bool)
    requires Asymmetric(gt)
    ensures SortsEveryList(values, gt) <==> WeakOrderOn(values, gt)
  {
    if SortsEveryList(values, gt) {
      forall x, y, z | x in values && y in values && z in values && !gt(x, y) && !gt(y, z) ensures !gt(x, z) {
        SortedTripleUntouched(x, y, z, gt);
        assert Within([x, y, z], values);
        var r := BubbleSort([x, y, z], gt).items;
        assert Sorted(r, gt) && r[0] == x && r[2] == z;
      }
    }
    if WeakOrderOn(values, gt) {
      forall s: seq<T> | Within(s, values) ensures Sorted(BubbleSort(s, gt).items, gt) {
        if s != [] {
          PassesSort(Bubbled(s, 0), 0, values, gt);
        }
      }
    }
  }
}
