/**
 * The scalar reference of lib/x86simdsort-scalar.h: applying an index
 * permutation in place by following its cycles, the comparator choice,
 * the index sort, and the key-value sort built from the two.
 *
 * std::sort itself is a library call; it is stood in for by an insertion
 * sort, and only what std::sort promises (ordered by the comparator, a
 * rearrangement) is stated about it.
 */
module Scalar {
  // ---------------------------------------------------------------------
  // Permutations of 0..n-1

  /** v occurs in p. */
  predicate Hit(p: seq<int>, v: int)
  {
    exists k :: 0 <= k < |p| && p[k] == v
  }

  /** p holds each of 0..n-1 exactly once. */
  predicate IsPermutation(p: seq<int>, n: int)
  {
    |p| == n &&
    (forall k :: 0 <= k < n ==> 0 <= p[k] < n) &&
    (forall k, l :: 0 <= k < l < n ==> p[k] != p[l]) &&
    (forall v :: 0 <= v < n ==> Hit(p, v))
  }

  /** The arrangement of s that puts s[p[k]] at position k. */
  function Permuted<T>(s: seq<T>, p: seq<int>): (r: seq<T>)
    requires forall k :: 0 <= k < |p| ==> 0 <= p[k] < |s|
    ensures |r| == |p|
    ensures forall k :: 0 <= k < |p| ==> r[k] == s[p[k]]
  {
    seq(|p|, k requires 0 <= k < |p| => s[p[k]])
  }

  /** Exchanging two entries of a permutation leaves a permutation. */
  lemma {:induction false} SwapPermutation(p: seq<int>, n: int, a: int, b: int)
    requires IsPermutation(p, n) && 0 <= a < n && 0 <= b < n
    ensures IsPermutation(p[a := p[b]][b := p[a]], n)
  {
    var q := p[a := p[b]][b := p[a]];
    forall v | 0 <= v < n ensures Hit(q, v) {
      assert Hit(p, v);
      var k :| 0 <= k < n && p[k] == v;
      var k' := if k == a then b else if k == b then a else k;
      assert q[k'] == v;
    }
  }

  /** Exchanging two elements keeps the elements. */
  lemma {:induction false} SwapElements<T>(s: seq<T>, x: int, y: int)
    requires 0 <= x < |s| && 0 <= y < |s|
    ensures multiset(s[x := s[y]][y := s[x]]) == multiset(s)
  {
    var t := s[x := s[y]];
    assert multiset(t) == multiset(s) - multiset{s[x]} + multiset{s[y]};
    assert t[y] == s[y];
    assert multiset(t[y := s[x]]) == multiset(t) - multiset{s[y]} + multiset{s[x]};
  }

  /**
   * Exchanging the entry that holds n-1 with the last entry leaves a
   * permutation of 0..n-2 in front of n-1.
   */
  lemma {:induction false} MoveLastHome(p: seq<int>, n: int, j: int)
    requires IsPermutation(p, n) && 0 <= j < n && p[j] == n - 1
    ensures p[j := p[n - 1]][n - 1 := p[j]][n - 1] == n - 1
    ensures IsPermutation(p[j := p[n - 1]][n - 1 := p[j]][..n - 1], n - 1)
  {
    var q := p[j := p[n - 1]][n - 1 := p[j]];
    SwapPermutation(p, n, j, n - 1);
    var q' := q[..n - 1];
    forall k | 0 <= k < n - 1 ensures 0 <= q'[k] < n - 1 {
      assert q'[k] == q[k];
    }
    forall v | 0 <= v < n - 1 ensures Hit(q', v) {
      assert Hit(q, v);
      var k :| 0 <= k < n && q[k] == v;
      assert k != n - 1 && q'[k] == v;
    }
  }

  /** Reading s through p with two entries exchanged gives the same elements. */
  lemma {:induction false} PermutedSwap<T>(s: seq<T>, p: seq<int>, x: int, y: int)
    requires Indexes(p, |s|) && 0 <= x < |p| && 0 <= y < |p|
    ensures Indexes(p[x := p[y]][y := p[x]], |s|)
    ensures multiset(Permuted(s, p[x := p[y]][y := p[x]])) == multiset(Permuted(s, p))
  {
    var t := Permuted(s, p);
    assert Permuted(s, p[x := p[y]][y := p[x]]) == t[x := t[y]][y := t[x]];
    SwapElements(t, x, y);
  }

  /** Reading s through q, whose last entry is the last index, ends with the last element. */
  lemma {:induction false} PermutedSnoc<T>(s: seq<T>, q: seq<int>)
    requires |q| == |s| > 0 && q[|s| - 1] == |s| - 1 && Indexes(q[..|s| - 1], |s| - 1)
    ensures Indexes(q, |s|)
    ensures multiset(Permuted(s, q)) == multiset(Permuted(s[..|s| - 1], q[..|s| - 1])) + multiset{s[|s| - 1]}
  {
    var n := |s|;
    forall k | 0 <= k < n ensures 0 <= q[k] < n {
      if k < n - 1 {
        assert q[k] == q[..n - 1][k];
      }
    }
    assert Permuted(s, q) == Permuted(s[..n - 1], q[..n - 1]) + [s[n - 1]];
  }

  /** The elements of a non-empty sequence are those before its last one, and the last one. */
  lemma {:induction false} LastSplit<T>(s: seq<T>)
    requires |s| > 0
    ensures multiset(s) == multiset(s[..|s| - 1]) + multiset{s[|s| - 1]}
  {
    assert s == s[..|s| - 1] + s[|s| - 1..];
    assert s[|s| - 1..] == [s[|s| - 1]];
  }

  /**
   * A permutation with n-1 moved to the last entry: it reads s into the
   * same elements, and its other entries permute 0..n-2.
   */
  lemma {:induction false} LastHome<T>(s: seq<T>, p: seq<int>) returns (q: seq<int>)
    requires IsPermutation(p, |s|) && |s| > 0
    ensures |q| == |s| && q[|s| - 1] == |s| - 1 && IsPermutation(q[..|s| - 1], |s| - 1)
    ensures Indexes(q, |s|) && multiset(Permuted(s, q)) == multiset(Permuted(s, p))
  {
    var n := |s|;
    assert Hit(p, n - 1);
    var j :| 0 <= j < n && p[j] == n - 1;
    MoveLastHome(p, n, j);
    q := p[j := p[n - 1]][n - 1 := p[j]];
    PermutedSwap(s, p, j, n - 1);
  }

  /** Applying a permutation only rearranges: the result has the same elements. */
  lemma {:induction false} PermutedMultiset<T>(s: seq<T>, p: seq<int>)
    requires IsPermutation(p, |s|)
    ensures multiset(Permuted(s, p)) == multiset(s)
    decreases |s|
  {
    var n := |s|;
    if n > 0 {
      var q := LastHome(s, p);
      PermutedSnoc(s, q);
      PermutedMultiset(s[..n - 1], q[..n - 1]);
      LastSplit(s);
    }
  }

  // ---------------------------------------------------------------------
  // apply_permutation_in_place

  /** No index below i is moved by g. */
  predicate FixedBelow(g: seq<int>, i: int)
  {
    forall j :: 0 <= j < i && j < |g| ==> g[j] == j
  }

  /** The elements of a, read through r, are the target arrangement. */
  ghost predicate Targets<T>(a: seq<T>, r: seq<int>, target: seq<T>)
  {
    |r| == |target| == |a| &&
    (forall k :: 0 <= k < |r| ==> 0 <= r[k] < |a|) &&
    (forall k :: 0 <= k < |r| ==> target[k] == a[r[k]])
  }

  /** The indexes r still moves. */
  function Moving(r: seq<int>): set<int>
  {
    set k | 0 <= k < |r| && r[k] != k
  }

  /** Fewer moving indexes when r' fixes c and agrees with r elsewhere except at one more moved index. */
  lemma {:induction false} FewerMoving(r: seq<int>, r': seq<int>, c: int, k0: int)
    requires |r| == |r'| && 0 <= c < |r| && r[c] != c && r'[c] == c
    requires 0 <= k0 < |r| && r[k0] != k0
    requires forall k :: 0 <= k < |r| && k != c && k != k0 ==> r'[k] == r[k]
    ensures Moving(r') < Moving(r)
  {
    assert Moving(r') <= Moving(r) - {c};
    assert c in Moving(r);
  }

  /**
   * The state inside one cycle: g is the working copy of arg, r is g with the
   * predecessor k0 of the cycle start i redirected to curr (the position that
   * now holds the element k0 is waiting for); r stays a permutation that,
   * read through arr, gives the target.
   */
  ghost predicate CycleInv<T>(a: seq<T>, g: seq<int>, r: seq<int>, target: seq<T>, n: int,
                        i: int, k0: int, curr: int)
  {
    |g| == n && 0 <= i < n && 0 <= curr < n && 0 <= k0 < n &&
    g[k0] == i && r == g[k0 := curr] &&
    IsPermutation(r, n) && Targets(a, r, target) &&
    (curr != i ==> r[i] == i) &&
    FixedBelow(g, i) && FixedBelow(r, i)
  }

  /** One exchange of the cycle: the redirected permutation has two values exchanged. */
  lemma {:induction false} CycleStepPerm(g: seq<int>, r: seq<int>, n: int, i: int, k0: int, curr: int, next: int)
    requires |g| == n && 0 <= i < n && 0 <= curr < n && 0 <= k0 < n
    requires g[k0] == i && r == g[k0 := curr] && IsPermutation(r, n)
    requires curr != i ==> r[i] == i
    requires FixedBelow(g, i) && FixedBelow(r, i)
    requires next == g[curr] && next != i
    ensures 0 <= next < n && k0 != curr && curr != next
    ensures r[curr] == next && r[k0] == curr
    ensures g[curr := curr][k0 := next] == r[curr := r[k0]][k0 := r[curr]]
    ensures IsPermutation(g[curr := curr][k0 := next], n)
    ensures FixedBelow(g[curr := curr], i) && FixedBelow(g[curr := curr][k0 := next], i)
    ensures g[curr := curr][k0 := next][i] == i
    ensures Moving(g[curr := curr][k0 := next]) < Moving(r)
  {
    assert k0 != curr;
    assert r[curr] == next && r[k0] == curr;
    InjectiveAt(r, n, k0, curr);
    var r' := g[curr := curr][k0 := next];
    assert r' == r[curr := r[k0]][k0 := r[curr]];
    SwapPermutation(r, n, curr, k0);
    assert r[k0] != k0;
    FewerMoving(r, r', curr, k0);
  }

  /** One exchange of the cycle keeps arr, read through the redirected permutation, at the target. */
  lemma {:induction false} CycleStepTargets<T>(a: seq<T>, r: seq<int>, r': seq<int>, target: seq<T>, n: int,
                                               k0: int, curr: int, next: int)
    requires IsPermutation(r, n) && Targets(a, r, target)
    requires 0 <= curr < n && 0 <= k0 < n && 0 <= next < n && k0 != curr
    requires r[curr] == next && r[k0] == curr && r' == r[curr := r[k0]][k0 := r[curr]]
    ensures Targets(a[curr := a[next]][next := a[curr]], r', target)
  {
    var a' := a[curr := a[next]][next := a[curr]];
    forall k | 0 <= k < n ensures target[k] == a'[r'[k]] {
      if k != curr && k != k0 {
        InjectiveAt(r, n, k, curr);
        InjectiveAt(r, n, k, k0);
      }
    }
  }

  /** A cycle starts at i with r the permutation itself; k0 is the entry that holds i. */
  lemma {:induction false} CycleStart<T>(a: seq<T>, g: seq<int>, target: seq<T>, n: int, i: int) returns (k0: int)
    requires 0 <= i < n && IsPermutation(g, n) && FixedBelow(g, i) && Targets(a, g, target)
    ensures CycleInv(a, g, g, target, n, i, k0, i)
  {
    assert Hit(g, i);
    k0 :| 0 <= k0 < n && g[k0] == i;
    assert g[k0 := i] == g;
  }

  /** Two positions of a permutation holding the same index are one position. */
  lemma InjectiveAt(r: seq<int>, n: int, x: int, y: int)
    requires IsPermutation(r, n) && 0 <= x < n && 0 <= y < n
    ensures r[x] == r[y] ==> x == y
  {
  }

  /** When the cycle closes, the working copy with curr fixed is the permutation r. */
  lemma {:induction false} CycleClosed<T>(a: seq<T>, g: seq<int>, r: seq<int>, target: seq<T>, n: int,
                                          i: int, k0: int, curr: int)
    requires CycleInv(a, g, r, target, n, i, k0, curr)
    requires g[curr] == i
    ensures g[curr := curr] == r
    ensures IsPermutation(r, n) && Targets(a, r, target) && FixedBelow(r, i + 1)
  {
    InjectiveAt(r, n, k0, i);
    InjectiveAt(r, n, curr, i);
  }

  /**
   * apply_permutation_in_place: follows each cycle of arg, exchanging
   * elements along it, so that position i ends up with the element that
   * was at arg[i]. arg is taken by value: the caller's sequence is not
   * changed.
   */
  method ApplyPermutationInPlace<T>(arr: array<T>, arg: seq<int>)
    requires IsPermutation(arg, arr.Length)
    modifies arr
    ensures arr[..] == Permuted(old(arr[..]), arg)
  {
    ghost var target := Permuted(arr[..], arg);
    var n := |arg|;
    var g := arg;
    var i := 0;
    while i < n
      invariant 0 <= i <= n
      invariant IsPermutation(g, n) && FixedBelow(g, i)
      invariant Targets(arr[..], g, target)
    {
      var curr := i;
      var next := g[curr];
      ghost var k0 := CycleStart(arr[..], g, target, n, i);
      ghost var r := g;
      while next != i
        invariant CycleInv(arr[..], g, r, target, n, i, k0, curr)
        invariant next == g[curr]
        decreases Moving(r)
      {
        CycleStepPerm(g, r, n, i, k0, curr, next);
        CycleStepTargets(arr[..], r, g[curr := curr][k0 := next], target, n, k0, curr, next);
        arr[curr], arr[next] := arr[next], arr[curr];
        g := g[curr := curr];
        r := g[k0 := next];
        curr := next;
        next := g[next];
      }
      CycleClosed(arr[..], g, r, target, n, i, k0, curr);
      g := g[curr := curr];
      i := i + 1;
    }
  }

  // ---------------------------------------------------------------------
  // get_cmp_func

  /**
   * The comparator get_cmp_func hands out: std::greater or std::less,
   * either plain or wrapped to order NaNs (which integers do not have).
   */
  datatype CmpFunc = CmpFunc(greater: bool, nanAware: bool)

  /** The comparator's answer for (x, y). */
  predicate Compare(c: CmpFunc, x: int, y: int)
  {
    if c.greater then x > y else x < y
  }

  /** get_cmp_func(hasnan, reverse): greater exactly when reversed, NaN-aware exactly when hasnan. */
  function GetCmpFunc(hasnan: bool, reverse: bool): (c: CmpFunc)
    ensures c.nanAware == hasnan
    ensures forall x: int, y: int {:trigger Compare(c, x, y)} ::
      Compare(c, x, y) == (if reverse then x > y else x < y)
  {
    if hasnan then
      (if reverse then CmpFunc(true, true) else CmpFunc(false, true))
    else
      (if reverse then CmpFunc(true, false) else CmpFunc(false, false))
  }

  /** Either comparator is a strict order: irreflexive and asymmetric. */
  lemma CompareStrict(c: CmpFunc, x: int, y: int)
    ensures !Compare(c, x, x)
    ensures Compare(c, x, y) ==> !Compare(c, y, x)
  {
  }

  // ---------------------------------------------------------------------
  // argsort and key-value sort

  /** x may stand before y: ascending, or descending when reversed. */
  predicate InOrder(x: int, y: int, reversed: bool)
  {
    if reversed then x >= y else x <= y
  }

  /** s is ordered: non-decreasing, or non-increasing when reversed. */
  predicate Ordered(s: seq<int>, reversed: bool)
  {
    forall k, l :: 0 <= k < l < |s| ==> InOrder(s[k], s[l], reversed)
  }

  /** Every entry of arg is an index of a sequence of length n. */
  predicate Indexes(arg: seq<int>, n: int)
  {
    forall k :: 0 <= k < |arg| ==> 0 <= arg[k] < n
  }

  /** Reading arr through arg[..m] is ordered. */
  ghost predicate ArgOrdered(arr: seq<int>, arg: seq<int>, m: int, reversed: bool)
    requires 0 <= m <= |arg| && Indexes(arg, |arr|)
  {
    forall k, l :: 0 <= k < l < m ==> InOrder(arr[arg[k]], arr[arg[l]], reversed)
  }

  /**
   * Insertion of the entry now at j into arg[..i+1]: the other entries are
   * in order, and the one at j may stand before every entry after it.
   */
  ghost predicate Inserting(arr: seq<int>, arg: seq<int>, i: int, j: int, reversed: bool)
    requires 0 <= j <= i < |arg| && Indexes(arg, |arr|)
  {
    (forall k, l :: 0 <= k < l <= i && k != j && l != j ==> InOrder(arr[arg[k]], arr[arg[l]], reversed)) &&
    (forall l :: j < l <= i ==> InOrder(arr[arg[j]], arr[arg[l]], reversed))
  }

  lemma {:induction false} InsertStart(arr: seq<int>, arg: seq<int>, i: int, reversed: bool)
    requires 0 <= i < |arg| && Indexes(arg, |arr|) && ArgOrdered(arr, arg, i, reversed)
    ensures Inserting(arr, arg, i, i, reversed)
  {
  }

  /** Exchanging the entry at j with a predecessor it must precede moves the insertion one step down. */
  lemma {:induction false} InsertSwap(arr: seq<int>, arg: seq<int>, i: int, j: int, reversed: bool)
    requires 0 < j <= i < |arg| && Indexes(arg, |arr|) && Inserting(arr, arg, i, j, reversed)
    requires !InOrder(arr[arg[j - 1]], arr[arg[j]], reversed)
    ensures Indexes(arg[j - 1 := arg[j]][j := arg[j - 1]], |arr|)
    ensures Inserting(arr, arg[j - 1 := arg[j]][j := arg[j - 1]], i, j - 1, reversed)
  {
    var b := arg[j - 1 := arg[j]][j := arg[j - 1]];
    forall k, l | 0 <= k < l <= i && k != j - 1 && l != j - 1
      ensures InOrder(arr[b[k]], arr[b[l]], reversed)
    {
      if k == j {
        assert b[k] == arg[j - 1] && b[l] == arg[l];
      } else if l == j {
        assert b[l] == arg[j - 1] && b[k] == arg[k];
      } else {
        assert b[k] == arg[k] && b[l] == arg[l];
      }
    }
    forall l | j - 1 < l <= i ensures InOrder(arr[b[j - 1]], arr[b[l]], reversed) {
      if l == j {
        assert b[l] == arg[j - 1];
      } else {
        assert b[l] == arg[l];
      }
    }
  }

  /** The insertion ends where the entry before j may precede it (or at the front). */
  lemma {:induction false} InsertDone(arr: seq<int>, arg: seq<int>, i: int, j: int, reversed: bool)
    requires 0 <= j <= i < |arg| && Indexes(arg, |arr|) && Inserting(arr, arg, i, j, reversed)
    requires j > 0 ==> InOrder(arr[arg[j - 1]], arr[arg[j]], reversed)
    ensures ArgOrdered(arr, arg, i + 1, reversed)
  {
    forall k, l | 0 <= k < l <= i ensures InOrder(arr[arg[k]], arr[arg[l]], reversed) {
      if l == j && k < j - 1 {
        assert InOrder(arr[arg[k]], arr[arg[j - 1]], reversed);
      }
    }
  }

  /** arg ordered as a whole means arr read through it is ordered. */
  lemma {:induction false} ArgOrderedPermuted(arr: seq<int>, arg: seq<int>, reversed: bool)
    requires Indexes(arg, |arr|) && ArgOrdered(arr, arg, |arg|, reversed)
    ensures Ordered(Permuted(arr, arg), reversed)
  {
    var t := Permuted(arr, arg);
    forall k, l | 0 <= k < l < |t| ensures InOrder(t[k], t[l], reversed) {
      assert t[k] == arr[arg[k]] && t[l] == arr[arg[l]];
    }
  }

  /** std::iota: 0, 1, ..., n-1 is a permutation. */
  method Iota(n: nat) returns (arg: seq<int>)
    ensures IsPermutation(arg, n)
    ensures forall k :: 0 <= k < n ==> arg[k] == k
  {
    arg := [];
    while |arg| < n
      invariant |arg| <= n
      invariant forall k :: 0 <= k < |arg| ==> arg[k] == k
    {
      arg := arg + [|arg|];
    }
    forall v | 0 <= v < n ensures Hit(arg, v) {
      assert arg[v] == v;
    }
  }

  /**
   * scalar argsort: the identity permutation sorted by arr[·], ascending,
   * or descending when reversed (hasnan is unused).
   */
  method Argsort(arr: seq<int>, hasnan: bool, reversed: bool) returns (arg: seq<int>)
    ensures IsPermutation(arg, |arr|)
    ensures Ordered(Permuted(arr, arg), reversed)
  {
    var n := |arr|;
    arg := Iota(n);
    var i := 0;
    while i < n
      invariant 0 <= i <= n
      invariant IsPermutation(arg, n)
      invariant ArgOrdered(arr, arg, i, reversed)
    {
      InsertStart(arr, arg, i, reversed);
      var j := i;
      while j > 0 && !InOrder(arr[arg[j - 1]], arr[arg[j]], reversed)
        invariant 0 <= j <= i
        invariant IsPermutation(arg, n)
        invariant Inserting(arr, arg, i, j, reversed)
      {
        SwapPermutation(arg, n, j - 1, j);
        InsertSwap(arr, arg, i, j, reversed);
        arg := arg[j - 1 := arg[j]][j := arg[j - 1]];
        j := j - 1;
      }
      InsertDone(arr, arg, i, j, reversed);
      i := i + 1;
    }
    ArgOrderedPermuted(arr, arg, reversed);
  }

  /**
   * keyvalue_qsort: the key order computed by argsort is applied to both the
   * keys and the values, so the keys end up ordered and each value stays
   * with its key (the same permutation moves both).
   */
  method KeyvalueQsort<V>(key: array<int>, val: array<V>, hasnan: bool, descending: bool)
      returns (ghost perm: seq<int>)
    requires key.Length == val.Length
    requires key as object != val as object
    modifies key, val
    ensures IsPermutation(perm, key.Length)
    ensures key[..] == Permuted(old(key[..]), perm)
    ensures val[..] == Permuted(old(val[..]), perm)
    ensures Ordered(key[..], descending)
  {
    var arg := Argsort(key[..], hasnan, descending);
    ApplyPermutationInPlace(key, arg);
    ApplyPermutationInPlace(val, arg);
    perm := arg;
  }

  /** keyvalue_select: k is unused and a full key-value sort is done. */
  method KeyvalueSelect<V>(key: array<int>, val: array<V>, k: int, hasnan: bool, descending: bool)
      returns (ghost perm: seq<int>)
    requires key.Length == val.Length
    requires key as object != val as object
    modifies key, val
    ensures IsPermutation(perm, key.Length)
    ensures key[..] == Permuted(old(key[..]), perm)
    ensures val[..] == Permuted(old(val[..]), perm)
    ensures Ordered(key[..], descending)
  {
    perm := KeyvalueQsort(key, val, hasnan, descending);
  }

  /** keyvalue_partial_sort: k is unused and a full key-value sort is done. */
  method KeyvaluePartialSort<V>(key: array<int>, val: array<V>, k: int, hasnan: bool, descending: bool)
      returns (ghost perm: seq<int>)
    requires key.Length == val.Length
    requires key as object != val as object
    modifies key, val
    ensures IsPermutation(perm, key.Length)
    ensures key[..] == Permuted(old(key[..]), perm)
    ensures val[..] == Permuted(old(val[..]), perm)
    ensures Ordered(key[..], descending)
  {
    perm := KeyvalueQsort(key, val, hasnan, descending);
  }

  /**
   * What the key-value sort leaves: the keys are an ordered rearrangement,
   * and the (key, value) pairs are the input pairs rearranged.
   */
  lemma {:induction false} KeyvalueResult<V>(k0: seq<int>, v0: seq<V>, perm: seq<int>)
    requires |k0| == |v0| && IsPermutation(perm, |k0|)
    ensures multiset(Permuted(k0, perm)) == multiset(k0)
    ensures multiset(Permuted(Zip(k0, v0), perm)) == multiset(Zip(k0, v0))
    ensures Zip(Permuted(k0, perm), Permuted(v0, perm)) == Permuted(Zip(k0, v0), perm)
  {
    PermutedMultiset(k0, perm);
    PermutedMultiset(Zip(k0, v0), perm);
  }

  /** The (key, value) pairs of two sequences of one length. */
  function Zip<V>(k: seq<int>, v: seq<V>): (r: seq<(int, V)>)
    requires |k| == |v|
    ensures |r| == |k| && forall i {:trigger r[i]} :: 0 <= i < |k| ==> r[i] == (k[i], v[i])
  {
    seq(|k|, i requires 0 <= i < |k| => (k[i], v[i]))
  }
}
