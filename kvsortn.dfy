/**
 * The entry points of xss-network-keyvaluesort.hpp: kvsort_n_vec and
 * argsort_n_vec load the N input pairs into numVecs key registers and
 * numVecs value registers, pad the registers past the input with type_max
 * keys and zmm_max values, run the key-value network and store back the
 * first N pairs. The register stage is the network KvNet on the padded
 * pairs; the loads and the masked stores work on the arrays.
 */
module KvSortN {
  import opened Simd
  import opened Sorting
  import opened Levels
  import opened KvNetworks
  import opened KeyedPartition
  import NetworkSort
  import Scalar

  /** indexType::zmm_max() for the 64-bit index type arrsize_t. */
  const INDEX_MAX: int := 0xFFFF_FFFF_FFFF_FFFF

  /**
   * The lanes of the numVecs = n / NUMLANES loaded register pairs: the input
   * pairs, then the padding pair (type_max, vmax) the masked loads leave.
   */
  function PaddedPairs<V>(k: seq<int>, v: seq<V>, n: nat, vmax: V): (r: seq<Pair<V>>)
    requires |k| == |v| <= n
    ensures |r| == n
  {
    seq(n, i requires 0 <= i < n => if i < |k| then (k[i], v[i]) else (TYPE_MAX, vmax))
  }

  /** c padding pairs. */
  function PadPairs<V>(c: nat, vmax: V): (r: seq<Pair<V>>)
    ensures |r| == c
  {
    seq(c, i requires 0 <= i < c => (TYPE_MAX, vmax))
  }

  /** keyType::i64gather: the keys the indexes point at. */
  function Gather(keys: seq<int>, idx: seq<int>): (r: seq<int>)
    requires IndexesIn(idx, |keys|)
    ensures |r| == |idx|
  {
    seq(|idx|, i requires 0 <= i < |idx| => keys[idx[i]])
  }

  /** Every index points into an array of n keys. */
  predicate IndexesIn(idx: seq<int>, n: int)
  {
    forall i :: 0 <= i < |idx| ==> 0 <= idx[i] < n
  }

  /**
   * The key an index is compared by: the element of keys it points at (an
   * index that points nowhere in keys reads as type_max, the padding key;
   * the sorts are never given one).
   */
  function KeyOf(keys: seq<int>): int -> int
  {
    i => if 0 <= i < |keys| then keys[i] else TYPE_MAX
  }

  /** The gathered keys are the keys KeyOf gives. */
  lemma {:induction false} GatherKeys(keys: seq<int>, idx: seq<int>)
    requires IndexesIn(idx, |keys|)
    ensures Gather(keys, idx) == Keys(idx, KeyOf(keys))
  {
  }

  // ---------------------------------------------------------------------
  // Pairs and their projections

  lemma PaddedSplit<V>(k: seq<int>, v: seq<V>, n: nat, vmax: V)
    requires |k| == |v| <= n
    ensures PaddedPairs(k, v, n, vmax) == Scalar.Zip(k, v) + PadPairs(n - |k|, vmax)
  {
  }

  /** Equal multisets of pairs have equal multisets of keys and of values. */
  lemma {:induction false} PairsMultiset<V>(A: seq<Pair<V>>, B: seq<Pair<V>>)
    requires multiset(A) == multiset(B)
    ensures multiset(KeysOf(A)) == multiset(KeysOf(B))
    ensures multiset(ValsOf(A)) == multiset(ValsOf(B))
    decreases |A|
  {
    if |A| == 0 {
      assert |B| == |multiset(B)| == 0;
    } else {
      var x := A[0];
      assert x in multiset(B);
      var j :| 0 <= j < |B| && B[j] == x;
      var B' := RemoveAt(B, j);
      var A' := RemoveAt(A, 0);
      assert A' == A[1..];
      assert multiset(A') == multiset(B') by {
        assert multiset(A') == multiset(A) - multiset{x};
        assert multiset(B') == multiset(B) - multiset{x};
      }
      PairsMultiset(A', B');
    }
  }

  /**
   * Taking lane j out of a sequence of pairs takes its pair out of the
   * multiset of pairs, its key out of the keys and its value out of the values.
   */
  lemma RemoveAt<V>(B: seq<Pair<V>>, j: nat) returns (B': seq<Pair<V>>)
    requires j < |B|
    ensures B' == B[..j] + B[j + 1..]
    ensures multiset(B) == multiset(B') + multiset{B[j]}
    ensures multiset(KeysOf(B)) == multiset(KeysOf(B')) + multiset{B[j].0}
    ensures multiset(ValsOf(B)) == multiset(ValsOf(B')) + multiset{B[j].1}
  {
    var B1, B2 := B[..j], B[j + 1..];
    B' := B1 + B2;
    assert B == B1 + [B[j]] + B2;
    assert KeysOf(B) == KeysOf(B1) + [B[j].0] + KeysOf(B2);
    assert KeysOf(B') == KeysOf(B1) + KeysOf(B2);
    assert ValsOf(B) == ValsOf(B1) + [B[j].1] + ValsOf(B2);
    assert ValsOf(B') == ValsOf(B1) + ValsOf(B2);
  }

  lemma KeysOfPadded<V>(k: seq<int>, v: seq<V>, n: nat, vmax: V)
    requires |k| == |v| <= n
    ensures KeysOf(PaddedPairs(k, v, n, vmax)) == k + Set1(TYPE_MAX, n - |k|)
  {
  }

  /** The padded lanes hold the padding pair from lane N on, and no key above type_max. */
  lemma {:induction false} PaddedPad<V>(k: seq<int>, v: seq<V>, n: nat, vmax: V)
    requires |k| == |v| <= n && InRange(k)
    ensures PadFrom(PaddedPairs(k, v, n, vmax), |k|, (TYPE_MAX, vmax))
  {
    var P := PaddedPairs(k, v, n, vmax);
    forall i | 0 <= i < n ensures P[i].0 <= TYPE_MAX && (|k| <= i ==> P[i] == (TYPE_MAX, vmax)) {
      if i < |k| {
        assert P[i].0 == k[i];
      }
    }
  }

  /**
   * What the network leaves on the padded pairs, which it sorts by key and
   * whose padding it leaves in the lanes from N on: its first N keys are the
   * input keys sorted, and its first N pairs are the input pairs.
   */
  lemma KvResult<V>(k0: seq<int>, v0: seq<V>, P: seq<Pair<V>>, R: seq<Pair<V>>, vmax: V)
    requires |k0| == |v0| <= |P| && P == PaddedPairs(k0, v0, |P|, vmax) && InRange(k0)
    requires Sorted(KeysOf(R)) && multiset(R) == multiset(P) && PadFrom(R, |k0|, (TYPE_MAX, vmax))
    ensures |k0| <= |R| && KeysOf(R)[..|k0|] == SortSeq(k0)
    ensures multiset(R[..|k0|]) == multiset(Scalar.Zip(k0, v0))
  {
    var pad := Set1(TYPE_MAX, |P| - |k0|);
    KvKeys(k0, v0, P, R, vmax);
    InRangeLe(k0);
    SortedPaddedPrefix(KeysOf(R), k0, pad, TYPE_MAX);
    PadTail(k0, v0, P, R, vmax);
  }

  /** The network output keeps the pairs, so its keys are the input keys and the padding keys. */
  lemma KvKeys<V>(k0: seq<int>, v0: seq<V>, P: seq<Pair<V>>, R: seq<Pair<V>>, vmax: V)
    requires |k0| == |v0| <= |P| && P == PaddedPairs(k0, v0, |P|, vmax)
    requires multiset(R) == multiset(P)
    ensures |R| == |P|
    ensures multiset(KeysOf(R)) == multiset(k0) + multiset(Set1(TYPE_MAX, |P| - |k0|))
  {
    assert |R| == |P| by {
      assert |R| == |multiset(R)| == |multiset(P)|;
    }
    PairsMultiset(R, P);
    KeysOfPadded(k0, v0, |P|, vmax);
  }

  lemma InRangeLe(k: seq<int>)
    requires InRange(k)
    ensures AllLe(k, TYPE_MAX)
  {
    forall i | 0 <= i < |k| ensures k[i] <= TYPE_MAX {
      assert TYPE_MIN <= k[i] <= TYPE_MAX;
    }
  }

  /** The lanes past the first N are the padding pairs, so the first N are the input pairs. */
  lemma PadTail<V>(k0: seq<int>, v0: seq<V>, P: seq<Pair<V>>, R: seq<Pair<V>>, vmax: V)
    requires |k0| == |v0| <= |P| == |R| && P == PaddedPairs(k0, v0, |P|, vmax)
    requires multiset(R) == multiset(P) && PadFrom(R, |k0|, (TYPE_MAX, vmax))
    ensures multiset(R[..|k0|]) == multiset(Scalar.Zip(k0, v0))
  {
    var N, c := |k0|, |P| - |k0|;
    var pads := PadPairs(c, vmax);
    PaddedSplit(k0, v0, |P|, vmax);
    assert R[N..] == pads;
    calc {
      multiset(R[..N]) + multiset(pads);
      { assert R == R[..N] + R[N..]; }
      multiset(R);
      multiset(Scalar.Zip(k0, v0)) + multiset(pads);
    }
    MultisetCancel(multiset(R[..N]), multiset(Scalar.Zip(k0, v0)), multiset(pads));
  }

  lemma MultisetCancel<T>(A: multiset<T>, B: multiset<T>, C: multiset<T>)
    requires A + C == B + C
    ensures A == B
  {
    assert A == (A + C) - C;
    assert B == (B + C) - C;
  }

  /** With keys gathered from the indexes, every input pair has as key the key its index points at. */
  lemma ArgPairs(keys: seq<int>, idx: seq<int>, R: seq<Pair<int>>)
    requires IndexesIn(idx, |keys|)
    requires multiset(R) == multiset(Scalar.Zip(Gather(keys, idx), idx))
    ensures forall j :: 0 <= j < |R| ==> 0 <= R[j].1 < |keys| && R[j].0 == keys[R[j].1]
  {
    var Z := Scalar.Zip(Gather(keys, idx), idx);
    forall j | 0 <= j < |R| ensures 0 <= R[j].1 < |keys| && R[j].0 == keys[R[j].1] {
      assert R[j] in multiset(Z);
      var i :| 0 <= i < |Z| && Z[i] == R[j];
    }
  }

  // ---------------------------------------------------------------------
  // kvsort_n_vec and argsort_n_vec

  /**
   * The register stage of kvsort_n_vec and argsort_n_vec on numVecs = 2^m
   * registers: the N input pairs padded with (type_max, vmax), through the
   * network. Its first N keys are the input keys sorted, and its first N
   * pairs are the input pairs.
   */
  function NetworkPairs<V(!new)>(k0: seq<int>, v0: seq<V>, numVecs: nat, ghost m: nat, vmax: V): (R: seq<Pair<V>>)
    requires numVecs == Pow2(m) && |k0| == |v0| <= NUMLANES * numVecs && InRange(k0)
    ensures multiset(R) == multiset(PaddedPairs(k0, v0, NUMLANES * numVecs, vmax))
    ensures |k0| <= |R| && KeysOf(R)[..|k0|] == SortSeq(k0)
    ensures multiset(R[..|k0|]) == multiset(Scalar.Zip(k0, v0))
  {
    var P := PaddedPairs(k0, v0, NUMLANES * numVecs, vmax);
    KvNetSorts(P, numVecs, m);
    PaddedPad(k0, v0, NUMLANES * numVecs, vmax);
    KvNetPad(P, numVecs, |k0|, (TYPE_MAX, vmax));
    KvResult(k0, v0, P, KvNet(P, numVecs), vmax);
    KvNet(P, numVecs)
  }

  /**
   * The stores of kvsort_n_vec: storeu of the first numVecs / 2 key and
   * value registers and mask_storeu of the rest write exactly the N input
   * slots.
   */
  method StorePairs<V>(arr: array<Pair<V>>, lo: nat, N: nat, S: seq<Pair<V>>)
    requires |S| == N && lo + N <= arr.Length
    modifies arr
    ensures arr[lo..lo + N] == S
    ensures arr[..lo] == old(arr[..lo]) && arr[lo + N..] == old(arr[lo + N..])
  {
    forall x | lo <= x < lo + N {
      arr[x] := S[x - lo];
    }
  }

  /** The stores of argsort_n_vec: only the index registers are written back. */
  method StoreIndexes(indices: array<int>, lo: nat, N: nat, S: seq<Pair<int>>)
    requires |S| == N && lo + N <= indices.Length
    modifies indices
    ensures indices[lo..lo + N] == ValsOf(S)
    ensures indices[..lo] == old(indices[..lo]) && indices[lo + N..] == old(indices[lo + N..])
  {
    forall x | lo <= x < lo + N {
      indices[x] := S[x - lo].1;
    }
  }

  /**
   * The result of a key-value sort of the pairs before: the keys of after
   * are the keys of before sorted, and after holds the same pairs, so every
   * value stays with its key.
   */
  ghost predicate KvSorted<V>(before: seq<Pair<V>>, after: seq<Pair<V>>)
  {
    KeysOf(after) == SortSeq(KeysOf(before)) && multiset(after) == multiset(before)
  }

  /**
   * The result of an argsort of the indexes before over keys: after holds
   * the same indexes, and the keys they point at are those of before,
   * ascending.
   */
  predicate ArgSorted(keys: seq<int>, before: seq<int>, after: seq<int>)
    requires IndexesIn(before, |keys|)
  {
    IndexesIn(after, |keys|) && multiset(after) == multiset(before) &&
    Keys(after, KeyOf(keys)) == SortSeq(Gather(keys, before))
  }

  /** Storing the first N pairs of the network output completes a key-value sort. */
  lemma KvStored<V>(P0: seq<Pair<V>>, R: seq<Pair<V>>, N: nat, after: seq<Pair<V>>)
    requires |P0| == N <= |R| && KeysOf(R)[..N] == SortSeq(KeysOf(P0))
    requires multiset(R[..N]) == multiset(Scalar.Zip(KeysOf(P0), ValsOf(P0)))
    requires after == R[..N]
    ensures KvSorted(P0, after)
  {
    KeysOfSlices(R, N);
    ZipKeysVals(P0);
  }

  /** Storing the indexes of the first N pairs of the network output completes an argsort. */
  lemma ArgStored(keys: seq<int>, i0: seq<int>, R: seq<Pair<int>>, N: nat, after: seq<int>)
    requires IndexesIn(i0, |keys|) && |i0| == N <= |R|
    requires KeysOf(R)[..N] == SortSeq(Gather(keys, i0))
    requires multiset(R[..N]) == multiset(Scalar.Zip(Gather(keys, i0), i0))
    requires after == ValsOf(R[..N])
    ensures ArgSorted(keys, i0, after)
  {
    KeysOfSlices(R, N);
    ArgResult(keys, i0, R[..N], KeysOf(R)[..N]);
    GatherKeys(keys, after);
  }

  /**
   * kvsort_n_vec<numVecs>(keys + lo, values + lo, N), on the pairs of the
   * two arrays: the network of numVecs = 2^m registers, or of half as many
   * when the input fits.
   */
  method KvsortNVec<V(!new)>(arr: array<Pair<V>>, lo: nat, N: nat, numVecs: nat, ghost m: nat, vmax: V)
    requires numVecs == Pow2(m) && N <= NUMLANES * numVecs && lo + N <= arr.Length
    requires InRange(KeysOf(arr[lo..lo + N]))
    modifies arr
    ensures KvSorted(old(arr[lo..lo + N]), arr[lo..lo + N])
    ensures arr[..lo] == old(arr[..lo]) && arr[lo + N..] == old(arr[lo + N..])
    decreases numVecs
  {
    if numVecs > 1 && N * 2 <= numVecs * NUMLANES {
      NetworkSort.Pow2Half(m);
      KvsortNVec(arr, lo, N, numVecs / 2, m - 1, vmax);
      return;
    }
    var P0 := arr[lo..lo + N];
    var R := NetworkPairs(KeysOf(P0), ValsOf(P0), numVecs, m, vmax);
    StorePairs(arr, lo, N, R[..N]);
    KvStored(P0, R, N, arr[lo..lo + N]);
  }

  /**
   * argsort_n_vec<numVecs>(keys, indices + lo, N): the keys are gathered
   * through the indexes, and only the indexes are stored back.
   */
  method ArgsortNVec(keys: array<int>, indices: array<int>, lo: nat, N: nat, numVecs: nat, ghost m: nat)
    requires numVecs == Pow2(m) && N <= NUMLANES * numVecs
    requires lo + N <= indices.Length && keys != indices
    requires IndexesIn(indices[lo..lo + N], keys.Length) && InRange(keys[..])
    modifies indices
    ensures ArgSorted(keys[..], old(indices[lo..lo + N]), indices[lo..lo + N])
    ensures indices[..lo] == old(indices[..lo]) && indices[lo + N..] == old(indices[lo + N..])
    decreases numVecs
  {
    if numVecs > 1 && N * 2 <= numVecs * NUMLANES {
      NetworkSort.Pow2Half(m);
      ArgsortNVec(keys, indices, lo, N, numVecs / 2, m - 1);
      return;
    }
    var K, i0 := keys[..], indices[lo..lo + N];
    var k0 := Gather(K, i0);
    GatherInRange(K, i0);
    var R := NetworkPairs(k0, i0, numVecs, m, INDEX_MAX);
    StoreIndexes(indices, lo, N, R[..N]);
    ArgStored(K, i0, R, N, indices[lo..lo + N]);
  }

  lemma GatherInRange(keys: seq<int>, idx: seq<int>)
    requires IndexesIn(idx, |keys|)
    requires InRange(keys)
    ensures InRange(Gather(keys, idx))
  {
  }

  /** The stored indexes, when the first N pairs are the input pairs. */
  lemma ArgResult(keys: seq<int>, i0: seq<int>, S: seq<Pair<int>>, sorted: seq<int>)
    requires IndexesIn(i0, |keys|)
    requires multiset(S) == multiset(Scalar.Zip(Gather(keys, i0), i0)) && sorted == KeysOf(S)
    ensures IndexesIn(ValsOf(S), |keys|)
    ensures multiset(ValsOf(S)) == multiset(i0)
    ensures Gather(keys, ValsOf(S)) == sorted
  {
    ArgPairs(keys, i0, S);
    PairsMultiset(S, Scalar.Zip(Gather(keys, i0), i0));
    ZipParts(Gather(keys, i0), i0);
  }

  /**
   * kvsort_n<maxN>: kvsort_n_vec with maxN / NUMLANES registers; maxN is
   * NUMLANES times a power of two (the static_assert of the source).
   */
  method KvsortN<V(!new)>(arr: array<Pair<V>>, lo: nat, N: nat, maxN: nat, ghost m: nat, vmax: V)
    requires maxN == NUMLANES * Pow2(m) && N <= maxN && lo + N <= arr.Length
    requires InRange(KeysOf(arr[lo..lo + N]))
    modifies arr
    ensures KvSorted(old(arr[lo..lo + N]), arr[lo..lo + N])
    ensures arr[..lo] == old(arr[..lo]) && arr[lo + N..] == old(arr[lo + N..])
  {
    KvsortNVec(arr, lo, N, maxN / NUMLANES, m, vmax);
  }

  /** argsort_n<maxN>: argsort_n_vec with maxN / NUMLANES registers. */
  method ArgsortN(keys: array<int>, indices: array<int>, lo: nat, N: nat, maxN: nat, ghost m: nat)
    requires maxN == NUMLANES * Pow2(m) && N <= maxN
    requires lo + N <= indices.Length && keys != indices
    requires IndexesIn(indices[lo..lo + N], keys.Length) && InRange(keys[..])
    modifies indices
    ensures ArgSorted(keys[..], old(indices[lo..lo + N]), indices[lo..lo + N])
    ensures indices[..lo] == old(indices[..lo]) && indices[lo + N..] == old(indices[lo + N..])
  {
    ArgsortNVec(keys, indices, lo, N, maxN / NUMLANES, m);
  }
}
