/**
 * The optimal sorting networks of xss-optimal-networks.hpp. optimal_sort_4,
 * _8, _16 and _32 sort the lanes of 4, 8, 16 or 32 registers column by
 * column, in place on the register array, by a fixed sequence of COEX steps
 * written out in the source in blocks (the network's layers). Here each
 * network is its table of layers, each layer its list of COEX pairs in
 * source order, and each COEX is the comparator's (the first register gets
 * the lanes that sort first, in ascending or descending order).
 */
module OptimalNetworks {
  import opened Simd
  import opened Comparators
  import opened NetworkSort

  /** One layer: the COEX pairs (i, j), i < j, of one block, applied in order. */
  type Net = seq<(nat, nat)>

  /** A whole network: its layers, first block first. */
  type Network = seq<Net>

  /** Every pair of the layer names two registers of n, the smaller first. */
  predicate WellFormed(net: Net, n: nat)
  {
    forall t :: 0 <= t < |net| ==> net[t].0 < net[t].1 < n
  }

  predicate AllWellFormed(network: Network, n: nat)
  {
    forall k :: 0 <= k < |network| ==> WellFormed(network[k], n)
  }

  // ------------------------------------------------ the optimal_sort_4 table

  type Pair4 = p: (nat, nat) | p.0 < p.1 < 4 witness (0, 1)

  const NET4_1: seq<Pair4> := [
      (0, 2), (1, 3)]
  const NET4_2: seq<Pair4> := [
      (0, 1), (2, 3)]
  const NET4_3: seq<Pair4> := [
      (1, 2)]

  /** The 3 layers, 5 COEX steps in all, of optimal_sort_4. */
  const OPTIMAL4: seq<seq<Pair4>> := [NET4_1, NET4_2, NET4_3]

  // ------------------------------------------------ the optimal_sort_8 table

  type Pair8 = p: (nat, nat) | p.0 < p.1 < 8 witness (0, 1)

  const NET8_1: seq<Pair8> := [
      (0, 2), (1, 3), (4, 6), (5, 7)]
  const NET8_2: seq<Pair8> := [
      (0, 4), (1, 5), (2, 6), (3, 7)]
  const NET8_3: seq<Pair8> := [
      (0, 1), (2, 3), (4, 5), (6, 7)]
  const NET8_4: seq<Pair8> := [
      (2, 4), (3, 5)]
  const NET8_5: seq<Pair8> := [
      (1, 4), (3, 6)]
  const NET8_6: seq<Pair8> := [
      (1, 2), (3, 4), (5, 6)]

  /** The 6 layers, 19 COEX steps in all, of optimal_sort_8. */
  const OPTIMAL8: seq<seq<Pair8>> := [NET8_1, NET8_2, NET8_3, NET8_4, NET8_5, NET8_6]

  // ------------------------------------------------ the optimal_sort_16 table

  type Pair16 = p: (nat, nat) | p.0 < p.1 < 16 witness (0, 1)

  const NET16_1: seq<Pair16> := [
      (0, 13), (1, 12), (2, 15), (3, 14), (4, 8), (5, 6), (7, 11), (9, 10)]
  const NET16_2: seq<Pair16> := [
      (0, 5), (1, 7), (2, 9), (3, 4), (6, 13), (8, 14), (10, 15), (11, 12)]
  const NET16_3: seq<Pair16> := [
      (0, 1), (2, 3), (4, 5), (6, 8), (7, 9), (10, 11), (12, 13), (14, 15)]
  const NET16_4: seq<Pair16> := [
      (0, 2), (1, 3), (4, 10), (5, 11), (6, 7), (8, 9), (12, 14), (13, 15)]
  const NET16_5: seq<Pair16> := [
      (1, 2), (3, 12), (4, 6), (5, 7), (8, 10), (9, 11), (13, 14)]
  const NET16_6: seq<Pair16> := [
      (1, 4), (2, 6), (5, 8), (7, 10), (9, 13), (11, 14)]
  const NET16_7: seq<Pair16> := [
      (2, 4), (3, 6), (9, 12), (11, 13)]
  const NET16_8: seq<Pair16> := [
      (3, 5), (6, 8), (7, 9), (10, 12)]
  const NET16_9: seq<Pair16> := [
      (3, 4), (5, 6), (7, 8), (9, 10), (11, 12)]
  const NET16_10: seq<Pair16> := [
      (6, 7), (8, 9)]

  /** The 10 layers, 60 COEX steps in all, of optimal_sort_16. */
  const OPTIMAL16: seq<seq<Pair16>> := [NET16_1, NET16_2, NET16_3, NET16_4, NET16_5, NET16_6, NET16_7, NET16_8, NET16_9, NET16_10]

  // ------------------------------------------------ the optimal_sort_32 table

  type Pair32 = p: (nat, nat) | p.0 < p.1 < 32 witness (0, 1)

  const NET32_1: seq<Pair32> := [
      (0, 1), (2, 3), (4, 5), (6, 7), (8, 9), (10, 11), (12, 13), (14, 15),
      (16, 17), (18, 19), (20, 21), (22, 23), (24, 25), (26, 27), (28, 29), (30, 31)]
  const NET32_2: seq<Pair32> := [
      (0, 2), (1, 3), (4, 6), (5, 7), (8, 10), (9, 11), (12, 14), (13, 15),
      (16, 18), (17, 19), (20, 22), (21, 23), (24, 26), (25, 27), (28, 30), (29, 31)]
  const NET32_3: seq<Pair32> := [
      (0, 4), (1, 5), (2, 6), (3, 7), (8, 12), (9, 13), (10, 14), (11, 15),
      (16, 20), (17, 21), (18, 22), (19, 23), (24, 28), (25, 29), (26, 30), (27, 31)]
  const NET32_4: seq<Pair32> := [
      (0, 8), (1, 9), (2, 10), (3, 11), (4, 12), (5, 13), (6, 14), (7, 15),
      (16, 24), (17, 25), (18, 26), (19, 27), (20, 28), (21, 29), (22, 30), (23, 31)]
  const NET32_5: seq<Pair32> := [
      (0, 16), (1, 8), (2, 4), (3, 12), (5, 10), (6, 9), (7, 14), (11, 13),
      (15, 31), (17, 24), (18, 20), (19, 28), (21, 26), (22, 25), (23, 30), (27, 29)]
  const NET32_6: seq<Pair32> := [
      (1, 2), (3, 5), (4, 8), (6, 22), (7, 11), (9, 25), (10, 12), (13, 14),
      (17, 18), (19, 21), (20, 24), (23, 27), (26, 28), (29, 30)]
  const NET32_7: seq<Pair32> := [
      (1, 17), (2, 18), (3, 19), (4, 20), (5, 10), (7, 23), (8, 24), (11, 27),
      (12, 28), (13, 29), (14, 30), (21, 26)]
  const NET32_8: seq<Pair32> := [
      (3, 17), (4, 16), (5, 21), (6, 18), (7, 9), (8, 20), (10, 26), (11, 23),
      (13, 25), (14, 28), (15, 27), (22, 24)]
  const NET32_9: seq<Pair32> := [
      (1, 4), (3, 8), (5, 16), (7, 17), (9, 21), (10, 22), (11, 19), (12, 20),
      (14, 24), (15, 26), (23, 28), (27, 30)]
  const NET32_10: seq<Pair32> := [
      (2, 5), (7, 8), (9, 18), (11, 17), (12, 16), (13, 22), (14, 20), (15, 19),
      (23, 24), (26, 29)]
  const NET32_11: seq<Pair32> := [
      (2, 4), (6, 12), (9, 16), (10, 11), (13, 17), (14, 18), (15, 22), (19, 25),
      (20, 21), (27, 29)]
  const NET32_12: seq<Pair32> := [
      (5, 6), (8, 12), (9, 10), (11, 13), (14, 16), (15, 17), (18, 20), (19, 23),
      (21, 22), (25, 26)]
  const NET32_13: seq<Pair32> := [
      (3, 5), (6, 7), (8, 9), (10, 12), (11, 14), (13, 16), (15, 18), (17, 20),
      (19, 21), (22, 23), (24, 25), (26, 28)]
  const NET32_14: seq<Pair32> := [
      (3, 4), (5, 6), (7, 8), (9, 10), (11, 12), (13, 14), (15, 16), (17, 18),
      (19, 20), (21, 22), (23, 24), (25, 26), (27, 28)]

  /** The 14 layers, 185 COEX steps in all, of optimal_sort_32. */
  const OPTIMAL32: seq<seq<Pair32>> := [NET32_1, NET32_2, NET32_3, NET32_4, NET32_5, NET32_6, NET32_7, NET32_8, NET32_9, NET32_10, NET32_11, NET32_12, NET32_13, NET32_14]

  // ------------------------------------------------------------- registers

  /** One COEX step on the register array: registers i and j through the comparator's COEX. */
  function CoexPair(V: seq<Reg>, p: (nat, nat), descend: bool): (r: seq<Reg>)
    requires Lanes8(V) && p.0 < p.1 < |V|
    ensures |r| == |V| && Lanes8(r)
  {
    var c := ComparatorCoex(descend, V[p.0], V[p.1]);
    V[p.0 := c.0][p.1 := c.1]
  }

  /** The register array after the steps of one layer, first step first. */
  function Run(V: seq<Reg>, net: Net, descend: bool): (r: seq<Reg>)
    requires Lanes8(V) && WellFormed(net, |V|)
    ensures |r| == |V| && Lanes8(r)
    decreases |net|
  {
    if |net| == 0 then V else Run(CoexPair(V, net[0], descend), net[1..], descend)
  }

  /** The register array after every layer of the network, first layer first. */
  function RunNetwork(V: seq<Reg>, network: Network, descend: bool): (r: seq<Reg>)
    requires Lanes8(V) && AllWellFormed(network, |V|)
    ensures |r| == |V| && Lanes8(r)
    decreases |network|
  {
    if |network| == 0 then V else RunNetwork(Run(V, network[0], descend), network[1..], descend)
  }

  /** One block of COEX calls, in place on the register array. */
  method ApplyLayer(vecs: array<Reg>, net: Net, descend: bool)
    requires Lanes8(vecs[..]) && WellFormed(net, vecs.Length)
    modifies vecs
    ensures vecs[..] == Run(old(vecs[..]), net, descend)
  {
    for t := 0 to |net|
      invariant Lanes8(vecs[..])
      invariant Run(vecs[..], net[t..], descend) == Run(old(vecs[..]), net, descend)
    {
      var i, j := net[t].0, net[t].1;
      var c := ComparatorCoex(descend, vecs[i], vecs[j]);
      ghost var before := vecs[..];
      vecs[i] := c.0;
      vecs[j] := c.1;
      assert vecs[..] == CoexPair(before, net[t], descend);
      assert net[t..][1..] == net[t + 1..];
    }
  }

  /** The blocks of an optimal_sort_N one after another. */
  method ApplyNetwork(vecs: array<Reg>, network: Network, descend: bool)
    requires Lanes8(vecs[..]) && AllWellFormed(network, vecs.Length)
    modifies vecs
    ensures vecs[..] == RunNetwork(old(vecs[..]), network, descend)
  {
    for k := 0 to |network|
      invariant Lanes8(vecs[..])
      invariant AllWellFormed(network[k..], vecs.Length)
      invariant RunNetwork(vecs[..], network[k..], descend) == RunNetwork(old(vecs[..]), network, descend)
    {
      assert network[k..][1..] == network[k + 1..];
      ApplyLayer(vecs, network[k], descend);
    }
  }

  // ---------------------------------------------------------------- lanes

  /** The scalar compare-exchange of positions i < j in the comparator's order. */
  function CompareExchange(s: seq<int>, p: (nat, nat), descend: bool): (r: seq<int>)
    requires p.0 < p.1 < |s|
    ensures |r| == |s|
  {
    if descend then s[p.0 := Max(s[p.0], s[p.1])][p.1 := Min(s[p.0], s[p.1])]
    else s[p.0 := Min(s[p.0], s[p.1])][p.1 := Max(s[p.0], s[p.1])]
  }

  /** One layer on one lane: its compare-exchanges in order. */
  function RunScalar(s: seq<int>, net: Net, descend: bool): (r: seq<int>)
    requires WellFormed(net, |s|)
    ensures |r| == |s|
    decreases |net|
  {
    if |net| == 0 then s else RunScalar(CompareExchange(s, net[0], descend), net[1..], descend)
  }

  /** The whole network on one lane. */
  function RunScalarNetwork(s: seq<int>, network: Network, descend: bool): (r: seq<int>)
    requires AllWellFormed(network, |s|)
    ensures |r| == |s|
    decreases |network|
  {
    if |network| == 0 then s else RunScalarNetwork(RunScalar(s, network[0], descend), network[1..], descend)
  }

  /** Sorted in the comparator's order: no later lane sorts before an earlier one. */
  predicate SortedBy(s: seq<int>, descend: bool)
  {
    forall i, j :: 0 <= i < j < |s| ==> !StdSortComparator(descend, s[j], s[i])
  }

  /** A register COEX step is the scalar compare-exchange in every lane. */
  lemma ColumnCoexPair(V: seq<Reg>, p: (nat, nat), descend: bool, l: nat)
    requires Lanes8(V) && p.0 < p.1 < |V| && l < NUMLANES
    ensures Column(CoexPair(V, p, descend), l) == CompareExchange(Column(V, l), p, descend)
  {
  }

  /** Lane by lane, a register layer is the scalar layer. */
  lemma {:induction false} ColumnRun(V: seq<Reg>, net: Net, descend: bool, l: nat)
    requires Lanes8(V) && WellFormed(net, |V|) && l < NUMLANES
    ensures Column(Run(V, net, descend), l) == RunScalar(Column(V, l), net, descend)
    decreases |net|
  {
    if |net| > 0 {
      ColumnCoexPair(V, net[0], descend, l);
      ColumnRun(CoexPair(V, net[0], descend), net[1..], descend, l);
    }
  }

  /** Lane by lane, the register network is the scalar network. */
  lemma {:induction false} ColumnRunNetwork(V: seq<Reg>, network: Network, descend: bool, l: nat)
    requires Lanes8(V) && AllWellFormed(network, |V|) && l < NUMLANES
    ensures Column(RunNetwork(V, network, descend), l) == RunScalarNetwork(Column(V, l), network, descend)
    decreases |network|
  {
    if |network| > 0 {
      ColumnRun(V, network[0], descend, l);
      ColumnRunNetwork(Run(V, network[0], descend), network[1..], descend, l);
    }
  }

  /** A compare-exchange only swaps two values or leaves them. */
  lemma CompareExchangeMultiset(s: seq<int>, p: (nat, nat), descend: bool)
    requires p.0 < p.1 < |s|
    ensures multiset(CompareExchange(s, p, descend)) == multiset(s)
  {
    var i, j := p.0, p.1;
    var a := if descend then Max(s[i], s[j]) else Min(s[i], s[j]);
    var b := if descend then Min(s[i], s[j]) else Max(s[i], s[j]);
    var t := s[i := a];
    assert multiset(t) == multiset(s) - multiset{s[i]} + multiset{a};
    assert CompareExchange(s, p, descend) == t[j := b];
    assert multiset(t[j := b]) == multiset(t) - multiset{t[j]} + multiset{b};
  }

  /** A layer only rearranges the values of a lane. */
  lemma {:induction false} RunScalarMultiset(s: seq<int>, net: Net, descend: bool)
    requires WellFormed(net, |s|)
    ensures multiset(RunScalar(s, net, descend)) == multiset(s)
    decreases |net|
  {
    if |net| > 0 {
      CompareExchangeMultiset(s, net[0], descend);
      RunScalarMultiset(CompareExchange(s, net[0], descend), net[1..], descend);
    }
  }

  /** So does a whole network. */
  lemma {:induction false} RunScalarNetworkMultiset(s: seq<int>, network: Network, descend: bool)
    requires AllWellFormed(network, |s|)
    ensures multiset(RunScalarNetwork(s, network, descend)) == multiset(s)
    decreases |network|
  {
    if |network| > 0 {
      RunScalarMultiset(s, network[0], descend);
      RunScalarNetworkMultiset(RunScalar(s, network[0], descend), network[1..], descend);
    }
  }

  /** Every optimal_sort_N leaves each lane column a permutation of its input. */
  lemma RunNetworkPermutesColumns(V: seq<Reg>, network: Network, descend: bool, l: nat)
    requires Lanes8(V) && AllWellFormed(network, |V|) && l < NUMLANES
    ensures multiset(Column(RunNetwork(V, network, descend), l)) == multiset(Column(V, l))
  {
    ColumnRunNetwork(V, network, descend, l);
    RunScalarNetworkMultiset(Column(V, l), network, descend);
  }

  // ---------------------------------------------------- descending order

  function Negate(s: seq<int>): (r: seq<int>)
    ensures |r| == |s| && forall i :: 0 <= i < |s| ==> r[i] == -s[i]
  {
    seq(|s|, i requires 0 <= i < |s| => -s[i])
  }

  /** The descending step is the ascending step on the negated lane, negated back. */
  lemma CompareExchangeNegate(s: seq<int>, p: (nat, nat))
    requires p.0 < p.1 < |s|
    ensures CompareExchange(s, p, true) == Negate(CompareExchange(Negate(s), p, false))
  {
  }

  lemma {:induction false} RunScalarNegate(s: seq<int>, net: Net)
    requires WellFormed(net, |s|)
    ensures RunScalar(s, net, true) == Negate(RunScalar(Negate(s), net, false))
    decreases |net|
  {
    if |net| > 0 {
      var t := CompareExchange(s, net[0], true);
      CompareExchangeNegate(s, net[0]);
      assert Negate(t) == CompareExchange(Negate(s), net[0], false);
      RunScalarNegate(t, net[1..]);
    }
  }

  /** A descending network run is the ascending run of the negated lane, negated back. */
  lemma {:induction false} RunScalarNetworkNegate(s: seq<int>, network: Network)
    requires AllWellFormed(network, |s|)
    ensures RunScalarNetwork(s, network, true) == Negate(RunScalarNetwork(Negate(s), network, false))
    decreases |network|
  {
    if |network| > 0 {
      var t := RunScalar(s, network[0], true);
      RunScalarNegate(s, network[0]);
      assert Negate(t) == RunScalar(Negate(s), network[0], false) by {
        var u := RunScalar(Negate(s), network[0], false);
        assert Negate(Negate(u)) == u;
      }
      RunScalarNetworkNegate(t, network[1..]);
    }
  }

  /** A lane whose negation is ascending is sorted in descending order. */
  lemma SortedNegate(r: seq<int>)
    requires Sorted(Negate(r))
    ensures SortedBy(r, true)
  {
    forall i, j | 0 <= i < j < |r|
      ensures !StdSortComparator(true, r[j], r[i])
    {
      assert Negate(r)[i] <= Negate(r)[j];
    }
  }

  /** An ascending lane is sorted in ascending order. */
  lemma SortedAscending(r: seq<int>)
    requires Sorted(r)
    ensures SortedBy(r, false)
  {
  }

  /** Lanes in order pairwise next to each other are sorted. */
  lemma {:induction false} AdjacentSorted(s: seq<int>)
    requires forall i :: 0 <= i < |s| - 1 ==> s[i] <= s[i + 1]
    ensures Sorted(s)
    decreases |s|
  {
    if |s| > 1 {
      AdjacentSorted(s[1..]);
      forall i, j | 0 <= i < j < |s|
        ensures s[i] <= s[j]
      {
        if i == 0 {
          assert s[1..][0] <= s[1..][j - 1];
        } else {
          assert s[1..][i - 1] <= s[1..][j - 1];
        }
      }
    }
  }

  /** Taking one layer of a network off the front. */
  lemma RunScalarNetworkStep(s: seq<int>, network: Network, k: nat, descend: bool)
    requires k < |network| && WellFormed(network[k], |s|) && AllWellFormed(network[k + 1..], |s|)
    ensures AllWellFormed(network[k..], |s|)
    ensures RunScalarNetwork(s, network[k..], descend)
         == RunScalarNetwork(RunScalar(s, network[k], descend), network[k + 1..], descend)
  {
    assert network[k..][1..] == network[k + 1..];
    assert forall t :: 1 <= t < |network[k..]| ==> network[k..][t] == network[k + 1..][t - 1];
  }

  /** Taking one compare-exchange of a layer off the front. */
  lemma RunScalarStep(s: seq<int>, net: Net, k: nat, descend: bool)
    requires WellFormed(net, |s|) && k < |net|
    ensures WellFormed(net[k..], |s|) && WellFormed(net[k + 1..], |s|)
    ensures RunScalar(s, net[k..], descend) == RunScalar(CompareExchange(s, net[k], descend), net[k + 1..], descend)
  {
    assert net[k..][1..] == net[k + 1..];
  }

  // ---------------------------------------------------------- optimal_sort_4

  /** optimal_sort_4: the COEX steps of OPTIMAL4, block by block, on registers 0 .. 3. */
  method OptimalSort4(vecs: array<Reg>, descend: bool)
    requires vecs.Length == 4 && Lanes8(vecs[..])
    modifies vecs
    ensures AllWellFormed(OPTIMAL4, 4) && vecs[..] == RunNetwork(old(vecs[..]), OPTIMAL4, descend)
    ensures forall l :: 0 <= l < NUMLANES ==> multiset(Column(vecs[..], l)) == multiset(Column(old(vecs[..]), l))
    ensures forall l :: 0 <= l < NUMLANES ==> SortedBy(Column(vecs[..], l), descend)
  {
    ApplyNetwork(vecs, OPTIMAL4, descend);
    forall l | 0 <= l < NUMLANES
      ensures multiset(Column(vecs[..], l)) == multiset(Column(old(vecs[..]), l))
      ensures SortedBy(Column(vecs[..], l), descend)
    {
      RunNetworkPermutesColumns(old(vecs[..]), OPTIMAL4, descend, l);
      Optimal4Sorts(old(vecs[..]), descend, l);
    }
  }

  /** The order between lanes that every input has after layer 1 of optimal_sort_4. */
  predicate Order4After1(s: seq<int>)
    requires |s| == 4
  {
    s[0] <= s[2] && s[1] <= s[3]
  }

  /** The order between lanes that every input has after layer 2 of optimal_sort_4. */
  predicate Order4After2(s: seq<int>)
    requires |s| == 4
  {
    s[0] <= s[1] && s[0] <= s[2] && s[1] <= s[3] && s[2] <= s[3]
  }

  /** The order between lanes that every input has after layer 3 of optimal_sort_4. */
  predicate Order4After3(s: seq<int>)
    requires |s| == 4
  {
    s[0] <= s[1] && s[1] <= s[2] && s[2] <= s[3]
  }

  /** Any lane is sorted by the layers from 1 on. */
  lemma Sorts4From0(s: seq<int>)
    requires |s| == 4
    ensures AllWellFormed(OPTIMAL4[0..], 4) && Sorted(RunScalarNetwork(s, OPTIMAL4[0..], false))
  {
    RunScalarNetworkStep(s, OPTIMAL4, 0, false);
    assert OPTIMAL4[0] == NET4_1;
    Layer4Part1(s);
    Sorts4From1(RunScalar(s, NET4_1, false));
  }

  /** Layer 1 of optimal_sort_4 on one lane. */
  lemma Layer4Part1(s: seq<int>)
    requires |s| == 4
    ensures WellFormed(NET4_1, 4) && Order4After1(RunScalar(s, NET4_1, false))
  {
    RunScalarStep(s, NET4_1, 0, false);
    var s1 := CompareExchange(s, (0, 2), false);
    RunScalarStep(s1, NET4_1, 1, false);
    var s2 := CompareExchange(s1, (1, 3), false);
    assert NET4_1[2..] == [];
    assert RunScalar(s, NET4_1, false) == s2;
  }

  /** A lane ordered as after layer 1 is sorted by the layers from 2 on. */
  lemma Sorts4From1(s: seq<int>)
    requires |s| == 4 && Order4After1(s)
    ensures AllWellFormed(OPTIMAL4[1..], 4) && Sorted(RunScalarNetwork(s, OPTIMAL4[1..], false))
  {
    RunScalarNetworkStep(s, OPTIMAL4, 1, false);
    assert OPTIMAL4[1] == NET4_2;
    Layer4Part2(s);
    Sorts4From2(RunScalar(s, NET4_2, false));
  }

  /** Layer 2 of optimal_sort_4 on one lane ordered as after layer 1. */
  lemma Layer4Part2(s: seq<int>)
    requires |s| == 4 && Order4After1(s)
    ensures WellFormed(NET4_2, 4) && Order4After2(RunScalar(s, NET4_2, false))
  {
    RunScalarStep(s, NET4_2, 0, false);
    var s1 := CompareExchange(s, (0, 1), false);
    RunScalarStep(s1, NET4_2, 1, false);
    var s2 := CompareExchange(s1, (2, 3), false);
    assert NET4_2[2..] == [];
    assert RunScalar(s, NET4_2, false) == s2;
  }

  /** A lane ordered as after layer 2 is sorted by the layer from 3 on. */
  lemma Sorts4From2(s: seq<int>)
    requires |s| == 4 && Order4After2(s)
    ensures AllWellFormed(OPTIMAL4[2..], 4) && Sorted(RunScalarNetwork(s, OPTIMAL4[2..], false))
  {
    RunScalarNetworkStep(s, OPTIMAL4, 2, false);
    assert OPTIMAL4[2] == NET4_3;
    Layer4Part3(s);
    Sorts4From3(RunScalar(s, NET4_3, false));
  }

  /** Layer 3 of optimal_sort_4 on one lane ordered as after layer 2. */
  lemma Layer4Part3(s: seq<int>)
    requires |s| == 4 && Order4After2(s)
    ensures WellFormed(NET4_3, 4) && Order4After3(RunScalar(s, NET4_3, false))
  {
    RunScalarStep(s, NET4_3, 0, false);
    var s1 := CompareExchange(s, (1, 2), false);
    assert NET4_3[1..] == [];
    assert RunScalar(s, NET4_3, false) == s1;
  }

  /** A lane ordered as after the last layer is sorted. */
  lemma Sorts4From3(s: seq<int>)
    requires |s| == 4 && Order4After3(s)
    ensures AllWellFormed(OPTIMAL4[3..], 4) && Sorted(RunScalarNetwork(s, OPTIMAL4[3..], false))
  {
    assert OPTIMAL4[3..] == [];
    AdjacentSorted(s);
  }

  /** optimal_sort_4 sorts every lane column in the comparator's order. */
  lemma Optimal4Sorts(V: seq<Reg>, descend: bool, l: nat)
    requires |V| == 4 && Lanes8(V) && l < NUMLANES
    ensures AllWellFormed(OPTIMAL4, 4) && SortedBy(Column(RunNetwork(V, OPTIMAL4, descend), l), descend)
  {
    assert OPTIMAL4[0..] == OPTIMAL4;
    ColumnRunNetwork(V, OPTIMAL4, descend, l);
    var c := Column(V, l);
    if descend {
      RunScalarNetworkNegate(c, OPTIMAL4);
      Sorts4From0(Negate(c));
      SortedNegate(RunScalarNetwork(c, OPTIMAL4, true));
    } else {
      Sorts4From0(c);
      SortedAscending(RunScalarNetwork(c, OPTIMAL4, false));
    }
  }

  // ---------------------------------------------------------- optimal_sort_8

  /** optimal_sort_8: the COEX steps of OPTIMAL8, block by block, on registers 0 .. 7. */
  method OptimalSort8(vecs: array<Reg>, descend: bool)
    requires vecs.Length == 8 && Lanes8(vecs[..])
    modifies vecs
    ensures AllWellFormed(OPTIMAL8, 8) && vecs[..] == RunNetwork(old(vecs[..]), OPTIMAL8, descend)
    ensures forall l :: 0 <= l < NUMLANES ==> multiset(Column(vecs[..], l)) == multiset(Column(old(vecs[..]), l))
    ensures forall l :: 0 <= l < NUMLANES ==> SortedBy(Column(vecs[..], l), descend)
  {
    ApplyNetwork(vecs, OPTIMAL8, descend);
    forall l | 0 <= l < NUMLANES
      ensures multiset(Column(vecs[..], l)) == multiset(Column(old(vecs[..]), l))
      ensures SortedBy(Column(vecs[..], l), descend)
    {
      RunNetworkPermutesColumns(old(vecs[..]), OPTIMAL8, descend, l);
      Optimal8Sorts(old(vecs[..]), descend, l);
    }
  }

  /** The order between lanes that every input has after layer 1 of optimal_sort_8. */
  predicate Order8After1(s: seq<int>)
    requires |s| == 8
  {
    s[0] <= s[2] && s[1] <= s[3] && s[4] <= s[6] && s[5] <= s[7]
  }

  /** The order between lanes that every input has after layer 2 of optimal_sort_8. */
  predicate Order8After2(s: seq<int>)
    requires |s| == 8
  {
    s[0] <= s[2] && s[0] <= s[4] && s[1] <= s[3] && s[1] <= s[5] &&
    s[2] <= s[6] && s[3] <= s[7] && s[4] <= s[6] && s[5] <= s[7]
  }

  /** The order between lanes that every input has after layer 3 of optimal_sort_8. */
  predicate Order8After3(s: seq<int>)
    requires |s| == 8
  {
    s[0] <= s[1] && s[0] <= s[2] && s[0] <= s[4] && s[1] <= s[3] &&
    s[1] <= s[5] && s[2] <= s[3] && s[2] <= s[6] && s[3] <= s[7] &&
    s[4] <= s[5] && s[4] <= s[6] && s[5] <= s[7] && s[6] <= s[7]
  }

  /** The order between lanes that every input has after layer 4 of optimal_sort_8. */
  predicate Order8After4(s: seq<int>)
    requires |s| == 8
  {
    s[0] <= s[1] && s[0] <= s[2] && s[1] <= s[3] && s[2] <= s[3] &&
    s[2] <= s[4] && s[3] <= s[5] && s[4] <= s[5] && s[4] <= s[6] &&
    s[5] <= s[7] && s[6] <= s[7]
  }

  /** The order between lanes that every input has after layer 5 of optimal_sort_8. */
  predicate Order8After5(s: seq<int>)
    requires |s| == 8
  {
    s[0] <= s[1] && s[0] <= s[2] && s[1] <= s[3] && s[1] <= s[4] &&
    s[2] <= s[3] && s[2] <= s[4] && s[3] <= s[5] && s[3] <= s[6] &&
    s[4] <= s[5] && s[4] <= s[6] && s[5] <= s[7] && s[6] <= s[7]
  }

  /** The order between lanes that every input has after layer 6 of optimal_sort_8. */
  predicate Order8After6(s: seq<int>)
    requires |s| == 8
  {
    s[0] <= s[1] && s[1] <= s[2] && s[2] <= s[3] && s[3] <= s[4] &&
    s[4] <= s[5] && s[5] <= s[6] && s[6] <= s[7]
  }

  /** Any lane is sorted by the layers from 1 on. */
  lemma Sorts8From0(s: seq<int>)
    requires |s| == 8
    ensures AllWellFormed(OPTIMAL8[0..], 8) && Sorted(RunScalarNetwork(s, OPTIMAL8[0..], false))
  {
    RunScalarNetworkStep(s, OPTIMAL8, 0, false);
    assert OPTIMAL8[0] == NET8_1;
    Layer8Part1(s);
    Sorts8From1(RunScalar(s, NET8_1, false));
  }

  /** Layer 1 of optimal_sort_8 on one lane. */
  lemma Layer8Part1(s: seq<int>)
    requires |s| == 8
    ensures WellFormed(NET8_1, 8) && Order8After1(RunScalar(s, NET8_1, false))
  {
    RunScalarStep(s, NET8_1, 0, false);
    var s1 := CompareExchange(s, (0, 2), false);
    RunScalarStep(s1, NET8_1, 1, false);
    var s2 := CompareExchange(s1, (1, 3), false);
    RunScalarStep(s2, NET8_1, 2, false);
    var s3 := CompareExchange(s2, (4, 6), false);
    RunScalarStep(s3, NET8_1, 3, false);
    var s4 := CompareExchange(s3, (5, 7), false);
    assert NET8_1[4..] == [];
    assert RunScalar(s, NET8_1, false) == s4;
  }

  /** A lane ordered as after layer 1 is sorted by the layers from 2 on. */
  lemma Sorts8From1(s: seq<int>)
    requires |s| == 8 && Order8After1(s)
    ensures AllWellFormed(OPTIMAL8[1..], 8) && Sorted(RunScalarNetwork(s, OPTIMAL8[1..], false))
  {
    RunScalarNetworkStep(s, OPTIMAL8, 1, false);
    assert OPTIMAL8[1] == NET8_2;
    Layer8Part2(s);
    Sorts8From2(RunScalar(s, NET8_2, false));
  }

  /** Layer 2 of optimal_sort_8 on one lane ordered as after layer 1. */
  lemma Layer8Part2(s: seq<int>)
    requires |s| == 8 && Order8After1(s)
    ensures WellFormed(NET8_2, 8) && Order8After2(RunScalar(s, NET8_2, false))
  {
    RunScalarStep(s, NET8_2, 0, false);
    var s1 := CompareExchange(s, (0, 4), false);
    RunScalarStep(s1, NET8_2, 1, false);
    var s2 := CompareExchange(s1, (1, 5), false);
    RunScalarStep(s2, NET8_2, 2, false);
    var s3 := CompareExchange(s2, (2, 6), false);
    RunScalarStep(s3, NET8_2, 3, false);
    var s4 := CompareExchange(s3, (3, 7), false);
    assert NET8_2[4..] == [];
    assert RunScalar(s, NET8_2, false) == s4;
  }

  /** A lane ordered as after layer 2 is sorted by the layers from 3 on. */
  lemma Sorts8From2(s: seq<int>)
    requires |s| == 8 && Order8After2(s)
    ensures AllWellFormed(OPTIMAL8[2..], 8) && Sorted(RunScalarNetwork(s, OPTIMAL8[2..], false))
  {
    RunScalarNetworkStep(s, OPTIMAL8, 2, false);
    assert OPTIMAL8[2] == NET8_3;
    Layer8Part3(s);
    Sorts8From3(RunScalar(s, NET8_3, false));
  }

  /** Layer 3 of optimal_sort_8 on one lane ordered as after layer 2. */
  lemma Layer8Part3(s: seq<int>)
    requires |s| == 8 && Order8After2(s)
    ensures WellFormed(NET8_3, 8) && Order8After3(RunScalar(s, NET8_3, false))
  {
    RunScalarStep(s, NET8_3, 0, false);
    var s1 := CompareExchange(s, (0, 1), false);
    RunScalarStep(s1, NET8_3, 1, false);
    var s2 := CompareExchange(s1, (2, 3), false);
    RunScalarStep(s2, NET8_3, 2, false);
    var s3 := CompareExchange(s2, (4, 5), false);
    RunScalarStep(s3, NET8_3, 3, false);
    var s4 := CompareExchange(s3, (6, 7), false);
    assert NET8_3[4..] == [];
    assert RunScalar(s, NET8_3, false) == s4;
  }

  /** A lane ordered as after layer 3 is sorted by the layers from 4 on. */
  lemma Sorts8From3(s: seq<int>)
    requires |s| == 8 && Order8After3(s)
    ensures AllWellFormed(OPTIMAL8[3..], 8) && Sorted(RunScalarNetwork(s, OPTIMAL8[3..], false))
  {
    RunScalarNetworkStep(s, OPTIMAL8, 3, false);
    assert OPTIMAL8[3] == NET8_4;
    Layer8Part4(s);
    Sorts8From4(RunScalar(s, NET8_4, false));
  }

  /** Layer 4 of optimal_sort_8 on one lane ordered as after layer 3. */
  lemma Layer8Part4(s: seq<int>)
    requires |s| == 8 && Order8After3(s)
    ensures WellFormed(NET8_4, 8) && Order8After4(RunScalar(s, NET8_4, false))
  {
    RunScalarStep(s, NET8_4, 0, false);
    var s1 := CompareExchange(s, (2, 4), false);
    RunScalarStep(s1, NET8_4, 1, false);
    var s2 := CompareExchange(s1, (3, 5), false);
    assert NET8_4[2..] == [];
    assert RunScalar(s, NET8_4, false) == s2;
  }

  /** A lane ordered as after layer 4 is sorted by the layers from 5 on. */
  lemma Sorts8From4(s: seq<int>)
    requires |s| == 8 && Order8After4(s)
    ensures AllWellFormed(OPTIMAL8[4..], 8) && Sorted(RunScalarNetwork(s, OPTIMAL8[4..], false))
  {
    RunScalarNetworkStep(s, OPTIMAL8, 4, false);
    assert OPTIMAL8[4] == NET8_5;
    Layer8Part5(s);
    Sorts8From5(RunScalar(s, NET8_5, false));
  }

  /** Layer 5 of optimal_sort_8 on one lane ordered as after layer 4. */
  lemma Layer8Part5(s: seq<int>)
    requires |s| == 8 && Order8After4(s)
    ensures WellFormed(NET8_5, 8) && Order8After5(RunScalar(s, NET8_5, false))
  {
    RunScalarStep(s, NET8_5, 0, false);
    var s1 := CompareExchange(s, (1, 4), false);
    RunScalarStep(s1, NET8_5, 1, false);
    var s2 := CompareExchange(s1, (3, 6), false);
    assert NET8_5[2..] == [];
    assert RunScalar(s, NET8_5, false) == s2;
  }

  /** A lane ordered as after layer 5 is sorted by the layer from 6 on. */
  lemma Sorts8From5(s: seq<int>)
    requires |s| == 8 && Order8After5(s)
    ensures AllWellFormed(OPTIMAL8[5..], 8) && Sorted(RunScalarNetwork(s, OPTIMAL8[5..], false))
  {
    RunScalarNetworkStep(s, OPTIMAL8, 5, false);
    assert OPTIMAL8[5] == NET8_6;
    Layer8Part6(s);
    Sorts8From6(RunScalar(s, NET8_6, false));
  }

  /** Layer 6 of optimal_sort_8 on one lane ordered as after layer 5. */
  lemma Layer8Part6(s: seq<int>)
    requires |s| == 8 && Order8After5(s)
    ensures WellFormed(NET8_6, 8) && Order8After6(RunScalar(s, NET8_6, false))
  {
    RunScalarStep(s, NET8_6, 0, false);
    var s1 := CompareExchange(s, (1, 2), false);
    RunScalarStep(s1, NET8_6, 1, false);
    var s2 := CompareExchange(s1, (3, 4), false);
    RunScalarStep(s2, NET8_6, 2, false);
    var s3 := CompareExchange(s2, (5, 6), false);
    assert NET8_6[3..] == [];
    assert RunScalar(s, NET8_6, false) == s3;
  }

  /** A lane ordered as after the last layer is sorted. */
  lemma Sorts8From6(s: seq<int>)
    requires |s| == 8 && Order8After6(s)
    ensures AllWellFormed(OPTIMAL8[6..], 8) && Sorted(RunScalarNetwork(s, OPTIMAL8[6..], false))
  {
    assert OPTIMAL8[6..] == [];
    AdjacentSorted(s);
  }

  /** optimal_sort_8 sorts every lane column in the comparator's order. */
  lemma Optimal8Sorts(V: seq<Reg>, descend: bool, l: nat)
    requires |V| == 8 && Lanes8(V) && l < NUMLANES
    ensures AllWellFormed(OPTIMAL8, 8) && SortedBy(Column(RunNetwork(V, OPTIMAL8, descend), l), descend)
  {
    assert OPTIMAL8[0..] == OPTIMAL8;
    ColumnRunNetwork(V, OPTIMAL8, descend, l);
    var c := Column(V, l);
    if descend {
      RunScalarNetworkNegate(c, OPTIMAL8);
      Sorts8From0(Negate(c));
      SortedNegate(RunScalarNetwork(c, OPTIMAL8, true));
    } else {
      Sorts8From0(c);
      SortedAscending(RunScalarNetwork(c, OPTIMAL8, false));
    }
  }

  // ---------------------------------------------------------- optimal_sort_16

  /** optimal_sort_16: the COEX steps of OPTIMAL16, block by block, on registers 0 .. 15. */
  method OptimalSort16(vecs: array<Reg>, descend: bool)
    requires vecs.Length == 16 && Lanes8(vecs[..])
    modifies vecs
    ensures AllWellFormed(OPTIMAL16, 16) && vecs[..] == RunNetwork(old(vecs[..]), OPTIMAL16, descend)
    ensures forall l :: 0 <= l < NUMLANES ==> multiset(Column(vecs[..], l)) == multiset(Column(old(vecs[..]), l))
  {
    ApplyNetwork(vecs, OPTIMAL16, descend);
    forall l | 0 <= l < NUMLANES
      ensures multiset(Column(vecs[..], l)) == multiset(Column(old(vecs[..]), l))
    {
      RunNetworkPermutesColumns(old(vecs[..]), OPTIMAL16, descend, l);
    }
  }

  // ---------------------------------------------------------- optimal_sort_32

  /** optimal_sort_32: the COEX steps of OPTIMAL32, block by block, on registers 0 .. 31. */
  method OptimalSort32(vecs: array<Reg>, descend: bool)
    requires vecs.Length == 32 && Lanes8(vecs[..])
    modifies vecs
    ensures AllWellFormed(OPTIMAL32, 32) && vecs[..] == RunNetwork(old(vecs[..]), OPTIMAL32, descend)
    ensures forall l :: 0 <= l < NUMLANES ==> multiset(Column(vecs[..], l)) == multiset(Column(old(vecs[..]), l))
  {
    ApplyNetwork(vecs, OPTIMAL32, descend);
    forall l | 0 <= l < NUMLANES
      ensures multiset(Column(vecs[..], l)) == multiset(Column(old(vecs[..]), l))
    {
      RunNetworkPermutesColumns(old(vecs[..]), OPTIMAL32, descend, l);
    }
  }

}
