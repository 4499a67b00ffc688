/** Finite sets of shard numbers: intervals, and the pigeonhole arguments of JoinPackets. */
module Counting {
  import opened Segcalc

  function Interval(lo: nat, hi: nat): (r: set<nat>)
    ensures forall s :: s in r <==> lo <= s < hi
  {
    if lo >= hi then {} else Interval(lo, hi - 1) + {hi - 1}
  }

  /** The arrived shard numbers in [lo, hi). */
  function Between(arrived: set<nat>, lo: nat, hi: nat): (r: set<nat>)
  {
    set s | s in arrived && lo <= s < hi
  }

  lemma {:induction false} IntervalSize(lo: nat, hi: nat)
    requires lo <= hi
    ensures |Interval(lo, hi)| == hi - lo
    decreases hi
  {
    if lo < hi {
      IntervalSize(lo, hi - 1);
    }
  }

  lemma {:induction false} SubsetSize<T>(a: set<T>, b: set<T>)
    requires a <= b
    ensures |a| <= |b|
    ensures a != b ==> |a| < |b|
  {
    assert b == a + (b - a);
  }

  lemma {:induction false} BetweenSplits(arrived: set<nat>, lo: nat, mid: nat, hi: nat)
    requires lo <= mid <= hi
    ensures |Between(arrived, lo, hi)| == |Between(arrived, lo, mid)| + |Between(arrived, mid, hi)|
  {
    assert Between(arrived, lo, hi) == Between(arrived, lo, mid) + Between(arrived, mid, hi);
    assert Between(arrived, lo, mid) !! Between(arrived, mid, hi);
  }

  /** Every section has at least as many arrived shards as data shards. */
  ghost predicate Enough(m: seq<Segment>, arrived: set<nat>)
    requires Tiles(m)
  {
    forall k :: 0 <= k < |m| ==> |Between(arrived, m[k].dStart, m[k].pEnd)| >= m[k].dEnd - m[k].dStart
  }

  /** The first section with fewer arrived shards than data shards. */
  ghost predicate FirstShort(m: seq<Segment>, arrived: set<nat>, k: nat)
    requires Tiles(m)
  {
    && k < |m| && |Between(arrived, m[k].dStart, m[k].pEnd)| < m[k].dEnd - m[k].dStart
    && forall j :: 0 <= j < k ==> |Between(arrived, m[j].dStart, m[j].pEnd)| >= m[j].dEnd - m[j].dStart
  }

  lemma {:induction false} SectionOf(m: seq<Segment>, s: nat, n: nat) returns (k: nat)
    requires Tiles(m) && 0 < n <= |m| && s < m[n - 1].pEnd
    ensures k < |m| && m[k].dStart <= s < m[k].pEnd
    decreases n
  {
    if m[n - 1].dStart <= s {
      k := n - 1;
    } else {
      k := SectionOf(m, s, n - 1);
    }
  }

  lemma {:induction false} EndAfter(m: seq<Segment>, k: nat)
    requires Tiles(m) && k < |m|
    ensures m[k].pEnd <= End(m)
    decreases |m| - k
  {
    if k < |m| - 1 {
      EndAfter(m, k + 1);
    }
  }

  /** With every shard there, every section has enough. */
  lemma {:induction false} AllEnough(m: seq<Segment>, arrived: set<nat>)
    requires Tiles(m) && (forall s :: 0 <= s < End(m) ==> s in arrived)
    ensures Enough(m, arrived)
  {
    forall k | 0 <= k < |m|
      ensures |Between(arrived, m[k].dStart, m[k].pEnd)| >= m[k].dEnd - m[k].dStart
    {
      EndAfter(m, k);
      assert Between(arrived, m[k].dStart, m[k].pEnd) == Interval(m[k].dStart, m[k].pEnd);
      IntervalSize(m[k].dStart, m[k].pEnd);
    }
  }

  /** Without parity, one missing shard leaves some section short. */
  lemma {:induction false} MissingWithoutParity(m: seq<Segment>, arrived: set<nat>)
    requires Tiles(m) && (forall k :: 0 <= k < |m| ==> m[k].pEnd == m[k].dEnd)
    requires |arrived| < End(m)
    ensures !Enough(m, arrived)
  {
    IntervalSize(0, End(m));
    if Interval(0, End(m)) <= arrived {
      SubsetSize(Interval(0, End(m)), arrived);
      assert false;
    }
    var s :| s in Interval(0, End(m)) && s !in arrived;
    var k := SectionOf(m, s, |m|);
    var got, all := Between(arrived, m[k].dStart, m[k].pEnd), Interval(m[k].dStart, m[k].pEnd);
    IntervalSize(m[k].dStart, m[k].pEnd);
    assert s in all && s !in got;
    SubsetSize(got, all);
  }
}
