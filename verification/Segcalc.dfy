/** pkg/engine/packet/segcalc.go: the map from a payload to its shards and sections. */
module Segcalc {
  import opened Bytes

  const SECTION: nat := 256

  datatype Segment = Segment(dStart: nat, dEnd: nat, pEnd: nat, sLen: nat, last: nat)

  /** Data shards counted for a payload: one more than the full shards, even without a remainder. */
  function ShardCount(payloadLen: nat, size: nat): (r: nat)
    requires size > 0
  {
    payloadLen / size + 1
  }

  /** Parity shards of a partial section: the rounded-down share, but at least one. */
  function TailParity(tail: nat, parity: nat): (p: nat)
    requires parity < SECTION
    ensures p == 0 <==> parity == 0
  {
    if parity == 0 then 0
    else
      var share := tail * parity / (SECTION - parity);
      if share == 0 then 1 else share
  }

  /** The i-th section of a map with `full` full sections and `tail` data shards left over. */
  function SectionAt(i: nat, full: nat, tail: nat, tailParity: nat, size: nat, lastLen: nat, parity: nat): (r: Segment)
    requires parity < SECTION
  {
    if i < full then
      Segment(i * SECTION, i * SECTION + (SECTION - parity), i * SECTION + SECTION, size,
              if tail == 0 && full == 1 then lastLen else size)
    else
      Segment(i * SECTION, i * SECTION + tail, i * SECTION + tail + tailParity, size, lastLen)
  }

  function Sections(full: nat, tail: nat, tailParity: nat, size: nat, lastLen: nat, parity: nat): (s: seq<Segment>)
    requires parity < SECTION
    ensures |s| == full + (if tail == 0 then 0 else 1)
    ensures forall i :: 0 <= i < |s| ==> s[i] == SectionAt(i, full, tail, tailParity, size, lastLen, parity)
  {
    seq(full + (if tail == 0 then 0 else 1), i requires 0 <= i => SectionAt(i, full, tail, tailParity, size, lastLen,
        parity))
  }

  /** The whole map of a payload, in closed form. */
  function Layout(payloadLen: nat, size: nat, parity: nat): (r: seq<Segment>)
    requires size > 0 && parity < SECTION
  {
    var shards, perSection := ShardCount(payloadLen, size), SECTION - parity;
    var full, tail := shards / perSection, shards % perSection;
    Sections(full, tail, TailParity(tail, parity), size, payloadLen % size, parity)
  }

  lemma {:induction false} DivModBounds(n: int, d: int)
    requires n >= 0 && d > 0
    ensures n / d >= 0 && 0 <= n % d < d && n == n / d * d + n % d
  {
  }

  lemma {:induction false} ShareSplits(shards: nat, full: nat, tail: nat, d: nat, parity: nat)
    requires d > 0 && shards == full * d + tail
    ensures shards * parity / d == full * parity + tail * parity / d
  {
    var share, rest := tail * parity / d, tail * parity % d;
    calc {
      shards * parity;
      full * parity * d + tail * parity;
      full * parity * d + (share * d + rest);
      (full * parity + share) * d + rest;
    }
    RemainderIsUnique(shards * parity, d, full * parity + share, rest);
  }

  lemma {:induction false} SectionTimes(full: nat, d: nat, parity: nat)
    requires d + parity == SECTION
    ensures full * d + full * parity == full * SECTION
    ensures full > 0 && parity > 0 ==> full * parity > 0
  {
  }

  /** The running total `withR` of NewSegments splits over full sections and the tail. */
  lemma {:induction false} ParityShareSplits(shards: nat, full: nat, tail: nat, d: nat, parity: nat, share: int,
                                             tailShare: int)
    requires d > 0 && d + parity == SECTION && shards == full * d + tail
    requires share == shards * parity / d && tailShare == tail * parity / d
    ensures shards + share == full * SECTION + tail + tailShare
    ensures full > 0 && parity > 0 ==> share > 0
  {
    ShareSplits(shards, full, tail, d, parity);
    SectionTimes(full, d, parity);
  }

  /** A shard total that ends the partial section, or is short of its single parity shard. */
  ghost predicate EndsTail(full: nat, tail: nat, tailParity: nat, total: int)
  {
    var base := full * SECTION + tail;
    total == base + tailParity || (tailParity == 1 && total == base)
  }

  /** The total NewSegments starts from: the parity share of all data shards, at least one. */
  method CountWithParity(nSegs: nat, parity: nat) returns (withR: int)
    requires parity < SECTION && nSegs > 0
    ensures var d := SECTION - parity;
            EndsTail(nSegs / d, nSegs % d, TailParity(nSegs % d, parity), withR)
  {
    var sectsD, sectsP := SECTION - parity, parity;
    withR := nSegs + nSegs * sectsP / sectsD;
    ghost var full, tail := nSegs / sectsD, nSegs % sectsD;
    ParityShareSplits(nSegs, full, tail, sectsD, sectsP, nSegs * sectsP / sectsD, tail * sectsP / sectsD);
    if withR == nSegs && parity > 0 {
      withR := withR + 1;
    }
  }

  method NewSegments(payloadLen: nat, segmentSize: nat, overhead: nat, parity: nat) returns (s: seq<Segment>)
    requires overhead < segmentSize && parity < SECTION
    ensures s == Layout(payloadLen, segmentSize - overhead, parity)
  {
    var segSize := segmentSize - overhead;
    DivModBounds(payloadLen, segSize);
    var nSegs := payloadLen / segSize + 1;
    var lastSeg := payloadLen % segSize;
    DivModBounds(nSegs, SECTION - parity);
    var withR := CountWithParity(nSegs, parity);
    var sects, lastSect := nSegs / (SECTION - parity), nSegs % (SECTION - parity);
    s := AppendSections(sects, lastSect, TailParity(lastSect, parity), segSize, lastSeg, parity, withR);
  }

  /** The appending half of NewSegments. */
  method AppendSections(sects: nat, lastSect: nat, ghost tailParity: nat, segSize: nat, lastSeg: nat, parity: nat,
                        total: int)
    returns (s: seq<Segment>)
    requires parity < SECTION && (tailParity == 0 <==> parity == 0)
    requires EndsTail(sects, lastSect, tailParity, total)
    ensures s == Sections(sects, lastSect, tailParity, segSize, lastSeg, parity)
  {
    var withR := total;
    var start := 0;
    s := [];
    ghost var all := Sections(sects, lastSect, tailParity, segSize, lastSeg, parity);
    if sects > 0 {
      var last := segSize;
      if lastSect == 0 && sects == 1 {
        last := lastSeg;
      }
      for i := 0 to sects
        invariant start == i * SECTION
        invariant s == all[..i]
      {
        s := s + [Segment(start, start + (SECTION - parity), start + SECTION, segSize, last)];
        assert all[..i + 1] == all[..i] + [all[i]];
        start := start + SECTION;
      }
    }
    if lastSect > 0 {
      var endD := start + lastSect;
      if withR == endD && parity > 0 {
        withR := withR + 1;
      }
      s := s + [Segment(start, endD, withR, segSize, lastSeg)];
      assert all == all[..sects] + [all[sects]];
    }
  }

  // ---------------------------------------------------------------- what the map promises

  /** Data shards of the first k sections. */
  function DataStart(m: seq<Segment>, k: nat): (r: int)
    requires k <= |m|
  {
    if k == 0 then 0 else DataStart(m, k - 1) + m[k - 1].dEnd - m[k - 1].dStart
  }

  /** Shards in all, parity included. */
  function End(m: seq<Segment>): (r: nat)
    requires m != []
  {
    m[|m| - 1].pEnd
  }

  /** Sections follow each other without gaps from 0, each with data and at most 256 shards. */
  ghost predicate Tiles(m: seq<Segment>)
  {
    && m != [] && m[0].dStart == 0
    && (forall k :: 0 <= k < |m| ==> m[k].dStart < m[k].dEnd <= m[k].pEnd <= m[k].dStart + SECTION)
    && (forall k :: 0 < k < |m| ==> m[k - 1].pEnd == m[k].dStart)
  }

  lemma {:induction false} TailFits(tail: nat, parity: nat)
    requires parity < SECTION && tail < SECTION - parity
    ensures tail + TailParity(tail, parity) <= SECTION
  {
    var d := SECTION - parity;
    ShareAtMost(tail, parity, d);
  }

  lemma {:induction false} ShareAtMost(tail: nat, parity: nat, d: nat)
    requires tail < d
    ensures tail * parity / d <= parity
  {
    ProductOrder(tail, d, parity);
    QuotientAtMost(tail * parity, d, parity);
  }

  lemma {:induction false} ProductOrder(a: int, b: int, c: int)
    requires a <= b && c >= 0
    ensures a * c <= b * c
  {
  }

  lemma {:induction false} QuotientAtMost(x: int, d: int, p: int)
    requires 0 <= x <= d * p && d > 0
    ensures x / d <= p
  {
    DivModBounds(x, d);
    var q := x / d;
    if q > p {
      ProductOrder(p + 1, q, d);
      assert false;
    }
  }

  lemma {:induction false} FullDataStart(full: nat, tail: nat, tailParity: nat, size: nat, lastLen: nat, parity: nat,
                                         k: nat)
    requires parity < SECTION && k <= full
    ensures DataStart(Sections(full, tail, tailParity, size, lastLen, parity), k) == k * (SECTION - parity)
  {
    if k > 0 {
      FullDataStart(full, tail, tailParity, size, lastLen, parity, k - 1);
      assert k * (SECTION - parity) == (k - 1) * (SECTION - parity) + (SECTION - parity);
    }
  }

  /** NewSegments tiles the shard numbers, places every data shard, and gives parity to every section
      exactly when parity is asked for. */
  lemma {:induction false} LayoutTiles(payloadLen: nat, size: nat, parity: nat)
    requires size > 0 && parity < SECTION
    ensures var m := Layout(payloadLen, size, parity);
            && Tiles(m)
            && DataStart(m, |m|) == ShardCount(payloadLen, size)
            && (forall k :: 0 <= k < |m| ==> m[k].sLen == size && m[k].last <= size)
            && (forall k :: 0 <= k < |m| ==> (m[k].pEnd == m[k].dEnd <==> parity == 0))
  {
    DivModBounds(payloadLen, size);
    var shards, d := ShardCount(payloadLen, size), SECTION - parity;
    DivModBounds(shards, d);
    var full, tail := shards / d, shards % d;
    var m := Sections(full, tail, TailParity(tail, parity), size, payloadLen % size, parity);
    TailFits(tail, parity);
    FullDataStart(full, tail, TailParity(tail, parity), size, payloadLen % size, parity, full);
    SectionsTile(full, tail, TailParity(tail, parity), size, payloadLen % size, parity);
  }

  lemma {:induction false} SectionsTile(full: nat, tail: nat, tailParity: nat, size: nat, lastLen: nat, parity: nat)
    requires parity < SECTION && full + tail > 0 && tail + tailParity <= SECTION && lastLen < size
    requires tailParity == 0 <==> parity == 0
    ensures var m := Sections(full, tail, tailParity, size, lastLen, parity);
            && Tiles(m)
            && (forall k :: 0 <= k < |m| ==> m[k].sLen == size && m[k].last <= size)
            && (forall k :: 0 <= k < |m| ==> (m[k].pEnd == m[k].dEnd <==> parity == 0))
  {
  }

  /** Full sections carry the parity asked for; the partial one at the end carries its rounded-down share of it, but at
      least one shard. */
  lemma {:induction false} LayoutParity(payloadLen: nat, size: nat, parity: nat)
    requires size > 0 && parity < SECTION
    ensures var m, d := Layout(payloadLen, size, parity), SECTION - parity;
            var tail := ShardCount(payloadLen, size) % d;
            && m != []
            && (forall k :: 0 <= k < |m| && (tail == 0 || k < |m| - 1) ==>
                  m[k].dEnd - m[k].dStart == d && m[k].pEnd - m[k].dEnd == parity)
            && (tail > 0 ==>
                  var s := m[|m| - 1];
                  && s.dEnd - s.dStart == tail
                  && s.pEnd - s.dEnd == if parity == 0 then 0
                                        else if tail * parity / d > 1 then tail * parity / d else 1)
  {
    LayoutTiles(payloadLen, size, parity);
    var d := SECTION - parity;
    DivModBounds(ShardCount(payloadLen, size), d);
    DivModBounds(ShardCount(payloadLen, size) % d * parity, d);
  }
}
