/** Reed-Solomon as an arbitrary code, and Segments.AddParity over it. */
module Erasure {
  import opened Bytes
  import opened Segcalc
  import opened Shards

  /** The shapes reedsolomon.New accepts. */
  predicate ValidShape(d: nat, p: nat)
  {
    1 <= d && 1 <= p && d + p <= SECTION
  }

  ghost predicate DistinctBelow(xs: seq<nat>, n: nat)
  {
    && (forall i :: 0 <= i < |xs| ==> xs[i] < n)
    && (forall i, j :: 0 <= i < j < |xs| ==> xs[i] != xs[j])
  }

  /** A Reed-Solomon library: the parity shards of some data, and the shards repaired from those at hand. */
  datatype Code = Code(
    parity: (nat, seq<Bytes>) -> seq<Bytes>,
    reconst: (nat, nat, seq<Bytes>, seq<nat>, seq<nat>) -> seq<Bytes>)
  {
    /** At least as many shards at hand as there is data, each as the encoder made it; all lost data asked for. */
    ghost predicate Repairable(data: seq<Bytes>, p: nat, shards: seq<Bytes>, have: seq<nat>, lost: seq<nat>)
    {
      && |shards| == |data| + p == |data + parity(p, data)|
      && DistinctBelow(have, |shards|) && |have| >= |data|
      && (forall h :: h in have ==> shards[h] == (data + parity(p, data))[h])
      && (forall i :: 0 <= i < |data| ==> i in have || i in lost)
    }

    /** Any d of the d+p shards determine the data; shards keep their size. */
    ghost predicate MDS()
    {
      && (forall data: seq<Bytes>, p: nat, size: nat {:trigger parity(p, data), AllOfLength(data, size)} ::
            ValidShape(|data|, p) && size > 0 && AllOfLength(data, size)
            ==> |parity(p, data)| == p && AllOfLength(parity(p, data), size))
      && (forall d: nat, p: nat, shards: seq<Bytes>, have: seq<nat>, lost: seq<nat>, size: nat
            {:trigger reconst(d, p, shards, have, lost), AllOfLength(shards, size)} ::
            ValidShape(d, p) && size > 0 && |shards| == d + p && AllOfLength(shards, size)
            ==> |reconst(d, p, shards, have, lost)| == d + p && AllOfLength(reconst(d, p, shards, have, lost), size))
      && (forall data: seq<Bytes>, p: nat, shards: seq<Bytes>, have: seq<nat>, lost: seq<nat>
            {:trigger Repairable(data, p, shards, have, lost)} ::
            ValidShape(|data|, p) && Repairable(data, p, shards, have, lost)
            ==> data <= reconst(|data|, p, shards, have, lost))
    }
  }

  /** Section k as sent: its data shards followed by their parity. */
  ghost predicate SectionSent(c: Code, m: seq<Segcalc.Segment>, shards: seq<Bytes>, sent: seq<Bytes>, k: nat)
    requires k < |m|
  {
    var s := m[k];
    && s.dStart <= s.dEnd <= s.pEnd <= |sent|
    && sent[s.dStart..s.dEnd] == SectionData(m, shards, k)
    && (s.dEnd < s.pEnd ==> sent[s.dEnd..s.pEnd] == c.parity(s.pEnd - s.dEnd, SectionData(m, shards, k)))
  }

  /** All shards of a transmission: every section complete, none beyond the map, all of one size. */
  ghost predicate Protects(c: Code, m: seq<Segcalc.Segment>, shards: seq<Bytes>, sent: seq<Bytes>, size: nat)
  {
    && m != [] && |sent| == End(m)
    && AllOfLength(sent, size)
    && forall k :: 0 <= k < |m| ==> SectionSent(c, m, shards, sent, k)
  }

  datatype ParityOutcome = Shards(shards: seq<Bytes>, mismatch: bool) | EncoderError | OutOfShards

  predicate UniformSize(section: seq<Bytes>)
  {
    section != [] && section[0] != [] && forall i :: 0 <= i < |section| ==> |section[i]| == |section[0]|
  }

  /** One section of AddParity: the data shards and, if the section has parity, the encoder's output. */
  method ProtectSection(c: Code, s: Segcalc.Segment, data: seq<Bytes>, ghost size: nat)
    returns (ok: bool, section: seq<Bytes>)
    requires c.MDS() && s.dStart < s.dEnd <= s.pEnd <= s.dStart + SECTION && |data| == s.dEnd - s.dStart
    ensures size > 0 && AllOfLength(data, size) && s.sLen == size ==>
              && ok && |section| == s.pEnd - s.dStart && AllOfLength(section, size)
              && section == data + (if s.dEnd < s.pEnd then c.parity(s.pEnd - s.dEnd, data) else [])
  {
    var dLen, pLen := s.dEnd - s.dStart, s.pEnd - s.dEnd;
    ok, section := true, data;
    if pLen > 0 {
      if !ValidShape(dLen, pLen) || !UniformSize(data) || |data[0]| != s.sLen {
        return false, [];
      }
      section := section + c.parity(pLen, data);
    }
  }

  /** The first k sections are out, and nothing else. */
  ghost predicate SentUpTo(c: Code, m: seq<Segcalc.Segment>, shards: seq<Bytes>, sent: seq<Bytes>, size: nat, k: nat)
    requires Tiles(m) && k <= |m|
  {
    && |sent| == (if k == |m| then End(m) else m[k].dStart)
    && AllOfLength(sent, size)
    && forall j :: 0 <= j < k ==> SectionSent(c, m, shards, sent, j)
  }

  lemma {:induction false} SectionAppended(c: Code, m: seq<Segcalc.Segment>, shards: seq<Bytes>, before: seq<Bytes>,
                        section: seq<Bytes>, size: nat, k: nat)
    requires Tiles(m) && k < |m| && SentUpTo(c, m, shards, before, size, k)
    requires |section| == m[k].pEnd - m[k].dStart && AllOfLength(section, size)
    requires var data := SectionData(m, shards, k);
             && |data| == m[k].dEnd - m[k].dStart
             && section == data + (if m[k].dEnd < m[k].pEnd then c.parity(m[k].pEnd - m[k].dEnd, data) else [])
    ensures SentUpTo(c, m, shards, before + section, size, k + 1)
  {
    var s, data := m[k], SectionData(m, shards, k);
    assert (before + section)[s.dStart..s.dEnd] == data;
    if s.dEnd < s.pEnd {
      assert (before + section)[s.dEnd..s.pEnd] == c.parity(s.pEnd - s.dEnd, data);
    }
    forall j | 0 <= j < k
      ensures SectionSent(c, m, shards, before + section, j)
    {
      SectionStays(c, m, shards, before, section, j);
    }
  }

  method CountData(s: seq<Segcalc.Segment>) returns (segLen: int)
    ensures segLen == DataStart(s, |s|)
  {
    segLen := 0;
    for i := 0 to |s|
      invariant segLen == DataStart(s, i)
    {
      segLen := segLen + s[i].dEnd - s[i].dStart;
    }
  }

  /** Segments.AddParity. Slicing past the end of the data shards is a runtime panic. */
  method AddParity(c: Code, s: seq<Segcalc.Segment>, segs: seq<Bytes>, ghost size: nat) returns (r: ParityOutcome)
    requires c.MDS() && Tiles(s)
    ensures r.OutOfShards? ==> |segs| < DataStart(s, |s|)
    ensures r.Shards? ==> |segs| >= DataStart(s, |s|)
    ensures UniformSegs(s, segs, size) ==> !r.EncoderError?
    ensures UniformSegs(s, segs, size) && r.Shards? ==> Protects(c, s, segs, r.shards, size)
    ensures r.Shards? ==>
              (r.mismatch <==> |segs| != DataStart(s, |s|) && forall k :: 0 <= k < |s| ==> s[k].pEnd == s[k].dEnd)
  {
    var segLen := CountData(s);
    var mismatch := |segs| != segLen;
    var taken, shards := 0, [];
    ghost var uniform := UniformSegs(s, segs, size);
    for i := 0 to |s|
      invariant taken == DataStart(s, i) && 0 <= taken <= |segs|
      invariant uniform ==> SentUpTo(c, s, segs, shards, size, i)
      invariant mismatch <==> |segs| != segLen && forall k :: 0 <= k < i ==> s[k].pEnd == s[k].dEnd
    {
      var dLen := s[i].dEnd - s[i].dStart;
      DataStartGrows(s, i + 1, |s|);
      if taken + dLen > |segs| {
        return OutOfShards;
      }
      var data := segs[taken..taken + dLen];
      var ok, section := ProtectSection(c, s[i], data, size);
      if !ok {
        return EncoderError;
      }
      if s[i].pEnd > s[i].dEnd {
        mismatch := false;
      }
      if uniform {
        SectionAppended(c, s, segs, shards, section, size, i);
      }
      shards := shards + section;
      taken := taken + dLen;
    }
    r := Shards(shards, mismatch);
  }

  /** What SplitToPackets hands over: equal, non-empty shards of the size in the map. */
  ghost predicate UniformSegs(s: seq<Segcalc.Segment>, segs: seq<Bytes>, size: nat)
  {
    size > 0 && AllOfLength(segs, size) && forall k :: 0 <= k < |s| ==> s[k].sLen == size
  }

  lemma {:induction false} SectionStays(c: Code, m: seq<Segcalc.Segment>, shards: seq<Bytes>, sent: seq<Bytes>,
                                        more: seq<Bytes>, k: nat)
    requires k < |m| && SectionSent(c, m, shards, sent, k)
    ensures SectionSent(c, m, shards, sent + more, k)
  {
    var s := m[k];
    assert (sent + more)[s.dStart..s.dEnd] == sent[s.dStart..s.dEnd];
    assert (sent + more)[s.dEnd..s.pEnd] == sent[s.dEnd..s.pEnd];
  }
}
