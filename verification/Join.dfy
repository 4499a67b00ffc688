/** pkg/engine/packet/segment.go: putting a message together from the packets that arrived. */
module Join {
  import opened Options
  import opened Sequences
  import opened Bytes
  import opened Segcalc
  import opened Shards
  import opened Erasure
  import opened Counting
  import opened PacketCodec
  import opened Arrivals

  datatype JoinResult = Joined(msg: Bytes) | Failed(error: JoinError)

  /** `join`: appends one section to the message, trimming its last shard. */
  method JoinShards(msg: Bytes, segments: seq<Bytes>, sLen: nat, last: nat) returns (b: Option<Bytes>)
    requires last <= sLen
    ensures b == if sLen != last && |Flatten(segments)| + last < sLen then None
                 else Some(msg + Trim(Flatten(segments), sLen, last))
  {
    var cat := Cat(segments);
    if sLen != last {
      if |cat| + last < sLen {
        return None;
      }
      cat := cat[..|cat| - sLen + last];
    }
    b := Some(msg + cat);
  }

  /** The message read off the first k sections of a list of shards by position. */
  ghost function Positional(m: seq<Segcalc.Segment>, data: seq<Bytes>, k: nat): (msg: Bytes)
    requires k <= |m|
  {
    if k == 0 then []
    else Positional(m, data, k - 1) + Piece(m[k - 1], data)
  }

  /** What a section contributes to a message read off by position. */
  ghost function Piece(s: Segcalc.Segment, data: seq<Bytes>): (r: Bytes)
  {
    Trim(Flatten(InPlace(s, data)), s.sLen, s.last)
  }

  /** The data shards of a section in a list of shards. */
  ghost function InPlace(s: Segcalc.Segment, data: seq<Bytes>): (r: seq<Bytes>)
  {
    if s.dStart <= s.dEnd <= |data| then data[s.dStart..s.dEnd] else []
  }

  /** Concatenation by position, when the count says that nothing was lost. */
  method JoinAll(m: seq<Segcalc.Segment>, packets: seq<Packet>, size: nat) returns (r: JoinResult)
    requires Tiles(m) && |packets| == End(m)
    requires forall k :: 0 <= k < |m| ==> m[k].sLen == size && m[k].last <= size
    ensures (forall p :: p in packets ==> |p.data| == size) ==> r == Joined(Positional(m, DataOf(packets), |m|))
  {
    ghost var uniform := forall p :: p in packets ==> |p.data| == size;
    var msg := [];
    for k := 0 to |m|
      invariant msg == Positional(m, DataOf(packets), k)
    {
      EndAfter(m, k);
      var segments := DataOf(packets[m[k].dStart..m[k].dEnd]);
      assert segments == InPlace(m[k], DataOf(packets));
      if uniform {
        FlattenFirst(segments, size);
      }
      var b := JoinShards(msg, segments, m[k].sLen, m[k].last);
      if b.None? {
        return Failed(Panic);
      }
      msg := b.value;
    }
    r := Joined(msg);
  }

  /** The data of a section stands where the map has it. */
  ghost predicate Placed(m: seq<Segcalc.Segment>, shards: seq<Bytes>, sent: seq<Bytes>, k: nat)
    requires k < |m|
  {
    InPlace(m[k], sent) == SectionData(m, shards, k)
  }

  lemma {:induction false} MessageStep(m: seq<Segcalc.Segment>, shards: seq<Bytes>, sent: seq<Bytes>, k: nat)
    requires k < |m| && Placed(m, shards, sent, k)
    ensures Message(m, shards, k + 1) == Message(m, shards, k) + Piece(m[k], sent)
  {
  }

  /** Reading the shards off in their places gives the message. */
  lemma {:induction false} PositionalIsMessage(m: seq<Segcalc.Segment>, shards: seq<Bytes>, sent: seq<Bytes>, k: nat)
    requires k <= |m| && forall i :: 0 <= i < |m| ==> Placed(m, shards, sent, i)
    ensures Positional(m, sent, k) == Message(m, shards, k)
  {
    for i := 0 to k
      invariant Positional(m, sent, i) == Message(m, shards, i)
    {
      MessageStep(m, shards, sent, i);
    }
  }

  lemma {:induction false} SentInPlace(c: Code, m: seq<Segcalc.Segment>, shards: seq<Bytes>, sent: seq<Bytes>,
                                       size: nat, k: nat)
    requires Protects(c, m, shards, sent, size) && k < |m|
    ensures Placed(m, shards, sent, k)
  {
    assert SectionSent(c, m, shards, sent, k);
  }

  function DataOf(packets: seq<Packet>): (r: seq<Bytes>)
    ensures |r| == |packets| && forall i :: 0 <= i < |r| ==> r[i] == packets[i].data
  {
    seq(|packets|, i requires 0 <= i < |packets| => packets[i].data)
  }

  lemma {:induction false} FlattenFirst(segments: seq<Bytes>, size: nat)
    requires segments != [] && |segments[0]| == size
    ensures |Flatten(segments)| >= size
  {
  }

  // ---------------------------------------------------------------- recovery section by section

  ghost function Indices(pkts: seq<Option<Packet>>): (r: set<nat>)
  {
    set i: nat | i < |pkts| && pkts[i].Some?
  }

  /** Orders the packets by sequence number, leaving gaps for the lost ones. */
  method Collate(packets: seq<Packet>, segCount: nat) returns (r: Option<seq<Option<Packet>>>)
    ensures (forall p :: p in packets ==> p.seqNo < segCount) <==> r.Some?
    ensures r.Some? ==> |r.value| == segCount
    ensures r.Some? ==> forall i :: 0 <= i < segCount && r.value[i].Some? ==>
                          r.value[i].value in packets && r.value[i].value.seqNo == i
    ensures r.Some? ==> Indices(r.value) == Arrived(packets)
  {
    var pkts: seq<Option<Packet>> := seq(segCount, _ => None);
    for i := 0 to |packets|
      invariant |pkts| == segCount && forall j :: 0 <= j < i ==>
                  packets[j].seqNo < segCount && pkts[packets[j].seqNo].Some?
      invariant forall s :: 0 <= s < segCount && pkts[s].Some? ==>
                  pkts[s].value in packets[..i] && pkts[s].value.seqNo == s
    {
      if packets[i].seqNo >= segCount {
        assert packets[i] in packets;
        return None;
      }
      pkts := pkts[packets[i].seqNo := Some(packets[i])];
    }
    assert packets[..|packets|] == packets;
    r := Some(pkts);
    forall s | s in Indices(pkts)
      ensures s in Arrived(packets)
    {
      assert pkts[s].value in packets;
    }
  }

  /** Counts found and lost shards of pkts[lo:hi], numbered from base. */
  method Tally(pkts: seq<Option<Packet>>, lo: nat, hi: nat, base: nat) returns (have: seq<nat>, lost: seq<nat>)
    requires base <= lo <= hi <= |pkts|
    ensures forall x :: x in have <==> lo <= x + base < hi && pkts[x + base].Some?
    ensures forall x :: x in lost <==> lo <= x + base < hi && pkts[x + base].None?
    ensures forall i, j :: 0 <= i < j < |have| ==> have[i] != have[j]
    ensures |have| == |Between(Indices(pkts), lo, hi)|
    ensures |have| + |lost| == hi - lo
  {
    have, lost := [], [];
    assert Between(Indices(pkts), lo, lo) == {};
    for i := lo to hi
      invariant forall x :: x in have <==> lo <= x + base < i && pkts[x + base].Some?
      invariant forall x :: x in lost <==> lo <= x + base < i && pkts[x + base].None?
      invariant forall i, j :: 0 <= i < j < |have| ==> have[i] != have[j]
      invariant |have| == |Between(Indices(pkts), lo, i)|
      invariant |have| + |lost| == i - lo
    {
      var idx := i - base;
      if pkts[i].None? {
        assert Between(Indices(pkts), lo, i + 1) == Between(Indices(pkts), lo, i);
        lost := lost + [idx];
      } else {
        assert Between(Indices(pkts), lo, i + 1) == Between(Indices(pkts), lo, i) + {i};
        assert idx !in have;
        have := have + [idx];
      }
    }
  }

  datatype Recovered = Data(segs: seq<Bytes>) | TooFew | BadShards

  /** The shards of pkts[lo:hi], zeros of the shard length standing in for the lost ones. */
  function Slots(pkts: seq<Option<Packet>>, lo: nat, hi: nat, sLen: nat): (r: seq<Bytes>)
    requires lo <= hi <= |pkts|
    ensures |r| == hi - lo
    ensures forall i :: 0 <= i < |r| ==> (pkts[lo + i].Some? ==> r[i] == pkts[lo + i].value.data)
    ensures forall i :: 0 <= i < |r| ==> (pkts[lo + i].None? ==> |r[i]| == sLen)
  {
    seq(hi - lo, i requires 0 <= i < hi - lo => if pkts[lo + i].None? then seq(sLen, _ => 0)
        else pkts[lo + i].value.data)
  }

  ghost predicate UniformPackets(pkts: seq<Option<Packet>>, size: nat)
  {
    forall i :: 0 <= i < |pkts| && pkts[i].Some? ==> |pkts[i].value.data| == size
  }

  /** The data of a section followed by its parity. */
  ghost function Whole(c: Code, s: Segcalc.Segment, data: seq<Bytes>): (r: seq<Bytes>)
    requires s.dEnd <= s.pEnd
  {
    data + (if s.dEnd < s.pEnd then c.parity(s.pEnd - s.dEnd, data) else [])
  }

  /** The arrived shards of section s carry its data and the parity of that data. */
  ghost predicate Carries(c: Code, s: Segcalc.Segment, pkts: seq<Option<Packet>>, data: seq<Bytes>)
    requires s.dStart <= s.dEnd <= s.pEnd <= |pkts|
  {
    var whole := Whole(c, s, data);
    && |data| == s.dEnd - s.dStart
    && |whole| == s.pEnd - s.dStart
    && forall i :: 0 <= i < |whole| && pkts[s.dStart + i].Some? ==> pkts[s.dStart + i].value.data == whole[i]
  }

  lemma {:induction false} FoundIsData(c: Code, s: Segcalc.Segment, pkts: seq<Option<Packet>>, data: seq<Bytes>)
    requires s.dStart <= s.dEnd <= s.pEnd <= |pkts| && Carries(c, s, pkts, data)
    requires forall i :: s.dStart <= i < s.dEnd ==> pkts[i].Some?
    ensures Slots(pkts, s.dStart, s.dEnd, s.sLen) == data
  {
    var found := Slots(pkts, s.dStart, s.dEnd, s.sLen);
    var whole := Whole(c, s, data);
    forall i | 0 <= i < |data|
      ensures found[i] == data[i]
    {
      assert i < |whole| && pkts[s.dStart + i].Some?;
      assert pkts[s.dStart + i].value.data == whole[i] == data[i];
      assert found[i] == pkts[s.dStart + i].value.data;
    }
  }

  /** The tallied shards meet the precondition of the Reed-Solomon repair. */
  lemma {:induction false} HaveRepairs(c: Code, s: Segcalc.Segment, pkts: seq<Option<Packet>>, data: seq<Bytes>,
                    hD: seq<nat>, hP: seq<nat>, lD: seq<nat>)
    requires s.dStart < s.dEnd < s.pEnd <= |pkts| && Carries(c, s, pkts, data)
    requires forall x :: x in hD <==> s.dStart <= x + s.dStart < s.dEnd && pkts[x + s.dStart].Some?
    requires forall x :: x in lD <==> s.dStart <= x + s.dStart < s.dEnd && pkts[x + s.dStart].None?
    requires forall x :: x in hP <==> s.dEnd <= x + s.dStart < s.pEnd && pkts[x + s.dStart].Some?
    requires forall i, j :: 0 <= i < j < |hD| ==> hD[i] != hD[j]
    requires forall i, j :: 0 <= i < j < |hP| ==> hP[i] != hP[j]
    requires |hD| + |hP| >= |data|
    ensures c.Repairable(data, s.pEnd - s.dEnd, Slots(pkts, s.dStart, s.pEnd, s.sLen), hD + hP, lD)
  {
    var have, shards := hD + hP, Slots(pkts, s.dStart, s.pEnd, s.sLen);
    var whole := data + c.parity(s.pEnd - s.dEnd, data);
    forall i | 0 <= i < |have|
      ensures have[i] < |shards| && shards[have[i]] == whole[have[i]]
      ensures i < |hD| <==> have[i] < |data|
    {
      assert have[i] == if i < |hD| then hD[i] else hP[i - |hD|];
      assert if i < |hD| then have[i] in hD else have[i] in hP;
      assert pkts[s.dStart + have[i]].Some?;
    }
    forall i, j | 0 <= i < j < |have|
      ensures have[i] != have[j]
    {
      if j < |hD| {
        assert hD[i] != hD[j];
      } else if i >= |hD| {
        assert hP[i - |hD|] != hP[j - |hD|];
      }
    }
    forall i | 0 <= i < |data|
      ensures i in have || i in lD
    {
      assert i in hD || i in lD;
    }
  }

  /** One section of the recovery loop. */
  method RecoverSection(c: Code, s: Segcalc.Segment, pkts: seq<Option<Packet>>, ghost size: nat, ghost data: seq<Bytes>)
    returns (r: Recovered)
    requires c.MDS() && s.dStart < s.dEnd <= s.pEnd <= s.dStart + SECTION && s.pEnd <= |pkts|
    ensures r.TooFew? <==> |Between(Indices(pkts), s.dStart, s.pEnd)| < s.dEnd - s.dStart
    ensures UniformPackets(pkts, size) && s.sLen == size > 0 ==> !r.BadShards?
    ensures UniformPackets(pkts, size) && s.sLen == size > 0 && r.Data? ==>
              |r.segs| == s.dEnd - s.dStart && AllOfLength(r.segs, size)
    ensures Carries(c, s, pkts, data) && r.Data? ==> r.segs == data
  {
    var hD, lD := Tally(pkts, s.dStart, s.dEnd, s.dStart);
    var hP, lP := Tally(pkts, s.dEnd, s.pEnd, s.dStart);
    BetweenSplits(Indices(pkts), s.dStart, s.dEnd, s.pEnd);
    var dLen := s.dEnd - s.dStart;
    if |hD| + |hP| < dLen {
      return TooFew;
    }
    if |hD| == dLen {
      assert lD == [];
      forall i | s.dStart <= i < s.dEnd
        ensures pkts[i].Some?
      {
        assert i - s.dStart !in lD;
      }
      if Carries(c, s, pkts, data) {
        FoundIsData(c, s, pkts, data);
      }
      return Data(Slots(pkts, s.dStart, s.dEnd, s.sLen));
    }
    var segments := Slots(pkts, s.dStart, s.pEnd, s.sLen);
    if !ValidShape(dLen, s.pEnd - s.dEnd) || !UniformSize(segments) {
      return BadShards;
    }
    var have := hD + hP;
    assert AllOfLength(segments, |segments[0]|);
    var repaired := c.reconst(dLen, s.pEnd - s.dEnd, segments, have, lD);
    if Carries(c, s, pkts, data) {
      HaveRepairs(c, s, pkts, data, hD, hP, lD);
    }
    r := Data(repaired[..dLen]);
  }

  /** The section loop of JoinPackets when something is missing. */
  method JoinSections(c: Code, m: seq<Segcalc.Segment>, pkts: seq<Option<Packet>>, size: nat,
                      ghost shards: seq<Bytes>, ghost sent: seq<Bytes>)
    returns (r: JoinResult)
    requires c.MDS() && Tiles(m) && |pkts| == End(m) && size > 0
    requires forall k :: 0 <= k < |m| ==> m[k].sLen == size && m[k].last <= size
    ensures UniformPackets(pkts, size) ==> (r.Joined? <==> Enough(m, Indices(pkts)))
    ensures UniformPackets(pkts, size) && r.Failed? ==>
              r.error.NotEnough? && FirstShort(m, Indices(pkts), r.error.section)
    ensures (&& Protects(c, m, shards, sent, size) && r.Joined?
             && forall i :: 0 <= i < |pkts| && pkts[i].Some? ==> pkts[i].value.data == sent[i])
            ==> r.msg == Message(m, shards, |m|)
  {
    ghost var uniform := UniformPackets(pkts, size);
    ghost var known := Protects(c, m, shards, sent, size) && forall i :: 0 <= i < |pkts| && pkts[i].Some? ==>
          pkts[i].value.data == sent[i];
    var msg := [];
    for k := 0 to |m|
      invariant known ==> msg == Message(m, shards, k)
      invariant forall j :: 0 <= j < k ==> |Between(Indices(pkts), m[j].dStart, m[j].pEnd)| >= m[j].dEnd - m[j].dStart
    {
      EndAfter(m, k);
      ghost var data := SectionData(m, shards, k);
      if known {
        SentCarries(c, m, pkts, shards, sent, size, k);
      }
      var rec := RecoverSection(c, m[k], pkts, size, data);
      match rec {
        case TooFew => return Failed(NotEnough(k));
        case BadShards => return Failed(Unrecoverable);
        case Data(segs) =>
          if uniform {
            FlattenFirst(segs, size);
          }
          var b := JoinShards(msg, segs, m[k].sLen, m[k].last);
          if b.None? {
            return Failed(Panic);
          }
          msg := b.value;
      }
    }
    r := Joined(msg);
  }

  lemma {:induction false} SentCarries(c: Code, m: seq<Segcalc.Segment>, pkts: seq<Option<Packet>>, shards: seq<Bytes>,
                                       sent: seq<Bytes>,
                    size: nat, k: nat)
    requires Tiles(m) && k < |m| && Protects(c, m, shards, sent, size) && |pkts| == End(m) && m[k].pEnd <= |pkts|
    requires forall i :: 0 <= i < |pkts| && pkts[i].Some? ==> pkts[i].value.data == sent[i]
    ensures Carries(c, m[k], pkts, SectionData(m, shards, k))
  {
    var s, data := m[k], SectionData(m, shards, k);
    assert SectionSent(c, m, shards, sent, k);
    var whole := Whole(c, s, data);
    assert whole == sent[s.dStart..s.pEnd];
  }

  // ---------------------------------------------------------------- JoinPackets

  /** What JoinPackets promises for distinct packets of one transmission: it succeeds exactly when every section
      has as many shards as data, and then gives the message of the shards that were sent. */
  ghost predicate JoinOutcome(c: Code, m: seq<Segcalc.Segment>, ps: seq<Packet>, size: nat,
                              shards: seq<Bytes>, sent: seq<Bytes>, r: JoinResult)
    requires Tiles(m)
  {
    && (r.Joined? <==> Enough(m, Arrived(ps)))
    && (r.Failed? ==>
          r.error == LostNoRedundancy || (r.error.NotEnough? && FirstShort(m, Arrived(ps), r.error.section)))
    && (r.Joined? && From(ps, sent) && Protects(c, m, shards, sent, size) ==> r.msg == Message(m, shards, |m|))
  }

  /** The packets left go straight to the end of JoinPackets, without being collated. */
  ghost predicate Direct(left: seq<Packet>, red: nat, n: nat)
  {
    |left| == n || (red == 0 && |left| < n)
  }

  /** What the end of JoinPackets makes of the packets left: as many as there are shards are read off by position,
      whatever their numbers; otherwise every section is recovered from the numbers that are there. */
  ghost predicate Rebuilt(c: Code, m: seq<Segcalc.Segment>, left: seq<Packet>, red: nat, size: nat,
                          shards: seq<Bytes>, sent: seq<Bytes>, r: JoinResult)
    requires Tiles(m)
  {
    if |left| == End(m) then r == Joined(Positional(m, DataOf(left), |m|))
    else if red == 0 && |left| < End(m) then r == Failed(LostNoRedundancy)
    else
      && (r.Joined? <==> Enough(m, Arrived(left)))
      && (r.Failed? ==> r.error.NotEnough? && FirstShort(m, Arrived(left), r.error.section))
      && (r.Joined? && From(left, sent) && Protects(c, m, shards, sent, size) ==> r.msg == Message(m, shards, |m|))
  }

  ghost predicate InRange(ps: seq<Packet>, n: nat, size: nat)
  {
    forall p :: p in ps ==> p.seqNo < n && |p.data| == size
  }

  /** The packets in the slots of their numbers. */
  ghost predicate Collated(pkts: seq<Option<Packet>>, ps: seq<Packet>, n: nat)
  {
    && |pkts| == n && Indices(pkts) == Arrived(ps)
    && forall i :: 0 <= i < n && pkts[i].Some? ==> pkts[i].value in ps && pkts[i].value.seqNo == i
  }

  /** The end of JoinPackets. */
  method Reassemble(c: Code, m: seq<Segcalc.Segment>, ps: seq<Packet>, size: nat, red: nat,
                    ghost shards: seq<Bytes>, ghost sent: seq<Bytes>)
    returns (r: JoinResult, pkts: Option<seq<Option<Packet>>>)
    requires c.MDS() && Tiles(m) && size > 0
    requires forall k :: 0 <= k < |m| ==> m[k].sLen == size && m[k].last <= size
    ensures InRange(ps, End(m), size) ==> Rebuilt(c, m, ps, red, size, shards, sent, r)
    ensures InRange(ps, End(m), size) ==>
              if Direct(ps, red, End(m)) then pkts == None else pkts.Some? && Collated(pkts.value, ps, End(m))
  {
    pkts := None;
    var lp, segCount := |ps|, m[|m| - 1].pEnd;
    if red == 0 && lp < segCount {
      return Failed(LostNoRedundancy), pkts;
    }
    if segCount == lp {
      r := JoinAll(m, ps, size);
      return;
    }
    pkts := Collate(ps, segCount);
    if pkts.None? {
      return Failed(Panic), pkts;
    }
    r := JoinSections(c, m, pkts.value, size, shards, sent);
  }

  lemma {:induction false} NothingMissing(ps: seq<Packet>, n: nat)
    requires Sorted(ps) && Distinct(ps) && |ps| == n && (forall p :: p in ps ==> p.seqNo < n)
    ensures forall i :: 0 <= i < n ==> ps[i].seqNo == i
    ensures forall s :: 0 <= s < n ==> s in Arrived(ps)
  {
    forall i | 0 <= i < n
      ensures ps[i].seqNo == i
    {
      AllArrivedInPlace(ps, i);
    }
    forall s | 0 <= s < n
      ensures s in Arrived(ps)
    {
      assert ps[s].seqNo == s;
    }
  }

  /** For packets that are all different the end of JoinPackets keeps its promise. */
  lemma {:induction false} RebuiltDistinct(c: Code, m: seq<Segcalc.Segment>, left: seq<Packet>, red: nat, size: nat,
                                           shards: seq<Bytes>, sent: seq<Bytes>, r: JoinResult)
    requires Tiles(m) && Sorted(left) && Distinct(left) && InRange(left, End(m), size)
    requires forall k :: 0 <= k < |m| ==> (m[k].pEnd == m[k].dEnd <==> red == 0)
    requires Rebuilt(c, m, left, red, size, shards, sent, r)
    ensures JoinOutcome(c, m, left, size, shards, sent, r)
  {
    ArrivedSize(left);
    if |left| == End(m) {
      NothingMissing(left, |left|);
      AllEnough(m, Arrived(left));
      if From(left, sent) && Protects(c, m, shards, sent, size) {
        assert forall i :: 0 <= i < |left| ==> left[i] in left && left[i].seqNo == i;
        assert DataOf(left) == sent;
        forall k | 0 <= k < |m|
          ensures Placed(m, shards, sent, k)
        {
          SentInPlace(c, m, shards, sent, size, k);
        }
        PositionalIsMessage(m, shards, sent, |m|);
      }
    } else if red == 0 && |left| < End(m) {
      MissingWithoutParity(m, Arrived(left));
    }
  }

  /** The outcome of JoinPackets for the sorted packets of a batch, repeats included: an error without parity, a panic
      for a repeated number that is no position or is shifted below zero, else whatever the packets left give. */
  ghost predicate BatchOutcome(sha256: Bytes -> Bytes, c: Code, m: seq<Segcalc.Segment>, ps: seq<Packet>, red: nat,
                               size: nat, shards: seq<Bytes>, sent: seq<Bytes>, r: JoinResult)
    requires Tiles(m)
  {
    if red == 0 && HasRepeat(ps) then r == Failed(DuplicateNoRedundancy)
    else if RepeatBeyond(ps) then r == Failed(Panic)
    else
      var discard := Discards(sha256, ps, |ps|);
      match Removed(ps, discard, |discard|)
      case None => r == Failed(Panic)
      case Some(left) => Rebuilt(c, m, left, red, size, shards, sent, r)
  }

  lemma {:induction false} RemovedInRange(ps: seq<Packet>, discard: seq<nat>, i: nat, n: nat, size: nat)
    requires i <= |discard| && InRange(ps, n, size) && Removed(ps, discard, i).Some?
    ensures InRange(Removed(ps, discard, i).value, n, size)
  {
    if i > 0 {
      RemovedInRange(ps, discard, i - 1, n, size);
      var rest := Removed(ps, discard, i - 1).value;
      var left := Removed(ps, discard, i).value;
      assert forall p :: p in left ==> p in rest;
    }
  }

  /** Whatever the packets, the first fault among them is what is reported. */
  ghost predicate Reported(sha256: Bytes -> Bytes, ps: seq<Packet>, r: JoinResult)
  {
    exists e :: FirstFault(sha256, ps, e) && (e.Some? ==> r == Failed(e.value))
  }

  /** JoinPackets behind its checks. */
  method Finish(c: Code, sha256: Bytes -> Bytes, m: seq<Segcalc.Segment>, ps: seq<Packet>, size: nat, red: nat,
                ghost shards: seq<Bytes>, ghost sent: seq<Bytes>)
    returns (r: JoinResult, pkts: Option<seq<Option<Packet>>>)
    requires c.MDS() && Tiles(m) && size > 0 && ps != []
    requires forall k :: 0 <= k < |m| ==> m[k].sLen == size && m[k].last <= size
    ensures Reported(sha256, ps, r)
    ensures InRange(ps, End(m), size) && Agree(ps, |ps|) && ps[0].parity == red ==>
              BatchOutcome(sha256, c, m, ps, red, size, shards, sent, r)
    ensures InRange(ps, End(m), size) && Agree(ps, |ps|) && !HasRepeat(ps) ==>
              if Direct(ps, red, End(m)) then pkts == None else pkts.Some? && Collated(pkts.value, ps, End(m))
  {
    pkts := None;
    var e, discard := CheckCommon(sha256, ps);
    FaultsOf(sha256, ps, e);
    if !HasRepeat(ps) {
      NothingDiscarded(sha256, ps, |ps|);
    }
    if e.Some? {
      return Failed(e.value), pkts;
    }
    var removed := RemoveDiscarded(ps, discard);
    if removed.None? {
      return Failed(Panic), pkts;
    }
    if InRange(ps, End(m), size) {
      RemovedInRange(ps, discard, |discard|, End(m), size);
    }
    r, pkts := Reassemble(c, m, removed.value, size, red, shards, sent);
  }

  /** Packets that all differ: nothing is discarded. */
  lemma {:induction false} DistinctOutcome(sha256: Bytes -> Bytes, c: Code, m: seq<Segcalc.Segment>, ps: seq<Packet>,
                                           red: nat,
                                           size: nat, shards: seq<Bytes>, sent: seq<Bytes>, r: JoinResult)
    requires Tiles(m) && Sorted(ps) && Distinct(ps) && InRange(ps, End(m), size)
    requires forall k :: 0 <= k < |m| ==> (m[k].pEnd == m[k].dEnd <==> red == 0)
    requires BatchOutcome(sha256, c, m, ps, red, size, shards, sent, r)
    ensures JoinOutcome(c, m, ps, size, shards, sent, r)
  {
    SortedRepeats(ps);
    NothingDiscarded(sha256, ps, |ps|);
    RebuiltDistinct(c, m, ps, red, size, shards, sent, r);
  }

  /** The outcome for a batch under the map of its transmission. */
  ghost predicate Promised(sha256: Bytes -> Bytes, c: Code, ps: seq<Packet>, length: nat, parity: nat, size: nat,
                           shards: seq<Bytes>, sent: seq<Bytes>, r: JoinResult)
    requires size > 0 && parity < SECTION
  {
    LayoutTiles(length, size, parity);
    BatchOutcome(sha256, c, Layout(length, size, parity), ps, parity, size, shards, sent, r)
  }

  /** The outcome for packets that all differ, and the collated packets returned beside the message. */
  ghost predicate PromisedOnce(c: Code, ps: seq<Packet>, length: nat, parity: nat, size: nat, shards: seq<Bytes>,
                               sent: seq<Bytes>, r: JoinResult, pkts: Option<seq<Option<Packet>>>)
    requires size > 0 && parity < SECTION
  {
    LayoutTiles(length, size, parity);
    var m := Layout(length, size, parity);
    && JoinOutcome(c, m, ps, size, shards, sent, r)
    && if Direct(ps, parity, End(m)) then pkts == None else pkts.Some? && Collated(pkts.value, ps, End(m))
  }

  lemma {:induction false} PromisedUnsorted(c: Code, tmp: seq<Packet>, ps: seq<Packet>, length: nat, parity: nat,
                                            size: nat,
                                            shards: seq<Bytes>, sent: seq<Bytes>, r: JoinResult,
                                            pkts: Option<seq<Option<Packet>>>)
    requires size > 0 && parity < SECTION && multiset(ps) == multiset(tmp)
    requires PromisedOnce(c, ps, length, parity, size, shards, sent, r, pkts)
    ensures PromisedOnce(c, tmp, length, parity, size, shards, sent, r, pkts)
  {
    SamePermuted(ps, tmp);
    ArrivedSame(ps, tmp);
  }

  lemma {:induction false} BatchPermuted(tmp: seq<Packet>, ps: seq<Packet>, length: nat, parity: nat, size: nat)
    requires multiset(ps) == multiset(tmp)
    ensures Batch(tmp, length, parity, size) ==> Batch(ps, length, parity, size)
  {
    SamePermuted(ps, tmp);
  }

  lemma {:induction false} BatchFacts(ps: seq<Packet>, length: nat, parity: nat, size: nat)
    requires Batch(ps, length, parity, size)
    ensures ps[0].length == length && ps[0].parity == parity && |ps[0].data| == size && Agree(ps, |ps|)
    ensures Layout(length, size, parity) != [] && InRange(ps, End(Layout(length, size, parity)), size)
  {
    LayoutTiles(length, size, parity);
    assert forall i :: 0 <= i < |ps| ==> ps[i] in ps;
  }

  /** JoinPackets once the packets are sorted. */
  method JoinSorted(c: Code, sha256: Bytes -> Bytes, ps: seq<Packet>, ghost length: nat, ghost parity: nat,
                    ghost size: nat,
                    ghost shards: seq<Bytes>, ghost sent: seq<Bytes>)
    returns (r: JoinResult, pkts: Option<seq<Option<Packet>>>)
    requires c.MDS() && ps != [] && ps[0].parity < SECTION && Sorted(ps)
    ensures if ps[0].data == [] then r == Failed(Panic) else Reported(sha256, ps, r)
    ensures Batch(ps, length, parity, size) ==> Promised(sha256, c, ps, length, parity, size, shards, sent, r)
    ensures Received(ps, length, parity, size) ==> PromisedOnce(c, ps, length, parity, size, shards, sent, r, pkts)
  {
    var p, overhead := ps[0], OVERHEAD;
    ghost var batch := Batch(ps, length, parity, size);
    if batch {
      BatchFacts(ps, length, parity, size);
    }
    if |p.data| == 0 {
      return Failed(Panic), None;
    }
    var m := NewSegments(p.length, |p.data| + overhead, overhead, p.parity);
    LayoutTiles(p.length, |p.data|, p.parity);
    r, pkts := Finish(c, sha256, m, ps, |p.data|, p.parity, shards, sent);
    if batch {
      assert Promised(sha256, c, ps, length, parity, size, shards, sent, r);
      if Distinct(ps) {
        SortedRepeats(ps);
        DistinctOutcome(sha256, c, m, ps, parity, size, shards, sent, r);
      }
    }
  }

  /** JoinPackets. The ghost parameters name the transmission the packets may come from; the ghost result is the
      order the packets were sorted into. */
  method JoinPackets(c: Code, sha256: Bytes -> Bytes, packets: seq<Option<Packet>>,
                     ghost length: nat, ghost parity: nat, ghost size: nat, ghost shards: seq<Bytes>,
                         ghost sent: seq<Bytes>)
    returns (r: JoinResult, pkts: Option<seq<Option<Packet>>>, ghost ps: seq<Packet>)
    requires c.MDS()
    requires forall p :: p in Present(packets) ==> p.parity < SECTION
    ensures packets == [] ==> r == Failed(EmptyPackets)
    ensures Sorted(ps) && multiset(ps) == multiset(Present(packets))
    ensures packets != [] ==> if ps == [] || ps[0].data == [] then r == Failed(Panic) else Reported(sha256, ps, r)
    ensures Batch(Present(packets), length, parity, size) ==>
              Promised(sha256, c, ps, length, parity, size, shards, sent, r)
    ensures Received(Present(packets), length, parity, size) ==>
              PromisedOnce(c, Present(packets), length, parity, size, shards, sent, r, pkts)
  {
    pkts, ps := None, [];
    if packets == [] {
      return Failed(EmptyPackets), pkts, ps;
    }
    var tmp := Collect(packets);
    var sorted := SortBySeq(tmp);
    ps := sorted;
    BatchPermuted(tmp, sorted, length, parity, size);
    if sorted == [] {
      assert |multiset(tmp)| == 0;
      return Failed(Panic), pkts, ps;
    }
    assert sorted[0] in multiset(tmp);
    r, pkts := JoinSorted(c, sha256, sorted, length, parity, size, shards, sent);
    if Received(tmp, length, parity, size) {
      PromisedUnsorted(c, tmp, sorted, length, parity, size, shards, sent, r, pkts);
    }
  }
}
