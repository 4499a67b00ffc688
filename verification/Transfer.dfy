/** SplitToPackets, and the whole way of a message: split, seal, lose and reorder, open, join. */
module Transfer {
  import opened Options
  import opened Bytes
  import opened Crypto
  import opened Segcalc
  import opened Shards
  import opened Erasure
  import opened Counting
  import opened PacketCodec
  import opened Join
  import opened Arrivals

  datatype SplitResult = Split(dataShards: nat, packets: seq<Bytes>) | NoData | EncodingFailed | SplitPanic

  /** The random choices of a sender: per packet a one-time key, a nonce and a blinder, and the padding noise. */
  datatype Choices = Choices(keys: nat -> Prv, nonces: nat -> Bytes, blinders: nat -> Bytes, noise: Bytes)
  {
    ghost predicate Valid(size: nat)
    {
      && (forall i: nat :: |nonces(i)| == IV_LEN && |blinders(i)| == BLIND_LEN)
      && |noise| >= size
    }
  }

  /** Packet i on the wire is shard i, numbered i, sealed to the recipient. */
  ghost predicate SealedShards(w: Suite, ch: Choices, id: Bytes, to: Pub, length: nat, parity: nat,
                               sent: seq<Bytes>, packets: seq<Bytes>)
    requires w.Lawful() && forall i: nat :: |ch.blinders(i)| == BLIND_LEN
  {
    && |packets| == |sent|
    && forall i :: 0 <= i < |sent| ==>
         packets[i] == Sealed(w, ch.keys(i), to, ch.blinders(i), ch.nonces(i), Packet(id, i, length, parity, sent[i]))
  }

  /** SplitToPackets. A payload that fills its last shard makes AddParity slice past the end. */
  method SplitToPackets(w: Suite, c: Code, pp: PacketParams, segSize: nat, ch: Choices)
    returns (r: SplitResult, ghost shards: seq<Bytes>, ghost sent: seq<Bytes>)
    requires w.Lawful() && c.MDS() && segSize > FRAME_OVERHEAD && ch.Valid(segSize - FRAME_OVERHEAD)
    requires |pp.id| == ID_LEN && pp.parity < SECTION
    modifies pp
    ensures old(pp.data) == [] ==> r == NoData
    ensures var size := segSize - FRAME_OVERHEAD;
            var m := Layout(|old(pp.data)|, size, old(pp.parity));
            old(pp.data) != [] ==>
              if |old(pp.data)| % size == 0 then r == SplitPanic else
              && r.Split? && m != [] && r.dataShards == m[|m| - 1].dEnd
              && IsCut(old(pp.data), size, shards) && Protects(c, m, shards, sent, size)
              && SealedShards(w, ch, old(pp.id), old(pp.to), |old(pp.data)|, old(pp.parity), sent, r.packets)
  {
    shards, sent := [], [];
    if pp.data == [] {
      return NoData, shards, sent;
    }
    var ss := segSize - FRAME_OVERHEAD;
    pp.length := |pp.data|;
    var segments := Shards.Segment(pp.data, ss, ch.noise);
    shards := segments;
    CutCount(pp.data, ss, segments);
    var segMap := NewSegments(pp.length, segSize, FRAME_OVERHEAD, pp.parity);
    LayoutTiles(pp.length, ss, pp.parity);
    var dataShards := segMap[|segMap| - 1].dEnd;
    var p := AddParity(c, segMap, segments, ss);
    if p.OutOfShards? {
      return SplitPanic, shards, sent;
    }
    if p.EncoderError? {
      return EncodingFailed, shards, sent;
    }
    sent := p.shards;
    var packets := SealAll(w, pp, p.shards, ch);
    r := Split(dataShards, packets);
  }

  /** The sealing loop of SplitToPackets, reusing pp for every shard. */
  method SealAll(w: Suite, pp: PacketParams, sent: seq<Bytes>, ch: Choices) returns (packets: seq<Bytes>)
    requires w.Lawful() && |pp.id| == ID_LEN
    requires forall i: nat :: |ch.nonces(i)| == IV_LEN && |ch.blinders(i)| == BLIND_LEN
    modifies pp
    ensures SealedShards(w, ch, old(pp.id), old(pp.to), old(pp.length), old(pp.parity), sent, packets)
  {
    packets := [];
    for i := 0 to |sent|
      invariant pp.id == old(pp.id) && pp.to == old(pp.to) && pp.length == old(pp.length) && pp.parity == old(pp.parity)
      invariant |packets| == i
      invariant forall j :: 0 <= j < i ==>
                  packets[j] == Sealed(w, ch.keys(j), old(pp.to), ch.blinders(j), ch.nonces(j),
                                       Packet(old(pp.id), j, old(pp.length), old(pp.parity), sent[j]))
    {
      pp.data, pp.seqNo := sent[i], i;
      pp.from := ch.keys(i);
      var s := EncodePacket(w, pp, ch.nonces(i), ch.blinders(i));
      packets := packets + [s[..]];
    }
  }

  /** A received packet that checks out, is cloaked to our key and opens. */
  function OpenedBy(w: Suite, bytes: Bytes, to: Prv): (r: Option<Packet>)
    requires w.Lawful()
  {
    var keys := Recognise(w, bytes);
    if keys.BadFrame? || !w.Match(keys.to, w.derivePub(to)) then None
    else
      var f := Open(w, bytes, keys.from, to);
      if f.Opened? then Some(f.packet) else None
  }

  method OpenPacket(w: Suite, bytes: Bytes, to: Prv) returns (p: Option<Packet>)
    requires w.Lawful()
    ensures p == OpenedBy(w, bytes, to)
  {
    var keys := Recognise(w, bytes);
    if keys.BadFrame? || !w.Match(keys.to, w.derivePub(to)) {
      return None;
    }
    var d := new byte[|bytes|](i requires 0 <= i < |bytes| => bytes[i]);
    assert d[..] == bytes;
    var f := DecodePacket(w, d, keys.from, to);
    p := if f.Opened? then Some(f.packet) else None;
  }

  lemma {:induction false} SealedIsOpened(w: Suite, from: Prv, to: Prv, blinder: Bytes, iv: Bytes, p: Packet)
    requires w.Lawful() && |blinder| == BLIND_LEN && |iv| == IV_LEN && |p.id| == ID_LEN
    requires p.seqNo < 65536 && p.length < 4294967296 && p.parity < SECTION
    ensures OpenedBy(w, Sealed(w, from, w.derivePub(to), blinder, iv, p), to) == Some(p)
  {
    SealOpen(w, from, to, blinder, iv, p);
    assert OnWire(p) == p;
    OpenedFrom(w, Sealed(w, from, w.derivePub(to), blinder, iv, p), w.derivePub(from),
               w.Cloak(blinder, w.derivePub(to)), to, p);
  }

  lemma {:induction false} OpenedFrom(w: Suite, d: Bytes, from: Pub, cloak: Bytes, to: Prv, p: Packet)
    requires w.Lawful() && |cloak| == CLOAK_LEN && Recognise(w, d) == Keys(from, cloak)
    requires w.Match(cloak, w.derivePub(to)) && Open(w, d, from, to) == Opened(p)
    ensures OpenedBy(w, d, to) == Some(p)
  {
  }

  /** Nobody opens a frame with a wrong check, or one cloaked to a key with another hash. */
  lemma {:induction false} NotOpened(w: Suite, bytes: Bytes, from: Prv, to: Pub, blinder: Bytes, iv: Bytes, p: Packet,
                                     key: Prv)
    requires w.Lawful() && |blinder| == BLIND_LEN && |iv| == IV_LEN
    ensures |bytes| >= 4 && bytes[..4] != w.sha256(bytes[4..])[..4] ==> OpenedBy(w, bytes, key) == None
    ensures w.sha256(blinder + to)[..4] != w.sha256(blinder + w.derivePub(key))[..4] ==>
              OpenedBy(w, Sealed(w, from, to, blinder, iv, p), key) == None
  {
    BadFrames(w, bytes, to, key);
    var d := Sealed(w, from, to, blinder, iv, p);
    w.CloakExact(blinder, to, w.derivePub(key));
    assert |d| >= OVERHEAD ==> d[37..45] == w.Cloak(blinder, to);
  }

  /** The sender maps a payload with the overhead of a whole frame, the receiver maps the length and parity it reads off
      an opened packet with the overhead of the head alone: the two maps are the same. */
  method MapsAgree(w: Suite, from: Prv, to: Prv, blinder: Bytes, iv: Bytes, p: Packet, segSize: nat)
    returns (sender: seq<Segcalc.Segment>, receiver: Option<seq<Segcalc.Segment>>)
    requires w.Lawful() && |blinder| == BLIND_LEN && |iv| == IV_LEN && |p.id| == ID_LEN
    requires p.seqNo < 65536 && p.length < 4294967296 && p.parity < SECTION
    requires segSize > FRAME_OVERHEAD && |p.data| == segSize - FRAME_OVERHEAD
    ensures receiver == Some(sender) && sender == Layout(p.length, segSize - FRAME_OVERHEAD, p.parity)
  {
    sender := NewSegments(p.length, segSize, FRAME_OVERHEAD, p.parity);
    SealedIsOpened(w, from, to, blinder, iv, p);
    var arrived := OpenPacket(w, Sealed(w, from, w.derivePub(to), blinder, iv, p), to);
    var q := arrived.value;
    var m := NewSegments(q.length, |q.data| + OVERHEAD, OVERHEAD, q.parity);
    receiver := Some(m);
  }

  /** The receiving side up to JoinPackets, for the packets that made it. */
  method Receive(w: Suite, packets: seq<Bytes>, keep: seq<nat>, to: Prv) returns (pkts: seq<Option<Packet>>)
    requires w.Lawful()
    requires forall j :: 0 <= j < |keep| ==> keep[j] < |packets|
    ensures |pkts| == |keep|
    ensures forall j :: 0 <= j < |keep| ==> pkts[j] == OpenedBy(w, packets[keep[j]], to)
  {
    pkts := [];
    for j := 0 to |keep|
      invariant |pkts| == j
      invariant forall i :: 0 <= i < j ==> pkts[i] == OpenedBy(w, packets[keep[i]], to)
    {
      var p := OpenPacket(w, packets[keep[j]], to);
      pkts := pkts + [p];
    }
  }

  /** The receiving side: opening what arrived and joining it. */
  method Deliver(w: Suite, c: Code, packets: seq<Bytes>, keep: seq<nat>, to: Prv, ghost ch: Choices, ghost id: Bytes,
                 ghost length: nat, ghost parity: nat, ghost size: nat, ghost m: seq<Segcalc.Segment>,
                 ghost payload: Bytes, ghost shards: seq<Bytes>, ghost sent: seq<Bytes>)
    returns (r: JoinResult)
    requires w.Lawful() && c.MDS() && |id| == ID_LEN && length < 4294967296 && parity < SECTION && size > 0
    requires forall i: nat :: |ch.nonces(i)| == IV_LEN && |ch.blinders(i)| == BLIND_LEN
    requires m == Layout(length, size, parity) && Tiles(m) && Protects(c, m, shards, sent, size) && |sent| <= 65536
    requires SealedShards(w, ch, id, w.derivePub(to), length, parity, sent, packets) && DistinctBelow(keep, |sent|)
    ensures r == Joined(payload) <==> Enough(m, set k | k in keep) && Message(m, shards, |m|) == payload
  {
    var pkts := Receive(w, packets, keep, to);
    forall j | 0 <= j < |keep|
      ensures pkts[j] == Some(Packet(id, keep[j], length, parity, sent[keep[j]]))
    {
      ShardOpens(w, ch, id, to, length, parity, sent, packets, keep[j]);
    }
    ArrivalsAre(pkts, keep, id, length, parity, size, sent);
    var joined, _, _ := JoinPackets(c, w.sha256, pkts, length, parity, size, shards, sent);
    r := joined;
    ghost var arrived := set k | k in keep;
    assert keep != [] ==> keep[0] in arrived;
    Verdict(c, m, payload, size, shards, sent, arrived, Present(pkts), r);
  }

  /** The whole transmission. `keep` lists the packets that arrive, in any order. The message comes back
      exactly when enough shards of every section arrive, the payload leaves a remainder in its last shard,
      and the map does not end in untrimmed full sections. */
  method Transmit(w: Suite, c: Code, payload: Bytes, parity: nat, segSize: nat, id: Bytes, to: Prv,
                  ch: Choices, keep: seq<nat>)
    returns (r: JoinResult)
    requires w.Lawful() && c.MDS() && segSize > FRAME_OVERHEAD && ch.Valid(segSize - FRAME_OVERHEAD)
    requires |id| == ID_LEN && parity < SECTION && 0 < |payload| < 4294967296
    requires var m := Layout(|payload|, segSize - FRAME_OVERHEAD, parity);
             (LayoutTiles(|payload|, segSize - FRAME_OVERHEAD, parity); End(m) <= 65536 && DistinctBelow(keep, End(m)))
    ensures var size := segSize - FRAME_OVERHEAD;
            (LayoutTiles(|payload|, size, parity);
             r == Joined(payload) <==>
               && Enough(Layout(|payload|, size, parity), set k | k in keep)
               && |payload| % size != 0
               && !EndsUntrimmed(|payload|, size, parity))
  {
    var size := segSize - FRAME_OVERHEAD;
    var pp := new PacketParams(id, w.derivePub(to), parity, payload);
    ghost var m := Layout(|payload|, size, parity);
    LayoutTiles(|payload|, size, parity);
    var split;
    ghost var shards, sent;
    split, shards, sent := SplitToPackets(w, c, pp, segSize, ch);
    if !split.Split? {
      return Failed(Panic);
    }
    r := Deliver(w, c, split.packets, keep, to, ch, id, |payload|, parity, size, m, payload, shards, sent);
    MessageIsPayload(payload, size, parity, shards);
  }

  lemma {:induction false} ShardOpens(w: Suite, ch: Choices, id: Bytes, to: Prv, length: nat, parity: nat,
                                      sent: seq<Bytes>, packets: seq<Bytes>, k: nat)
    requires w.Lawful() && |id| == ID_LEN && length < 4294967296 && parity < SECTION && k < |sent| <= 65536
    requires forall i: nat :: |ch.nonces(i)| == IV_LEN && |ch.blinders(i)| == BLIND_LEN
    requires SealedShards(w, ch, id, w.derivePub(to), length, parity, sent, packets)
    ensures OpenedBy(w, packets[k], to) == Some(Packet(id, k, length, parity, sent[k]))
  {
    SealedIsOpened(w, ch.keys(k), to, ch.blinders(k), ch.nonces(k), Packet(id, k, length, parity, sent[k]));
  }

  lemma {:induction false} Verdict(c: Code, m: seq<Segcalc.Segment>, payload: Bytes, size: nat, shards: seq<Bytes>,
                                   sent: seq<Bytes>, arrived: set<nat>, ps: seq<Packet>, r: JoinResult)
    requires Tiles(m) && Protects(c, m, shards, sent, size)
    requires From(ps, sent) && Arrived(ps) == arrived
    requires if arrived == {} then r.Failed? else JoinOutcome(c, m, ps, size, shards, sent, r)
    ensures r == Joined(payload) <==> Enough(m, arrived) && Message(m, shards, |m|) == payload
  {
    if arrived == {} {
      assert Between(arrived, m[0].dStart, m[0].pEnd) == {};
      assert |Between(arrived, m[0].dStart, m[0].pEnd)| < m[0].dEnd - m[0].dStart;
    }
  }

  lemma {:induction false} PresentAll(pkts: seq<Option<Packet>>)
    requires forall i :: 0 <= i < |pkts| ==> pkts[i].Some?
    ensures |Present(pkts)| == |pkts| && forall i :: 0 <= i < |pkts| ==> Present(pkts)[i] == pkts[i].value
  {
    if pkts != [] {
      PresentAll(pkts[1..]);
    }
  }

  /** What the opened packets are, in the terms of JoinPackets. */
  lemma {:induction false} ArrivalsAre(pkts: seq<Option<Packet>>, keep: seq<nat>, id: Bytes, length: nat, parity: nat,
                                       size: nat,
                    sent: seq<Bytes>)
    requires size > 0 && parity < SECTION && AllOfLength(sent, size)
    requires Layout(length, size, parity) != [] && |sent| == End(Layout(length, size, parity))
             && DistinctBelow(keep, |sent|)
    requires |pkts| == |keep|
    requires forall j :: 0 <= j < |keep| ==> pkts[j] == Some(Packet(id, keep[j], length, parity, sent[keep[j]]))
    ensures keep != [] ==> Received(Present(pkts), length, parity, size)
    ensures From(Present(pkts), sent)
    ensures Arrived(Present(pkts)) == set k | k in keep
    ensures forall p :: p in Present(pkts) ==> p.parity < SECTION
  {
    PresentAll(pkts);
    var ps := Present(pkts);
    forall s | s in keep
      ensures s in Arrived(ps)
    {
      var j :| 0 <= j < |keep| && keep[j] == s;
      assert ps[j].seqNo == s;
    }
    assert forall j :: 0 <= j < |ps| ==> ps[j] == Packet(id, keep[j], length, parity, sent[keep[j]]);
  }
}
