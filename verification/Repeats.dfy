/** Batches in which packets arrive more than once (pkg/engine/packet/segment.go): exactly when JoinPackets still gives
    the message, and when it gives a wrong one. */
module Repeats {
  import opened Options
  import opened Sequences
  import opened Bytes
  import opened Segcalc
  import opened Shards
  import opened Erasure
  import opened Counting
  import opened PacketCodec
  import opened Arrivals
  import opened Join

  // ---------------------------------------------------------------- shards read off by position

  lemma {:induction false} PieceLength(s: Segcalc.Segment, a: seq<Bytes>, b: seq<Bytes>, size: nat)
    requires s.dStart <= s.dEnd <= |a| == |b| && AllOfLength(a, size) && AllOfLength(b, size)
    ensures |Piece(s, a)| == |Piece(s, b)|
  {
    FlattenLength(InPlace(s, a), size);
    FlattenLength(InPlace(s, b), size);
  }

  /** Two messages of equal pieces. */
  lemma {:induction false} SamePieces(x: Bytes, y: Bytes, p: Bytes, q: Bytes)
    requires |x| == |y| && |p| == |q|
    ensures x + p == y + q <==> x == y && p == q
  {
    if x + p == y + q {
      assert (x + p)[..|x|] == x && (y + q)[..|y|] == y;
      assert (x + p)[|x|..] == p && (y + q)[|y|..] == q;
    }
  }

  ghost predicate SamePiece(m: seq<Segcalc.Segment>, a: seq<Bytes>, b: seq<Bytes>, k: nat)
    requires k < |m|
  {
    Piece(m[k], a) == Piece(m[k], b)
  }

  /** Shards of one size give the same message if and only if they do so section by section. */
  lemma {:induction false} PositionalSame(m: seq<Segcalc.Segment>, a: seq<Bytes>, b: seq<Bytes>, size: nat, k: nat)
    requires Tiles(m) && k <= |m| && |a| == |b| == End(m) && AllOfLength(a, size) && AllOfLength(b, size)
    ensures |Positional(m, a, k)| == |Positional(m, b, k)|
    ensures Positional(m, a, k) == Positional(m, b, k) <==> forall i :: 0 <= i < k ==> SamePiece(m, a, b, i)
  {
    if k > 0 {
      PositionalSame(m, a, b, size, k - 1);
      EndAfter(m, k - 1);
      PieceLength(m[k - 1], a, b, size);
      SamePieces(Positional(m, a, k - 1), Positional(m, b, k - 1), Piece(m[k - 1], a), Piece(m[k - 1], b));
      assert SamePiece(m, a, b, k - 1) <==> Piece(m[k - 1], a) == Piece(m[k - 1], b);
    }
  }

  // ---------------------------------------------------------------- any repeats

  /** The packets left give the message: where there are as many as shards, the trimmed data of every section stands in
      its place; else every section has enough numbers. */
  ghost predicate Restores(m: seq<Segcalc.Segment>, left: seq<Packet>, sent: seq<Bytes>)
    requires Tiles(m)
  {
    if |left| == End(m) then forall k :: 0 <= k < |m| ==> SamePiece(m, DataOf(left), sent, k)
    else Enough(m, Arrived(left))
  }

  /** The packets of a batch, repeats and all, give the message. */
  ghost predicate Survives(sha256: Bytes -> Bytes, m: seq<Segcalc.Segment>, ps: seq<Packet>, sent: seq<Bytes>)
    requires Tiles(m)
  {
    var discard := Discards(sha256, ps, |ps|);
    var left := Removed(ps, discard, |discard|);
    !RepeatBeyond(ps) && left.Some? && Restores(m, left.value, sent)
  }

  lemma {:induction false} RebuiltExact(c: Code, m: seq<Segcalc.Segment>, left: seq<Packet>, red: nat, size: nat,
                                        shards: seq<Bytes>, sent: seq<Bytes>, r: JoinResult)
    requires Tiles(m) && InRange(left, End(m), size) && From(left, sent) && red > 0
    requires Protects(c, m, shards, sent, size) && Rebuilt(c, m, left, red, size, shards, sent, r)
    ensures r == Joined(Message(m, shards, |m|)) <==> Restores(m, left, sent)
    ensures r.Joined? && r.msg != Message(m, shards, |m|) ==> |left| == End(m)
  {
    if |left| == End(m) {
      forall k | 0 <= k < |m|
        ensures Placed(m, shards, sent, k)
      {
        SentInPlace(c, m, shards, sent, size, k);
      }
      PositionalIsMessage(m, shards, sent, |m|);
      assert AllOfLength(DataOf(left), size) by {
        assert forall i :: 0 <= i < |left| ==> left[i] in left;
      }
      PositionalSame(m, DataOf(left), sent, size, |m|);
    }
  }

  lemma {:induction false} RemovedKeeps(ps: seq<Packet>, discard: seq<nat>, i: nat, sent: seq<Bytes>)
    requires i <= |discard| && Sorted(ps) && From(ps, sent) && Removed(ps, discard, i).Some?
    ensures Sorted(Removed(ps, discard, i).value) && From(Removed(ps, discard, i).value, sent)
  {
    if i > 0 {
      RemovedKeeps(ps, discard, i - 1, sent);
      WithoutKeeps(Removed(ps, discard, i - 1).value, discard[i - 1] - (i - 1), sent);
    }
  }

  lemma {:induction false} WithoutKeeps(ps: seq<Packet>, at: nat, sent: seq<Bytes>)
    requires at < |ps| && Sorted(ps) && From(ps, sent)
    ensures Sorted(Without(ps, at)) && From(Without(ps, at), sent)
  {
    WithoutSorted(ps, at);
    assert forall p :: p in Without(ps, at) ==> p in ps;
  }

  lemma {:induction false} WithoutSorted(ps: seq<Packet>, at: nat)
    requires at < |ps| && Sorted(ps)
    ensures Sorted(Without(ps, at))
  {
    var left := Without(ps, at);
    assert forall i :: 0 <= i < |left| ==> left[i] == ps[if i < at then i else i + 1];
  }

  /** As many packets are left as there are shards, and yet one number is left twice. */
  ghost predicate LeftTwice(sha256: Bytes -> Bytes, ps: seq<Packet>, n: nat)
  {
    var discard := Discards(sha256, ps, |ps|);
    var left := Removed(ps, discard, |discard|);
    left.Some? && |left.value| == n && HasRepeat(left.value)
  }

  /** With parity, a batch with any repeats gives the message if and only if it survives them. A wrong message needs as
      many packets left as there are shards, and one number left twice. */
  lemma {:induction false} RepeatsOutcome(sha256: Bytes -> Bytes, c: Code, m: seq<Segcalc.Segment>, ps: seq<Packet>,
                                          red: nat, size: nat, shards: seq<Bytes>, sent: seq<Bytes>, r: JoinResult)
    requires Tiles(m) && Sorted(ps) && InRange(ps, End(m), size) && From(ps, sent) && red > 0
    requires forall k :: 0 <= k < |m| ==> m[k].pEnd != m[k].dEnd
    requires Protects(c, m, shards, sent, size) && BatchOutcome(sha256, c, m, ps, red, size, shards, sent, r)
    ensures r == Joined(Message(m, shards, |m|)) <==> Survives(sha256, m, ps, sent)
    ensures r.Joined? && r.msg != Message(m, shards, |m|) ==> LeftTwice(sha256, ps, End(m))
  {
    var discard := Discards(sha256, ps, |ps|);
    var removed := Removed(ps, discard, |discard|);
    if !RepeatBeyond(ps) && removed.Some? {
      var left := removed.value;
      RemovedInRange(ps, discard, |discard|, End(m), size);
      RemovedKeeps(ps, discard, |discard|, sent);
      RebuiltExact(c, m, left, red, size, shards, sent, r);
      SortedRepeats(left);
      if Distinct(left) {
        RebuiltDistinct(c, m, left, red, size, shards, sent, r);
      }
    }
  }

  // ---------------------------------------------------------------- one packet that arrives twice

  /** The numbers that count when the packet at position j came twice: all that arrived, unless the packet standing at
      the position of the repeated number is another one with the same hash, which is then lost. */
  ghost function Counted(sha256: Bytes -> Bytes, ps: seq<Packet>, j: nat): (arrived: set<nat>)
    requires j < |ps|
  {
    var s := ps[j].seqNo;
    if j + 2 <= s < |ps| && sha256(ps[s].data) == sha256(ps[j].data) then Arrived(ps) - {ps[s].seqNo} else Arrived(ps)
  }

  /** The repeated packet is found: the same as if it had come once. */
  lemma {:induction false} NearOutcome(sha256: Bytes -> Bytes, c: Code, m: seq<Segcalc.Segment>, ps: seq<Packet>,
                                       j: nat,
                                       red: nat, size: nat, shards: seq<Bytes>, sent: seq<Bytes>, r: JoinResult)
    requires Tiles(m) && OneRepeat(ps, j) && InRange(ps, End(m), size) && From(ps, sent) && red > 0
    requires forall k :: 0 <= k < |m| ==> m[k].pEnd != m[k].dEnd
    requires ps[j].seqNo <= j + 1 && ps[j].seqNo < |ps| && Protects(c, m, shards, sent, size)
    requires Rebuilt(c, m, LeftOf(sha256, ps, j), red, size, shards, sent, r)
    ensures r.Joined? <==> Enough(m, Arrived(ps))
    ensures r.Joined? ==> r.msg == Message(m, shards, |m|)
  {
    var left := LeftOf(sha256, ps, j);
    CopyGoes(sha256, ps, j, sent);
    assert forall p :: p in left ==> p in ps;
    RebuiltDistinct(c, m, left, red, size, shards, sent, r);
  }

  /** Another packet stands at the position of the repeated number. */
  lemma {:induction false} FarOutcome(sha256: Bytes -> Bytes, c: Code, m: seq<Segcalc.Segment>, ps: seq<Packet>, j: nat,
                                      red: nat, size: nat, shards: seq<Bytes>, sent: seq<Bytes>, r: JoinResult)
    requires Tiles(m) && OneRepeat(ps, j) && InRange(ps, End(m), size) && From(ps, sent) && red > 0
    requires j + 2 <= ps[j].seqNo < |ps| && Protects(c, m, shards, sent, size)
    requires Rebuilt(c, m, LeftOf(sha256, ps, j), red, size, shards, sent, r)
    ensures r.Joined? <==> Enough(m, Counted(sha256, ps, j))
    ensures r.Joined? ==> r.msg == Message(m, shards, |m|)
  {
    var left := LeftOf(sha256, ps, j);
    OtherGoes(sha256, ps, j, End(m));
    LeftFrom(sha256, ps, j, sent);
  }

  lemma {:induction false} LeftFrom(sha256: Bytes -> Bytes, ps: seq<Packet>, j: nat, sent: seq<Bytes>)
    requires OneRepeat(ps, j) && ps[j].seqNo < |ps| && From(ps, sent)
    ensures From(LeftOf(sha256, ps, j), sent) && ps[j].data == ps[j + 1].data
  {
    var left := LeftOf(sha256, ps, j);
    assert RepeatAt(ps, j + 1);
    assert ps[j] in ps && ps[j + 1] in ps;
    assert forall p :: p in left ==> p in ps;
  }

  /** With parity, a batch in which one packet came twice gives the message if and only if the repeated number is a
      position and every section has enough of the numbers that count. */
  lemma {:induction false} OneRepeatOutcome(sha256: Bytes -> Bytes, c: Code, m: seq<Segcalc.Segment>, ps: seq<Packet>,
                                            j: nat,
                                            red: nat, size: nat, shards: seq<Bytes>, sent: seq<Bytes>, r: JoinResult)
    requires Tiles(m) && OneRepeat(ps, j) && InRange(ps, End(m), size) && From(ps, sent) && red > 0
    requires forall k :: 0 <= k < |m| ==> m[k].pEnd != m[k].dEnd
    requires Protects(c, m, shards, sent, size) && BatchOutcome(sha256, c, m, ps, red, size, shards, sent, r)
    ensures ps[j].seqNo >= |ps| ==> r == Failed(Panic)
    ensures r == Joined(Message(m, shards, |m|)) <==> ps[j].seqNo < |ps| && Enough(m, Counted(sha256, ps, j))
    ensures r.Joined? ==> r.msg == Message(m, shards, |m|)
  {
    assert RepeatAt(ps, j + 1);
    if ps[j].seqNo < |ps| {
      OneRemoved(sha256, ps, j);
      if ps[j].seqNo <= j + 1 {
        NearOutcome(sha256, c, m, ps, j, red, size, shards, sent, r);
      } else {
        FarOutcome(sha256, c, m, ps, j, red, size, shards, sent, r);
      }
    }
  }

  // ---------------------------------------------------------------- inputs that fail

  /** Two packets with one number above 1: the lookup panics. */
  lemma {:induction false} TwoPacketsPanic(sha256: Bytes -> Bytes, c: Code, m: seq<Segcalc.Segment>, ps: seq<Packet>,
                                           red: nat, size: nat, shards: seq<Bytes>, sent: seq<Bytes>, r: JoinResult)
    requires Tiles(m) && red > 0 && |ps| == 2 && ps[0].seqNo == ps[1].seqNo >= 2
    requires BatchOutcome(sha256, c, m, ps, red, size, shards, sent, r)
    ensures r == Failed(Panic)
  {
    assert RepeatAt(ps, 1);
  }

  /** Packets 0 and 1 twice, 2 once, of three data shards and one parity shard. The spare copy of 1 is compared with the
      packet at position 1, which is the copy of 0 that has not been removed yet, so it stays. Four packets are left,
      as many as shards, and shard 1 is read again in the place of shard 2: a wrong message and no error. */
  lemma {:induction false} WrongMessage(sha256: Bytes -> Bytes, c: Code, m: seq<Segcalc.Segment>, ps: seq<Packet>,
                                        red: nat, size: nat, last: nat, shards: seq<Bytes>, sent: seq<Bytes>,
                                        r: JoinResult)
    requires m == [Segcalc.Segment(0, 3, 4, size, last)] && last <= size && red > 0
    requires |sent| == 4 && AllOfLength(sent, size) && sha256(sent[0]) != sha256(sent[1])
    requires |ps| == 5 && From(ps, sent)
    requires ps[0].seqNo == ps[1].seqNo == 0 && ps[2].seqNo == ps[3].seqNo == 1 && ps[4].seqNo == 2
    requires Tiles(m) && BatchOutcome(sha256, c, m, ps, red, size, shards, sent, r)
    ensures Enough(m, Arrived(ps)) && !RepeatBeyond(ps)
    ensures r == Joined(Trim(Flatten([sent[0], sent[1], sent[1]]), size, last))
    ensures Protects(c, m, shards, sent, size) && sent[1][..last] != sent[2][..last] ==>
              r != Joined(Message(m, shards, |m|))
  {
    FiveLeft(sha256, ps, sent);
    FiveEnough(m, ps, size, last);
    OneSection(m, DataOf(ps[1..]), [sent[0], sent[1], sent[1]], size, last);
    ThirdShard(sent[0], sent[1], sent[1], sent[2], size, last);
    if Protects(c, m, shards, sent, size) {
      SentInPlace(c, m, shards, sent, size, 0);
      PositionalIsMessage(m, shards, sent, 1);
      OneSection(m, sent, [sent[0], sent[1], sent[2]], size, last);
    }
  }

  lemma {:induction false} OneSection(m: seq<Segcalc.Segment>, data: seq<Bytes>, first: seq<Bytes>, size: nat,
                                      last: nat)
    requires m == [Segcalc.Segment(0, 3, 4, size, last)] && |data| == 4 && |first| == 3
    requires data[0] == first[0] && data[1] == first[1] && data[2] == first[2]
    ensures Positional(m, data, 1) == Trim(Flatten(first), size, last)
  {
    assert InPlace(m[0], data) == first;
    assert Positional(m, data, 0) == [];
  }

  lemma {:induction false} FiveLeft(sha256: Bytes -> Bytes, ps: seq<Packet>, sent: seq<Bytes>)
    requires |ps| == 5 && From(ps, sent) && |sent| == 4 && sha256(sent[0]) != sha256(sent[1])
    requires ps[0].seqNo == ps[1].seqNo == 0 && ps[2].seqNo == ps[3].seqNo == 1 && ps[4].seqNo == 2
    ensures !RepeatBeyond(ps) && Discards(sha256, ps, 5) == [0] && Removed(ps, [0], 1) == Some(ps[1..])
    ensures forall i :: 0 <= i < 5 ==> ps[i].data == sent[ps[i].seqNo]
  {
    assert forall i :: 0 <= i < 5 ==> ps[i] in ps;
    assert Discards(sha256, ps, 1) == [];
    assert Discards(sha256, ps, 2) == [0];
    assert Discards(sha256, ps, 3) == [0];
    assert Discards(sha256, ps, 4) == [0];
    assert Removed(ps, [0], 0) == Some(ps);
    assert Without(ps, 0) == ps[1..];
  }

  lemma {:induction false} FiveEnough(m: seq<Segcalc.Segment>, ps: seq<Packet>, size: nat, last: nat)
    requires m == [Segcalc.Segment(0, 3, 4, size, last)] && |ps| == 5
    requires ps[0].seqNo == ps[1].seqNo == 0 && ps[2].seqNo == ps[3].seqNo == 1 && ps[4].seqNo == 2
    ensures Enough(m, Arrived(ps))
  {
    var arrived := Between(Arrived(ps), 0, 4);
    assert ps[0].seqNo in arrived && ps[2].seqNo in arrived && ps[4].seqNo in arrived;
    SubsetSize({0, 1, 2}, arrived);
  }

  /** The third shard shows in the trimmed message. */
  lemma {:induction false} ThirdShard(a: Bytes, b: Bytes, x: Bytes, y: Bytes, size: nat, last: nat)
    requires |a| == |b| == |x| == |y| == size && last <= size
    ensures x[..last] != y[..last] ==> Trim(Flatten([a, b, x]), size, last) != Trim(Flatten([a, b, y]), size, last)
  {
    ThreeShards(a, b, x);
    ThreeShards(a, b, y);
    assert Trim(a + b + x, size, last) == a + b + x[..last];
    assert Trim(a + b + y, size, last) == a + b + y[..last];
    SamePieces(a + b, a + b, x[..last], y[..last]);
  }

  lemma {:induction false} ThreeShards(a: Bytes, b: Bytes, x: Bytes)
    ensures Flatten([a, b, x]) == a + b + x
  {
    assert [a, b, x][1..] == [b, x] && [b, x][1..] == [x] && [x][1..] == [];
    assert Flatten([x]) == x && Flatten([b, x]) == b + x;
  }

  // ---------------------------------------------------------------- the joining method

  /** Joining a batch of a transmission with parity, with any repeats. */
  method JoinRepeated(c: Code, sha256: Bytes -> Bytes, packets: seq<Option<Packet>>, ghost length: nat,
                      ghost parity: nat, ghost size: nat, ghost shards: seq<Bytes>, ghost sent: seq<Bytes>)
    returns (r: JoinResult, ghost ps: seq<Packet>)
    requires c.MDS() && 0 < parity < SECTION && Batch(Present(packets), length, parity, size)
    requires From(Present(packets), sent) && Protects(c, Layout(length, size, parity), shards, sent, size)
    ensures Sorted(ps) && multiset(ps) == multiset(Present(packets))
    ensures (LayoutTiles(length, size, parity);
             var m := Layout(length, size, parity);
             && (r == Joined(Message(m, shards, |m|)) <==> Survives(sha256, m, ps, sent))
             && (r.Joined? && r.msg != Message(m, shards, |m|) ==> LeftTwice(sha256, ps, End(m)))
             && (forall j: nat :: OneRepeat(ps, j) ==>
                   (r == Joined(Message(m, shards, |m|)) <==> ps[j].seqNo < |ps| && Enough(m, Counted(sha256, ps, j)))))
  {
    var joined, _, sorted := JoinPackets(c, sha256, packets, length, parity, size, shards, sent);
    r, ps := joined, sorted;
    SamePermuted(ps, Present(packets));
    BatchPermuted(Present(packets), ps, length, parity, size);
    BatchFacts(ps, length, parity, size);
    LayoutTiles(length, size, parity);
    var m := Layout(length, size, parity);
    RepeatsOutcome(sha256, c, m, ps, parity, size, shards, sent, r);
    forall j: nat | OneRepeat(ps, j)
      ensures r == Joined(Message(m, shards, |m|)) <==> ps[j].seqNo < |ps| && Enough(m, Counted(sha256, ps, j))
    {
      OneRepeatOutcome(sha256, c, m, ps, j, parity, size, shards, sent, r);
    }
  }
}
