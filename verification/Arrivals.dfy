/** The packets that arrived (pkg/engine/packet/segment.go): sorting, the checks JoinPackets makes on all of them, and
    what becomes of packets that arrive more than once. */
module Arrivals {
  import opened Options
  import opened Sequences
  import opened Bytes
  import opened Segcalc
  import opened PacketCodec

  datatype JoinError =
    EmptyPackets | DuplicateNoRedundancy | Mismatch | LostNoRedundancy | NotEnough(section: nat) | Unrecoverable | Panic

  ghost predicate Distinct(ps: seq<Packet>)
  {
    forall i, j :: 0 <= i < j < |ps| ==> ps[i].seqNo != ps[j].seqNo
  }

  ghost predicate Sorted(ps: seq<Packet>)
  {
    forall i, j :: 0 <= i < j < |ps| ==> ps[i].seqNo <= ps[j].seqNo
  }

  ghost function Arrived(ps: seq<Packet>): (r: set<nat>)
  {
    set i | 0 <= i < |ps| :: ps[i].seqNo
  }

  /** Length, parity and shard size shared by all packets. */
  ghost predicate Common(ps: seq<Packet>, length: nat, parity: nat, size: nat)
  {
    forall p :: p in ps ==> p.length == length && p.parity == parity && |p.data| == size
  }

  /** Packets of one transmission, none numbered past its end; some may have arrived more than once. */
  ghost predicate Batch(ps: seq<Packet>, length: nat, parity: nat, size: nat)
  {
    && ps != [] && size > 0 && parity < SECTION && Common(ps, length, parity, size)
    && forall p :: p in ps ==> p.seqNo < End(Layout(length, size, parity))
  }

  /** A batch in which every packet arrived once. */
  ghost predicate Received(ps: seq<Packet>, length: nat, parity: nat, size: nat)
  {
    Batch(ps, length, parity, size) && Distinct(ps)
  }

  ghost predicate From(ps: seq<Packet>, sent: seq<Bytes>)
  {
    forall p :: p in ps ==> p.seqNo < |sent| && p.data == sent[p.seqNo]
  }

  lemma {:induction false} ArrivedSize(ps: seq<Packet>)
    requires Distinct(ps)
    ensures |Arrived(ps)| == |ps|
  {
    if ps != [] {
      var last, rest := ps[|ps| - 1], ps[..|ps| - 1];
      ArrivedSize(rest);
      assert Arrived(ps) == Arrived(rest) + {last.seqNo};
    }
  }

  lemma {:induction false} ArrivedSame(a: seq<Packet>, b: seq<Packet>)
    requires multiset(a) == multiset(b)
    ensures Arrived(a) == Arrived(b)
  {
    SamePermuted(a, b);
    forall s | s in Arrived(a)
      ensures s in Arrived(b)
    {
      var i :| 0 <= i < |a| && a[i].seqNo == s;
      assert a[i] in b;
    }
    forall s | s in Arrived(b)
      ensures s in Arrived(a)
    {
      var i :| 0 <= i < |b| && b[i].seqNo == s;
      assert b[i] in a;
    }
  }

  // ---------------------------------------------------------------- collecting and sorting

  function Present(packets: seq<Option<Packet>>): (r: seq<Packet>)
  {
    if packets == [] then []
    else (if packets[0].Some? then [packets[0].value] else []) + Present(packets[1..])
  }

  lemma {:induction false} PresentAppend(a: seq<Option<Packet>>, p: Option<Packet>)
    ensures Present(a + [p]) == Present(a) + (if p.Some? then [p.value] else [])
  {
    if a != [] {
      assert (a + [p])[1..] == a[1..] + [p];
      PresentAppend(a[1..], p);
    }
  }

  method Collect(packets: seq<Option<Packet>>) returns (tmp: seq<Packet>)
    ensures tmp == Present(packets)
  {
    tmp := [];
    for i := 0 to |packets|
      invariant tmp == Present(packets[..i])
    {
      assert packets[..i + 1] == packets[..i] + [packets[i]];
      PresentAppend(packets[..i], packets[i]);
      if packets[i].Some? {
        tmp := tmp + [packets[i].value];
      }
    }
    assert packets[..|packets|] == packets;
  }

  /** sort.Sort on Less by sequence number. */
  method SortBySeq(packets: seq<Packet>) returns (r: seq<Packet>)
    ensures Sorted(r) && multiset(r) == multiset(packets)
    ensures Distinct(packets) ==> Distinct(r)
  {
    var seqNo := (p: Packet) => p.seqNo;
    r := Sort(packets, seqNo);
    assert forall i :: 0 <= i < |r| ==> seqNo(r[i]) == r[i].seqNo;
    if Distinct(packets) {
      assert forall i :: 0 <= i < |packets| ==> seqNo(packets[i]) == packets[i].seqNo;
      PermutedDistinct(packets, r, seqNo);
    }
  }

  /** If all of n distinct packets numbered below n arrived, the sorted packet at position i has number i. */
  lemma {:induction false} AllArrivedInPlace(ps: seq<Packet>, i: nat)
    requires Sorted(ps) && Distinct(ps) && i < |ps| && (forall p :: p in ps ==> p.seqNo < |ps|)
    ensures ps[i].seqNo == i
  {
    AtLeastPosition(ps, i);
    AtMostPosition(ps, i);
  }

  lemma {:induction false} AtLeastPosition(ps: seq<Packet>, i: nat)
    requires Sorted(ps) && Distinct(ps) && i < |ps|
    ensures ps[i].seqNo >= i
  {
    if i > 0 {
      AtLeastPosition(ps, i - 1);
    }
  }

  lemma {:induction false} AtMostPosition(ps: seq<Packet>, i: nat)
    requires Sorted(ps) && Distinct(ps) && i < |ps| && ps[|ps| - 1].seqNo < |ps|
    ensures ps[i].seqNo <= i
    decreases |ps| - i
  {
    if i < |ps| - 1 {
      AtMostPosition(ps, i + 1);
    }
  }

  // ---------------------------------------------------------------- the checks on all packets

  /** A packet with the number of the one before it. */
  predicate RepeatAt(ps: seq<Packet>, i: nat)
  {
    0 < i < |ps| && ps[i].seqNo == ps[i - 1].seqNo
  }

  ghost predicate HasRepeat(ps: seq<Packet>)
  {
    exists i: nat :: RepeatAt(ps, i)
  }

  /** A repeated number that is no position: the duplicate branch indexes the packets with it. */
  ghost predicate RepeatBeyond(ps: seq<Packet>)
  {
    exists i: nat :: RepeatAt(ps, i) && ps[i].seqNo >= |ps|
  }

  /** All packets name the parity and length of the first. */
  ghost predicate Agree(ps: seq<Packet>, n: nat)
    requires n <= |ps|
  {
    forall i :: 0 <= i < n ==> ps[i].parity == ps[0].parity && ps[i].length == ps[0].length
  }

  /** The numbers put on the discard list by the first n packets: those of repeats whose hash is that of the packet
      standing at the position of that number. */
  ghost function Discards(sha256: Bytes -> Bytes, ps: seq<Packet>, n: nat): (d: seq<nat>)
    requires n <= |ps|
    ensures forall i :: 0 <= i < |d| ==> d[i] < |ps|
  {
    if n == 0 then []
    else
      var s := ps[n - 1].seqNo;
      Discards(sha256, ps, n - 1)
      + (if RepeatAt(ps, n - 1) && s < |ps| && sha256(ps[n - 1].data) == sha256(ps[s].data) then [s] else [])
  }

  /** What the loop finds wrong with the packet at i. A repeat that is discarded is not compared any further. */
  ghost function Fault(sha256: Bytes -> Bytes, ps: seq<Packet>, i: nat): (e: Option<JoinError>)
    requires i < |ps|
  {
    var p := ps[i];
    if RepeatAt(ps, i) && ps[0].parity == 0 then Some(DuplicateNoRedundancy)
    else if RepeatAt(ps, i) && p.seqNo >= |ps| then Some(Panic)
    else if RepeatAt(ps, i) && sha256(p.data) == sha256(ps[p.seqNo].data) then None
    else if p.parity != ps[0].parity || p.length != ps[0].length then Some(Mismatch)
    else None
  }

  /** The first fault there is. */
  ghost predicate FirstFault(sha256: Bytes -> Bytes, ps: seq<Packet>, e: Option<JoinError>)
  {
    if e == None then forall i :: 0 <= i < |ps| ==> Fault(sha256, ps, i) == None
    else exists i ::
      0 <= i < |ps| && Fault(sha256, ps, i) == e && forall j :: 0 <= j < i ==> Fault(sha256, ps, j) == None
  }

  /** The first loop of JoinPackets: the first fault ends it; else the discard list is complete. */
  method CheckCommon(sha256: Bytes -> Bytes, packets: seq<Packet>) returns (e: Option<JoinError>, discard: seq<nat>)
    requires packets != []
    ensures FirstFault(sha256, packets, e)
    ensures e == None ==> discard == Discards(sha256, packets, |packets|)
  {
    discard := [];
    var length, red, prevSeq := packets[0].length, packets[0].parity, packets[0].seqNo;
    for i := 1 to |packets|
      invariant prevSeq == packets[i - 1].seqNo && discard == Discards(sha256, packets, i)
      invariant forall j :: 0 <= j < i ==> Fault(sha256, packets, j) == None
    {
      var ps := packets[i];
      if ps.seqNo == prevSeq {
        if red == 0 {
          assert Fault(sha256, packets, i) == Some(DuplicateNoRedundancy);
          return Some(DuplicateNoRedundancy), discard;
        }
        if prevSeq >= |packets| {
          assert Fault(sha256, packets, i) == Some(Panic);
          return Some(Panic), discard;
        }
        if sha256(ps.data) == sha256(packets[prevSeq].data) {
          discard := discard + [ps.seqNo];
          continue;
        }
      }
      prevSeq := ps.seqNo;
      if ps.parity != red || ps.length != length {
        assert Fault(sha256, packets, i) == Some(Mismatch);
        return Some(Mismatch), discard;
      }
    }
    e := None;
  }

  /** A packet the loop lets pass: a repeat is allowed with parity and a number that is a position, and has to agree
      with the first packet unless it is discarded, as every other packet has to. */
  ghost predicate Passes(sha256: Bytes -> Bytes, ps: seq<Packet>, i: nat)
    requires i < |ps|
  {
    var p, repeat := ps[i], RepeatAt(ps, i);
    && (repeat ==> ps[0].parity != 0 && p.seqNo < |ps|)
    && ((p.parity == ps[0].parity && p.length == ps[0].length)
        || (repeat && p.seqNo < |ps| && sha256(p.data) == sha256(ps[p.seqNo].data)))
  }

  /** The loop goes through exactly when every packet passes. */
  lemma {:induction false} NoFaultWhen(sha256: Bytes -> Bytes, ps: seq<Packet>, e: Option<JoinError>)
    requires ps != [] && FirstFault(sha256, ps, e)
    ensures e == None <==> forall i :: 0 <= i < |ps| ==> Passes(sha256, ps, i)
  {
    forall i | 0 <= i < |ps|
      ensures Passes(sha256, ps, i) <==> Fault(sha256, ps, i) == None
    {
    }
  }

  /** Packets without repeats fail exactly by disagreeing. Packets that agree fail at parity 0 exactly by a repeat, and
      with parity exactly by a repeated number that is no position. */
  lemma {:induction false} FaultsOf(sha256: Bytes -> Bytes, ps: seq<Packet>, e: Option<JoinError>)
    requires ps != [] && FirstFault(sha256, ps, e)
    ensures !HasRepeat(ps) ==> e == if Agree(ps, |ps|) then None else Some(Mismatch)
    ensures Agree(ps, |ps|) && ps[0].parity == 0 ==> e == if HasRepeat(ps) then Some(DuplicateNoRedundancy) else None
    ensures Agree(ps, |ps|) && ps[0].parity != 0 ==> e == if RepeatBeyond(ps) then Some(Panic) else None
  {
    if e == None {
      forall i: nat | RepeatAt(ps, i)
        ensures ps[0].parity != 0 && ps[i].seqNo < |ps|
      {
        assert Fault(sha256, ps, i) == None;
      }
      if !HasRepeat(ps) {
        forall i | 0 <= i < |ps|
          ensures ps[i].parity == ps[0].parity && ps[i].length == ps[0].length
        {
          assert Fault(sha256, ps, i) == None && !RepeatAt(ps, i);
        }
      }
    } else {
      var i: nat :| i < |ps| && Fault(sha256, ps, i) == e;
      assert e != Some(Mismatch) ==> RepeatAt(ps, i);
    }
  }

  // ---------------------------------------------------------------- removing what is on the list

  function Without(ps: seq<Packet>, at: nat): (r: seq<Packet>)
    requires at < |ps|
    ensures |r| == |ps| - 1
  {
    ps[..at] + ps[at + 1..]
  }

  /** The packets left after the first n removals, each shifted back by the removals before it. */
  ghost function Removed(ps: seq<Packet>, discard: seq<nat>, n: nat): (r: Option<seq<Packet>>)
    requires n <= |discard|
    ensures r.Some? ==> n <= |ps| && |r.value| == |ps| - n
  {
    if n == 0 then Some(ps)
    else
      var rest, at := Removed(ps, discard, n - 1), discard[n - 1] - (n - 1);
      if rest.None? || !(0 <= at < |rest.value|) then None else Some(Without(rest.value, at))
  }

  /** The removal loop; RemovePacket panics outside the slice. */
  method RemoveDiscarded(packets: seq<Packet>, discard: seq<nat>) returns (r: Option<seq<Packet>>)
    ensures r == Removed(packets, discard, |discard|)
  {
    var rest := packets;
    for i := 0 to |discard|
      invariant Removed(packets, discard, i) == Some(rest)
    {
      var at := discard[i] - i;
      if at < 0 || at >= |rest| {
        RemovedStays(packets, discard, i + 1, |discard|);
        return None;
      }
      rest := rest[..at] + rest[at + 1..];
    }
    r := Some(rest);
  }

  lemma {:induction false} RemovedStays(ps: seq<Packet>, discard: seq<nat>, i: nat, n: nat)
    requires i <= n <= |discard| && Removed(ps, discard, i).None?
    ensures Removed(ps, discard, n).None?
    decreases n
  {
    if i < n {
      RemovedStays(ps, discard, i, n - 1);
    }
  }

  /** For numbers that are positions, removal fails exactly when some number is below the count of removals before it,
      as for the second spare copy of packet 0. */
  lemma {:induction false} RemovalFails(ps: seq<Packet>, discard: seq<nat>, n: nat)
    requires n <= |discard| && forall i :: 0 <= i < n ==> discard[i] < |ps|
    ensures Removed(ps, discard, n).None? <==> exists i :: 0 <= i < n && discard[i] < i
  {
    if n > 0 {
      RemovalFails(ps, discard, n - 1);
    }
  }

  // ---------------------------------------------------------------- packets that arrive once

  lemma {:induction false} SortedRepeats(ps: seq<Packet>)
    requires Sorted(ps)
    ensures HasRepeat(ps) <==> !Distinct(ps)
  {
    if !Distinct(ps) {
      var i, j :| 0 <= i < j < |ps| && ps[i].seqNo == ps[j].seqNo;
      assert ps[i].seqNo <= ps[i + 1].seqNo && (i + 1 < j ==> ps[i + 1].seqNo <= ps[j].seqNo);
      assert RepeatAt(ps, i + 1);
    }
  }

  lemma {:induction false} NothingDiscarded(sha256: Bytes -> Bytes, ps: seq<Packet>, n: nat)
    requires n <= |ps| && !HasRepeat(ps)
    ensures Discards(sha256, ps, n) == []
  {
    if n > 0 {
      NothingDiscarded(sha256, ps, n - 1);
    }
  }

  // ---------------------------------------------------------------- one packet that arrives twice

  /** The packet at position j came twice, all others once. */
  ghost predicate OneRepeat(ps: seq<Packet>, j: nat)
  {
    Sorted(ps) && j + 1 < |ps| && forall i: nat :: RepeatAt(ps, i) <==> i == j + 1
  }

  lemma {:induction false} BeforeRepeat(ps: seq<Packet>, j: nat, i: nat)
    requires OneRepeat(ps, j) && i <= j
    ensures ps[i].seqNo >= i
  {
    if i > 0 {
      BeforeRepeat(ps, j, i - 1);
      assert !RepeatAt(ps, i);
    }
  }

  lemma {:induction false} AfterRepeat(ps: seq<Packet>, j: nat, i: nat)
    requires OneRepeat(ps, j) && j < i < |ps|
    ensures ps[i].seqNo >= ps[j].seqNo + (i - j - 1)
  {
    assert RepeatAt(ps, j + 1);
    if i > j + 1 {
      AfterRepeat(ps, j, i - 1);
      assert !RepeatAt(ps, i);
    }
  }

  lemma {:induction false} OneDiscarded(sha256: Bytes -> Bytes, ps: seq<Packet>, j: nat, n: nat)
    requires OneRepeat(ps, j) && n <= |ps| && ps[j].seqNo < |ps|
    ensures var s := ps[j].seqNo;
            Discards(sha256, ps, n) ==
              if n > j + 1 && sha256(ps[j + 1].data) == sha256(ps[s].data) then [s] else []
  {
    if n > 0 {
      OneDiscarded(sha256, ps, j, n - 1);
      assert RepeatAt(ps, j + 1);
    }
  }

  /** The packets left of a batch with one repeat. */
  ghost function LeftOf(sha256: Bytes -> Bytes, ps: seq<Packet>, j: nat): (left: seq<Packet>)
    requires OneRepeat(ps, j) && ps[j].seqNo < |ps|
  {
    var s := ps[j].seqNo;
    if sha256(ps[j + 1].data) == sha256(ps[s].data) then Without(ps, s) else ps
  }

  lemma {:induction false} OneRemoved(sha256: Bytes -> Bytes, ps: seq<Packet>, j: nat)
    requires OneRepeat(ps, j) && ps[j].seqNo < |ps|
    ensures var d := Discards(sha256, ps, |ps|); Removed(ps, d, |d|) == Some(LeftOf(sha256, ps, j))
  {
    OneDiscarded(sha256, ps, j, |ps|);
    var d := Discards(sha256, ps, |ps|);
    if d != [] {
      assert Removed(ps, d, 0) == Some(ps);
    }
  }

  lemma {:induction false} WithoutCopy(ps: seq<Packet>, j: nat, at: nat)
    requires OneRepeat(ps, j) && j <= at <= j + 1
    ensures Sorted(Without(ps, at)) && !HasRepeat(Without(ps, at))
  {
    var left := Without(ps, at);
    assert forall i :: 0 <= i < |left| ==> left[i] == if i < at then ps[i] else ps[i + 1];
    forall i: nat
      ensures !RepeatAt(left, i)
    {
      if 0 < i < |left| {
        assert i < at ==> !RepeatAt(ps, i);
        assert i > at ==> !RepeatAt(ps, i + 1);
        assert i == at ==> ps[at - 1].seqNo <= ps[at].seqNo <= ps[at + 1].seqNo;
        assert i == at ==> !RepeatAt(ps, at) || !RepeatAt(ps, at + 1);
      }
    }
  }

  lemma {:induction false} WithoutCopyArrived(ps: seq<Packet>, j: nat, at: nat)
    requires OneRepeat(ps, j) && j <= at <= j + 1
    ensures Arrived(Without(ps, at)) == Arrived(ps)
  {
    ArrivedWithout(ps, at);
    assert RepeatAt(ps, j + 1);
    assert Without(ps, at)[j].seqNo == ps[at].seqNo;
  }

  /** With at most one lower packet missing, the copy is found and one of the two goes. */
  lemma {:induction false} CopyGoes(sha256: Bytes -> Bytes, ps: seq<Packet>, j: nat, sent: seq<Bytes>)
    requires OneRepeat(ps, j) && ps[j].seqNo < |ps| && ps[j].seqNo <= j + 1 && From(ps, sent)
    ensures var left := LeftOf(sha256, ps, j);
            left == Without(ps, ps[j].seqNo) && Sorted(left) && Distinct(left) && Arrived(left) == Arrived(ps)
  {
    var s := ps[j].seqNo;
    BeforeRepeat(ps, j, j);
    assert RepeatAt(ps, j + 1);
    assert ps[s] in ps && ps[j + 1] in ps && ps[s].seqNo == s;
    WithoutCopy(ps, j, s);
    WithoutCopyArrived(ps, j, s);
    SortedRepeats(Without(ps, s));
  }

  lemma {:induction false} ArrivedWithout(ps: seq<Packet>, at: nat)
    requires at < |ps|
    ensures Arrived(ps) == Arrived(Without(ps, at)) + {ps[at].seqNo}
  {
    var left := Without(ps, at);
    forall s | s in Arrived(ps)
      ensures s in Arrived(left) + {ps[at].seqNo}
    {
      var i :| 0 <= i < |ps| && ps[i].seqNo == s;
      if i != at {
        assert left[if i < at then i else i - 1].seqNo == s;
      }
    }
    forall s | s in Arrived(left)
      ensures s in Arrived(ps)
    {
      var i :| 0 <= i < |left| && left[i].seqNo == s;
      assert ps[if i < at then i else i + 1].seqNo == s;
    }
  }

  /** With two or more lower packets missing another packet stands at that position. If the hashes differ nothing is
      removed, if they agree that packet is lost; either way fewer packets are left than there are shards. */
  lemma {:induction false} OtherGoes(sha256: Bytes -> Bytes, ps: seq<Packet>, j: nat, n: nat)
    requires OneRepeat(ps, j) && j + 2 <= ps[j].seqNo < |ps| && forall p :: p in ps ==> p.seqNo < n
    ensures |ps| < n
    ensures var s := ps[j].seqNo;
            ps[s].seqNo > s && Arrived(Without(ps, s)) == Arrived(ps) - {ps[s].seqNo}
  {
    var s := ps[j].seqNo;
    AfterRepeat(ps, j, |ps| - 1);
    AfterRepeat(ps, j, s);
    assert ps[|ps| - 1] in ps;
    ArrivedWithout(ps, s);
    forall i | 0 <= i < |ps| && ps[i].seqNo == ps[s].seqNo
      ensures i == s
    {
      if i < s {
        assert ps[i].seqNo <= ps[s - 1].seqNo <= ps[s].seqNo;
        assert RepeatAt(ps, s);
      } else if i > s {
        assert ps[s].seqNo <= ps[s + 1].seqNo <= ps[i].seqNo;
        assert RepeatAt(ps, s + 1);
      }
    }
    assert ps[s].seqNo !in Arrived(Without(ps, s));
  }
}
