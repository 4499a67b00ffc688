/** Address subscriptions (pkg/engine/transport/pstoremem/addr_book.go): the stream loop as a state machine, and the
    manager that fans broadcasts out to the streams of a peer. */
module AddrStream {
  import opened Options
  import opened Sequences
  import Records

  type Addr = Records.Addr
  type Peer = Records.Peer

  /** The broadcasts that were neither on file nor broadcast before, in arrival order. */
  ghost function NeverSeen(initial: seq<Addr>, received: seq<Addr>): (r: seq<Addr>)
  {
    if received == [] then []
    else
      var n := |received| - 1;
      var a := received[n];
      NeverSeen(initial, received[..n]) + (if a in initial || a in received[..n] then [] else [a])
  }

  lemma {:induction false} NeverSeenMembers(initial: seq<Addr>, received: seq<Addr>)
    ensures forall a :: a in NeverSeen(initial, received) <==> a in received && a !in initial
  {
    if received != [] {
      var n := |received| - 1;
      NeverSeenMembers(initial, received[..n]);
      assert received == received[..n] + [received[n]];
    }
  }

  lemma {:induction false} Snoc(s: seq<Addr>, a: Addr)
    requires NoRepeats(s) && a !in s
    ensures NoRepeats(s + [a])
  {
  }

  lemma {:induction false} NeverSeenStep(initial: seq<Addr>, received: seq<Addr>, a: Addr)
    ensures NeverSeen(initial, received + [a])
            == if a in initial || a in received then NeverSeen(initial, received)
               else NeverSeen(initial, received) + [a]
  {
    assert (received + [a])[..|received|] == received;
  }

  lemma {:induction false} Together(delivered: seq<Addr>, pending: seq<Addr>, initial: seq<Addr>, seen: seq<Addr>,
                                    a: Addr)
    requires delivered + pending == initial + seen
    ensures delivered + (pending + [a]) == initial + (seen + [a])
  {
    assert delivered + (pending + [a]) == delivered + pending + [a];
  }

  /** With nothing twice on file the stream carries nothing twice. */
  lemma {:induction false} StreamDistinct(initial: seq<Addr>, received: seq<Addr>)
    requires NoRepeats(initial)
    ensures NoRepeats(initial + NeverSeen(initial, received))
  {
    if received == [] {
      assert initial + [] == initial;
    } else {
      var n := |received| - 1;
      var seen := initial + NeverSeen(initial, received[..n]);
      StreamDistinct(initial, received[..n]);
      NeverSeenMembers(initial, received[..n]);
      if received[n] !in initial && received[n] !in received[..n] {
        Snoc(seen, received[n]);
        assert initial + NeverSeen(initial, received) == seen + [received[n]];
      } else {
        assert initial + NeverSeen(initial, received) == seen;
      }
    }
  }

  class Stream {
    var buffer: seq<Addr>
    var sent: set<Addr>
    /** Whether the output case of the select can fire: outch is the channel, not nil. */
    var outch: bool
    var next: Option<Addr>
    /** History. */
    ghost const initial: seq<Addr>
    ghost var received: seq<Addr>
    ghost var delivered: seq<Addr>

    constructor (initial: seq<Addr>)
      ensures Valid() && this.initial == initial && received == [] && delivered == []
    {
      this.initial, received, delivered := initial, [], [];
      sent := set a | a in initial;
      if |initial| > 0 {
        next, buffer, outch := Some(initial[0]), initial[1..], true;
      } else {
        next, buffer, outch := None, [], false;
      }
    }

    function Pending(): (r: seq<Addr>)
      reads this
    {
      (if next.Some? then [next.value] else []) + buffer
    }

    /** What was delivered and what is pending together are the addresses on file and the broadcasts never seen;
        output is enabled exactly while something is pending. */
    ghost predicate Valid()
      reads this
    {
      && delivered + Pending() == initial + NeverSeen(initial, received)
      && (outch <==> Pending() != []) && (outch <==> next.Some?)
      && (forall a :: a in sent <==> a in initial || a in received)
    }

    /** The output case of the select. */
    method Deliver() returns (a: Addr)
      requires Valid() && outch
      modifies this
      ensures Valid() && [a] + Pending() == old(Pending())
      ensures delivered == old(delivered) + [a] && received == old(received)
    {
      a := next.value;
      delivered := delivered + [a];
      ghost var rest := buffer;
      if |buffer| > 0 {
        next, buffer := Some(buffer[0]), buffer[1..];
      } else {
        outch, next := false, None;
      }
      assert Pending() == rest;
    }

    /** The broadcast case of the select. */
    method Receive(a: Addr)
      requires Valid()
      modifies this
      ensures Valid() && received == old(received) + [a] && delivered == old(delivered)
      ensures Pending() == if a in initial || a in old(received) then old(Pending()) else old(Pending()) + [a]
    {
      NeverSeenStep(initial, received, a);
      if a in sent {
        received := received + [a];
        return;
      }
      Together(delivered, Pending(), initial, NeverSeen(initial, received), a);
      received := received + [a];
      sent := sent + {a};
      Enqueue(a);
    }

    method Enqueue(a: Addr)
      requires next.None? ==> buffer == []
      modifies this`next, this`outch, this`buffer
      ensures Pending() == old(Pending()) + [a]
      ensures next.Some? && outch == (old(next.None?) || old(outch))
    {
      if next.None? {
        next, outch := Some(a), true;
      } else {
        buffer := buffer + [a];
      }
    }
  }

  datatype Event = Reader | Broadcast(addr: Addr)

  ghost function Broadcasts(events: seq<Event>): (r: seq<Addr>)
  {
    if events == [] then []
    else
      var n := |events| - 1;
      Broadcasts(events[..n]) + (if events[n].Broadcast? then [events[n].addr] else [])
  }

  /** Every interleaving of a reader and broadcasts: the reader gets a prefix of the stream, nothing twice when nothing
      is twice on file, and is left waiting only when it has been given everything. */
  method Interleave(initial: seq<Addr>, events: seq<Event>) returns (read: seq<Addr>, blocked: bool)
    ensures read <= initial + NeverSeen(initial, Broadcasts(events))
    ensures blocked <==> read == initial + NeverSeen(initial, Broadcasts(events))
    ensures NoRepeats(initial) ==> NoRepeats(read)
  {
    var s := new Stream(initial);
    read := [];
    for i := 0 to |events|
      invariant fresh(s) && s.Valid() && s.initial == initial && s.delivered == read
                && s.received == Broadcasts(events[..i])
    {
      assert events[..i + 1][..i] == events[..i];
      match events[i]
      case Reader =>
        if s.outch {
          var a := s.Deliver();
          read := read + [a];
        }
      case Broadcast(a) =>
        s.Receive(a);
    }
    assert events[..|events|] == events;
    blocked := !s.outch;
    if NoRepeats(initial) {
      StreamDistinct(initial, s.received);
    }
  }

  // ---------------------------------------------------------------- the manager

  class Manager {
    var subs: map<Peer, seq<Stream>>

    constructor ()
      ensures Valid() && subs == map[]
    {
      subs := map[];
    }

    /** No peer is listed without subscribers, no subscriber twice. */
    ghost predicate Valid()
      reads this
    {
      forall p :: p in subs ==> subs[p] != [] && Apart(subs[p])
    }

    /** AddrStream: a new stream over the addresses on file joins the subscribers of the peer. */
    method Subscribe(p: Peer, initial: seq<Addr>) returns (s: Stream)
      requires Valid()
      modifies this
      ensures Valid() && fresh(s) && s.Valid() && s.initial == initial && s.received == [] && s.delivered == []
      ensures subs == old(subs)[p := SubsOf(old(subs), p) + [s]]
    {
      s := new Stream(initial);
      subs := subs[p := SubsOf(subs, p) + [s]];
    }

    /** removeSub: the last subscriber takes the place of the one that leaves. */
    method RemoveSub(p: Peer, s: Stream)
      requires Valid()
      modifies this
      ensures Valid()
      ensures forall q :: q != p ==> (q in subs <==> q in old(subs)) && (q in subs ==> subs[q] == old(subs)[q])
      ensures multiset(SubsOf(subs, p)) == multiset(SubsOf(old(subs), p)) - multiset{s}
    {
      var list := SubsOf(subs, p);
      if |list| == 1 {
        if list[0] == s {
          subs := subs - {p};
        }
        assert multiset(list) == multiset{list[0]};
        return;
      }
      var i := IndexOf(list, s);
      if i < |list| {
        var n := |list| - 1;
        SwapOut(list, i, n);
        SwapApart(list, i);
        subs := subs[p := list[i := list[n]][..n]];
      }
    }

    /** BroadcastAddr: every stream of the peer receives the address once, no other stream notices. */
    method BroadcastAddr(p: Peer, a: Addr)
      requires Valid() && forall s :: s in SubsOf(subs, p) ==> s.Valid()
      modifies SubsOf(subs, p)
      ensures forall s :: s in SubsOf(subs, p) ==> s.Valid() && s.received == old(s.received) + [a]
      ensures forall s :: s in SubsOf(subs, p) ==> s.delivered == old(s.delivered)
    {
      var list := SubsOf(subs, p);
      for i := 0 to |list|
        invariant forall j :: 0 <= j < |list| ==> list[j].Valid() && list[j].delivered == old(list[j].delivered)
        invariant forall j :: 0 <= j < i ==> list[j].received == old(list[j].received) + [a]
        invariant forall j :: i <= j < |list| ==> list[j].received == old(list[j].received)
      {
        assert forall j :: 0 <= j < |list| && j != i ==> list[j] != list[i];
        list[i].Receive(a);
      }
    }
  }

  ghost predicate Apart(list: seq<Stream>)
  {
    forall i, j :: 0 <= i < j < |list| ==> list[i] != list[j]
  }

  function SubsOf(subs: map<Peer, seq<Stream>>, p: Peer): (r: seq<Stream>)
  {
    if p in subs then subs[p] else []
  }

  method IndexOf(list: seq<Stream>, s: Stream) returns (i: nat)
    ensures i <= |list| && (i < |list| ==> list[i] == s) && (i == |list| ==> s !in list)
  {
    i := 0;
    while i < |list| && list[i] != s
      invariant i <= |list| && s !in list[..i]
    {
      i := i + 1;
    }
    assert list[..|list|] == list;
  }

  lemma {:induction false} SwapBag(front: seq<Stream>, x: Stream, mid: seq<Stream>, y: Stream)
    ensures multiset(front + [y] + mid) == multiset(front + [x] + mid + [y]) - multiset{x}
  {
  }

  lemma {:induction false} SwapApart(list: seq<Stream>, i: nat)
    requires i < |list| && Apart(list)
    ensures Apart(list[i := list[|list| - 1]][..|list| - 1])
  {
  }

  lemma {:induction false} SwapShape(list: seq<Stream>, i: nat, n: nat)
    requires i < n == |list| - 1
    ensures list[i := list[n]][..n] == list[..i] + [list[n]] + list[i + 1..n]
    ensures list == list[..i] + [list[i]] + list[i + 1..n] + [list[n]]
  {
  }

  lemma {:induction false} LastOut(list: seq<Stream>, n: nat)
    requires n == |list| - 1
    ensures list[n := list[n]] == list && multiset(list[..n]) == multiset(list) - multiset{list[n]}
  {
    assert list == list[..n] + [list[n]];
  }

  lemma {:induction false} SwapOut(list: seq<Stream>, i: nat, n: nat)
    requires i <= n == |list| - 1
    ensures multiset(list[i := list[n]][..n]) == multiset(list) - multiset{list[i]}
  {
    if i < n {
      SwapShape(list, i, n);
      SwapBag(list[..i], list[i], list[i + 1..n], list[n]);
    } else {
      LastOut(list, n);
    }
  }
}
