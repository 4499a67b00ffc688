/** Address records of pkg/engine/transport/pstoreds/addr_book.go: entries with an expiry, kept sorted so that
    the first one tells whether anything has expired. */
module Records {
  import opened Sequences

  type Addr = string
  type Peer = string

  datatype Entry = Entry(addr: Addr, ttl: int, expiry: int)

  /** What the plain map keeps for an address. */
  datatype Term = Term(ttl: int, expiry: int)

  type Terms = map<Addr, Term>

  ghost predicate Distinct(s: seq<Entry>)
  {
    forall i, j :: 0 <= i < j < |s| ==> s[i].addr != s[j].addr
  }

  ghost predicate Sorted(s: seq<Entry>)
  {
    forall i, j :: 0 <= i < j < |s| ==> s[i].expiry <= s[j].expiry
  }

  /** The unexpired entries in order. */
  function Live(s: seq<Entry>, now: int): (r: seq<Entry>)
  {
    if s == [] then [] else (if s[0].expiry > now then [s[0]] else []) + Live(s[1..], now)
  }

  lemma {:induction false} LiveMembers(s: seq<Entry>, now: int)
    ensures forall e :: e in Live(s, now) <==> e in s && e.expiry > now
  {
    if s != [] {
      LiveMembers(s[1..], now);
      assert s == [s[0]] + s[1..];
    }
  }

  /** A record and a plain map agree on everything that has not expired. */
  ghost predicate Shows(s: seq<Entry>, m: Terms, now: int)
  {
    && (forall e :: e in s && e.expiry > now ==> e.addr in m && m[e.addr] == Term(e.ttl, e.expiry))
    && (forall a :: a in m && m[a].expiry > now ==> Entry(a, m[a].ttl, m[a].expiry) in s)
  }

  ghost predicate SameUnexpired(a: seq<Entry>, b: seq<Entry>, now: int)
  {
    forall e: Entry :: e.expiry > now ==> (e in a <==> e in b)
  }

  lemma {:induction false} ShowsSame(a: seq<Entry>, b: seq<Entry>, m: Terms, now: int)
    requires Shows(a, m, now) && SameUnexpired(a, b, now)
    ensures Shows(b, m, now)
  {
  }

  // ---------------------------------------------------------------- sorting and expiry

  /** A sorted record lists its expired entries first. */
  lemma {:induction false} LiveSuffix(s: seq<Entry>, now: int, k: nat)
    requires Sorted(s) && k <= |s|
    requires (forall i :: 0 <= i < k ==> s[i].expiry <= now) && (k < |s| ==> s[k].expiry > now)
    ensures Live(s, now) == s[k..]
    decreases |s|
  {
    if s != [] {
      if k > 0 {
        LiveSuffix(s[1..], now, k - 1);
        assert s[1..][k - 1..] == s[k..];
      } else {
        AllLive(s, now);
      }
    }
  }

  lemma {:induction false} AllLive(s: seq<Entry>, now: int)
    requires forall i :: 0 <= i < |s| ==> s[i].expiry > now
    ensures Live(s, now) == s
  {
    if s != [] {
      AllLive(s[1..], now);
    }
  }

  lemma {:induction false} Prepend(e: Entry, r: seq<Entry>)
    requires Distinct(r) && forall x :: x in r ==> x.addr != e.addr
    ensures Distinct([e] + r)
    ensures Sorted(r) && (forall x :: x in r ==> e.expiry <= x.expiry) ==> Sorted([e] + r)
  {
    var s := [e] + r;
    assert forall i :: 0 < i < |s| ==> s[i] == r[i - 1] && s[i] in r;
  }

  lemma {:induction false} TailFacts(s: seq<Entry>)
    requires Distinct(s) && s != []
    ensures Distinct(s[1..]) && forall x :: x in s[1..] ==> x.addr != s[0].addr
    ensures Sorted(s) ==> Sorted(s[1..]) && forall x :: x in s[1..] ==> s[0].expiry <= x.expiry
  {
  }

  lemma {:induction false} LiveKeepsOrder(s: seq<Entry>, now: int)
    requires Distinct(s)
    ensures Distinct(Live(s, now))
    ensures Sorted(s) ==> Sorted(Live(s, now))
  {
    if s != [] {
      var r := Live(s[1..], now);
      TailFacts(s);
      LiveKeepsOrder(s[1..], now);
      if s[0].expiry > now {
        LiveMembers(s[1..], now);
        Prepend(s[0], r);
        assert Live(s, now) == [s[0]] + r;
      } else {
        assert Live(s, now) == r;
      }
    }
  }

  lemma {:induction false} LiveCons(e: Entry, s: seq<Entry>, now: int)
    ensures Live([e] + s, now) == (if e.expiry > now then [e] else []) + Live(s, now)
  {
    assert ([e] + s)[1..] == s;
  }

  /** Expiring in two steps is expiring at the later time. */
  lemma {:induction false} LiveTwice(s: seq<Entry>, t1: int, t2: int)
    requires t1 <= t2
    ensures Live(Live(s, t1), t2) == Live(s, t2)
  {
    if s != [] {
      LiveTwice(s[1..], t1, t2);
      var r := Live(s[1..], t1);
      LiveCons(s[0], r, t2);
      assert [] + r == r && [] + Live(s[1..], t2) == Live(s[1..], t2);
    }
  }

  /** removeExpired: cuts at the first survivor. */
  method RemoveExpired(entries: seq<Entry>, now: int) returns (r: seq<Entry>)
    ensures |r| == |entries| ==> r == entries
    ensures Sorted(entries) && Distinct(entries) ==>
              && r == Live(entries, now) && Sorted(r) && Distinct(r)
              && forall e :: e in r <==> e in entries && e.expiry > now
  {
    var pivot := -1;
    var i := 0;
    while i < |entries| && entries[i].expiry <= now
      invariant 0 <= i <= |entries| && pivot == i - 1
      invariant forall j :: 0 <= j < i ==> entries[j].expiry <= now
    {
      pivot := i;
      i := i + 1;
    }
    if Sorted(entries) && Distinct(entries) {
      LiveSuffix(entries, now, i);
      LiveKeepsOrder(entries, now);
      LiveMembers(entries, now);
    }
    r := entries[pivot + 1..];
  }

  /** sort.Slice by expiry. */
  method SortByExpiry(s: seq<Entry>) returns (r: seq<Entry>)
    requires Distinct(s)
    ensures Sorted(r) && Distinct(r) && multiset(r) == multiset(s) && |r| == |s| && forall e :: e in r <==> e in s
  {
    var expiry := (e: Entry) => e.expiry;
    ghost var addr := (e: Entry) => e.addr;
    r := Sort(s, expiry);
    assert forall i :: 0 <= i < |r| ==> expiry(r[i]) == r[i].expiry && addr(r[i]) == r[i].addr;
    assert forall i :: 0 <= i < |s| ==> addr(s[i]) == s[i].addr;
    PermutedDistinct(s, r, addr);
    SamePermuted(s, r);
  }

  // ---------------------------------------------------------------- the record

  class AddrsRecord {
    /** Whose record it is. */
    const id: Peer
    var addrs: seq<Entry>
    /** The slice was never allocated, as in a record for an unknown peer. */
    var absent: bool
    var dirty: bool

    constructor (id: Peer, addrs: seq<Entry>, absent: bool)
      ensures this.id == id && this.addrs == addrs && this.absent == absent && !dirty
    {
      this.id, this.addrs, this.absent, this.dirty := id, addrs, absent, false;
    }

    /** The invariant of every reachable record: dirty or sorted, no address twice. */
    ghost predicate Valid()
      reads this
    {
      (dirty || Sorted(addrs)) && Distinct(addrs) && (absent ==> addrs == [])
    }

    /** hasExpiredAddrs looks at the first entry only. */
    predicate HasExpired(now: int)
      reads this
    {
      |addrs| > 0 && addrs[0].expiry <= now
    }

    /** clean: sorts a dirty record, drops what has expired, and says whether anything has to be written. */
    method Clean(now: int) returns (chgd: bool)
      requires Valid()
      modifies this
      ensures Valid() && Sorted(addrs) && dirty == old(dirty) && absent == old(absent)
      ensures forall e :: e in addrs <==> e in old(addrs) && e.expiry > now
      ensures !dirty ==> addrs == Live(old(addrs), now)
      ensures chgd <==> dirty || addrs != old(addrs)
    {
      if !dirty && !HasExpired(now) {
        NothingExpired(addrs, now);
        return false;
      }
      if |addrs| == 0 {
        return true;
      }
      var before := |addrs|;
      if dirty && |addrs| > 1 {
        addrs := SortByExpiry(addrs);
      }
      addrs := RemoveExpired(addrs, now);
      chgd := dirty || |addrs| != before;
    }
  }

  /** Testing only the first entry decides whether any entry has expired. */
  lemma {:induction false} NothingExpired(s: seq<Entry>, now: int)
    requires Sorted(s)
    ensures (s == [] || s[0].expiry > now) <==> forall e :: e in s ==> e.expiry > now
    ensures s == [] || s[0].expiry > now ==> Live(s, now) == s
  {
    if s == [] || s[0].expiry > now {
      AllLive(s, now);
    }
  }
}
