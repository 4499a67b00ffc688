/** The changes setAddrs, UpdateAddrs and deleteAddrs make to a record, against the same changes to a plain map. */
module RecordOps {
  import opened Records

  datatype Mode = Override | Extend

  function Max(a: int, b: int): (r: int)
  {
    if a > b then a else b
  }

  function Merged(e: Entry, ttl: int, exp: int, mode: Mode): (r: Entry)
  {
    match mode
    case Override => Entry(e.addr, ttl, exp)
    case Extend => Entry(e.addr, Max(ttl, e.ttl), Max(exp, e.expiry))
  }

  ghost predicate Knows(s: seq<Entry>, a: Addr)
  {
    exists i :: 0 <= i < |s| && s[i].addr == a
  }

  /** The existing entries after the incoming addresses have updated them. */
  ghost function Touched(s: seq<Entry>, addrs: seq<Addr>, ttl: int, exp: int, mode: Mode): (r: seq<Entry>)
    ensures |r| == |s|
    ensures forall i :: 0 <= i < |s| ==> r[i] == if s[i].addr in addrs then Merged(s[i], ttl, exp, mode) else s[i]
  {
    seq(|s|, i requires 0 <= i < |s| => if s[i].addr in addrs then Merged(s[i], ttl, exp, mode) else s[i])
  }

  /** The entries made for addresses the record does not know. */
  ghost function Fresh(s: seq<Entry>, addrs: seq<Addr>, ttl: int, exp: int): (r: seq<Entry>)
  {
    if addrs == [] then []
    else
      var n := |addrs| - 1;
      Fresh(s, addrs[..n], ttl, exp) + (if Knows(s, addrs[n]) then [] else [Entry(addrs[n], ttl, exp)])
  }

  /** One more incoming address: merging twice changes nothing more than merging once. */
  lemma {:induction false} TouchStep(s: seq<Entry>, addrs: seq<Addr>, a: Addr, ttl: int, exp: int, mode: Mode)
    requires Distinct(s)
    ensures Fresh(s, addrs + [a], ttl, exp) == Fresh(s, addrs, ttl, exp)
            + (if Knows(s, a) then [] else [Entry(a, ttl, exp)])
    ensures !Knows(s, a) ==> Touched(s, addrs + [a], ttl, exp, mode) == Touched(s, addrs, ttl, exp, mode)
    ensures forall at :: 0 <= at < |s| && s[at].addr == a ==>
              var t := Touched(s, addrs, ttl, exp, mode);
              Touched(s, addrs + [a], ttl, exp, mode) == t[at := Merged(t[at], ttl, exp, mode)]
  {
    assert (addrs + [a])[..|addrs|] == addrs;
    var t, t' := Touched(s, addrs, ttl, exp, mode), Touched(s, addrs + [a], ttl, exp, mode);
    forall at | 0 <= at < |s| && s[at].addr == a
      ensures t' == t[at := Merged(t[at], ttl, exp, mode)]
    {
      forall j | 0 <= j < |s|
        ensures t'[j] == t[at := Merged(t[at], ttl, exp, mode)][j]
      {
        assert j != at ==> s[j].addr != a;
      }
    }
  }

  /** The index setAddrs builds over the record. */
  method IndexAddrs(s: seq<Entry>) returns (addrsMap: map<Addr, nat>)
    ensures forall a :: a in addrsMap <==> Knows(s, a)
    ensures forall a :: a in addrsMap ==> addrsMap[a] < |s| && s[addrsMap[a]].addr == a
  {
    addrsMap := map[];
    for i := 0 to |s|
      invariant forall a :: a in addrsMap ==> addrsMap[a] < i && s[addrsMap[a]].addr == a
      invariant forall j :: 0 <= j < i ==> s[j].addr in addrsMap
    {
      addrsMap := addrsMap[s[i].addr := i];
    }
  }

  /** The body of setAddrs: update known addresses, append and publish the new ones. */
  method MergeAddrs(s: seq<Entry>, addrs: seq<Addr>, ttl: int, newExp: int, mode: Mode)
    returns (r: seq<Entry>, published: seq<Addr>)
    requires Distinct(s)
    ensures r == Touched(s, addrs, ttl, newExp, mode) + Fresh(s, addrs, ttl, newExp)
    ensures |published| == |r| - |s| && forall i :: 0 <= i < |published| ==> published[i] == r[|s| + i].addr
  {
    var addrsMap := IndexAddrs(s);
    var current, entries := s, [];
    published := [];
    assert current == Touched(s, addrs[..0], ttl, newExp, mode);
    for i := 0 to |addrs|
      invariant current == Touched(s, addrs[..i], ttl, newExp, mode)
      invariant entries == Fresh(s, addrs[..i], ttl, newExp)
      invariant |published| == |entries| && forall j :: 0 <= j < |entries| ==> published[j] == entries[j].addr
    {
      var a := addrs[i];
      assert addrs[..i + 1] == addrs[..i] + [a];
      TouchStep(s, addrs[..i], a, ttl, newExp, mode);
      if a in addrsMap {
        var at := addrsMap[a];
        current := current[at := Merged(current[at], ttl, newExp, mode)];
      } else {
        entries := entries + [Entry(a, ttl, newExp)];
        published := published + [a];
      }
    }
    assert addrs[..|addrs|] == addrs;
    r := current + entries;
  }

  lemma {:induction false} FreshMembers(s: seq<Entry>, addrs: seq<Addr>, ttl: int, exp: int)
    ensures forall e :: e in Fresh(s, addrs, ttl, exp) <==>
              e.addr in addrs && !Knows(s, e.addr) && e == Entry(e.addr, ttl, exp)
  {
    if addrs != [] {
      var n := |addrs| - 1;
      FreshMembers(s, addrs[..n], ttl, exp);
      assert addrs == addrs[..n] + [addrs[n]];
    }
  }

  /** No address is new twice. */
  ghost predicate NewOnce(s: seq<Entry>, addrs: seq<Addr>)
  {
    forall i, j :: 0 <= i < j < |addrs| && addrs[i] == addrs[j] ==> Knows(s, addrs[i])
  }

  lemma {:induction false} FreshDistinct(s: seq<Entry>, addrs: seq<Addr>, ttl: int, exp: int)
    requires NewOnce(s, addrs)
    ensures Distinct(Fresh(s, addrs, ttl, exp))
  {
    if addrs != [] {
      var n := |addrs| - 1;
      var f := Fresh(s, addrs[..n], ttl, exp);
      FreshDistinct(s, addrs[..n], ttl, exp);
      FreshMembers(s, addrs[..n], ttl, exp);
      if !Knows(s, addrs[n]) {
        forall i | 0 <= i < |f|
          ensures f[i].addr != addrs[n]
        {
          assert f[i] in f;
        }
      }
    }
  }

  lemma {:induction false} FreshRepeats(s: seq<Entry>, addrs: seq<Addr>, ttl: int, exp: int, i: nat, j: nat)
    returns (x: nat, y: nat)
    requires i < j < |addrs| && addrs[i] == addrs[j] && !Knows(s, addrs[i])
    ensures x < y < |Fresh(s, addrs, ttl, exp)|
    ensures Fresh(s, addrs, ttl, exp)[x].addr == Fresh(s, addrs, ttl, exp)[y].addr
    decreases |addrs|
  {
    var n := |addrs| - 1;
    var f := Fresh(s, addrs[..n], ttl, exp);
    if j < n {
      x, y := FreshRepeats(s, addrs[..n], ttl, exp, i, j);
    } else {
      FreshMembers(s, addrs[..n], ttl, exp);
      assert addrs[..n][i] in addrs[..n];
      assert Entry(addrs[n], ttl, exp) in f;
      x :| 0 <= x < |f| && f[x] == Entry(addrs[n], ttl, exp);
      y := |f|;
    }
  }

  /** The record keeps its addresses distinct exactly when no address unknown to it is passed in twice:
      addrsMap is not extended inside the loop. */
  lemma {:induction false} MergeDistinct(s: seq<Entry>, addrs: seq<Addr>, ttl: int, exp: int, mode: Mode)
    requires Distinct(s)
    ensures Distinct(Touched(s, addrs, ttl, exp, mode) + Fresh(s, addrs, ttl, exp)) <==> NewOnce(s, addrs)
  {
    var t, f := Touched(s, addrs, ttl, exp, mode), Fresh(s, addrs, ttl, exp);
    FreshMembers(s, addrs, ttl, exp);
    if NewOnce(s, addrs) {
      FreshDistinct(s, addrs, ttl, exp);
      forall i, j | 0 <= i < |t| && 0 <= j < |f|
        ensures t[i].addr != f[j].addr
      {
        assert f[j] in f && s[i].addr == t[i].addr;
      }
    } else {
      var i, j :| 0 <= i < j < |addrs| && addrs[i] == addrs[j] && !Knows(s, addrs[i]);
      var x, y := FreshRepeats(s, addrs, ttl, exp, i, j);
      assert (t + f)[|t| + x] == f[x] && (t + f)[|t| + y] == f[y];
    }
  }

  /** The smallest failing input: one unknown address twice is stored twice. */
  lemma {:induction false} RepeatStoredTwice(a: Addr, ttl: int, exp: int, mode: Mode)
    ensures var r := Touched([], [a, a], ttl, exp, mode) + Fresh([], [a, a], ttl, exp);
            r == [Entry(a, ttl, exp), Entry(a, ttl, exp)] && !Distinct(r) && !NewOnce([], [a, a])
  {
    assert [a, a][..1] == [a] && [a][..0] == [];
    assert Fresh([], [a], ttl, exp) == [Entry(a, ttl, exp)];
    var r := Touched([], [a, a], ttl, exp, mode) + Fresh([], [a, a], ttl, exp);
    assert r[0].addr == r[1].addr && [a, a][0] == [a, a][1];
  }

  // ---------------------------------------------------------------- the same on a plain map

  /** What the map holds at a time. */
  ghost function Unexpired(m: Terms, now: int): (r: Terms)
  {
    map a | a in m && m[a].expiry > now :: m[a]
  }

  ghost function MergedTerm(t: Term, ttl: int, exp: int, mode: Mode): (r: Term)
  {
    match mode
    case Override => Term(ttl, exp)
    case Extend => Term(Max(ttl, t.ttl), Max(exp, t.expiry))
  }

  ghost function SetTerms(m: Terms, now: int, addrs: seq<Addr>, ttl: int, exp: int, mode: Mode): (r: Terms)
  {
    var u := Unexpired(m, now);
    map a | a in u.Keys + (set x | x in addrs) ::
      if a !in addrs then u[a] else if a in u then MergedTerm(u[a], ttl, exp, mode) else Term(ttl, exp)
  }

  ghost function UpdateTerms(m: Terms, now: int, oldTTL: int, newTTL: int, exp: int): (r: Terms)
  {
    var u := Unexpired(m, now);
    map a | a in u :: if u[a].ttl == oldTTL then Term(newTTL, exp) else u[a]
  }

  ghost function RemoveTerms(m: Terms, now: int, addrs: seq<Addr>): (r: Terms)
  {
    map a | a in m && m[a].expiry > now && a !in addrs :: m[a]
  }

  /** What setting addresses does to a map: live addresses that are not named keep their term, unnamed ones that have
      expired are gone, new ones get the term named, and known ones the same or, extending, the longer of each. */
  lemma {:induction false} SetTermsLaws(m: Terms, now: int, addrs: seq<Addr>, ttl: int, exp: int, mode: Mode)
    ensures var m', u := SetTerms(m, now, addrs, ttl, exp, mode), Unexpired(m, now);
            && (forall a :: a in m' <==> a in u || a in addrs)
            && (forall a :: a in u && a !in addrs ==> m'[a] == m[a])
            && (forall a :: a in addrs && (a !in u || mode == Override) ==> m'[a] == Term(ttl, exp))
            && (forall a :: a in u && mode == Extend ==>
                  && m'[a].ttl >= m[a].ttl && m'[a].expiry >= m[a].expiry
                  && (m'[a].ttl == m[a].ttl || m'[a].ttl == ttl) && (m'[a].expiry == m[a].expiry || m'[a].expiry == exp)
                  && (a in addrs ==> m'[a].ttl >= ttl && m'[a].expiry >= exp))
  {
  }

  /** What UpdateAddrs does to a map: live addresses stay, those with the old ttl get the new term, no other changes. */
  lemma {:induction false} UpdateTermsLaws(m: Terms, now: int, oldTTL: int, newTTL: int, exp: int)
    ensures var m', u := UpdateTerms(m, now, oldTTL, newTTL, exp), Unexpired(m, now);
            && m'.Keys == u.Keys
            && (forall a :: a in u && m[a].ttl == oldTTL ==> m'[a] == Term(newTTL, exp))
            && (forall a :: a in u && m[a].ttl != oldTTL ==> m'[a] == m[a])
  {
  }

  /** What a removal should do to a map: live addresses that are not named stay as they are, and nothing else does. */
  lemma {:induction false} RemoveTermsLaws(m: Terms, now: int, addrs: seq<Addr>)
    ensures var m' := RemoveTerms(m, now, addrs);
            && (forall a :: a in m' <==> a in m && m[a].expiry > now && a !in addrs)
            && (forall a :: a in m' ==> m'[a] == m[a])
  {
  }

  /** A cleaned record that shows the map still shows it after the same addresses are set in both. */
  lemma {:induction false} MergeShows(s: seq<Entry>, m: Terms, now: int, addrs: seq<Addr>, ttl: int, exp: int,
                                      mode: Mode)
    requires Distinct(s) && Shows(s, m, now) && forall e :: e in s ==> e.expiry > now
    ensures Shows(Touched(s, addrs, ttl, exp, mode) + Fresh(s, addrs, ttl, exp),
                  SetTerms(m, now, addrs, ttl, exp, mode), now)
  {
    var t, f := Touched(s, addrs, ttl, exp, mode), Fresh(s, addrs, ttl, exp);
    var m' := SetTerms(m, now, addrs, ttl, exp, mode);
    FreshMembers(s, addrs, ttl, exp);
    forall e: Entry | e in t + f
      ensures e.addr in m' && m'[e.addr] == Term(e.ttl, e.expiry)
    {
      if e in t {
        var i :| 0 <= i < |t| && t[i] == e;
        assert s[i] in s;
      } else {
        assert e in f;
        assert forall x :: x in s ==> Knows(s, x.addr);
      }
    }
    forall a: Addr | a in m'
      ensures Entry(a, m'[a].ttl, m'[a].expiry) in t + f
    {
      if a in Unexpired(m, now) {
        var i :| 0 <= i < |s| && s[i] == Entry(a, m[a].ttl, m[a].expiry);
        assert t[i] == Entry(a, m'[a].ttl, m'[a].expiry);
        assert t[i] in t + f;
      } else {
        forall i | 0 <= i < |s|
          ensures s[i].addr != a
        {
          assert s[i] in s;
        }
        assert Entry(a, ttl, exp) in f;
      }
    }
  }

  // ---------------------------------------------------------------- UpdateAddrs

  ghost function Retimed(s: seq<Entry>, oldTTL: int, newTTL: int, exp: int): (r: seq<Entry>)
    ensures |r| == |s|
    ensures forall i :: 0 <= i < |s| ==> r[i] == if s[i].ttl == oldTTL then Entry(s[i].addr, newTTL, exp) else s[i]
  {
    seq(|s|, i requires 0 <= i < |s| => if s[i].ttl == oldTTL then Entry(s[i].addr, newTTL, exp) else s[i])
  }

  /** The loop of UpdateAddrs; hit says whether it marked the record dirty. */
  method Retime(s: seq<Entry>, oldTTL: int, newTTL: int, newExp: int) returns (r: seq<Entry>, hit: bool)
    ensures r == Retimed(s, oldTTL, newTTL, newExp)
    ensures !hit ==> r == s
  {
    r, hit := s, false;
    for i := 0 to |s|
      invariant |r| == |s|
      invariant forall j :: 0 <= j < i ==> r[j] == Retimed(s, oldTTL, newTTL, newExp)[j]
      invariant forall j :: i <= j < |s| ==> r[j] == s[j]
      invariant !hit ==> r == s
    {
      if r[i].ttl == oldTTL {
        r := r[i := Entry(r[i].addr, newTTL, newExp)];
        hit := true;
      }
    }
  }

  lemma {:induction false} RetimeShows(s: seq<Entry>, m: Terms, now: int, oldTTL: int, newTTL: int, exp: int)
    requires Distinct(s) && Shows(s, m, now) && forall e :: e in s ==> e.expiry > now
    ensures Distinct(Retimed(s, oldTTL, newTTL, exp))
    ensures Shows(Retimed(s, oldTTL, newTTL, exp), UpdateTerms(m, now, oldTTL, newTTL, exp), now)
  {
    var r, m' := Retimed(s, oldTTL, newTTL, exp), UpdateTerms(m, now, oldTTL, newTTL, exp);
    forall e: Entry | e in r
      ensures e.addr in m' && m'[e.addr] == Term(e.ttl, e.expiry)
    {
      var i :| 0 <= i < |r| && r[i] == e;
      assert s[i] in s;
    }
    forall a: Addr | a in m'
      ensures Entry(a, m'[a].ttl, m'[a].expiry) in r
    {
      var i :| 0 <= i < |s| && s[i] == Entry(a, m[a].ttl, m[a].expiry);
      assert r[i] in r;
    }
  }

  // ---------------------------------------------------------------- deleteInPlace

  /** Entries among the first i that are to be deleted. */
  ghost function Hits(s: seq<Entry>, addrs: seq<Addr>, i: nat): (n: nat)
    requires i <= |s|
    ensures n <= i
  {
    if i == 0 then 0 else Hits(s, addrs, i - 1) + (if s[i - 1].addr in addrs then 1 else 0)
  }

  /** What deleteInPlace leaves: the j-th deleted entry in front is replaced by the j-th last entry. */
  ghost function Deleted(s: seq<Entry>, addrs: seq<Addr>): (r: seq<Entry>)
    ensures |r| == |s| - Hits(s, addrs, |s|)
  {
    var n := |s| - Hits(s, addrs, |s|);
    seq(n, i requires 0 <= i < n => if s[i].addr in addrs then s[|s| - Hits(s, addrs, i + 1)] else s[i])
  }

  lemma {:induction false} HitsGrow(s: seq<Entry>, addrs: seq<Addr>, i: nat, j: nat)
    requires i <= j <= |s|
    ensures Hits(s, addrs, i) <= Hits(s, addrs, j) <= Hits(s, addrs, i) + j - i
    decreases j
  {
    if i < j {
      HitsGrow(s, addrs, i, j - 1);
    }
  }

  /** The slice after the loop has passed i entries. */
  ghost predicate Passed(was: seq<Entry>, cur: seq<Entry>, addrs: seq<Addr>, i: nat)
  {
    && |cur| == |was| && i <= |was|
    && (forall j :: i <= j < |was| ==> cur[j] == was[j])
    && (forall j :: 0 <= j < i && was[j].addr !in addrs ==> cur[j] == was[j])
    && (forall j :: 0 <= j < i && was[j].addr in addrs && |was| - Hits(was, addrs, j + 1) > j
          ==> cur[j] == was[|was| - Hits(was, addrs, j + 1)])
  }

  lemma {:induction false} PassStep(was: seq<Entry>, cur: seq<Entry>, addrs: seq<Addr>, i: nat)
    requires i < |was| && Passed(was, cur, addrs, i) && was[i].addr in addrs && Hits(was, addrs, i + 1) > 0
    ensures Passed(was, cur[i := cur[|was| - Hits(was, addrs, i + 1)]], addrs, i + 1)
  {
  }

  lemma {:induction false} PassSkip(was: seq<Entry>, cur: seq<Entry>, addrs: seq<Addr>, i: nat)
    requires i < |was| && Passed(was, cur, addrs, i) && was[i].addr !in addrs
    ensures Passed(was, cur, addrs, i + 1)
  {
  }

  lemma {:induction false} PassDone(was: seq<Entry>, cur: seq<Entry>, addrs: seq<Addr>)
    requires Passed(was, cur, addrs, |was|)
    ensures cur[..|was| - Hits(was, addrs, |was|)] == Deleted(was, addrs)
  {
    var d := Deleted(was, addrs);
    forall j | 0 <= j < |d|
      ensures cur[j] == d[j]
    {
      HitsGrow(was, addrs, j + 1, |was|);
    }
  }

  /** s[i] = s[survived] */
  method MoveForward(s: array<Entry>, i: nat, survived: nat, addrs: seq<Addr>, ghost was: seq<Entry>)
    requires i < s.Length && survived < s.Length && |was| == s.Length && Passed(was, s[..], addrs, i)
    requires was[i].addr in addrs && survived == |was| - Hits(was, addrs, i + 1)
    modifies s
    ensures Passed(was, s[..], addrs, i + 1)
  {
    ghost var cur := s[..];
    PassStep(was, cur, addrs, i);
    s[i] := s[survived];
    assert s[..] == cur[i := cur[survived]];
  }

  /** The outer loop of deleteInPlace. */
  method DeleteLoop(s: array<Entry>, addrs: seq<Addr>) returns (survived: nat)
    modifies s
    ensures survived == s.Length - Hits(old(s[..]), addrs, s.Length)
    ensures survived == 0 || Passed(old(s[..]), s[..], addrs, s.Length)
  {
    ghost var was := s[..];
    survived := s.Length;
    var i := 0;
    while i < s.Length
      invariant 0 <= i <= s.Length && survived == s.Length - Hits(was, addrs, i)
      invariant Passed(was, s[..], addrs, i)
    {
      if s[i].addr in addrs {
        survived := survived - 1;
        if survived == 0 {
          HitsGrow(was, addrs, i + 1, s.Length);
          return;
        }
        MoveForward(s, i, survived, addrs, was);
      } else {
        PassSkip(was, s[..], addrs, i);
      }
      i := i + 1;
    }
  }

  method DeleteInPlace(s: array<Entry>, addrs: seq<Addr>) returns (survived: nat)
    modifies s
    ensures survived == s.Length - Hits(old(s[..]), addrs, s.Length)
    ensures s[..survived] == Deleted(old(s[..]), addrs)
  {
    ghost var was := s[..];
    if addrs == [] {
      NothingDeleted(was);
      assert s[..s.Length] == was;
      return s.Length;
    }
    survived := DeleteLoop(s, addrs);
    if survived > 0 {
      PassDone(was, s[..], addrs);
    }
    assert s[..survived] == s[..][..survived];
  }

  lemma {:induction false} NoHits(s: seq<Entry>, i: nat)
    requires i <= |s|
    ensures Hits(s, [], i) == 0
  {
    if i > 0 {
      NoHits(s, i - 1);
    }
  }

  lemma {:induction false} NothingDeleted(s: seq<Entry>)
    ensures Hits(s, [], |s|) == 0 && Deleted(s, []) == s
  {
    NoHits(s, |s|);
  }

  /** The entries that should remain. */
  ghost predicate RemovesExactly(s: seq<Entry>, addrs: seq<Addr>)
  {
    forall e :: e in Deleted(s, addrs) <==> e in s && e.addr !in addrs
  }

  /** The guard of the loop that fails: a deleted entry among those moved forward. With k entries to delete and h of
      them in the part that is kept, the h last entries are the ones that move. */
  ghost predicate TailIsKept(s: seq<Entry>, addrs: seq<Addr>)
  {
    var kept := |s| - Hits(s, addrs, |s|);
    forall j :: |s| - Hits(s, addrs, kept) <= j < |s| ==> s[j].addr !in addrs
  }

  lemma {:induction false} HoleNumbered(s: seq<Entry>, addrs: seq<Addr>, n: nat, r: nat) returns (i: nat)
    requires n <= |s| && 0 < r <= Hits(s, addrs, n)
    ensures i < n && s[i].addr in addrs && Hits(s, addrs, i + 1) == r
    decreases n
  {
    if s[n - 1].addr in addrs && Hits(s, addrs, n) == r {
      i := n - 1;
    } else {
      i := HoleNumbered(s, addrs, n - 1, r);
    }
  }

  /** deleteInPlace removes exactly the matching entries of a record if and only if none of the entries it moves
      forward is itself to be deleted. */
  lemma {:induction false} DeleteExact(s: seq<Entry>, addrs: seq<Addr>)
    requires Distinct(s)
    ensures RemovesExactly(s, addrs) <==> TailIsKept(s, addrs)
  {
    if TailIsKept(s, addrs) {
      DeleteSound(s, addrs);
      DeleteComplete(s, addrs);
    } else {
      var n := |s|;
      var kept := n - Hits(s, addrs, n);
      var j :| n - Hits(s, addrs, kept) <= j < n && s[j].addr in addrs;
      var i := HoleNumbered(s, addrs, kept, n - j);
      assert Deleted(s, addrs)[i] == s[j];
      assert s[j] in Deleted(s, addrs);
    }
  }

  /** The smallest failing input, and the part order plays in it: of three entries the first and the last are to be
      deleted. In this order the last one moves into the place of the first and the middle one is lost; with the first
      two exchanged the right one remains. */
  lemma {:induction false} OrderMatters(a: Entry, b: Entry, c: Entry)
    requires Distinct([a, b, c])
    ensures var gone := [a.addr, c.addr];
            && Deleted([a, b, c], gone) == [c] && !RemovesExactly([a, b, c], gone)
            && Deleted([b, a, c], gone) == [b] && RemovesExactly([b, a, c], gone)
  {
    var gone := [a.addr, c.addr];
    assert a.addr != b.addr && b.addr != c.addr by {
      assert [a, b, c][0].addr != [a, b, c][1].addr && [a, b, c][1].addr != [a, b, c][2].addr;
    }
    CountThree([a, b, c], gone);
    CountThree([b, a, c], gone);
    assert Deleted([a, b, c], gone) == [c] && Deleted([b, a, c], gone) == [b];
    assert c in [c] && c.addr in gone;
    assert forall e :: e in [b, a, c] <==> e == a || e == b || e == c;
  }

  lemma {:induction false} CountThree(s: seq<Entry>, addrs: seq<Addr>)
    requires |s| == 3
    ensures Hits(s, addrs, 1) == if s[0].addr in addrs then 1 else 0
    ensures Hits(s, addrs, 2) == Hits(s, addrs, 1) + if s[1].addr in addrs then 1 else 0
    ensures Hits(s, addrs, 3) == Hits(s, addrs, 2) + if s[2].addr in addrs then 1 else 0
  {
    assert Hits(s, addrs, 0) == 0;
  }

  lemma {:induction false} DeleteSound(s: seq<Entry>, addrs: seq<Addr>)
    requires TailIsKept(s, addrs)
    ensures forall e :: e in Deleted(s, addrs) ==> e in s && e.addr !in addrs
  {
    var d, n := Deleted(s, addrs), |s|;
    forall i | 0 <= i < |d|
      ensures d[i] in s && d[i].addr !in addrs
    {
      HitsGrow(s, addrs, i + 1, |d|);
    }
  }

  lemma {:induction false} DeleteComplete(s: seq<Entry>, addrs: seq<Addr>)
    requires TailIsKept(s, addrs)
    ensures forall e :: e in s && e.addr !in addrs ==> e in Deleted(s, addrs)
  {
    var d, n := Deleted(s, addrs), |s|;
    forall j | 0 <= j < n && s[j].addr !in addrs
      ensures s[j] in d
    {
      if j < |d| {
        assert d[j] == s[j];
      } else {
        TailCount(s, addrs, j);
        var i := HoleNumbered(s, addrs, |d|, n - j);
        assert d[i] == s[j];
      }
    }
  }

  /** A kept entry behind the cut lies among those that move. */
  lemma {:induction false} TailCount(s: seq<Entry>, addrs: seq<Addr>, j: nat)
    requires TailIsKept(s, addrs) && |s| - Hits(s, addrs, |s|) <= j < |s| && s[j].addr !in addrs
    ensures 0 < |s| - j <= Hits(s, addrs, |s| - Hits(s, addrs, |s|))
  {
    var n := |s|;
    var kept := n - Hits(s, addrs, n);
    var h := Hits(s, addrs, kept);
    HitsGrow(s, addrs, kept, n - h) by { HitsGrow(s, addrs, 0, kept); HitsGrow(s, addrs, kept, n); }
    NoHitsAfter(s, addrs, n - h, n);
    if j < n - h {
      HitsGrow(s, addrs, kept, j);
      HitsGrow(s, addrs, j + 1, n - h);
    }
  }

  lemma {:induction false} NoHitsAfter(s: seq<Entry>, addrs: seq<Addr>, i: nat, j: nat)
    requires i <= j <= |s| && forall x :: i <= x < j ==> s[x].addr !in addrs
    ensures Hits(s, addrs, j) == Hits(s, addrs, i)
    decreases j
  {
    if i < j {
      NoHitsAfter(s, addrs, i, j - 1);
    }
  }

  /** At most one match, or nothing but matches, is always removed exactly. */
  lemma {:induction false} OneOrAllExact(s: seq<Entry>, addrs: seq<Addr>)
    requires Hits(s, addrs, |s|) <= 1 || Hits(s, addrs, |s|) == |s|
    ensures TailIsKept(s, addrs)
  {
    var n := |s|;
    var k := Hits(s, addrs, n);
    HitsGrow(s, addrs, n - k, n);
    if k == 1 && Hits(s, addrs, n - 1) == 1 {
      assert s[n - 1].addr !in addrs;
    }
  }

  lemma {:induction false} DeleteDistinct(s: seq<Entry>, addrs: seq<Addr>)
    requires Distinct(s)
    ensures Distinct(Deleted(s, addrs))
  {
    var d, n := Deleted(s, addrs), |s|;
    forall i, j | 0 <= i < j < |d|
      ensures d[i].addr != d[j].addr
    {
      HitsGrow(s, addrs, i + 1, j);
      HitsGrow(s, addrs, j, j + 1);
      HitsGrow(s, addrs, j + 1, n);
      HitsGrow(s, addrs, i + 1, n);
    }
  }

  // ---------------------------------------------------------------- the map a record stands for

  ghost function TermsFrom(s: seq<Entry>): (m: Terms)
    requires Distinct(s)
    ensures forall e :: e in s ==> e.addr in m && m[e.addr] == Term(e.ttl, e.expiry)
    ensures forall a :: a in m ==> Entry(a, m[a].ttl, m[a].expiry) in s
  {
    map i | 0 <= i < |s| :: s[i].addr := Term(s[i].ttl, s[i].expiry)
  }

  /** What remains of a record after deleteInPlace, as a map. */
  ghost function DeletedTerms(s: seq<Entry>, addrs: seq<Addr>): (m: Terms)
    requires Distinct(s)
  {
    DeleteDistinct(s, addrs);
    TermsFrom(Deleted(s, addrs))
  }

  /** A removal does to the map what it should if and only if the entries moved forward are all to be kept. */
  lemma {:induction false} DeletedTermsExact(s: seq<Entry>, m: Terms, now: int, addrs: seq<Addr>)
    requires Distinct(s) && Shows(s, m, now) && forall e :: e in s ==> e.expiry > now
    ensures DeletedTerms(s, addrs) == RemoveTerms(m, now, addrs) <==> TailIsKept(s, addrs)
  {
    DeleteExact(s, addrs);
    DeleteDistinct(s, addrs);
    var d, t, r := Deleted(s, addrs), DeletedTerms(s, addrs), RemoveTerms(m, now, addrs);
    if RemovesExactly(s, addrs) {
      forall a: Addr
        ensures a in t <==> a in r
        ensures a in t ==> t[a] == r[a]
      {
        if a in t {
          assert Entry(a, t[a].ttl, t[a].expiry) in s;
        }
        if a in r {
          assert Entry(a, m[a].ttl, m[a].expiry) in d;
        }
      }
    } else if t == r {
      forall e: Entry
        ensures e in d <==> e in s && e.addr !in addrs
      {
        if e in d {
          assert Entry(e.addr, m[e.addr].ttl, m[e.addr].expiry) in s;
        }
        if e in s && e.addr !in addrs {
          assert Entry(e.addr, t[e.addr].ttl, t[e.addr].expiry) in d;
        }
      }
    }
  }
}
