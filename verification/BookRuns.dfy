/** Whole runs of the address book: requests, collector passes and cache evictions in any order. */
module BookRuns {
  import opened Sequences
  import opened Records
  import opened RecordOps
  import opened AddrBook
  import opened AddrBookGc

  /** What a caller has to respect: an addition names only live addresses twice, a removal one live address or all. */
  ghost predicate Proper(r: Request, model: map<Peer, Terms>, now: int)
  {
    match r
    case Add(p, addrs, ttl) => ttl > 0 ==> RepeatsLive(TermsOf(model, p), Unix(now), addrs)
    case Set(p, addrs, ttl) =>
      if ttl > 0 then RepeatsLive(TermsOf(model, p), Unix(now), addrs)
          else OneOrAll(TermsOf(model, p), Unix(now), addrs)
    case _ => true
  }

  /** The plain map after the first n requests. */
  ghost function MapAfter(requests: seq<Request>, times: seq<int>, n: nat): (r: map<Peer, Terms>)
    requires n <= |requests| == |times|
  {
    if n == 0 then map[] else Step(MapAfter(requests, times, n - 1), requests[n - 1], times[n - 1])
  }

  ghost predicate AllProper(requests: seq<Request>, times: seq<int>)
    requires |requests| == |times|
  {
    forall i :: 0 <= i < |requests| ==> Proper(requests[i], MapAfter(requests, times, i), times[i])
  }

  /** The answer to the i-th request, if it is a query, lists the live addresses of the map at that point. */
  ghost predicate Right(requests: seq<Request>, times: seq<int>, i: nat, answer: seq<Addr>)
    requires i < |requests| == |times|
  {
    requests[i].Query? ==> Answers(answer, TermsOf(MapAfter(requests, times, i), requests[i].p), Unix(times[i]))
  }

  ghost predicate AllRight(requests: seq<Request>, times: seq<int>, answers: seq<seq<Addr>>)
  {
    |answers| <= |requests| == |times| && forall i :: 0 <= i < |answers| ==> Right(requests, times, i, answers[i])
  }

  lemma {:induction false} OneMoreRight(requests: seq<Request>, times: seq<int>, answers: seq<seq<Addr>>,
                                        answer: seq<Addr>)
    requires AllRight(requests, times, answers) && |answers| < |requests| && Right(requests, times, |answers|, answer)
    ensures AllRight(requests, times, answers + [answer])
  {
  }

  method WriteSet(ab: Book, r: Request, now: int)
    requires ab.Valid() && ab.clock <= Unix(now) && r.Set? && Proper(r, ab.model, now)
    modifies ab, ab.cache.Values
    ensures ab.Valid() && ab.clock <= Unix(now) && fresh(ab.cache.Values - old(ab.cache.Values))
    ensures ab.model == Step(old(ab.model), r, now)
  {
    ghost var before := ab.model;
    ghost var rec := ab.SetAddrs(r.p, r.addrs, r.ttl, now);
    if r.ttl <= 0 {
      RemovalExact(before, r.p, r.addrs, Unix(now), rec, ab.model);
    }
  }

  method Write(ab: Book, r: Request, now: int)
    requires ab.Valid() && ab.clock <= Unix(now) && Proper(r, ab.model, now)
    requires r.Add? || r.Set? || r.Update? || r.Clear?
    modifies ab, ab.cache.Values
    ensures ab.Valid() && ab.clock <= Unix(now) && fresh(ab.cache.Values - old(ab.cache.Values))
    ensures ab.model == Step(old(ab.model), r, now)
  {
    match r
    case Add(p, addrs, ttl) => ab.AddAddrs(p, addrs, ttl, now);
    case Set(_, _, _) => WriteSet(ab, r, now);
    case Update(p, oldTTL, newTTL) => ab.UpdateAddrs(p, oldTTL, newTTL, now);
    case Clear(p) => ab.ClearAddrs(p, now);
  }

  method CollectAhead(ab: Book, gc: Gc, r: Request, now: int)
    requires ab.Valid() && gc.ab == ab && ab.clock <= Unix(now) && (r.PopulateLookahead? || r.PurgeLookahead?)
    modifies gc, ab, ab.cache.Values
    ensures ab.Valid() && ab.clock <= Unix(now) && ab.cache == old(ab.cache) && ab.model == old(ab.model)
  {
    if r.PopulateLookahead? {
      gc.PopulateLookahead(now, ab.Views());
    } else {
      ghost var _ := gc.PurgeLookahead(now, ab.Views());
    }
  }

  method Collect(ab: Book, gc: Gc, r: Request, now: int)
    requires ab.Valid() && gc.ab == ab && ab.clock <= Unix(now)
    requires r.Evict? || r.PurgeStore? || r.PopulateLookahead? || r.PurgeLookahead?
    modifies gc, ab, ab.cache.Values
    ensures ab.Valid() && ab.clock <= Unix(now) && fresh(ab.cache.Values - old(ab.cache.Values))
    ensures ab.model == old(ab.model)
  {
    if r.Evict? {
      ab.Evict(r.p);
    } else if r.PurgeStore? {
      gc.PurgeStore(now);
    } else {
      CollectAhead(ab, gc, r, now);
    }
  }

  method Serve(ab: Book, gc: Gc, r: Request, now: int) returns (answer: seq<Addr>)
    requires ab.Valid() && gc.ab == ab && ab.clock <= Unix(now) && Proper(r, ab.model, now)
    modifies gc, ab, ab.cache.Values
    ensures ab.Valid() && ab.clock <= Unix(now) && fresh(ab.cache.Values - old(ab.cache.Values))
    ensures ab.model == Step(old(ab.model), r, now)
    ensures r.Query? ==> Answers(answer, TermsOf(old(ab.model), r.p), Unix(now))
  {
    answer := [];
    if r.Query? {
      answer := ab.Addrs(r.p, now);
    } else if r.Add? || r.Set? || r.Update? || r.Clear? {
      Write(ab, r, now);
    } else {
      Collect(ab, gc, r, now);
    }
  }

  /** The next request of a run. */
  method Next(ab: Book, gc: Gc, requests: seq<Request>, times: seq<int>, i: nat) returns (answer: seq<Addr>)
    requires ab.Valid() && gc.ab == ab && i < |requests| == |times| && AllProper(requests, times)
    requires ab.model == MapAfter(requests, times, i) && ab.clock <= Unix(times[i])
    modifies gc, ab, ab.cache.Values
    ensures ab.Valid() && ab.clock <= Unix(times[i]) && fresh(ab.cache.Values - old(ab.cache.Values))
    ensures ab.model == MapAfter(requests, times, i + 1) && Right(requests, times, i, answer)
  {
    answer := Serve(ab, gc, requests[i], times[i]);
  }

  /** Every query of every run is answered with exactly the live addresses of the plain map. */
  method Run(caching: bool, interval: int, requests: seq<Request>, times: seq<int>) returns (answers: seq<seq<Addr>>)
    requires |requests| == |times| && Ordered(times) && AllProper(requests, times)
    ensures |answers| == |requests| && AllRight(requests, times, answers)
  {
    var ab := new Book(caching, if times == [] then 0 else Unix(times[0]));
    var gc := new Gc(ab, interval);
    answers := [];
    for i := 0 to |requests|
      invariant ab.Valid() && gc.ab == ab && fresh(ab) && fresh(gc) && fresh(ab.cache.Values)
      invariant ab.model == MapAfter(requests, times, i)
      invariant i < |times| ==> ab.clock <= Unix(times[i])
      invariant |answers| == i && AllRight(requests, times, answers)
    {
      var answer := Next(ab, gc, requests, times, i);
      OneMoreRight(requests, times, answers, answer);
      answers := answers + [answer];
    }
  }

  lemma {:induction false} OnceEach(s: seq<Addr>, a: Addr)
    requires NoRepeats(s)
    ensures multiset(s)[a] == if a in s then 1 else 0
  {
    if s != [] {
      OnceEach(s[1..], a);
      assert s == [s[0]] + s[1..];
    }
  }

  lemma {:induction false} SameAnswers(x: seq<Addr>, y: seq<Addr>, m: Terms, now: int)
    requires Answers(x, m, now) && Answers(y, m, now)
    ensures multiset(x) == multiset(y)
  {
    forall a: Addr
      ensures multiset(x)[a] == multiset(y)[a]
    {
      OnceEach(x, a);
      OnceEach(y, a);
    }
  }

  /** A cached and a cacheless book answer alike. */
  method Compare(interval: int, requests: seq<Request>, times: seq<int>)
    returns (cached: seq<seq<Addr>>, plain: seq<seq<Addr>>)
    requires |requests| == |times| && Ordered(times) && AllProper(requests, times)
    ensures |cached| == |plain| == |requests|
    ensures forall i :: 0 <= i < |requests| && requests[i].Query? ==> multiset(cached[i]) == multiset(plain[i])
  {
    cached := Run(true, interval, requests, times);
    plain := Run(false, interval, requests, times);
    forall i | 0 <= i < |requests| && requests[i].Query?
      ensures multiset(cached[i]) == multiset(plain[i])
    {
      assert Right(requests, times, i, cached[i]) && Right(requests, times, i, plain[i]);
      SameAnswers(cached[i], plain[i], TermsOf(MapAfter(requests, times, i), requests[i].p), Unix(times[i]));
    }
  }

  // ---------------------------------------------------------------- adding never takes away

  /** Whatever a query would have answered at some later time, it still answers after an AddAddrs, and the addresses
      named are answered until their ttl is over. */
  lemma {:induction false} AddKeepsAnswers(model: map<Peer, Terms>, p: Peer, addrs: seq<Addr>, ttl: int, now: int,
                                           q: Peer, later: int, without: seq<Addr>, with: seq<Addr>)
    requires Unix(now) <= later && Answers(without, TermsOf(model, q), later)
    requires Answers(with, TermsOf(Step(model, Add(p, addrs, ttl), now), q), later)
    ensures forall a :: a in without ==> a in with
    ensures p == q && ttl > 0 && later < Unix(now + ttl) ==> forall a :: a in addrs ==> a in with
  {
    SetTermsLaws(TermsOf(model, p), Unix(now), addrs, ttl, Unix(now + ttl), Extend);
  }

  /** The book itself: a query after AddAddrs has exactly the addresses it would have had at that time anyway and, until
      their ttl is over, the ones added. */
  method AddThenQuery(ab: Book, p: Peer, addrs: seq<Addr>, ttl: int, now: int, later: int) returns (answer: seq<Addr>)
    requires ab.Valid() && ab.clock <= Unix(now) <= Unix(later)
    requires ttl > 0 ==> RepeatsLive(TermsOf(ab.model, p), Unix(now), addrs)
    modifies ab, ab.cache.Values
    ensures ab.Valid()
    ensures var m := TermsOf(old(ab.model), p);
            forall a :: a in answer <==>
              || (a in m && m[a].expiry > Unix(later))
              || (a in addrs && ttl > 0 && Unix(later) < Unix(now + ttl))
  {
    ghost var before := ab.model;
    ab.AddAddrs(p, addrs, ttl, now);
    answer := ab.Addrs(p, later);
    AddedAnswers(before, p, addrs, ttl, now, Unix(later), answer);
  }

  lemma {:induction false} AddedAnswers(model: map<Peer, Terms>, p: Peer, addrs: seq<Addr>, ttl: int, now: int,
                                        later: int, answer: seq<Addr>)
    requires Unix(now) <= later
    requires var model' := if ttl <= 0 then model else SetStep(model, p, addrs, ttl, Extend, now);
             Answers(answer, TermsOf(model', p), later)
    ensures var m := TermsOf(model, p);
            forall a :: a in answer <==>
              (a in m && m[a].expiry > later) || (a in addrs && ttl > 0 && later < Unix(now + ttl))
  {
    SetTermsLaws(TermsOf(model, p), Unix(now), addrs, ttl, Unix(now + ttl), Extend);
  }

  /** After SetAddrs with a positive ttl the named addresses are answered exactly until that is over, whatever their
      term was, and all others as they would have been. */
  method SetThenQuery(ab: Book, p: Peer, addrs: seq<Addr>, ttl: int, now: int, later: int) returns (answer: seq<Addr>)
    requires ab.Valid() && ab.clock <= Unix(now) <= Unix(later) && ttl > 0
    requires RepeatsLive(TermsOf(ab.model, p), Unix(now), addrs)
    modifies ab, ab.cache.Values
    ensures ab.Valid()
    ensures var m := TermsOf(old(ab.model), p);
            forall a :: a in answer <==>
              if a in addrs then Unix(later) < Unix(now + ttl) else a in m && m[a].expiry > Unix(later)
  {
    ghost var before := ab.model;
    ghost var _ := ab.SetAddrs(p, addrs, ttl, now);
    answer := ab.Addrs(p, later);
    SetAnswers(before, p, addrs, ttl, now, Unix(later), answer);
  }

  lemma {:induction false} SetAnswers(model: map<Peer, Terms>, p: Peer, addrs: seq<Addr>, ttl: int, now: int,
                                      later: int, answer: seq<Addr>)
    requires Unix(now) <= later && Answers(answer, TermsOf(SetStep(model, p, addrs, ttl, Override, now), p), later)
    ensures var m := TermsOf(model, p);
            forall a :: a in answer <==> if a in addrs then later < Unix(now + ttl) else a in m && m[a].expiry > later
  {
    SetTermsLaws(TermsOf(model, p), Unix(now), addrs, ttl, Unix(now + ttl), Override);
  }

  // ---------------------------------------------------------------- runs with any removals

  /** A step of a run in which any addresses may be removed: a removal does what deleteAddrs does to some record that
      shows the map, everything else is a step of the plain map. */
  ghost predicate Follows(model: map<Peer, Terms>, r: Request, now: int, model': map<Peer, Terms>)
  {
    if r.Set? && r.ttl <= 0 then exists rec :: Removal(model, r.p, r.addrs, Unix(now), rec, model')
    else model' == Step(model, r, now)
  }

  ghost predicate Traced(requests: seq<Request>, times: seq<int>, maps: seq<map<Peer, Terms>>, n: nat)
    requires n <= |requests| == |times|
  {
    && |maps| == n + 1 && maps[0] == map[]
    && forall i :: 0 <= i < n ==> Follows(maps[i], requests[i], times[i], maps[i + 1])
  }

  ghost predicate RightIn(requests: seq<Request>, times: seq<int>, maps: seq<map<Peer, Terms>>, answers: seq<seq<Addr>>)
  {
    && |answers| < |maps| && |answers| <= |requests| == |times|
    && forall i :: 0 <= i < |answers| && requests[i].Query? ==>
         Answers(answers[i], TermsOf(maps[i], requests[i].p), Unix(times[i]))
  }

  /** An addition names no address twice. */
  ghost predicate Plain(r: Request)
  {
    (r.Add? || r.Set?) && r.ttl > 0 ==> NoRepeats(r.addrs)
  }

  method ServeAny(ab: Book, gc: Gc, r: Request, now: int) returns (answer: seq<Addr>)
    requires ab.Valid() && gc.ab == ab && ab.clock <= Unix(now) && Plain(r)
    modifies gc, ab, ab.cache.Values
    ensures ab.Valid() && ab.clock <= Unix(now) && fresh(ab.cache.Values - old(ab.cache.Values))
    ensures Follows(old(ab.model), r, now, ab.model)
    ensures r.Query? ==> Answers(answer, TermsOf(old(ab.model), r.p), Unix(now))
  {
    if r.Set? && r.ttl <= 0 {
      answer := [];
      ghost var rec := ab.SetAddrs(r.p, r.addrs, r.ttl, now);
    } else {
      answer := Serve(ab, gc, r, now);
    }
  }

  lemma {:induction false} OneMoreTraced(requests: seq<Request>, times: seq<int>, maps: seq<map<Peer, Terms>>,
                                         answers: seq<seq<Addr>>, model: map<Peer, Terms>, answer: seq<Addr>)
    requires |answers| < |requests| == |times| && Traced(requests, times, maps, |answers|)
    requires RightIn(requests, times, maps, answers)
    requires var n := |answers|;
             && Follows(maps[n], requests[n], times[n], model)
             && (requests[n].Query? ==> Answers(answer, TermsOf(maps[n], requests[n].p), Unix(times[n])))
    ensures Traced(requests, times, maps + [model], |answers| + 1)
    ensures RightIn(requests, times, maps + [model], answers + [answer])
  {
    var n, more := |answers|, maps + [model];
    forall i | 0 <= i < n + 1
      ensures Follows(more[i], requests[i], times[i], more[i + 1])
    {
      assert i < n ==> Follows(maps[i], requests[i], times[i], maps[i + 1]);
    }
  }

  /** The next request of such a run. */
  method NextAny(ab: Book, gc: Gc, requests: seq<Request>, times: seq<int>, answers: seq<seq<Addr>>,
                 ghost maps: seq<map<Peer, Terms>>)
    returns (answer: seq<Addr>)
    requires ab.Valid() && gc.ab == ab && |answers| < |requests| == |times| && Plain(requests[|answers|])
    requires ab.clock <= Unix(times[|answers|]) && Traced(requests, times, maps, |answers|)
    requires ab.model == maps[|answers|] && RightIn(requests, times, maps, answers)
    modifies gc, ab, ab.cache.Values
    ensures ab.Valid() && ab.clock <= Unix(times[|answers|]) && fresh(ab.cache.Values - old(ab.cache.Values))
    ensures Traced(requests, times, maps + [ab.model], |answers| + 1)
    ensures RightIn(requests, times, maps + [ab.model], answers + [answer])
  {
    answer := ServeAny(ab, gc, requests[|answers|], times[|answers|]);
    OneMoreTraced(requests, times, maps, answers, ab.model, answer);
  }

  /** A run with any removals: every query is answered with the live addresses of the map as the removals left it. */
  method RunAny(caching: bool, interval: int, requests: seq<Request>, times: seq<int>)
    returns (answers: seq<seq<Addr>>, ghost maps: seq<map<Peer, Terms>>)
    requires |requests| == |times| && Ordered(times) && forall i :: 0 <= i < |requests| ==> Plain(requests[i])
    ensures |answers| == |requests| && Traced(requests, times, maps, |requests|)
    ensures RightIn(requests, times, maps, answers)
  {
    var ab := new Book(caching, if times == [] then 0 else Unix(times[0]));
    var gc := new Gc(ab, interval);
    answers, maps := [], [map[]];
    for i := 0 to |requests|
      invariant ab.Valid() && gc.ab == ab && fresh(ab) && fresh(gc) && fresh(ab.cache.Values)
      invariant i < |times| ==> ab.clock <= Unix(times[i])
      invariant |answers| == i && Traced(requests, times, maps, i) && ab.model == maps[i]
      invariant RightIn(requests, times, maps, answers)
    {
      var answer := NextAny(ab, gc, requests, times, answers, maps);
      answers, maps := answers + [answer], maps + [ab.model];
    }
  }

  // ---------------------------------------------------------------- when two books agree

  ghost predicate Increasing(s: seq<Entry>)
  {
    forall i, j :: 0 <= i < j < |s| ==> s[i].expiry < s[j].expiry
  }

  lemma {:induction false} SameSorted(a: seq<Entry>, b: seq<Entry>)
    requires Increasing(a) && Increasing(b) && forall e :: e in a <==> e in b
    ensures a == b
  {
    assert b != [] ==> b[0] in a;
    if a != [] {
      assert a[0] in b && b[0] in a;
      assert a[0] == b[0];
      forall e: Entry
        ensures e in a[1..] <==> e in b[1..]
      {
        assert e in a <==> e == a[0] || e in a[1..];
        assert e in b <==> e == b[0] || e in b[1..];
      }
      SameSorted(a[1..], b[1..]);
      assert a == [a[0]] + a[1..] && b == [b[0]] + b[1..];
    }
  }

  /** No two live addresses of the map expire together. */
  ghost predicate Untied(m: Terms, now: int)
  {
    forall x, y :: x in m && y in m && x != y && m[x].expiry > now ==> m[x].expiry != m[y].expiry
  }

  lemma {:induction false} RecordIncreasing(s: seq<Entry>, m: Terms, now: int)
    requires Sorted(s) && Distinct(s) && Shows(s, m, now) && Untied(m, now) && forall e :: e in s ==> e.expiry > now
    ensures Increasing(s)
  {
    forall i, j | 0 <= i < j < |s|
      ensures s[i].expiry < s[j].expiry
    {
      assert s[i] in s && s[j] in s && s[i].addr != s[j].addr;
    }
  }

  /** Without ties a removal has one outcome, since there is one order the record can have. */
  lemma {:induction false} RemovalUnique(model: map<Peer, Terms>, p: Peer, addrs: seq<Addr>, now: int,
                                         x: seq<Entry>, m1: map<Peer, Terms>, y: seq<Entry>, m2: map<Peer, Terms>)
    requires Removal(model, p, addrs, now, x, m1) && Removal(model, p, addrs, now, y, m2)
    requires Untied(TermsOf(model, p), now)
    ensures m1 == m2
  {
    var m := TermsOf(model, p);
    RecordIncreasing(x, m, now);
    RecordIncreasing(y, m, now);
    assert forall e: Entry :: e in x ==> e == Entry(e.addr, m[e.addr].ttl, m[e.addr].expiry);
    assert forall e: Entry :: e in y ==> e == Entry(e.addr, m[e.addr].ttl, m[e.addr].expiry);
    SameSorted(x, y);
  }

  /** Nothing is tied at the removals of a run. */
  ghost predicate NoTies(requests: seq<Request>, times: seq<int>, maps: seq<map<Peer, Terms>>)
    requires |maps| == |requests| + 1 == |times| + 1
  {
    forall i :: 0 <= i < |requests| && requests[i].Set? && requests[i].ttl <= 0 ==>
      Untied(TermsOf(maps[i], requests[i].p), Unix(times[i]))
  }

  lemma {:induction false} StepsAgree(requests: seq<Request>, times: seq<int>, a: seq<map<Peer, Terms>>,
                                      b: seq<map<Peer, Terms>>, i: nat)
    requires i < |requests| == |times| && |a| == |b| == |requests| + 1 && a[i] == b[i] && NoTies(requests, times, a)
    requires Follows(a[i], requests[i], times[i], a[i + 1]) && Follows(b[i], requests[i], times[i], b[i + 1])
    ensures a[i + 1] == b[i + 1]
  {
    var r, now := requests[i], times[i];
    if r.Set? && r.ttl <= 0 {
      var x :| Removal(a[i], r.p, r.addrs, Unix(now), x, a[i + 1]);
      var y :| Removal(b[i], r.p, r.addrs, Unix(now), y, b[i + 1]);
      RemovalUnique(a[i], r.p, r.addrs, Unix(now), x, a[i + 1], y, b[i + 1]);
    }
  }

  lemma {:induction false} TracesAgree(requests: seq<Request>, times: seq<int>, a: seq<map<Peer, Terms>>,
                                       b: seq<map<Peer, Terms>>, n: nat)
    requires n <= |requests| == |times|
    requires Traced(requests, times, a, |requests|) && Traced(requests, times, b, |requests|)
    requires NoTies(requests, times, a)
    ensures a[n] == b[n]
  {
    if n > 0 {
      TracesAgree(requests, times, a, b, n - 1);
      StepsAgree(requests, times, a, b, n - 1);
    }
  }

  /** Cached and cacheless books answer alike under any removals, as long as no two live addresses of a peer expire
      together when some of its addresses are removed; with ties the order the sort leaves them in decides. */
  method CompareAny(interval: int, requests: seq<Request>, times: seq<int>)
    returns (cached: seq<seq<Addr>>, plain: seq<seq<Addr>>, ghost maps: seq<map<Peer, Terms>>)
    requires |requests| == |times| && Ordered(times) && forall i :: 0 <= i < |requests| ==> Plain(requests[i])
    ensures |cached| == |plain| == |requests| && Traced(requests, times, maps, |requests|)
    ensures NoTies(requests, times, maps) ==>
              forall i :: 0 <= i < |requests| && requests[i].Query? ==> multiset(cached[i]) == multiset(plain[i])
  {
    var c, m := RunAny(true, interval, requests, times);
    var d, m' := RunAny(false, interval, requests, times);
    cached, plain, maps := c, d, m;
    if NoTies(requests, times, maps) {
      forall i | 0 <= i < |requests| && requests[i].Query?
        ensures multiset(cached[i]) == multiset(plain[i])
      {
        TracesAgree(requests, times, m, m', i);
        SameAnswers(cached[i], plain[i], TermsOf(m[i], requests[i].p), Unix(times[i]));
      }
    }
  }
}
