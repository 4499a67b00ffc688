/** The datastore-backed address book (pkg/engine/transport/pstoreds/addr_book.go): a cache of mutable records over
    a store, with lazy expiry, proved to answer like a plain map from address to ttl and expiry. */
module AddrBook {
  import opened Sequences
  import opened Records
  import opened RecordOps

  /** time.Time.Unix of a time in nanoseconds. */
  function Unix(t: int): (r: int)
  {
    t / 1_000_000_000
  }

  /** Whole seconds, rounded down. */
  lemma {:induction false} UnixSeconds(t: int)
    ensures Unix(t) * 1_000_000_000 <= t < (Unix(t) + 1) * 1_000_000_000
  {
  }

  lemma {:induction false} ShowsTransfer(a: seq<Entry>, b: seq<Entry>, m: Terms, m': Terms, now: int)
    requires Shows(a, m, now) && Shows(a, m', now) && Shows(b, m, now)
    ensures Shows(b, m', now)
  {
  }

  function EntriesOf(store: map<Peer, seq<Entry>>, p: Peer): (r: seq<Entry>)
  {
    if p in store then store[p] else []
  }

  ghost function TermsOf(model: map<Peer, Terms>, p: Peer): (r: Terms)
  {
    if p in model then model[p] else map[]
  }

  /** Sorted entries without repetition that show the map. */
  ghost predicate Good(s: seq<Entry>, m: Terms, now: int)
  {
    Sorted(s) && Distinct(s) && Shows(s, m, now)
  }

  lemma {:induction false} GoodLater(s: seq<Entry>, m: Terms, now: int, later: int)
    requires Good(s, m, now) && now <= later
    ensures Good(s, m, later)
  {
  }

  /** Stored records are good and never empty; unknown peers have nothing in the map. */
  ghost predicate GoodStore(store: map<Peer, seq<Entry>>, model: map<Peer, Terms>, now: int)
  {
    && (forall p :: p in store ==> store[p] != [])
    && (forall p :: Good(EntriesOf(store, p), TermsOf(model, p), now))
  }

  /** The store after flush has written one record. */
  function Flushed(store: map<Peer, seq<Entry>>, p: Peer, s: seq<Entry>): (r: map<Peer, seq<Entry>>)
  {
    if s == [] then store - {p} else store[p := s]
  }

  /** Two models that differ at most in one peer. */
  ghost predicate SameBut(model: map<Peer, Terms>, model': map<Peer, Terms>, p: Peer)
  {
    forall q: Peer :: q != p ==> TermsOf(model', q) == TermsOf(model, q)
  }

  lemma {:induction false} FlushKeepsStore(store: map<Peer, seq<Entry>>, model: map<Peer, Terms>,
                                           model': map<Peer, Terms>,
                                           now: int, p: Peer, s: seq<Entry>)
    requires GoodStore(store, model, now) && SameBut(model, model', p) && Good(s, TermsOf(model', p), now)
    ensures GoodStore(Flushed(store, p, s), model', now)
  {
    var store' := Flushed(store, p, s);
    forall q: Peer
      ensures Good(EntriesOf(store', q), TermsOf(model', q), now)
    {
      assert Good(EntriesOf(store, q), TermsOf(model, q), now);
    }
  }

  /** A change of the map that the stored entries already show needs no write. */
  lemma {:induction false} SameTermsKeepStore(store: map<Peer, seq<Entry>>, model: map<Peer, Terms>,
                                              model': map<Peer, Terms>,
                                              now: int, p: Peer)
    requires GoodStore(store, model, now) && SameBut(model, model', p)
             && Good(EntriesOf(store, p), TermsOf(model', p), now)
    ensures GoodStore(store, model', now)
  {
    forall q: Peer
      ensures Good(EntriesOf(store, q), TermsOf(model', q), now)
    {
      assert Good(EntriesOf(store, q), TermsOf(model, q), now);
    }
  }

  lemma {:induction false} StoreLater(store: map<Peer, seq<Entry>>, model: map<Peer, Terms>, now: int, later: int)
    requires GoodStore(store, model, now) && now <= later
    ensures GoodStore(store, model, later)
  {
    forall q: Peer
      ensures Good(EntriesOf(store, q), TermsOf(model, q), later)
    {
      GoodLater(EntriesOf(store, q), TermsOf(model, q), now, later);
    }
  }

  /** The addresses a query has to give: those of the map that have not expired, each once. */
  ghost predicate Answers(addrs: seq<Addr>, m: Terms, now: int)
  {
    NoRepeats(addrs) && forall a :: a in addrs <==> a in m && m[a].expiry > now
  }

  /** The addresses of some entries, in their order. */
  ghost predicate InOrder(addrs: seq<Addr>, s: seq<Entry>)
  {
    |addrs| == |s| && forall i :: 0 <= i < |s| ==> addrs[i] == s[i].addr
  }

  method AddrsIn(s: seq<Entry>) returns (addrs: seq<Addr>)
    ensures InOrder(addrs, s)
  {
    addrs := [];
    for i := 0 to |s|
      invariant |addrs| == i && forall j :: 0 <= j < i ==> addrs[j] == s[j].addr
    {
      addrs := addrs + [s[i].addr];
    }
  }

  lemma {:induction false} LiveAnswers(s: seq<Entry>, m: Terms, now: int, addrs: seq<Addr>)
    requires Distinct(s) && Shows(s, m, now) && forall e :: e in s ==> e.expiry > now
    requires |addrs| == |s| && forall i :: 0 <= i < |s| ==> addrs[i] == s[i].addr
    ensures Answers(addrs, m, now)
  {
    forall a | a in addrs
      ensures a in m && m[a].expiry > now
    {
      var i :| 0 <= i < |s| && addrs[i] == a;
      assert s[i] in s;
    }
    forall a | a in m && m[a].expiry > now
      ensures a in addrs
    {
      var i :| 0 <= i < |s| && s[i] == Entry(a, m[a].ttl, m[a].expiry);
      assert addrs[i] in addrs;
    }
  }

  /** Only addresses with a live term are named twice. */
  ghost predicate RepeatsLive(m: Terms, now: int, addrs: seq<Addr>)
  {
    forall i, j :: 0 <= i < j < |addrs| && addrs[i] == addrs[j] ==> addrs[i] in Unexpired(m, now)
  }

  /** A record without expired entries knows the addresses with a live term. */
  lemma {:induction false} KnowsLive(s: seq<Entry>, m: Terms, now: int)
    requires Shows(s, m, now) && forall e :: e in s ==> e.expiry > now
    ensures forall a :: Knows(s, a) <==> a in Unexpired(m, now)
  {
    forall a: Addr
      ensures Knows(s, a) <==> a in Unexpired(m, now)
    {
      if Knows(s, a) {
        var i :| 0 <= i < |s| && s[i].addr == a;
        assert s[i] in s;
      }
    }
  }

  /** The addresses appended by setAddrs are those the map has no live term for. */
  lemma {:induction false} PublishedAreNew(s: seq<Entry>, m: Terms, now: int, addrs: seq<Addr>, ttl: int, exp: int,
                                           published: seq<Addr>)
    requires Shows(s, m, now) && forall e :: e in s ==> e.expiry > now
    requires var f := Fresh(s, addrs, ttl, exp);
             |published| == |f| && forall i :: 0 <= i < |f| ==> published[i] == f[i].addr
    ensures forall a :: a in published <==> a in addrs && a !in Unexpired(m, now)
  {
    var f := Fresh(s, addrs, ttl, exp);
    FreshMembers(s, addrs, ttl, exp);
    KnowsLive(s, m, now);
    forall a: Addr
      ensures a in published <==> Entry(a, ttl, exp) in f
    {
      if a in published {
        var i :| 0 <= i < |f| && published[i] == a;
        assert f[i] in f;
      }
      if Entry(a, ttl, exp) in f {
        var i :| 0 <= i < |f| && f[i] == Entry(a, ttl, exp);
        assert published[i] in published;
      }
    }
  }

  /** At most one live address is to be removed, or all of them are. */
  ghost predicate OneOrAll(m: Terms, now: int, addrs: seq<Addr>)
  {
    var u := Unexpired(m, now);
    (forall a, b :: a in addrs && b in addrs && a in u && b in u ==> a == b) || (forall a :: a in u ==> a in addrs)
  }

  lemma {:induction false} AllHit(s: seq<Entry>, addrs: seq<Addr>, i: nat)
    requires i <= |s| && forall j :: 0 <= j < i ==> s[j].addr in addrs
    ensures Hits(s, addrs, i) == i
  {
    if i > 0 {
      AllHit(s, addrs, i - 1);
    }
  }

  lemma {:induction false} OneHit(s: seq<Entry>, addrs: seq<Addr>, i: nat)
    requires i <= |s| && forall j, k :: 0 <= j < k < i && s[j].addr in addrs ==> s[k].addr !in addrs
    ensures Hits(s, addrs, i) <= 1
  {
    if i > 0 {
      if s[i - 1].addr in addrs {
        NoneHit(s, addrs, i - 1);
      } else {
        OneHit(s, addrs, i - 1);
      }
    }
  }

  lemma {:induction false} NoneHit(s: seq<Entry>, addrs: seq<Addr>, i: nat)
    requires i <= |s| && forall j :: 0 <= j < i ==> s[j].addr !in addrs
    ensures Hits(s, addrs, i) == 0
  {
    if i > 0 {
      NoneHit(s, addrs, i - 1);
    }
  }

  lemma {:induction false} OneOrAllHits(s: seq<Entry>, m: Terms, now: int, addrs: seq<Addr>)
    requires Distinct(s) && Shows(s, m, now) && OneOrAll(m, now, addrs) && forall e :: e in s ==> e.expiry > now
    ensures TailIsKept(s, addrs)
  {
    assert forall i :: 0 <= i < |s| ==> s[i] in s && s[i].addr in Unexpired(m, now);
    if forall a :: a in Unexpired(m, now) ==> a in addrs {
      AllHit(s, addrs, |s|);
    } else {
      OneHit(s, addrs, |s|);
    }
    OneOrAllExact(s, addrs);
  }

  /** deleteInPlace on the slice of a record. */
  method DeleteFrom(s: seq<Entry>, addrs: seq<Addr>) returns (left: seq<Entry>)
    requires Distinct(s)
    ensures left == Deleted(s, addrs) && Distinct(left)
  {
    var slice := new Entry[|s|](i requires 0 <= i < |s| => s[i]);
    assert slice[..] == s;
    var survived := DeleteInPlace(slice, addrs);
    left := slice[..survived];
    DeleteDistinct(s, addrs);
  }

  /** A removal as deleteAddrs performs it on the record it loads. */
  ghost predicate Removal(model: map<Peer, Terms>, p: Peer, addrs: seq<Addr>, now: int, rec: seq<Entry>,
                          model': map<Peer, Terms>)
  {
    && Sorted(rec) && Distinct(rec) && Shows(rec, TermsOf(model, p), now) && (forall e :: e in rec ==> e.expiry > now)
    && model' == model[p := DeletedTerms(rec, addrs)]
    && (DeletedTerms(rec, addrs) == RemoveTerms(TermsOf(model, p), now, addrs) <==> TailIsKept(rec, addrs))
  }

  lemma {:induction false} RemovalOf(model: map<Peer, Terms>, p: Peer, addrs: seq<Addr>, now: int, rec: seq<Entry>)
    requires Sorted(rec) && Distinct(rec) && Shows(rec, TermsOf(model, p), now)
    requires forall e :: e in rec ==> e.expiry > now
    ensures Removal(model, p, addrs, now, rec, model[p := DeletedTerms(rec, addrs)])
  {
    DeletedTermsExact(rec, TermsOf(model, p), now, addrs);
  }

  lemma {:induction false} DeletedShows(s: seq<Entry>, addrs: seq<Addr>, now: int)
    requires Distinct(s)
    ensures Shows(Deleted(s, addrs), DeletedTerms(s, addrs), now)
    ensures s == [] ==> Shows(s, DeletedTerms(s, addrs), now)
  {
    DeleteDistinct(s, addrs);
  }

  /** Removing one live address, or all, is always right. */
  lemma {:induction false} RemovalExact(model: map<Peer, Terms>, p: Peer, addrs: seq<Addr>, now: int, rec: seq<Entry>,
                                        model': map<Peer, Terms>)
    requires Removal(model, p, addrs, now, rec, model') && OneOrAll(TermsOf(model, p), now, addrs)
    ensures model' == model[p := RemoveTerms(TermsOf(model, p), now, addrs)]
  {
    OneOrAllHits(rec, TermsOf(model, p), now, addrs);
  }

  /** The store after a record has been loaded: written only on request, and only if something had expired. */
  ghost function Saved(store: map<Peer, seq<Entry>>, p: Peer, held: seq<Entry>, update: bool, now: int)
    : (r: map<Peer, seq<Entry>>)
  {
    if update && Live(held, now) != held then Flushed(store, p, Live(held, now)) else store
  }

  class Book {
    /** False for the no-op cache. */
    const caching: bool
    var cache: map<Peer, AddrsRecord>
    var store: map<Peer, seq<Entry>>
    /** Lookahead keys: when to visit, and whom. */
    var lookahead: set<(int, Peer)>
    /** The plain map the book stands for, and the last time seen. */
    ghost var model: map<Peer, Terms>
    ghost var clock: int

    constructor (caching: bool, ghost start: int)
      ensures Valid() && clock == start && this.caching == caching
      ensures model == map[] && store == map[] && cache == map[] && lookahead == {}
    {
      this.caching := caching;
      cache, store, lookahead := map[], map[], {};
      model, clock := map[], start;
    }

    ghost predicate CleanRecord(r: AddrsRecord)
      reads r
    {
      !r.dirty && (r.absent ==> r.addrs == [])
    }

    /** Every cached record is that of its peer, is clean and shows the map. */
    ghost predicate GoodCache()
      reads this`cache, this`model, this`clock, cache.Values
    {
      forall p :: p in cache ==>
        cache[p].id == p && CleanRecord(cache[p]) && Good(cache[p].addrs, TermsOf(model, p), clock)
    }

    ghost predicate Valid()
      reads this`cache, this`store, this`model, this`clock, cache.Values
    {
      GoodStore(store, model, clock) && GoodCache() && (!caching ==> cache == map[])
    }

    /** The entries of the cached records. */
    ghost predicate Caches(views: map<Peer, seq<Entry>>)
      reads this`cache, cache.Values
    {
      forall p: Peer :: (p in cache <==> p in views) && (p in cache ==> cache[p].addrs == views[p])
    }

    ghost function Views(): (views: map<Peer, seq<Entry>>)
      reads this`cache, cache.Values
      ensures Caches(views)
    {
      map p | p in cache :: cache[p].addrs
    }

    /** One cached record has other entries than before. */
    lemma {:induction false} CachesOther(views: map<Peer, seq<Entry>>, p: Peer, s: seq<Entry>)
      requires p in cache && cache[p].addrs == s
      requires forall q: Peer :: (q in cache <==> q in views) && (q in cache && q != p ==> cache[q].addrs == views[q])
      ensures Caches(views[p := s])
    {
    }

    /** The entries loadRecord starts from. */
    ghost function Held(p: Peer): (s: seq<Entry>)
      reads this`cache, this`store, cache.Values
    {
      if p in cache then cache[p].addrs else EntriesOf(store, p)
    }

    /** flush: a record without addresses is deleted from the store. */
    method Flush(r: AddrsRecord)
      modifies this`store, r`dirty
      ensures !r.dirty && store == Flushed(old(store), r.id, r.addrs)
    {
      if r.addrs == [] {
        store := store - {r.id};
      } else {
        store := store[r.id := r.addrs];
      }
      r.dirty := false;
    }

    /** The record handed out by loadRecord: clean, nothing expired, shared with nobody but the cache. */
    ghost predicate Loaded(p: Peer, pr: AddrsRecord)
      reads this`cache, this`model, this`clock, pr
    {
      && pr.id == p && CleanRecord(pr) && Good(pr.addrs, TermsOf(model, p), clock)
      && (forall e :: e in pr.addrs ==> e.expiry > clock)
      && (p in cache ==> cache[p] == pr)
    }

    /** Time passes. */
    ghost method Tick(sec: int)
      requires Valid() && clock <= sec
      modifies this`clock
      ensures Valid() && clock == sec
    {
      StoreLater(store, model, clock, sec);
      forall p | p in cache
        ensures Good(cache[p].addrs, TermsOf(model, p), sec)
      {
        GoodLater(cache[p].addrs, TermsOf(model, p), clock, sec);
      }
      clock := sec;
    }

    /** clean on a record that shows the map. */
    method CleanGood(pr: AddrsRecord, sec: int, ghost m: Terms) returns (chgd: bool)
      requires CleanRecord(pr) && Good(pr.addrs, m, sec)
      modifies pr
      ensures CleanRecord(pr) && Good(pr.addrs, m, sec) && pr.addrs == Live(old(pr.addrs), sec)
      ensures (chgd <==> pr.addrs != old(pr.addrs)) && forall e :: e in pr.addrs ==> e.expiry > sec
    {
      ghost var was := pr.addrs;
      chgd := pr.Clean(sec);
      ShowsSame(was, pr.addrs, m, sec);
    }

    /** clean on a loaded record, saved again only on request. */
    method Refresh(p: Peer, pr: AddrsRecord, update: bool, sec: int)
      requires sec == clock && GoodStore(store, model, clock) && pr.id == p && CleanRecord(pr)
      requires Good(pr.addrs, TermsOf(model, p), clock)
      modifies this`store, pr
      ensures GoodStore(store, model, clock) && CleanRecord(pr) && Good(pr.addrs, TermsOf(model, p), clock)
      ensures forall e :: e in pr.addrs ==> e.expiry > clock
      ensures pr.addrs == Live(old(pr.addrs), clock)
      ensures store == Saved(old(store), p, old(pr.addrs), update, clock)
    {
      var chgd := CleanGood(pr, sec, TermsOf(model, p));
      if chgd && update {
        FlushKeepsStore(store, model, model, clock, p, pr.addrs);
        Flush(pr);
      }
    }

    method LoadStored(p: Peer, update: bool, sec: int) returns (pr: AddrsRecord)
      requires sec == clock && GoodStore(store, model, clock)
      modifies this`store
      ensures GoodStore(store, model, clock) && fresh(pr) && pr.id == p
      ensures CleanRecord(pr) && Good(pr.addrs, TermsOf(model, p), clock)
      ensures forall e :: e in pr.addrs ==> e.expiry > clock
      ensures pr.addrs == Live(EntriesOf(old(store), p), clock)
      ensures store == Saved(old(store), p, EntriesOf(old(store), p), update, clock)
    {
      assert Good(EntriesOf(store, p), TermsOf(model, p), clock);
      pr := new AddrsRecord(p, EntriesOf(store, p), p !in store);
      if p in store {
        Refresh(p, pr, update, sec);
      }
    }

    method LoadCached(p: Peer, update: bool, sec: int) returns (pr: AddrsRecord)
      requires Valid() && sec == clock && p in cache
      modifies this`store, cache[p]
      ensures pr == cache[p] && GoodStore(store, model, clock) && GoodCache() && Loaded(p, pr)
      ensures pr.addrs == Live(old(cache[p].addrs), clock)
      ensures forall q :: q in cache && q != p ==> cache[q].addrs == old(cache[q].addrs)
      ensures store == Saved(old(store), p, old(cache[p].addrs), update, clock)
    {
      pr := cache[p];
      Refresh(p, pr, update, sec);
      forall q | q in cache
        ensures CleanRecord(cache[q]) && Good(cache[q].addrs, TermsOf(model, q), clock)
      {
        assert q != p ==> cache[q] != pr;
      }
    }

    method LoadMissing(p: Peer, cacheIt: bool, update: bool, sec: int) returns (pr: AddrsRecord)
      requires Valid() && sec == clock && p !in cache
      modifies this`store, this`cache
      ensures GoodStore(store, model, clock) && GoodCache() && fresh(pr) && Loaded(p, pr)
      ensures cache == if cacheIt && caching then old(cache)[p := pr] else old(cache)
      ensures pr.addrs == Live(EntriesOf(old(store), p), clock)
      ensures store == Saved(old(store), p, EntriesOf(old(store), p), update, clock)
    {
      pr := LoadStored(p, update, sec);
      if cacheIt && caching {
        cache := cache[p := pr];
      }
    }

    /** loadRecord: from the cache or else the store. */
    method LoadRecord(p: Peer, cacheIt: bool, update: bool, now: int) returns (pr: AddrsRecord)
      requires Valid() && clock <= Unix(now)
      modifies this`cache, this`store, this`clock, cache.Values
      ensures Valid() && clock == Unix(now) && Loaded(p, pr)
      ensures (pr in old(cache.Values) || fresh(pr)) && fresh(cache.Values - old(cache.Values))
      ensures cache == if cacheIt && caching && p !in old(cache) then old(cache)[p := pr] else old(cache)
      ensures pr.addrs == Live(old(Held(p)), clock) && store == Saved(old(store), p, old(Held(p)), update, clock)
    {
      Tick(Unix(now));
      pr := LoadNow(p, cacheIt, update, Unix(now));
    }

    method LoadNow(p: Peer, cacheIt: bool, update: bool, sec: int) returns (pr: AddrsRecord)
      requires Valid() && sec == clock
      modifies this`cache, this`store, cache.Values
      ensures Valid() && Loaded(p, pr) && (p in old(cache) || fresh(pr))
      ensures cache == if cacheIt && caching && p !in old(cache) then old(cache)[p := pr] else old(cache)
      ensures pr.addrs == Live(old(Held(p)), clock) && store == Saved(old(store), p, old(Held(p)), update, clock)
    {
      if p in cache {
        pr := LoadCached(p, update, sec);
      } else {
        pr := LoadMissing(p, cacheIt, update, sec);
      }
    }

    /** What setAddrs and deleteAddrs end with: mark dirty, clean, flush. The map changes with the record. */
    method Rewrite(p: Peer, pr: AddrsRecord, entries: seq<Entry>, ghost terms: Terms, sec: int)
      requires Valid() && sec == clock && Loaded(p, pr) && Distinct(entries) && Shows(entries, terms, clock)
      modifies this`store, this`model, pr
      ensures Valid() && model == old(model)[p := terms]
    {
      pr.addrs, pr.absent, pr.dirty := entries, pr.absent && entries == [], true;
      var _ := pr.Clean(sec);
      ShowsSame(entries, pr.addrs, terms, clock);
      FlushKeepsStore(store, model, model[p := terms], clock, p, pr.addrs);
      Flush(pr);
      ghost var before := model;
      model := model[p := terms];
      forall q | q in cache
        ensures CleanRecord(cache[q]) && Good(cache[q].addrs, TermsOf(model, q), clock)
      {
        assert q != p ==> cache[q] != pr && TermsOf(model, q) == TermsOf(before, q);
      }
    }

    /** Cleaning a loaded record again finds nothing to write. */
    method CleanAgain(p: Peer, pr: AddrsRecord, sec: int)
      requires Valid() && sec == clock && Loaded(p, pr)
      modifies pr
      ensures Valid()
    {
      NothingExpired(pr.addrs, sec);
      var chgd := pr.Clean(sec);
      assert !chgd;
      forall q | q in cache
        ensures CleanRecord(cache[q]) && Good(cache[q].addrs, TermsOf(model, q), clock)
      {
        assert q != p ==> cache[q] != pr;
      }
    }

    /** A change of the map that a loaded record already shows. */
    ghost method Restate(p: Peer, pr: AddrsRecord, terms: Terms)
      requires Valid() && Loaded(p, pr) && Shows(pr.addrs, terms, clock)
      modifies this`model
      ensures Valid() && Loaded(p, pr) && model == old(model)[p := terms]
    {
      ghost var before := model;
      assert Good(EntriesOf(store, p), TermsOf(model, p), clock);
      ShowsTransfer(pr.addrs, EntriesOf(store, p), TermsOf(model, p), terms, clock);
      SameTermsKeepStore(store, model, model[p := terms], clock, p);
      model := model[p := terms];
      forall q | q in cache
        ensures CleanRecord(cache[q]) && Good(cache[q].addrs, TermsOf(model, q), clock)
      {
        assert q != p ==> TermsOf(model, q) == TermsOf(before, q);
      }
    }

    /** setAddrs; the published addresses are those the book had no live entry for. */
    method SetAll(p: Peer, addrs: seq<Addr>, ttl: int, mode: Mode, now: int) returns (published: seq<Addr>)
      requires Valid() && clock <= Unix(now) && RepeatsLive(TermsOf(model, p), Unix(now), addrs)
      modifies this`cache, this`store, this`clock, this`model, cache.Values
      ensures Valid() && clock <= Unix(now) && fresh(cache.Values - old(cache.Values))
      ensures model == SetStep(old(model), p, addrs, ttl, mode, now)
      ensures forall a :: a in published <==> a in addrs && a !in Unexpired(TermsOf(old(model), p), Unix(now))
      ensures caching && addrs != [] ==> p in cache
    {
      if addrs == [] {
        return [];
      }
      var pr := LoadRecord(p, true, false, now);
      published := SetLoaded(p, pr, addrs, ttl, Unix(now + ttl), mode, Unix(now));
    }

    /** What setAddrs does to the record it has loaded. */
    method SetLoaded(p: Peer, pr: AddrsRecord, addrs: seq<Addr>, ttl: int, newExp: int, mode: Mode, sec: int)
      returns (published: seq<Addr>)
      requires Valid() && sec == clock && Loaded(p, pr) && RepeatsLive(TermsOf(model, p), sec, addrs)
      modifies this`store, this`model, pr
      ensures Valid() && model == old(model)[p := SetTerms(TermsOf(old(model), p), sec, addrs, ttl, newExp, mode)]
      ensures forall a :: a in published <==> a in addrs && a !in Unexpired(TermsOf(old(model), p), sec)
    {
      ghost var m := TermsOf(model, p);
      var entries;
      entries, published := MergeAddrs(pr.addrs, addrs, ttl, newExp, mode);
      PublishedAreNew(pr.addrs, m, sec, addrs, ttl, newExp, published);
      KnowsLive(pr.addrs, m, sec);
      MergeDistinct(pr.addrs, addrs, ttl, newExp, mode);
      MergeShows(pr.addrs, m, sec, addrs, ttl, newExp, mode);
      Rewrite(p, pr, entries, SetTerms(m, sec, addrs, ttl, newExp, mode), sec);
    }

    method AddAddrs(p: Peer, addrs: seq<Addr>, ttl: int, now: int)
      requires Valid() && clock <= Unix(now) && (ttl > 0 ==> RepeatsLive(TermsOf(model, p), Unix(now), addrs))
      modifies this`cache, this`store, this`clock, this`model, cache.Values
      ensures Valid() && clock <= Unix(now) && fresh(cache.Values - old(cache.Values))
      ensures model == if ttl <= 0 then old(model) else SetStep(old(model), p, addrs, ttl, Extend, now)
      ensures caching && addrs != [] && ttl > 0 ==> p in cache
    {
      if ttl <= 0 {
        return;
      }
      var _ := SetAll(p, addrs, ttl, Extend, now);
    }

    /** SetAddrs; a ttl that is not positive removes the addresses. */
    method SetAddrs(p: Peer, addrs: seq<Addr>, ttl: int, now: int) returns (ghost rec: seq<Entry>)
      requires Valid() && clock <= Unix(now) && (ttl > 0 ==> RepeatsLive(TermsOf(model, p), Unix(now), addrs))
      modifies this`cache, this`store, this`clock, this`model, cache.Values
      ensures Valid() && clock <= Unix(now) && fresh(cache.Values - old(cache.Values))
      ensures ttl > 0 ==> model == SetStep(old(model), p, addrs, ttl, Override, now)
      ensures ttl <= 0 ==> Removal(old(model), p, addrs, Unix(now), rec, model)
    {
      if ttl <= 0 {
        rec := DeleteAddrs(p, addrs, now);
        return;
      }
      var _ := SetAll(p, addrs, ttl, Override, now);
      rec := [];
    }

    /** deleteAddrs: the map loses exactly the addresses named if and only if none of the entries of the loaded record
        that deleteInPlace moves forward is among them. */
    method DeleteAddrs(p: Peer, addrs: seq<Addr>, now: int) returns (ghost rec: seq<Entry>)
      requires Valid() && clock <= Unix(now)
      modifies this`cache, this`store, this`clock, this`model, cache.Values
      ensures Valid() && clock <= Unix(now) && fresh(cache.Values - old(cache.Values))
      ensures Removal(old(model), p, addrs, Unix(now), rec, model) && cache == old(cache)
    {
      var pr := LoadRecord(p, false, false, now);
      rec := pr.addrs;
      ghost var before, after := model, model[p := DeletedTerms(rec, addrs)];
      DeleteLoaded(p, pr, addrs, Unix(now));
      assert model == after;
      RemovalOf(before, p, addrs, Unix(now), rec);
    }

    /** What deleteAddrs does to the record it has loaded. */
    method DeleteLoaded(p: Peer, pr: AddrsRecord, addrs: seq<Addr>, sec: int)
      requires Valid() && sec == clock && Loaded(p, pr)
      modifies this`store, this`model, pr
      ensures Valid() && model == old(model)[p := DeletedTerms(old(pr.addrs), addrs)]
    {
      DeletedShows(pr.addrs, addrs, sec);
      if pr.absent {
        Restate(p, pr, DeletedTerms(pr.addrs, addrs));
        return;
      }
      var left := DeleteFrom(pr.addrs, addrs);
      Rewrite(p, pr, left, DeletedTerms(pr.addrs, addrs), sec);
    }

    /** The loop of UpdateAddrs, written back only when an entry carried the old ttl. */
    method RetimeRecord(p: Peer, pr: AddrsRecord, oldTTL: int, newTTL: int, newExp: int, sec: int)
      requires Valid() && sec == clock && Loaded(p, pr)
      modifies this`store, this`model, pr
      ensures Valid() && model == old(model)[p := UpdateTerms(TermsOf(old(model), p), sec, oldTTL, newTTL, newExp)]
    {
      ghost var terms := UpdateTerms(TermsOf(model, p), sec, oldTTL, newTTL, newExp);
      var entries, hit := Retime(pr.addrs, oldTTL, newTTL, newExp);
      RetimeShows(pr.addrs, TermsOf(model, p), sec, oldTTL, newTTL, newExp);
      if hit {
        Rewrite(p, pr, entries, terms, sec);
      } else {
        Restate(p, pr, terms);
        CleanAgain(p, pr, sec);
      }
    }

    method UpdateAddrs(p: Peer, oldTTL: int, newTTL: int, now: int)
      requires Valid() && clock <= Unix(now)
      modifies this`cache, this`store, this`clock, this`model, cache.Values
      ensures Valid() && clock <= Unix(now) && fresh(cache.Values - old(cache.Values))
      ensures model == old(model)[p := UpdateTerms(TermsOf(old(model), p), Unix(now), oldTTL, newTTL,
                                                   Unix(now + newTTL))]
    {
      var pr := LoadRecord(p, true, false, now);
      RetimeRecord(p, pr, oldTTL, newTTL, Unix(now + newTTL), Unix(now));
    }

    method ClearAddrs(p: Peer, now: int)
      requires Valid()
      modifies this`cache, this`store, this`model
      ensures Valid() && cache == old(cache) - {p}
      ensures model == Step(old(model), Clear(p), now)
    {
      Evict(p);
      ClearStored(p);
    }

    method ClearStored(p: Peer)
      requires Valid() && p !in cache
      modifies this`store, this`model
      ensures Valid() && model == old(model)[p := map[]]
    {
      ghost var before := model;
      FlushKeepsStore(store, model, model[p := map[]], clock, p, []);
      store := store - {p};
      model := model[p := map[]];
      forall q | q in cache
        ensures Good(cache[q].addrs, TermsOf(model, q), clock)
      {
        assert TermsOf(model, q) == TermsOf(before, q);
      }
    }

    /** Addrs: the live addresses of the plain map, each once. */
    method Addrs(p: Peer, now: int) returns (addrs: seq<Addr>)
      requires Valid() && clock <= Unix(now)
      modifies this`cache, this`store, this`clock, cache.Values
      ensures Valid() && clock <= Unix(now) && fresh(cache.Values - old(cache.Values)) && model == old(model)
      ensures Answers(addrs, TermsOf(model, p), Unix(now))
      ensures InOrder(addrs, Live(old(Held(p)), Unix(now)))
      ensures store == Saved(old(store), p, old(Held(p)), true, Unix(now))
      ensures caching ==> p in cache
    {
      var pr := LoadRecord(p, true, true, now);
      addrs := AddrsIn(pr.addrs);
      LiveAnswers(pr.addrs, TermsOf(model, p), clock, addrs);
    }

    /** The cache throws a record out. */
    method Evict(p: Peer)
      requires Valid()
      modifies this`cache
      ensures Valid() && cache == old(cache) - {p}
    {
      cache := cache - {p};
    }
  }

  /** Requests to the book. Evict stands for whatever the cache throws out. */
  datatype Request =
    | Add(p: Peer, addrs: seq<Addr>, ttl: int)
    | Set(p: Peer, addrs: seq<Addr>, ttl: int)
    | Update(p: Peer, oldTTL: int, newTTL: int)
    | Clear(p: Peer)
    | Query(p: Peer)
    | Evict(p: Peer)
    | PurgeStore
    | PopulateLookahead
    | PurgeLookahead

  /** Setting addresses in the plain map. */
  ghost function SetStep(model: map<Peer, Terms>, p: Peer, addrs: seq<Addr>, ttl: int, mode: Mode, now: int)
    : (r: map<Peer, Terms>)
  {
    if addrs == [] then model
    else model[p := SetTerms(TermsOf(model, p), Unix(now), addrs, ttl, Unix(now + ttl), mode)]
  }

  /** What a request does to the plain map. */
  ghost function Step(model: map<Peer, Terms>, r: Request, now: int): (result: map<Peer, Terms>)
  {
    match r
    case Add(p, addrs, ttl) => if ttl <= 0 then model else SetStep(model, p, addrs, ttl, Extend, now)
    case Set(p, addrs, ttl) =>
      if ttl <= 0 then model[p := RemoveTerms(TermsOf(model, p), Unix(now), addrs)]
      else SetStep(model, p, addrs, ttl, Override, now)
    case Update(p, oldTTL, newTTL) =>
      model[p := UpdateTerms(TermsOf(model, p), Unix(now), oldTTL, newTTL, Unix(now + newTTL))]
    case Clear(p) => model[p := map[]]
    case _ => model
  }

  /** No request touches another peer, a cleared peer has nothing left, and queries, evictions and collections change
      nothing. */
  lemma {:induction false} StepLaws(model: map<Peer, Terms>, r: Request, now: int, q: Peer)
    ensures var model' := Step(model, r, now);
            && (r.Clear? ==> TermsOf(model', r.p) == map[])
            && (r.Query? || r.Evict? || r.PurgeStore? || r.PopulateLookahead? || r.PurgeLookahead? ==> model' == model)
            && ((r.Add? || r.Set? || r.Update? || r.Clear?) && q != r.p ==> TermsOf(model', q) == TermsOf(model, q))
  {
  }
}
