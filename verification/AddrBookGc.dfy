/** The two garbage collectors of pkg/engine/transport/pstoreds/addr_book_gc.go: one visits every record, the other
    only those a lookahead index says are due. */
module AddrBookGc {
  import opened Sequences
  import opened Records
  import opened RecordOps
  import opened AddrBook

  type Store = map<Peer, seq<Entry>>
  type Key = (int, Peer)

  /** The store without what has expired, records left empty removed. */
  ghost function Purged(store: Store, now: int): (r: Store)
  {
    map p | p in store && Live(store[p], now) != [] :: Live(store[p], now)
  }

  ghost predicate NoEmpty(store: Store)
  {
    forall p :: p in store ==> store[p] != []
  }

  lemma {:induction false} PointwisePurged(was: Store, store: Store, now: int)
    requires NoEmpty(store)
    ensures store == Purged(was, now) <==> forall q: Peer :: EntriesOf(store, q) == Live(EntriesOf(was, q), now)
  {
    if forall q: Peer :: EntriesOf(store, q) == Live(EntriesOf(was, q), now) {
      forall q: Peer
        ensures q in store <==> q in Purged(was, now)
        ensures q in store ==> store[q] == Purged(was, now)[q]
      {
        assert EntriesOf(store, q) == Live(EntriesOf(was, q), now);
      }
    }
  }

  /** Purging again later is purging once at the later time. */
  lemma {:induction false} PurgedTwice(store: Store, now: int, later: int)
    requires now <= later
    ensures Purged(Purged(store, now), later) == Purged(store, later)
  {
    var r := Purged(Purged(store, now), later);
    forall q: Peer
      ensures EntriesOf(r, q) == Live(EntriesOf(store, q), later)
    {
      LiveTwice(EntriesOf(store, q), now, later);
    }
    PointwisePurged(store, r, later);
  }

  /** The store part way through purgeStore. */
  ghost predicate PartlyPurged(was: Store, store: Store, todo: set<Peer>, now: int)
  {
    && todo <= store.Keys
    && (forall q :: q in todo ==> EntriesOf(store, q) == EntriesOf(was, q))
    && (forall q :: q !in todo ==> EntriesOf(store, q) == Live(EntriesOf(was, q), now))
  }

  lemma {:induction false} PurgeStep(was: Store, store: Store, todo: set<Peer>, now: int, p: Peer)
    requires PartlyPurged(was, store, todo, now) && p in todo
    ensures PartlyPurged(was, Flushed(store, p, Live(EntriesOf(store, p), now)), todo - {p}, now)
  {
  }

  /** The cache part way through purgeStore: without the records whose stored entries have changed. */
  ghost predicate Evicted(was: Store, todo: set<Peer>, now: int, cache: map<Peer, AddrsRecord>,
                          cache': map<Peer, AddrsRecord>)
  {
    forall p: Peer ::
      && (p in cache' <==> p in cache && (p in todo || p !in was || Live(was[p], now) == was[p]))
      && (p in cache' ==> cache'[p] == cache[p])
  }

  lemma {:induction false} EvictStep(was: Store, todo: set<Peer>, now: int, cache: map<Peer, AddrsRecord>,
                                     cache': map<Peer, AddrsRecord>, p: Peer)
    requires Evicted(was, todo, now, cache, cache') && p in todo && p in was
    ensures Evicted(was, todo - {p}, now, cache, if Live(was[p], now) != was[p] then cache' - {p} else cache')
  {
  }

  /** A purge shows the same addresses as before: both stores show one map. */
  lemma {:induction false} NoLiveAddressLost(was: Store, store: Store, model: map<Peer, Terms>, now: int)
    requires GoodStore(was, model, now) && GoodStore(store, model, now)
    ensures forall q: Peer :: SameUnexpired(EntriesOf(was, q), EntriesOf(store, q), now)
  {
    forall q: Peer
      ensures SameUnexpired(EntriesOf(was, q), EntriesOf(store, q), now)
    {
      assert Good(EntriesOf(was, q), TermsOf(model, q), now) && Good(EntriesOf(store, q), TermsOf(model, q), now);
    }
  }

  // ---------------------------------------------------------------- the lookahead index

  /** The entries the collectors look at: the cached record if there is one, else the stored one. */
  ghost function Seen(views: Store, store: Store, p: Peer): (s: seq<Entry>)
  {
    if p in views then views[p] else EntriesOf(store, p)
  }

  /** Some visit is due no later than the first expiry. */
  ghost predicate Due(s: seq<Entry>, p: Peer, lookahead: set<Key>, windowEnd: int)
  {
    s != [] && s[0].expiry <= windowEnd ==> exists k :: k in lookahead && k.1 == p && k.0 <= s[0].expiry
  }

  /** Every stored record with an expiry inside the window will be visited by then. */
  ghost predicate Covered(views: Store, store: Store, lookahead: set<Key>, windowEnd: int)
  {
    forall p: Peer :: EntriesOf(store, p) != [] ==> Due(Seen(views, store, p), p, lookahead, windowEnd)
  }

  /** The index part way through populateLookahead: what was there, and the first expiry of every record done that
      lies in the window. */
  ghost predicate Populated(index: set<Key>, views: Store, store: Store, todo: set<Peer>, windowEnd: int,
                            lookahead: set<Key>)
  {
    forall k: Key :: k in lookahead <==> k in index || (k.1 !in todo && FirstKey(views, store, windowEnd, k))
  }

  ghost predicate FirstKey(views: Store, store: Store, windowEnd: int, k: Key)
  {
    var s := Seen(views, store, k.1);
    k.1 in store && s != [] && k.0 == s[0].expiry <= windowEnd
  }

  lemma {:induction false} PopulatedCovers(index: set<Key>, views: Store, store: Store, windowEnd: int,
                                           lookahead: set<Key>)
    requires Populated(index, views, store, {}, windowEnd, lookahead)
    ensures Covered(views, store, lookahead, windowEnd)
  {
    forall p: Peer | EntriesOf(store, p) != []
      ensures Due(Seen(views, store, p), p, lookahead, windowEnd)
    {
      var s := Seen(views, store, p);
      if s != [] && s[0].expiry <= windowEnd {
        assert FirstKey(views, store, windowEnd, (s[0].expiry, p));
        assert (s[0].expiry, p) in lookahead;
      }
    }
  }

  /** A visit at this time finds a key of the peer. */
  ghost predicate DueNow(lookahead: set<Key>, p: Peer, now: int)
  {
    exists k :: k in lookahead && k.1 == p && k.0 <= now
  }

  /** dropOrReschedule: the key goes, and comes back with the next expiry if that lies in the window. */
  function Rescheduled(lookahead: set<Key>, key: Key, addrs: seq<Entry>, windowEnd: int): (r: set<Key>)
  {
    lookahead - {key} + (if addrs != [] && addrs[0].expiry <= windowEnd then {(addrs[0].expiry, key.1)} else {})
  }

  /** What a visit leaves in the store: what it looked at without the expired entries, if there were any. */
  ghost function AfterVisit(stored: seq<Entry>, seen: seq<Entry>, now: int): (s: seq<Entry>)
  {
    if Live(seen, now) != seen then Live(seen, now) else stored
  }

  /** Stored and cached entries of a peer after one visit. */
  ghost predicate VisitedAt(visited: Peer, now: int, store: Store, views: Store, store': Store, views': Store, p: Peer)
  {
    && (p in views' <==> p in views)
    && (if p == visited
        then && EntriesOf(store', p) == AfterVisit(EntriesOf(store, p), Seen(views, store, p), now)
             && (p in views ==> views'[p] == Live(views[p], now))
        else && EntriesOf(store', p) == EntriesOf(store, p)
             && (p in views ==> views'[p] == views[p]))
  }

  /** One visit. */
  ghost predicate VisitDone(key: Key, now: int, windowEnd: int, store: Store, views: Store, lookahead: set<Key>,
                            store': Store, views': Store, lookahead': set<Key>)
  {
    && (forall p: Peer :: VisitedAt(key.1, now, store, views, store', views', p))
    && lookahead' == Rescheduled(lookahead, key, Live(Seen(views, store, key.1), now), windowEnd)
  }

  lemma {:induction false} StoredVisit(key: Key, now: int, windowEnd: int, store: Store, views: Store,
                                       lookahead: set<Key>,
                                       store': Store, s: seq<Entry>)
    requires key.1 !in views && s == Live(EntriesOf(store, key.1), now) && store' == Flushed(store, key.1, s)
    ensures VisitDone(key, now, windowEnd, store, views, lookahead, store', views,
                      Rescheduled(lookahead, key, s, windowEnd))
  {
  }

  lemma {:induction false} CachedVisit(key: Key, now: int, windowEnd: int, store: Store, views: Store,
                                       lookahead: set<Key>,
                                       store': Store, s: seq<Entry>)
    requires key.1 in views && s == Live(views[key.1], now)
    requires store' == if s != views[key.1] then Flushed(store, key.1, s) else store
    ensures VisitDone(key, now, windowEnd, store, views, lookahead,
                      store', views[key.1 := s], Rescheduled(lookahead, key, s, windowEnd))
  {
  }

  ghost predicate ByTime(keys: seq<Key>)
  {
    forall i, j :: 0 <= i < j < |keys| ==> keys[i].0 <= keys[j].0
  }

  /** The query for lookahead keys, ordered by timestamp. */
  method QueryByTime(lookahead: set<Key>) returns (keys: seq<Key>)
    ensures ByTime(keys) && forall k :: k in keys <==> k in lookahead
  {
    var time := (k: Key) => k.0;
    keys := [];
    var todo := lookahead;
    while todo != {}
      invariant SortedBy(keys, time) && todo <= lookahead && forall k :: k in keys <==> k in lookahead - todo
      decreases |todo|
    {
      var k :| k in todo;
      ghost var before := keys;
      keys := Insert(keys, k, time);
      SamePermuted(keys, before + [k]);
      todo := todo - {k};
    }
    assert forall i :: 0 <= i < |keys| ==> time(keys[i]) == keys[i].0;
  }

  // ---------------------------------------------------------------- a whole pass

  ghost predicate Visited(keys: seq<Key>, p: Peer)
  {
    exists i :: 0 <= i < |keys| && keys[i].1 == p
  }

  /** Stored and cached entries of a peer after the records of some keys have been visited. */
  ghost predicate SweptAt(visited: bool, now: int, was: Store, views: Store, store: Store, views': Store, p: Peer)
  {
    && EntriesOf(store, p) == (if visited then AfterVisit(EntriesOf(was, p), Seen(views, was, p), now)
        else EntriesOf(was, p))
    && (p in views' <==> p in views)
    && (p in views ==> views'[p] == if visited then Live(views[p], now) else views[p])
  }

  ghost predicate Swept(keys: seq<Key>, now: int, was: Store, views: Store, store: Store, views': Store)
  {
    forall p: Peer :: SweptAt(Visited(keys, p), now, was, views, store, views', p)
  }

  lemma {:induction false} SweptNothing(keys: seq<Key>, now: int, was: Store, views: Store)
    ensures Swept(keys[..0], now, was, views, was, views)
  {
    assert keys[..0] == [];
  }

  lemma {:induction false} SeenAfter(visited: bool, now: int, was: Store, views: Store, store: Store, views': Store,
                                     p: Peer)
    requires SweptAt(visited, now, was, views, store, views', p)
    ensures Seen(views', store, p) == if visited then Live(Seen(views, was, p), now) else Seen(views, was, p)
  {
  }

  lemma {:induction false} VisitedMore(keys: seq<Key>, key: Key)
    ensures forall q: Peer :: Visited(keys + [key], q) <==> Visited(keys, q) || q == key.1
  {
    var more := keys + [key];
    assert more[|keys|].1 == key.1;
    forall q: Peer | Visited(keys, q)
      ensures Visited(more, q)
    {
      var i :| 0 <= i < |keys| && keys[i].1 == q;
      assert more[i].1 == q;
    }
  }

  /** A second visit of a record finds nothing to do. */
  lemma {:induction false} VisitAgain(stored: seq<Entry>, seen: seq<Entry>, now: int)
    ensures Live(Live(seen, now), now) == Live(seen, now)
    ensures AfterVisit(AfterVisit(stored, seen, now), Live(seen, now), now) == AfterVisit(stored, seen, now)
  {
    LiveTwice(seen, now, now);
  }

  lemma {:induction false} SweepStepHere(visited: bool, key: Key, now: int, windowEnd: int, was: Store, views: Store,
                                         store: Store, views': Store, lookahead: set<Key>,
                                         store'': Store, views'': Store, lookahead'': set<Key>)
    requires SweptAt(visited, now, was, views, store, views', key.1)
    requires VisitDone(key, now, windowEnd, store, views', lookahead, store'', views'', lookahead'')
    ensures SweptAt(true, now, was, views, store'', views'', key.1)
  {
    VisitAgain(EntriesOf(was, key.1), Seen(views, was, key.1), now);
    assert VisitedAt(key.1, now, store, views', store'', views'', key.1);
    SeenAfter(visited, now, was, views, store, views', key.1);
  }

  /** One more visit. */
  lemma {:induction false} SweepStep(keys: seq<Key>, key: Key, now: int, windowEnd: int, was: Store, views: Store,
                                     store: Store, views': Store, lookahead: set<Key>,
                                     store'': Store, views'': Store, lookahead'': set<Key>)
    requires Swept(keys, now, was, views, store, views')
    requires VisitDone(key, now, windowEnd, store, views', lookahead, store'', views'', lookahead'')
    ensures Swept(keys + [key], now, was, views, store'', views'')
  {
    VisitedMore(keys, key);
    forall p: Peer
      ensures SweptAt(Visited(keys + [key], p), now, was, views, store'', views'', p)
    {
      assert SweptAt(Visited(keys, p), now, was, views, store, views', p);
      assert VisitedAt(key.1, now, store, views', store'', views'', p);
      if p == key.1 {
        SweepStepHere(Visited(keys, p), key, now, windowEnd, was, views, store, views', lookahead, store'', views'',
                      lookahead'');
      }
    }
  }

  /** The keys before i are due, the one at i is not. */
  ghost predicate AtFirst(keys: seq<Key>, i: nat, now: int)
  {
    i <= |keys| && (forall j :: 0 <= j < i ==> keys[j].0 <= now) && (i < |keys| ==> keys[i].0 > now)
  }

  /** Everything behind the first key that is not due is not due either. */
  lemma {:induction false} VisitedIsDue(keys: seq<Key>, i: nat, now: int, lookahead: set<Key>, p: Peer)
    requires AtFirst(keys, i, now) && ByTime(keys) && forall k :: k in keys <==> k in lookahead
    ensures Visited(keys[..i], p) <==> DueNow(lookahead, p, now)
  {
    if Visited(keys[..i], p) {
      var j :| 0 <= j < i && keys[..i][j].1 == p;
      assert keys[j] in keys;
    }
    if DueNow(lookahead, p, now) {
      var k :| k in lookahead && k.1 == p && k.0 <= now;
      var j :| 0 <= j < |keys| && keys[j] == k;
      assert keys[..i][j].1 == p;
    }
  }

  /** Store and cache after purgeLookahead: exactly the records with a due key have been visited. */
  ghost predicate DueVisited(lookahead: set<Key>, now: int, was: Store, views: Store, store: Store, views': Store)
  {
    forall p: Peer :: SweptAt(DueNow(lookahead, p, now), now, was, views, store, views', p)
  }

  /** The key under which a visit puts a record back: its next expiry, if that lies in the window. */
  ghost predicate NextKey(views: Store, was: Store, now: int, windowEnd: int, k: Key)
  {
    var s := Live(Seen(views, was, k.1), now);
    s != [] && k.0 == s[0].expiry <= windowEnd
  }

  lemma {:induction false} NextIsLater(views: Store, was: Store, now: int, windowEnd: int, k: Key)
    requires NextKey(views, was, now, windowEnd, k)
    ensures k.0 > now
  {
    var s := Live(Seen(views, was, k.1), now);
    LiveMembers(Seen(views, was, k.1), now);
    assert s[0] in s;
  }

  /** The index after some keys have been visited: without them, and with the next keys of their records. */
  ghost predicate IndexedAt(keys: seq<Key>, now: int, windowEnd: int, was: Store, views: Store, index: set<Key>,
                            lookahead: set<Key>, k: Key)
  {
    k in lookahead <==> (k in index && k !in keys) || (Visited(keys, k.1) && NextKey(views, was, now, windowEnd, k))
  }

  ghost predicate Indexed(keys: seq<Key>, now: int, windowEnd: int, was: Store, views: Store, index: set<Key>,
                          lookahead: set<Key>)
  {
    forall k: Key :: IndexedAt(keys, now, windowEnd, was, views, index, lookahead, k)
  }

  lemma {:induction false} IndexStep(keys: seq<Key>, key: Key, now: int, windowEnd: int, was: Store, views: Store,
                                     index: set<Key>, lookahead: set<Key>, lookahead': set<Key>)
    requires Indexed(keys, now, windowEnd, was, views, index, lookahead) && key.0 <= now
    requires lookahead' == Rescheduled(lookahead, key, Live(Seen(views, was, key.1), now), windowEnd)
    ensures Indexed(keys + [key], now, windowEnd, was, views, index, lookahead')
  {
    VisitedMore(keys, key);
    forall k: Key
      ensures IndexedAt(keys + [key], now, windowEnd, was, views, index, lookahead', k)
    {
      assert IndexedAt(keys, now, windowEnd, was, views, index, lookahead, k);
      if NextKey(views, was, now, windowEnd, k) {
        NextIsLater(views, was, now, windowEnd, k);
      }
      assert k in lookahead'
             <==> (k in lookahead && k != key) || (k.1 == key.1 && NextKey(views, was, now, windowEnd, k));
    }
  }

  lemma {:induction false} IndexedNothing(keys: seq<Key>, now: int, windowEnd: int, was: Store, views: Store,
                                          index: set<Key>)
    ensures Indexed(keys[..0], now, windowEnd, was, views, index, index)
  {
    assert keys[..0] == [];
  }

  /** One more visit, in store, cache and index. */
  lemma {:induction false} OneMoreVisit(keys: seq<Key>, key: Key, now: int, windowEnd: int, was: Store, first: Store,
                                        store: Store, views: Store, index: set<Key>, lookahead: set<Key>,
                                        store': Store, views': Store, lookahead': set<Key>)
    requires Swept(keys, now, was, first, store, views) && key.0 <= now
    requires Indexed(keys, now, windowEnd, was, first, index, lookahead)
    requires VisitDone(key, now, windowEnd, store, views, lookahead, store', views', lookahead')
    ensures Swept(keys + [key], now, was, first, store', views')
    ensures Indexed(keys + [key], now, windowEnd, was, first, index, lookahead')
  {
    SweepStep(keys, key, now, windowEnd, was, first, store, views, lookahead, store', views', lookahead');
    assert SweptAt(Visited(keys, key.1), now, was, first, store, views, key.1);
    SeenAfter(Visited(keys, key.1), now, was, first, store, views, key.1);
    VisitAgain(EntriesOf(was, key.1), Seen(first, was, key.1), now);
    IndexStep(keys, key, now, windowEnd, was, first, index, lookahead, lookahead');
  }

  /** The index after purgeLookahead: the keys that are not due yet, and the next key of every record visited. */
  ghost predicate Reindexed(index: set<Key>, now: int, windowEnd: int, was: Store, views: Store, lookahead: set<Key>)
  {
    forall k: Key ::
      k in lookahead
      <==> (k in index && k.0 > now) || (DueNow(index, k.1, now) && NextKey(views, was, now, windowEnd, k))
  }

  lemma {:induction false} IndexedIsRe(keys: seq<Key>, i: nat, now: int, windowEnd: int, was: Store, views: Store,
                                       index: set<Key>, lookahead: set<Key>)
    requires AtFirst(keys, i, now) && ByTime(keys) && forall k :: k in keys <==> k in index
    requires Indexed(keys[..i], now, windowEnd, was, views, index, lookahead)
    ensures Reindexed(index, now, windowEnd, was, views, lookahead)
  {
    forall k: Key
      ensures k in lookahead
              <==> (k in index && k.0 > now) || (DueNow(index, k.1, now) && NextKey(views, was, now, windowEnd, k))
    {
      assert IndexedAt(keys[..i], now, windowEnd, was, views, index, lookahead, k);
      VisitedIsDue(keys, i, now, index, k.1);
      if k in index {
        var j :| 0 <= j < |keys| && keys[j] == k;
        assert j < i ==> keys[..i][j] == k;
        assert j >= i ==> k.0 > now;
      }
    }
  }

  /** Nothing due stays in the index. */
  lemma {:induction false} NoDueKeyStays(index: set<Key>, now: int, windowEnd: int, was: Store, views: Store,
                                         lookahead: set<Key>)
    requires Reindexed(index, now, windowEnd, was, views, lookahead)
    ensures forall k :: k in lookahead ==> k.0 > now
  {
    forall k | k in lookahead
      ensures k.0 > now
    {
      if NextKey(views, was, now, windowEnd, k) {
        NextIsLater(views, was, now, windowEnd, k);
      }
    }
  }

  /** A pass keeps the window covered. */
  lemma {:induction false} PassKeepsCover(index: set<Key>, now: int, windowEnd: int, was: Store, views: Store,
                                          store: Store, views': Store, lookahead: set<Key>)
    requires Covered(views, was, index, windowEnd) && DueVisited(index, now, was, views, store, views')
    requires Reindexed(index, now, windowEnd, was, views, lookahead)
    ensures Covered(views', store, lookahead, windowEnd)
  {
    forall p: Peer | EntriesOf(store, p) != []
      ensures Due(Seen(views', store, p), p, lookahead, windowEnd)
    {
      var s := Seen(views', store, p);
      assert SweptAt(DueNow(index, p, now), now, was, views, store, views', p);
      SeenAfter(DueNow(index, p, now), now, was, views, store, views', p);
      if s != [] && s[0].expiry <= windowEnd {
        if DueNow(index, p, now) {
          assert NextKey(views, was, now, windowEnd, (s[0].expiry, p));
          assert (s[0].expiry, p) in lookahead;
        } else {
          assert Due(s, p, index, windowEnd);
          var k :| k in index && k.1 == p && k.0 <= s[0].expiry;
          assert k in lookahead;
        }
      }
    }
  }

  /** A cached record still has what it takes to purge its stored one: either it has expired entries and the same live
      ones, or nothing stored has expired. A record that was cleaned in the cache alone fails this. */
  ghost predicate InStep(was: Store, views: Store, now: int)
  {
    forall p :: p in was && p in views ==>
      if Live(views[p], now) != views[p] then Live(views[p], now) == Live(was[p], now) else Live(was[p], now) == was[p]
  }

  /** What has no stored entries has no live ones in the cache. */
  ghost predicate Backed(was: Store, views: Store, now: int)
  {
    forall p :: p in views && EntriesOf(was, p) == [] ==> Live(views[p], now) == []
  }

  ghost predicate AllSorted(store: Store)
  {
    forall p :: p in store ==> Sorted(store[p])
  }

  /** With the index covering the window, a visit happens wherever one is needed. */
  lemma {:induction false} CoverVisits(lookahead: set<Key>, windowEnd: int, now: int, was: Store, views: Store, p: Peer)
    requires Covered(views, was, lookahead, windowEnd) && now <= windowEnd && EntriesOf(was, p) != []
    requires Sorted(Seen(views, was, p)) && !DueNow(lookahead, p, now)
    ensures Live(Seen(views, was, p), now) == Seen(views, was, p)
  {
    var s := Seen(views, was, p);
    assert Due(s, p, lookahead, windowEnd);
    NothingExpired(s, now);
  }

  /** A pass inside the covered window leaves the purged store if and only if the cache is in step. */
  lemma {:induction false} PassIsPurge(lookahead: set<Key>, windowEnd: int, now: int, was: Store, views: Store,
                                       store: Store, views': Store)
    requires DueVisited(lookahead, now, was, views, store, views') && Covered(views, was, lookahead, windowEnd)
    requires now <= windowEnd && NoEmpty(store) && NoEmpty(was) && AllSorted(was) && AllSorted(views)
             && Backed(was, views, now)
    ensures store == Purged(was, now) <==> InStep(was, views, now)
  {
    PointwisePurged(was, store, now);
    forall p: Peer
      ensures EntriesOf(store, p) == AfterVisit(EntriesOf(was, p), Seen(views, was, p), now) || EntriesOf(was, p) == []
      ensures EntriesOf(was, p) == [] ==> EntriesOf(store, p) == []
    {
      assert SweptAt(DueNow(lookahead, p, now), now, was, views, store, views', p);
      if EntriesOf(was, p) != [] && !DueNow(lookahead, p, now) {
        CoverVisits(lookahead, windowEnd, now, was, views, p);
      }
    }
    if InStep(was, views, now) {
      forall p: Peer
        ensures EntriesOf(store, p) == Live(EntriesOf(was, p), now)
      {
      }
    } else {
      var p :| p in was && p in views &&
        !(if Live(views[p], now) != views[p] then Live(views[p], now) == Live(was[p], now)
            else Live(was[p], now) == was[p]);
      assert EntriesOf(store, p) != Live(EntriesOf(was, p), now);
    }
  }

  /** Every cached record equals the stored one, as in a book without a cache or one just filled. */
  ghost predicate Mirrors(store: Store, views: Store)
  {
    forall p :: p in views ==> views[p] == EntriesOf(store, p)
  }

  lemma {:induction false} MirrorsStay(lookahead: set<Key>, now: int, was: Store, views: Store, store: Store,
                                       views': Store)
    requires DueVisited(lookahead, now, was, views, store, views') && Mirrors(was, views)
    ensures Mirrors(store, views') && InStep(was, views, now)
  {
    forall p | p in views'
      ensures views'[p] == EntriesOf(store, p)
    {
      assert SweptAt(DueNow(lookahead, p, now), now, was, views, store, views', p);
    }
  }

  lemma {:induction false} SweptIsDue(keys: seq<Key>, i: nat, now: int, lookahead: set<Key>, was: Store, views: Store,
                                       store: Store, views': Store)
    requires AtFirst(keys, i, now) && ByTime(keys) && forall k :: k in keys <==> k in lookahead
    requires Swept(keys[..i], now, was, views, store, views')
    ensures DueVisited(lookahead, now, was, views, store, views')
  {
    forall p: Peer
      ensures SweptAt(DueNow(lookahead, p, now), now, was, views, store, views', p)
    {
      VisitedIsDue(keys, i, now, lookahead, p);
      assert SweptAt(Visited(keys[..i], p), now, was, views, store, views', p);
    }
  }

  /** What a valid book guarantees of its store and its cached records. */
  lemma {:induction false} BookFacts(store: Store, views: Store, model: map<Peer, Terms>, now: int)
    requires GoodStore(store, model, now) && forall p :: p in views ==> Good(views[p], TermsOf(model, p), now)
    ensures NoEmpty(store) && AllSorted(store) && AllSorted(views) && Backed(store, views, now)
  {
    forall p | p in store
      ensures Sorted(store[p])
    {
      assert Good(EntriesOf(store, p), TermsOf(model, p), now);
    }
    forall p | p in views && EntriesOf(store, p) == []
      ensures Live(views[p], now) == []
    {
      assert Good(EntriesOf(store, p), TermsOf(model, p), now);
      LiveMembers(views[p], now);
      if Live(views[p], now) != [] {
        assert Live(views[p], now)[0] in Live(views[p], now);
      }
    }
  }

  class Gc {
    const ab: Book
    /** GCLookaheadInterval; zero turns the lookahead off. */
    const interval: int
    var currWindowEnd: int

    constructor (ab: Book, interval: int)
      ensures this.ab == ab && this.interval == interval && currWindowEnd == 0
    {
      this.ab, this.interval, currWindowEnd := ab, interval, 0;
    }

    /** Cleans a stored record and writes it back if that changed it. */
    method CleanStored(p: Peer, sec: int) returns (record: AddrsRecord, chgd: bool)
      requires ab.Valid() && sec == ab.clock && p in ab.store
      modifies ab`store
      ensures ab.Valid() && fresh(record) && record.addrs == Live(old(ab.store)[p], sec)
      ensures ab.store == Flushed(old(ab.store), p, record.addrs) && (chgd <==> record.addrs != old(ab.store)[p])
    {
      var stored := ab.store[p];
      assert EntriesOf(ab.store, p) == stored && Good(stored, TermsOf(ab.model, p), sec);
      record := new AddrsRecord(p, stored, false);
      chgd := record.Clean(sec);
      ShowsSame(stored, record.addrs, TermsOf(ab.model, p), sec);
      FlushKeepsStore(ab.store, ab.model, ab.model, sec, p, record.addrs);
      if chgd {
        ab.Flush(record);
      }
    }

    /** One record of purgeStore. */
    method PurgeOne(p: Peer, sec: int)
      requires ab.Valid() && sec == ab.clock && p in ab.store
      modifies ab`store, ab`cache
      ensures ab.Valid() && ab.store == Flushed(old(ab.store), p, Live(old(ab.store)[p], sec))
      ensures ab.cache == if Live(old(ab.store)[p], sec) != old(ab.store)[p] then old(ab.cache) - {p} else old(ab.cache)
    {
      var record, chgd := CleanStored(p, sec);
      if chgd {
        ab.Evict(p);
      }
    }

    /** purgeStore: visits every record; leaves the purged store and never touches what the book answers. */
    method PurgeStore(now: int)
      requires ab.Valid() && ab.clock <= Unix(now)
      modifies ab`store, ab`cache, ab`clock
      ensures ab.Valid() && ab.clock == Unix(now) && ab.cache.Values <= old(ab.cache.Values)
      ensures ab.store == Purged(old(ab.store), Unix(now))
      ensures Evicted(old(ab.store), {}, Unix(now), old(ab.cache), ab.cache)
      ensures forall q: Peer :: SameUnexpired(EntriesOf(old(ab.store), q), EntriesOf(ab.store, q), Unix(now))
    {
      ab.Tick(Unix(now));
      ghost var was := ab.store;
      PurgeAll(Unix(now));
      NoLiveAddressLost(was, ab.store, ab.model, Unix(now));
    }

    method PurgeAll(sec: int)
      requires ab.Valid() && ab.clock == sec
      modifies ab`store, ab`cache
      ensures ab.Valid() && ab.store == Purged(old(ab.store), sec)
      ensures Evicted(old(ab.store), {}, sec, old(ab.cache), ab.cache)
    {
      ghost var was, cache := ab.store, ab.cache;
      var todo := ab.store.Keys;
      while todo != {}
        invariant ab.Valid() && PartlyPurged(was, ab.store, todo, sec) && Evicted(was, todo, sec, cache, ab.cache)
        decreases |todo|
      {
        var p :| p in todo;
        PurgeStep(was, ab.store, todo, sec, p);
        EvictStep(was, todo, sec, cache, ab.cache, p);
        PurgeOne(p, sec);
        todo := todo - {p};
      }
      PointwisePurged(was, ab.store, sec);
    }

    /** populateLookahead: index every record that expires inside the window. */
    method PopulateLookahead(now: int, ghost views: Store)
      requires ab.Valid() && ab.clock <= Unix(now) && ab.Caches(views)
      modifies this, ab`lookahead
      ensures interval == 0 ==> currWindowEnd == old(currWindowEnd) && ab.lookahead == old(ab.lookahead)
      ensures interval != 0 ==> currWindowEnd == Unix(now + interval)
      ensures interval != 0 ==> Covered(views, ab.store, ab.lookahead, currWindowEnd)
      ensures interval != 0 ==> Populated(old(ab.lookahead), views, ab.store, {}, currWindowEnd, ab.lookahead)
    {
      if interval == 0 {
        return;
      }
      var until := Unix(now + interval);
      var todo := ab.store.Keys;
      while todo != {}
        invariant todo <= ab.store.Keys && Populated(old(ab.lookahead), views, ab.store, todo, until, ab.lookahead)
        decreases |todo|
      {
        var p :| p in todo;
        var addrs := if p in ab.cache then ab.cache[p].addrs else ab.store[p];
        if addrs != [] && addrs[0].expiry <= until {
          ab.lookahead := ab.lookahead + {(addrs[0].expiry, p)};
        }
        todo := todo - {p};
      }
      currWindowEnd := until;
      PopulatedCovers(old(ab.lookahead), views, ab.store, until, ab.lookahead);
    }

    /** dropOrReschedule */
    method DropOrReschedule(key: Key, addrs: seq<Entry>, ghost views: Store)
      requires ab.Valid() && ab.Caches(views)
      modifies ab`lookahead
      ensures ab.Valid() && ab.Caches(views)
      ensures ab.lookahead == Rescheduled(old(ab.lookahead), key, addrs, currWindowEnd)
    {
      ab.lookahead := ab.lookahead - {key};
      if addrs != [] && addrs[0].expiry <= currWindowEnd {
        ab.lookahead := ab.lookahead + {(addrs[0].expiry, key.1)};
      }
    }

    method CleanIfStored(p: Peer, sec: int) returns (addrs: seq<Entry>)
      requires ab.Valid() && sec == ab.clock
      modifies ab`store
      ensures ab.Valid() && addrs == Live(EntriesOf(old(ab.store), p), sec)
      ensures ab.store == Flushed(old(ab.store), p, addrs)
    {
      addrs := [];
      if p in ab.store {
        var record, _ := CleanStored(p, sec);
        addrs := record.addrs;
      }
    }

    /** One due key of purgeLookahead whose peer is not cached; the key of an unknown peer is dropped. */
    method VisitStored(key: Key, sec: int, ghost views: Store)
      requires ab.Valid() && sec == ab.clock && ab.Caches(views) && key.1 !in ab.cache
      modifies ab`store, ab`lookahead
      ensures ab.Valid() && ab.Caches(views)
      ensures VisitDone(key, sec, currWindowEnd, old(ab.store), views, old(ab.lookahead), ab.store, views, ab.lookahead)
    {
      ghost var store, lookahead := ab.store, ab.lookahead;
      var addrs := CleanIfStored(key.1, sec);
      StoredVisit(key, sec, currWindowEnd, store, views, lookahead, ab.store, addrs);
      DropOrReschedule(key, addrs, views);
    }

    /** Cleans a cached record; the store is written only if that changes it. */
    method CleanCached(p: Peer, sec: int, ghost views: Store) returns (cached: AddrsRecord)
      requires ab.Valid() && sec == ab.clock && p in ab.cache && ab.Caches(views)
      modifies ab`store, ab.cache[p]
      ensures ab.Valid() && cached.addrs == Live(views[p], sec) && ab.Caches(views[p := cached.addrs])
      ensures ab.store == if cached.addrs != views[p] then Flushed(old(ab.store), p, cached.addrs) else old(ab.store)
    {
      assert forall q: Peer :: (q in ab.cache <==> q in views) && (q in ab.cache ==> ab.cache[q].addrs == views[q]);
      cached := ab.LoadCached(p, true, sec);
      ab.CachesOther(views, p, Live(views[p], sec));
    }

    /** One due key whose peer is cached. */
    method VisitCached(key: Key, sec: int, ghost views: Store) returns (ghost views': Store)
      requires ab.Valid() && sec == ab.clock && key.1 in ab.cache && ab.Caches(views)
      modifies ab`store, ab`lookahead, ab.cache[key.1]
      ensures ab.Valid() && ab.Caches(views')
      ensures VisitDone(key, sec, currWindowEnd, old(ab.store), views, old(ab.lookahead), ab.store, views',
                        ab.lookahead)
    {
      ghost var store, lookahead := ab.store, ab.lookahead;
      var cached := CleanCached(key.1, sec, views);
      views' := views[key.1 := cached.addrs];
      CachedVisit(key, sec, currWindowEnd, store, views, lookahead, ab.store, cached.addrs);
      DropOrReschedule(key, cached.addrs, views');
    }

    method Visit(key: Key, sec: int, ghost views: Store) returns (ghost views': Store)
      requires ab.Valid() && sec == ab.clock && ab.Caches(views)
      modifies ab`store, ab`lookahead, ab.cache.Values
      ensures ab.Valid() && ab.Caches(views')
      ensures VisitDone(key, sec, currWindowEnd, old(ab.store), views, old(ab.lookahead), ab.store, views',
                        ab.lookahead)
    {
      if key.1 in ab.cache {
        views' := VisitCached(key, sec, views);
      } else {
        VisitStored(key, sec, views);
        views' := views;
      }
    }

    method VisitNext(keys: seq<Key>, i: nat, sec: int, ghost was: Store, ghost first: Store, ghost index: set<Key>,
                     ghost views: Store)
      returns (ghost views': Store)
      requires ab.Valid() && sec == ab.clock && ab.Caches(views) && i < |keys| && keys[i].0 <= sec
      requires Swept(keys[..i], sec, was, first, ab.store, views)
      requires Indexed(keys[..i], sec, currWindowEnd, was, first, index, ab.lookahead)
      modifies ab`store, ab`lookahead, ab.cache.Values
      ensures ab.Valid() && ab.Caches(views') && Swept(keys[..i + 1], sec, was, first, ab.store, views')
      ensures Indexed(keys[..i + 1], sec, currWindowEnd, was, first, index, ab.lookahead)
    {
      ghost var store, lookahead := ab.store, ab.lookahead;
      views' := Visit(keys[i], sec, views);
      assert keys[..i + 1] == keys[..i] + [keys[i]];
      OneMoreVisit(keys[..i], keys[i], sec, currWindowEnd, was, first, store, views, index, lookahead,
                   ab.store, views', ab.lookahead);
    }

    /** The loop of purgeLookahead: an ordered cursor, left at the first key that is not due. */
    method VisitAll(keys: seq<Key>, sec: int, ghost views: Store) returns (i: nat, ghost views': Store)
      requires ab.Valid() && sec == ab.clock && ab.Caches(views)
      modifies ab`store, ab`lookahead, ab.cache.Values
      ensures ab.Valid() && ab.Caches(views')
      ensures AtFirst(keys, i, sec) && Swept(keys[..i], sec, old(ab.store), views, ab.store, views')
      ensures Indexed(keys[..i], sec, currWindowEnd, old(ab.store), views, old(ab.lookahead), ab.lookahead)
    {
      ghost var was, index := ab.store, ab.lookahead;
      i, views' := 0, views;
      SweptNothing(keys, sec, was, views);
      IndexedNothing(keys, sec, currWindowEnd, was, views, index);
      while i < |keys| && keys[i].0 <= sec
        invariant ab.Valid() && ab.Caches(views') && i <= |keys| && forall j :: 0 <= j < i ==> keys[j].0 <= sec
        invariant Swept(keys[..i], sec, was, views, ab.store, views')
        invariant Indexed(keys[..i], sec, currWindowEnd, was, views, index, ab.lookahead)
      {
        views' := VisitNext(keys, i, sec, was, views, index, views');
        i := i + 1;
      }
    }

    /** purgeLookahead: exactly the records with a due key are visited. With the index covering the window it leaves
        what purgeStore leaves if and only if the cache is in step with the store. */
    method PurgeLookahead(now: int, ghost views: Store) returns (ghost views': Store)
      requires ab.Valid() && ab.clock <= Unix(now) && ab.Caches(views)
      modifies ab`store, ab`lookahead, ab`clock, ab.cache.Values
      ensures ab.Valid() && ab.clock == Unix(now) && ab.Caches(views')
      ensures forall q: Peer :: SameUnexpired(EntriesOf(old(ab.store), q), EntriesOf(ab.store, q), Unix(now))
      ensures DueVisited(old(ab.lookahead), Unix(now), old(ab.store), views, ab.store, views')
      ensures Reindexed(old(ab.lookahead), Unix(now), currWindowEnd, old(ab.store), views, ab.lookahead)
      ensures forall k :: k in ab.lookahead ==> k.0 > Unix(now)
      ensures Covered(views, old(ab.store), old(ab.lookahead), currWindowEnd) ==>
                && Covered(views', ab.store, ab.lookahead, currWindowEnd)
                && (Unix(now) <= currWindowEnd ==>
                      (ab.store == Purged(old(ab.store), Unix(now)) <==> InStep(old(ab.store), views, Unix(now))))
    {
      var sec := Unix(now);
      ab.Tick(sec);
      ghost var was, index := ab.store, ab.lookahead;
      BookFacts(was, views, ab.model, sec);
      views' := VisitDue(sec, views);
      NoLiveAddressLost(was, ab.store, ab.model, sec);
      NoDueKeyStays(index, sec, currWindowEnd, was, views, ab.lookahead);
      if Covered(views, was, index, currWindowEnd) {
        PassKeepsCover(index, sec, currWindowEnd, was, views, ab.store, views', ab.lookahead);
        if sec <= currWindowEnd {
          PassIsPurge(index, currWindowEnd, sec, was, views, ab.store, views');
        }
      }
    }

    /** The query for the keys, and the loop over them. */
    method VisitDue(sec: int, ghost views: Store) returns (ghost views': Store)
      requires ab.Valid() && sec == ab.clock && ab.Caches(views)
      modifies ab`store, ab`lookahead, ab.cache.Values
      ensures ab.Valid() && ab.Caches(views')
      ensures DueVisited(old(ab.lookahead), sec, old(ab.store), views, ab.store, views')
      ensures Reindexed(old(ab.lookahead), sec, currWindowEnd, old(ab.store), views, ab.lookahead)
    {
      ghost var was, index := ab.store, ab.lookahead;
      var keys := QueryByTime(ab.lookahead);
      var i, after := VisitAll(keys, sec, views);
      views' := after;
      SweptIsDue(keys, i, sec, index, was, views, ab.store, views');
      IndexedIsRe(keys, i, sec, currWindowEnd, was, views, index, ab.lookahead);
    }
  }

  ghost predicate Ordered(times: seq<int>)
  {
    forall i, j :: 0 <= i < j < |times| ==> Unix(times[i]) <= Unix(times[j])
  }

  /** One purgeLookahead inside the window. */
  method SweepOnce(gc: Gc, now: int, ghost views: Store) returns (ghost views': Store)
    requires gc.ab.Valid() && gc.ab.Caches(views) && Mirrors(gc.ab.store, views)
    requires gc.ab.clock <= Unix(now) <= gc.currWindowEnd
    requires Covered(views, gc.ab.store, gc.ab.lookahead, gc.currWindowEnd)
    modifies gc.ab`store, gc.ab`lookahead, gc.ab`clock, gc.ab.cache.Values
    ensures gc.ab.Valid() && gc.ab.clock == Unix(now) && gc.ab.Caches(views') && Mirrors(gc.ab.store, views')
    ensures gc.ab.cache == old(gc.ab.cache) && gc.ab.model == old(gc.ab.model)
    ensures Covered(views', gc.ab.store, gc.ab.lookahead, gc.currWindowEnd)
    ensures gc.ab.store == Purged(old(gc.ab.store), Unix(now))
  {
    ghost var was, index := gc.ab.store, gc.ab.lookahead;
    views' := gc.PurgeLookahead(now, views);
    MirrorsStay(index, Unix(now), was, views, gc.ab.store, views');
  }

  /** A book left alone after populateLookahead, its cached records equal to the stored ones: any number of
      purgeLookahead calls inside the window leave the store that a single purgeStore at the last of them would
      leave. */
  method Sweep(gc: Gc, start: int, times: seq<int>, ghost views: Store) returns (ghost views': Store)
    requires gc.ab.Valid() && gc.ab.Caches(views) && Mirrors(gc.ab.store, views)
    requires gc.interval != 0 && gc.ab.clock <= Unix(start)
    requires Ordered([start] + times) && forall t :: t in times ==> Unix(t) <= Unix(start + gc.interval)
    modifies gc, gc.ab, gc.ab.cache.Values
    ensures gc.ab.Valid() && gc.ab.model == old(gc.ab.model) && gc.ab.Caches(views') && Mirrors(gc.ab.store, views')
    ensures gc.ab.store == if times == [] then old(gc.ab.store) else Purged(old(gc.ab.store), Unix(times[|times| - 1]))
  {
    ghost var was := gc.ab.store;
    gc.PopulateLookahead(start, views);
    views' := views;
    for i := 0 to |times|
      invariant gc.ab.Valid() && gc.ab.cache == old(gc.ab.cache) && gc.ab.model == old(gc.ab.model)
      invariant gc.ab.clock <= Unix(([start] + times)[i]) && gc.currWindowEnd == Unix(start + gc.interval)
      invariant gc.ab.Caches(views') && Mirrors(gc.ab.store, views')
      invariant Covered(views', gc.ab.store, gc.ab.lookahead, gc.currWindowEnd)
      invariant gc.ab.store == if i == 0 then was else Purged(was, Unix(times[i - 1]))
    {
      assert ([start] + times)[i + 1] == times[i];
      views' := SweepOnce(gc, times[i], views');
      if i > 0 {
        assert ([start] + times)[i] == times[i - 1];
        PurgedTwice(was, Unix(times[i - 1]), Unix(times[i]));
      }
    }
  }

  /** A cache out of step, from an empty book: an address is added for five seconds; ten seconds later its record is
      loaded without being saved, as by every caller but a query, and the lookahead collector runs over it. The expired
      entry is still in the store. */
  method StaleRun(p: Peer, a: Addr) returns (gc: Gc, ghost was: Store)
    ensures gc.ab.Valid() && gc.ab.store != Purged(was, 10)
  {
    var ab := new Book(true, 0);
    gc := new Gc(ab, 1_000_000_000);
    ab.AddAddrs(p, [a], 5_000_000_000, 0);
    ghost var m := ab.model[p];
    was := ab.store;
    assert m[a] == Term(5_000_000_000, 5);
    AddedIsStored(was, ab.model, ab.clock, p, a);
    StaleStays(gc, p, 10_000_000_000, ab.Views());
  }

  lemma {:induction false} AddedIsStored(store: Store, model: map<Peer, Terms>, now: int, p: Peer, a: Addr)
    requires GoodStore(store, model, now) && p in model && a in model[p] && now < model[p][a].expiry <= 10
    ensures p in store && Live(store[p], 10) != store[p]
  {
    assert Good(EntriesOf(store, p), TermsOf(model, p), now);
    var e := Entry(a, model[p][a].ttl, model[p][a].expiry);
    assert e in EntriesOf(store, p);
    LiveMembers(store[p], 10);
    assert e !in Live(store[p], 10);
  }

  /** In any valid book: a cached record is loaded without being saved after something stored has expired. The lookahead
      collector then finds nothing to do in the cached record and leaves the expired entries in the store. */
  method StaleStays(gc: Gc, p: Peer, now: int, ghost views: Store)
    requires gc.ab.Valid() && gc.ab.Caches(views) && gc.ab.clock <= Unix(now) && gc.interval > 0
    requires p in gc.ab.cache && p in gc.ab.store && Live(gc.ab.store[p], Unix(now)) != gc.ab.store[p]
    modifies gc, gc.ab, gc.ab.cache.Values
    ensures gc.ab.Valid() && gc.ab.store != Purged(old(gc.ab.store), Unix(now))
  {
    ghost var after := views[p := Live(views[p], Unix(now))];
    LoadUnsaved(gc, p, Unix(now), views);
    OutOfStep(gc.ab.store, views, after, p, Unix(now));
    CollectOutOfStep(gc, now, after);
  }

  /** Both halves of the lookahead collector over a cache out of step. */
  method CollectOutOfStep(gc: Gc, now: int, ghost views: Store)
    requires gc.ab.Valid() && gc.ab.Caches(views) && gc.ab.clock <= Unix(now) && gc.interval > 0
    requires !InStep(gc.ab.store, views, Unix(now))
    modifies gc, gc.ab`store, gc.ab`lookahead, gc.ab`clock, gc.ab.cache.Values
    ensures gc.ab.Valid() && gc.ab.store != Purged(old(gc.ab.store), Unix(now))
  {
    gc.PopulateLookahead(now, views);
    LaterUnix(now, gc.interval);
    ghost var _ := gc.PurgeLookahead(now, views);
  }

  /** loadRecord of a cached record without update. */
  method LoadUnsaved(gc: Gc, p: Peer, sec: int, ghost views: Store)
    requires gc.ab.Valid() && gc.ab.Caches(views) && gc.ab.clock <= sec && p in gc.ab.cache
    modifies gc.ab`store, gc.ab`clock, gc.ab.cache[p]
    ensures gc.ab.Valid() && gc.ab.clock == sec && gc.ab.store == old(gc.ab.store)
    ensures gc.ab.Caches(views[p := Live(views[p], sec)])
  {
    gc.ab.Tick(sec);
    assert forall q: Peer ::
      (q in gc.ab.cache <==> q in views) && (q in gc.ab.cache ==> gc.ab.cache[q].addrs == views[q]);
    var _ := gc.ab.LoadCached(p, false, sec);
    gc.ab.CachesOther(views, p, Live(views[p], sec));
  }

  lemma {:induction false} OutOfStep(store: Store, views: Store, views': Store, p: Peer, now: int)
    requires p in store && p in views && Live(store[p], now) != store[p] && views' == views[p := Live(views[p], now)]
    ensures !InStep(store, views', now)
  {
    LiveTwice(views[p], now, now);
  }

  lemma {:induction false} LaterUnix(now: int, interval: int)
    requires interval > 0
    ensures Unix(now) <= Unix(now + interval)
  {
  }
}
