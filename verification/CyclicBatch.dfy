/** The batch that commits itself (pkg/engine/transport/pstoreds/cyclic_batch.go). */
module CyclicBatch {
  import opened Options

  type Key = string
  type Value = seq<int>
  type Contents = map<Key, Value>

  datatype Op = Put(key: Key, value: Value) | Delete(key: Key)

  function Apply(contents: Contents, op: Op): (r: Contents)
  {
    match op
    case Put(key, value) => contents[key := value]
    case Delete(key) => contents - {key}
  }

  /** The operations applied in order. */
  function Applied(contents: Contents, ops: seq<Op>): (r: Contents)
  {
    if ops == [] then contents else Apply(Applied(contents, ops[..|ops| - 1]), ops[|ops| - 1])
  }

  /** The last operation on a key decides: a Put leaves its value, a Delete leaves nothing. */
  lemma {:induction false} LastWins(contents: Contents, ops: seq<Op>, i: nat)
    requires i < |ops| && forall j :: i < j < |ops| ==> ops[j].key != ops[i].key
    ensures var key, after := ops[i].key, Applied(contents, ops);
            match ops[i]
            case Put(_, value) => key in after && after[key] == value
            case Delete(_) => key !in after
    decreases |ops|
  {
    var n := |ops| - 1;
    if i < n {
      LastWins(contents, ops[..n], i);
      assert ops[n].key != ops[i].key;
    }
  }

  /** A key no operation names is as before. */
  lemma {:induction false} OthersStay(contents: Contents, ops: seq<Op>, key: Key)
    requires forall j :: 0 <= j < |ops| ==> ops[j].key != key
    ensures (key in Applied(contents, ops) <==> key in contents)
    ensures key in contents ==> Applied(contents, ops)[key] == contents[key]
  {
    if ops != [] {
      OthersStay(contents, ops[..|ops| - 1], key);
    }
  }

  lemma {:induction false} AppliedTogether(contents: Contents, a: seq<Op>, b: seq<Op>)
    ensures Applied(contents, a + b) == Applied(Applied(contents, a), b)
  {
    if b == [] {
      assert a + b == a;
    } else {
      var n := |b| - 1;
      AppliedTogether(contents, a, b[..n]);
      assert (a + b)[..|a| + n] == a + b[..n];
    }
  }

  class Datastore {
    var contents: Contents

    constructor (contents: Contents)
      ensures this.contents == contents
    {
      this.contents := contents;
    }

    /** Committing a batch of this store. */
    method CommitAll(ops: seq<Op>)
      modifies this
      ensures contents == Applied(old(contents), ops)
    {
      for i := 0 to |ops|
        invariant contents == Applied(old(contents), ops[..i])
      {
        assert ops[..i + 1][..i] == ops[..i];
        contents := Apply(contents, ops[i]);
      }
      assert ops[..|ops|] == ops;
    }
  }

  class Batch {
    var threshold: int
    /** The operations of the open batch; None once the batch is closed. */
    var batch: Option<seq<Op>>
    const ds: Datastore
    var pending: int
    /** What the store held at first, and every operation accepted since. */
    ghost const base: Contents
    ghost var accepted: seq<Op>

    /** newCyclicBatch drops its threshold, so the field stays zero. */
    constructor (ds: Datastore, threshold: int)
      ensures Valid() && accepted == [] && this.ds == ds && batch == Some([]) && base == ds.contents
      ensures this.threshold == 0 && pending == 0
    {
      this.threshold, this.batch, this.ds, this.pending := 0, Some([]), ds, 0;
      this.base, this.accepted := ds.contents, [];
    }

    /** The operations not yet in the store. */
    function Waiting(): (r: seq<Op>)
      reads this
    {
      if batch.Some? then batch.value else []
    }

    /** The store is a prefix of the accepted operations applied in order; the rest waits in the batch. */
    ghost predicate Valid()
      reads this, ds
    {
      && pending >= 0
      && |Waiting()| <= |accepted|
      && Waiting() == accepted[|accepted| - |Waiting()|..]
      && ds.contents == Applied(base, accepted[..|accepted| - |Waiting()|])
    }

    /** Moves everything that waits into the store. */
    method Drain(renew: bool)
      requires Valid() && batch.Some?
      modifies this`batch, ds
      ensures Valid() && batch == (if renew then Some([]) else None) && ds.contents == Applied(base, accepted)
    {
      ghost var done := accepted[..|accepted| - |batch.value|];
      AppliedTogether(base, done, batch.value);
      assert done + batch.value == accepted;
      ds.CommitAll(batch.value);
      batch := if renew then Some([]) else None;
      assert accepted[..|accepted|] == accepted;
    }

    /** cycle: fails on a closed batch, commits when the threshold is reached. */
    method Cycle() returns (err: bool)
      requires Valid()
      modifies this`batch, ds
      ensures Valid() && err == old(batch.None?) && batch.Some? == old(batch.Some?)
      ensures !err && pending >= threshold ==> batch == Some([])
      ensures err || pending < threshold ==> batch == old(batch) && ds.contents == old(ds.contents)
    {
      if batch.None? {
        return true;
      }
      if pending < threshold {
        return false;
      }
      Drain(true);
      err := false;
    }

    /** Put and Delete: an operation is accepted in order, or refused without effect once the batch is closed. */
    method Do(op: Op) returns (err: bool)
      requires Valid()
      modifies this, ds
      ensures Valid() && threshold == old(threshold) && err == old(batch.None?) && batch.Some? == old(batch.Some?)
      ensures !err ==> accepted == old(accepted) + [op] && pending == old(pending) + 1
      ensures !err && old(pending) >= threshold ==> ds.contents == Applied(base, old(accepted))
      ensures !err && old(pending) < threshold ==> ds.contents == old(ds.contents)
      ensures err ==> accepted == old(accepted) && ds.contents == old(ds.contents) && batch == old(batch)
    {
      err := Cycle();
      if err {
        return;
      }
      pending := pending + 1;
      Enqueue(op);
    }

    method Enqueue(op: Op)
      requires Valid() && batch.Some?
      modifies this`batch, this`accepted
      ensures Valid() && batch == Some(old(batch).value + [op]) && accepted == old(accepted) + [op]
    {
      ghost var was, k := accepted, |accepted| - |batch.value|;
      batch := Some(batch.value + [op]);
      accepted := accepted + [op];
      assert accepted[..k] == was[..k];
    }

    /** Commit: the store holds every accepted operation, and the batch is closed. */
    method Commit() returns (err: bool)
      requires Valid()
      modifies this, ds
      ensures Valid() && batch.None? && threshold == old(threshold) && accepted == old(accepted)
      ensures err == old(batch.None?) && ds.contents == Applied(base, accepted)
    {
      if batch.None? {
        assert accepted[..|accepted|] == accepted;
        return true;
      }
      Drain(false);
      pending := 0;
      err := false;
    }
  }

  /** What the store holds after i operations on a batch of some threshold: nothing of them while fewer than the
      threshold were counted, and from then on all but the last, since only Commit resets the count. */
  ghost function StoredAfter(base: Contents, threshold: int, ops: seq<Op>, i: nat): (contents: Contents)
    requires i <= |ops|
  {
    if i == 0 || i <= threshold then base else Applied(base, ops[..i - 1])
  }

  method FeedOne(b: Batch, ops: seq<Op>, i: nat)
    requires b.Valid() && b.batch.Some? && i < |ops| && b.accepted == ops[..i] && b.pending == i
    requires b.ds.contents == StoredAfter(b.base, b.threshold, ops, i)
    modifies b, b.ds
    ensures b.Valid() && b.batch.Some? && b.accepted == ops[..i + 1] && b.pending == i + 1
            && b.threshold == old(b.threshold)
    ensures b.ds.contents == StoredAfter(b.base, b.threshold, ops, i + 1)
  {
    var err := b.Do(ops[i]);
    assert !err && ops[..i + 1] == ops[..i] + [ops[i]];
  }

  /** Operations on a fresh batch, watching the store after each. */
  method Feed(b: Batch, ops: seq<Op>) returns (ghost seen: seq<Contents>)
    requires b.Valid() && b.batch == Some([]) && b.accepted == [] && b.pending == 0
    modifies b, b.ds
    ensures b.Valid() && b.batch.Some? && b.accepted == ops && b.threshold == old(b.threshold)
    ensures |seen| == |ops| + 1
    ensures forall i :: 0 <= i <= |ops| ==> seen[i] == StoredAfter(b.base, b.threshold, ops, i)
  {
    ghost var base, threshold := b.base, b.threshold;
    seen := [b.ds.contents];
    for i := 0 to |ops|
      invariant b.Valid() && b.batch.Some? && b.threshold == threshold && b.accepted == ops[..i] && b.pending == i
      invariant b.ds.contents == StoredAfter(base, threshold, ops, i)
      invariant |seen| == i + 1 && forall j :: 0 <= j <= i ==> seen[j] == StoredAfter(base, threshold, ops, j)
    {
      FeedOne(b, ops, i);
      seen := seen + [b.ds.contents];
    }
    assert ops[..|ops|] == ops;
  }

  /** A whole life of a batch. Its threshold is lost, so after every operation all the earlier ones are in the store;
      after Commit it holds all, and whatever comes later is refused. */
  method Life(ds: Datastore, threshold: int, ops: seq<Op>, late: seq<Op>) returns (ghost seen: seq<Contents>)
    modifies ds
    ensures |seen| == |ops| + 1
    ensures forall i :: 0 < i <= |ops| ==> seen[i] == Applied(old(ds.contents), ops[..i - 1])
    ensures ds.contents == Applied(old(ds.contents), ops)
  {
    var b := new Batch(ds, threshold);
    seen := Feed(b, ops);
    var err := b.Commit();
    for i := 0 to |late|
      invariant b.Valid() && fresh(b) && b.batch.None? && b.ds == ds && ds.contents == Applied(b.base, ops)
    {
      err := b.Do(late[i]);
      assert err;
    }
    err := b.Commit();
  }
}
