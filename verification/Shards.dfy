/** Cutting a payload into shards (slice.Segment) and what the segment map makes of them again. */
module Shards {
  import opened Bytes
  import opened Segcalc

  /** Equal shards that start with the payload, no more of them than it needs. */
  ghost predicate IsCut(payload: Bytes, size: nat, shards: seq<Bytes>)
  {
    && AllOfLength(shards, size)
    && payload <= Flatten(shards)
    && |Flatten(shards)| < |payload| + size
  }

  lemma {:induction false} FlattenOne(segs: seq<Bytes>, d: Bytes)
    ensures Flatten(segs + [d]) == Flatten(segs) + d
  {
    FlattenAppend(segs, [d]);
    assert Flatten([d]) == d;
  }

  /** slice.Segment; the noise stands for the random padding of the last shard. */
  method Segment(b: Bytes, segmentSize: nat, noise: Bytes) returns (segs: seq<Bytes>)
    requires segmentSize > 0 && |noise| >= segmentSize
    ensures IsCut(b, segmentSize, segs)
  {
    var lb := |b|;
    var begin, end := 0, 0;
    segs := [];
    while end < lb
      invariant end == begin == |Flatten(segs)| < lb + segmentSize
      invariant AllOfLength(segs, segmentSize)
      invariant if begin <= lb then Flatten(segs) == b[..begin] else b <= Flatten(segs)
      decreases lb - end
    {
      end := begin + segmentSize;
      var d := b[begin..if end > lb then lb else end];
      if end > lb {
        d := d + noise[..end - lb];
      }
      FlattenOne(segs, d);
      segs := segs + [d];
      begin := begin + segmentSize;
    }
  }

  /** The map counts the shards that are cut exactly when the payload leaves a remainder. */
  lemma {:induction false} CutCount(payload: Bytes, size: nat, shards: seq<Bytes>)
    requires size > 0 && IsCut(payload, size, shards)
    ensures |payload| % size != 0 ==> |shards| == ShardCount(|payload|, size)
    ensures |payload| % size == 0 ==> |shards| == ShardCount(|payload|, size) - 1
  {
    FlattenLength(shards, size);
    var len, n := |payload|, |shards|;
    DivModBounds(len, size);
    CeilingCount(len, size, n, len / size, len % size);
  }

  lemma {:induction false} CeilingCount(len: int, size: int, n: int, q: int, r: int)
    requires 0 <= r < size && len == q * size + r && len <= n * size < len + size
    ensures n == if r == 0 then q else q + 1
  {
    assert (n - q) * size == n * size - q * size;
    assert (n - q - 1) * size == (n - q) * size - size;
    ProductLeavesInterval(n - q, size);
    ProductLeavesInterval(n - q - 1, size);
  }

  // ---------------------------------------------------------------- from shards to message

  /** The data shards of section k among all data shards. */
  function SectionData(m: seq<Segcalc.Segment>, shards: seq<Bytes>, k: nat): (r: seq<Bytes>)
    requires k < |m|
  {
    var a, b := DataStart(m, k), DataStart(m, k + 1);
    if 0 <= a <= b <= |shards| then shards[a..b] else []
  }

  /** The trimming of `join`: the last shard keeps only `last` bytes. */
  function Trim(b: Bytes, sLen: nat, last: nat): (r: Bytes)
  {
    if sLen != last && last <= sLen <= |b| + last then b[..|b| - sLen + last] else b
  }

  /** The message the map makes of the data shards of its first k sections. */
  function Message(m: seq<Segcalc.Segment>, shards: seq<Bytes>, k: nat): (r: Bytes)
    requires k <= |m|
  {
    if k == 0 then [] else Message(m, shards, k - 1) + Trim(Flatten(SectionData(m, shards, k - 1)), m[k - 1].sLen,
                                                            m[k - 1].last)
  }

  lemma {:induction false} DataStartGrows(m: seq<Segcalc.Segment>, i: nat, j: nat)
    requires Tiles(m) && i <= j <= |m|
    ensures i <= DataStart(m, i) <= DataStart(m, j)
    decreases j
  {
    if i < j {
      DataStartGrows(m, i, j - 1);
    } else if j > 0 {
      DataStartGrows(m, j - 1, j - 1);
    }
  }

  lemma {:induction false} UntrimmedPrefix(m: seq<Segcalc.Segment>, shards: seq<Bytes>, k: nat)
    requires Tiles(m) && k <= |m| && DataStart(m, |m|) == |shards|
    requires forall j :: 0 <= j < k ==> m[j].last == m[j].sLen
    ensures 0 <= DataStart(m, k) <= |shards|
    ensures Message(m, shards, k) == Flatten(shards[..DataStart(m, k)])
  {
    DataStartGrows(m, k, |m|);
    if k > 0 {
      UntrimmedPrefix(m, shards, k - 1);
      DataStartGrows(m, k - 1, k);
      var a, b := DataStart(m, k - 1), DataStart(m, k);
      assert shards[..b] == shards[..a] + shards[a..b];
      FlattenAppend(shards[..a], shards[a..b]);
    }
  }

  /** Without a full last section left untrimmed, the map gives back exactly the payload; with two or more
      full sections and no tail it never does. */
  lemma {:induction false} MessageIsPayload(payload: Bytes, size: nat, parity: nat, shards: seq<Bytes>)
    requires size > 0 && parity < SECTION && |payload| % size != 0 && IsCut(payload, size, shards)
    ensures var m := Layout(|payload|, size, parity);
            Message(m, shards, |m|) == payload <==> !EndsUntrimmed(|payload|, size, parity)
  {
    var m := Layout(|payload|, size, parity);
    LayoutTiles(|payload|, size, parity);
    CutCount(payload, size, shards);
    FlattenLength(shards, size);
    LayoutLasts(|payload|, size, parity);
    if EndsUntrimmed(|payload|, size, parity) {
      UntrimmedPrefix(m, shards, |m|);
      assert shards[..|shards|] == shards;
      WholeShardsLonger(|payload|, size);
    } else {
      WholeShardsLonger(|payload|, size);
      TrimmedMessage(payload, size, |payload| % size, m, shards);
    }
  }

  /** Two or more full sections with nothing left over: the case NewSegments forgets to trim. */
  ghost predicate EndsUntrimmed(payloadLen: nat, size: nat, parity: nat)
    requires size > 0 && parity < SECTION
  {
    var shards, d := ShardCount(payloadLen, size), SECTION - parity;
    shards % d == 0 && shards / d >= 2
  }

  lemma {:induction false} LayoutLasts(payloadLen: nat, size: nat, parity: nat)
    requires size > 0 && parity < SECTION
    ensures var m := Layout(payloadLen, size, parity);
            && m != []
            && (forall k :: 0 <= k < |m| - 1 ==> m[k].last == size)
            && m[|m| - 1].last == if EndsUntrimmed(payloadLen, size, parity) then size else payloadLen % size
  {
    DivModBounds(payloadLen, size);
    var shards, d := ShardCount(payloadLen, size), SECTION - parity;
    DivModBounds(shards, d);
  }

  lemma {:induction false} WholeShardsLonger(len: nat, size: nat)
    requires size > 0
    ensures ShardCount(len, size) * size == len - len % size + size > len
  {
    DivModBounds(len, size);
    assert (len / size + 1) * size == len / size * size + size;
  }

  lemma {:induction false} TrimmedMessage(payload: Bytes, size: nat, rest: nat, m: seq<Segcalc.Segment>,
                                          shards: seq<Bytes>)
    requires 0 < rest < size && payload <= Flatten(shards) && AllOfLength(shards, size)
    requires |Flatten(shards)| == |payload| - rest + size
    requires Tiles(m) && DataStart(m, |m|) == |shards|
    requires forall k :: 0 <= k < |m| ==> m[k].sLen == size
    requires forall k :: 0 <= k < |m| - 1 ==> m[k].last == size
    requires m[|m| - 1].last == rest
    ensures Message(m, shards, |m|) == payload
  {
    var k := |m| - 1;
    UntrimmedPrefix(m, shards, k);
    DataStartGrows(m, k, k);
    var a := DataStart(m, k);
    var head, tail := shards[..a], shards[a..];
    assert shards == head + tail && shards[a..|shards|] == tail;
    FlattenAppend(head, tail);
    assert Flatten(tail) == tail[0] + Flatten(tail[1..]);
    var y := Flatten(tail);
    TrimOfConcat(Flatten(head), y, size - rest);
    assert Message(m, shards, |m|) == Flatten(head) + y[..|y| - (size - rest)];
  }

  lemma {:induction false} TrimOfConcat(x: Bytes, y: Bytes, cut: nat)
    requires cut <= |y|
    ensures x + y[..|y| - cut] == (x + y)[..|x| + |y| - cut]
  {
  }
}
