/** The field container of pkg/splicer: a magic, the size, the number of fields, a table of offsets, the fields. */
module Splicer {
  import opened Bytes
  import opened Buffers
  import opened Options

  const WORD: nat := 0x1_0000_0000
  const MAX_FIELDS: nat := 16381

  /** binary.BigEndian.PutUint32; higher bits are dropped. */
  function Put32(n: nat): (b: Bytes)
    ensures |b| == 4
  {
    [(n / 256 / 256 / 256 % 256) as byte, (n / 256 / 256 % 256) as byte, (n / 256 % 256) as byte, (n % 256) as byte]
  }

  function Get32(b: Bytes): (r: nat)
    requires |b| == 4
  {
    b[0] as nat * 0x100_0000 + b[1] as nat * 0x1_0000 + b[2] as nat * 0x100 + b[3] as nat
  }

  function Put16(n: nat): (b: Bytes)
    ensures |b| == 2
  {
    [(n / 256 % 256) as byte, (n % 256) as byte]
  }

  function Get16(b: Bytes): (r: nat)
    requires |b| == 2
  {
    b[0] as nat * 256 + b[1] as nat
  }

  lemma {:induction false} FourDigits(n: nat, a: nat, b: nat, c: nat, d: nat, w: nat, x: nat, y: nat, z: nat)
    requires n == 256 * a + z && a == 256 * b + y && b == 256 * c + x && c == 256 * d + w
    requires w < 256 && x < 256 && y < 256 && z < 256
    ensures w * 0x100_0000 + x * 0x1_0000 + y * 0x100 + z == n % WORD
  {
    RemainderIsUnique(n, WORD, d, w * 0x100_0000 + x * 0x1_0000 + y * 0x100 + z);
  }

  lemma {:induction false} Word(n: nat)
    ensures Get32(Put32(n)) == n % WORD
  {
    var a := n / 256;
    var b := a / 256;
    var c := b / 256;
    FourDigits(n, a, b, c, c / 256, c % 256, b % 256, a % 256, n % 256);
  }

  lemma {:induction false} HalfWord(n: nat)
    ensures Get16(Put16(n)) == n % 65536
  {
  }

  lemma {:induction false} LowByte(k: nat, r: nat)
    ensures (256 * k + r) / 256 == k + r / 256 && (256 * k + r) % 256 == r % 256
  {
  }

  /** Only the low 32 bits are written. */
  lemma {:induction false} LowBits(q: nat, r: nat)
    ensures Put32(WORD * q + r) == Put32(r)
  {
    LowByte(0x100_0000 * q, r);
    LowByte(0x1_0000 * q, r / 256);
    LowByte(0x100 * q, r / 256 / 256);
    LowByte(q, r / 256 / 256 / 256);
  }

  lemma {:induction false} LowWord(n: nat)
    ensures Put32(n % WORD) == Put32(n)
  {
    LowBits(n / WORD, n % WORD);
  }

  lemma {:induction false} LowHalf(n: nat)
    ensures Put16(n % 65536) == Put16(n)
  {
    var q, r := n / 65536, n % 65536;
    LowByte(256 * q, r);
    LowByte(q, r / 256);
    assert 65536 * q + r == n;
  }

  lemma {:induction false} AddWraps(a: nat, b: nat)
    ensures (a % WORD + b) % WORD == (a + b) % WORD
  {
  }

  lemma {:induction false} CountWraps(n: nat)
    ensures (n % 65536 + 1) % 65536 == (n + 1) % 65536
  {
  }

  /** A 32-bit sum of 32-bit values. */
  lemma {:induction false} WordSum(a: nat, b: nat)
    ensures Put32((a % WORD + b % WORD) % WORD) == Put32(a + b)
  {
    assert (a % WORD + b % WORD) % WORD == (a + b) % WORD;
    LowWord(a + b);
  }

  /** The high byte stands first. */
  lemma {:induction false} BigEndianOrder(n: nat)
    ensures Put32(n)[3] as int == n % 256 && Put32(n)[..3] == Put32(n / 256)[1..]
    ensures Put16(n)[1] as int == n % 256 && Put16(n)[0] as int == n / 256 % 256
  {
  }

  // ---------------------------------------------------------------- the container

  /** Where field i starts, counted from the first field. */
  function Offset(fields: seq<Bytes>, i: nat): (r: nat)
    requires i <= |fields|
  {
    |Flatten(fields[..i])|
  }

  function Table(fields: seq<Bytes>, start: nat, i: nat): (t: Bytes)
    requires i <= |fields|
    ensures |t| == 4 * i
  {
    if i == 0 then [] else Table(fields, start, i - 1) + Put32(start + Offset(fields, i - 1))
  }

  function Start(fields: seq<Bytes>): (r: nat)
  {
    10 + 4 * |fields|
  }

  function Head(magic: Bytes, fields: seq<Bytes>): (h: Bytes)
    requires |magic| == 4
    ensures |h| == 10
  {
    magic + Put32(Start(fields) + |Flatten(fields)|) + Put16(|fields|)
  }

  function Image(magic: Bytes, fields: seq<Bytes>): (data: Bytes)
    requires |magic| == 4
    ensures |data| == Start(fields) + |Flatten(fields)|
  {
    Head(magic, fields) + Table(fields, Start(fields), |fields|) + Flatten(fields)
  }

  lemma {:induction false} OffsetStep(fields: seq<Bytes>, i: nat)
    requires i < |fields|
    ensures Flatten(fields[..i + 1]) == Flatten(fields[..i]) + fields[i]
    ensures Offset(fields, i + 1) == Offset(fields, i) + |fields[i]|
  {
    assert fields[..i + 1] == fields[..i] + [fields[i]];
    FlattenAppend(fields[..i], [fields[i]]);
    assert Flatten([fields[i]]) == fields[i];
  }

  lemma {:induction false} TableStep(fields: seq<Bytes>, start: nat, i: nat, count: Bytes, entry: Bytes)
    requires i < |fields| && entry == Put32(Offset(fields, i) + start)
    ensures count + Table(fields, start, i) + entry == count + Table(fields, start, i + 1)
  {
  }

  /** The accumulating loop: 32-bit offsets, a 16-bit count, the packed fields. */
  method Accumulate(fields: seq<Bytes>) returns (nodes: seq<nat>, offset: nat, length: nat, data: Bytes)
    ensures |nodes| == |fields| && forall i :: 0 <= i < |fields| ==> nodes[i] == Offset(fields, i) % WORD
    ensures offset == |Flatten(fields)| % WORD && length == |fields| % 65536 && data == Flatten(fields)
  {
    nodes, offset, length, data := [], 0, 0, [];
    for i := 0 to |fields|
      invariant |nodes| == i && forall j :: 0 <= j < i ==> nodes[j] == Offset(fields, j) % WORD
      invariant offset == Offset(fields, i) % WORD && length == i % 65536 && data == Flatten(fields[..i])
    {
      OffsetStep(fields, i);
      AddWraps(Offset(fields, i), |fields[i]|);
      CountWraps(i);
      length := (length + 1) % 65536;
      nodes := nodes + [offset];
      offset := (offset + |fields[i]|) % WORD;
      data := data + fields[i];
    }
    assert fields[..|fields|] == fields;
  }

  /** One entry of the table. */
  method WriteEntry(nodeB: array<byte>, fields: seq<Bytes>, i: nat, node: nat, start: nat, ghost count: Bytes)
    requires i < |fields| && nodeB.Length == 4 * |fields| + 2 && |count| == 2
    requires node == Offset(fields, i) % WORD && start == Start(fields) % WORD
    requires nodeB[..4 * i + 2] == count + Table(fields, Start(fields), i)
    modifies nodeB
    ensures nodeB[..4 * i + 6] == count + Table(fields, Start(fields), i + 1)
  {
    var entry := Put32((node + start) % WORD);
    WordSum(Offset(fields, i), Start(fields));
    CopyInto(nodeB, 4 * i + 2, entry);
    TableStep(fields, Start(fields), i, count, entry);
  }

  /** The node buffer: the count and the table. */
  method WriteNodes(fields: seq<Bytes>, nodes: seq<nat>, length: nat) returns (nodeB: array<byte>)
    requires |nodes| == |fields| && forall i :: 0 <= i < |fields| ==> nodes[i] == Offset(fields, i) % WORD
    ensures fresh(nodeB) && nodeB[..] == Put16(length) + Table(fields, Start(fields), |fields|)
  {
    nodeB := new byte[|nodes| * 4 + 2](_ => 0);
    var start := (nodeB.Length + 8) % WORD;
    var count := Put16(length);
    CopyInto(nodeB, 0, count);
    assert nodeB[..2] == count + Table(fields, Start(fields), 0);
    for i := 0 to |nodes|
      invariant nodeB[..4 * i + 2] == count + Table(fields, Start(fields), i)
    {
      WriteEntry(nodeB, fields, i, nodes[i], start, count);
    }
    assert nodeB[..nodeB.Length] == nodeB[..];
  }

  /** CreateContainer; nothing for a magic that is not four bytes long. */
  method CreateContainer(magic: Bytes, fields: seq<Bytes>) returns (out: Option<Bytes>)
    ensures out == if |magic| != 4 then None else Some(Image(magic, fields))
  {
    if |magic| != 4 {
      return None;
    }
    var nodes, offset, length, data := Accumulate(fields);
    var nodeB := WriteNodes(fields, nodes, length);
    var sB := Put32((offset + (nodeB.Length + 8) % WORD) % WORD);
    WordSum(|Flatten(fields)|, Start(fields));
    LowHalf(|fields|);
    out := Some(magic + sB + (nodeB[..] + data));
    Assembled(magic, sB, Put16(length), Table(fields, Start(fields), |fields|), data);
  }

  lemma {:induction false} Assembled(magic: Bytes, size: Bytes, count: Bytes, table: Bytes, data: Bytes)
    ensures magic + size + ((count + table) + data) == magic + size + count + table + data
  {
  }

  // ---------------------------------------------------------------- reading

  datatype Got = Field(bytes: Bytes) | Nothing | Panic

  /** c.Data[lo:hi] */
  function Slice(data: Bytes, lo: nat, hi: nat): (r: Option<Bytes>)
  {
    if lo <= hi <= |data| then Some(data[lo..hi]) else None
  }

  function Word32At(data: Bytes, lo: nat, hi: nat): (r: Option<nat>)
  {
    match Slice(data, lo, hi)
    case Some(b) => if |b| == 4 then Some(Get32(b)) else None
    case None => None
  }

  /** Count; None is a slice out of range. */
  function Count(data: Bytes): (r: Option<nat>)
  {
    match Word32At(data, 4, 8)
    case None => None
    case Some(size) =>
      if |data| < size then Some(0) else if |data| < 10 then None else Some(Get16(data[8..10]))
  }

  /** The table entry for a field, with the index arithmetic in 16 bits. */
  function Entry(data: Bytes, idx: nat): (r: Option<nat>)
  {
    Word32At(data, (10 + idx * 4) % 65536, (10 + idx * 4 + 4) % 65536)
  }

  function Between(data: Bytes, lo: Option<nat>, hi: Option<nat>): (r: Got)
  {
    if lo.None? || hi.None? || Slice(data, lo.value, hi.value).None? then Panic
    else Field(Slice(data, lo.value, hi.value).value)
  }

  function Get(data: Bytes, idx: nat): (r: Got)
  {
    match Count(data)
    case None => Panic
    case Some(length) =>
      if length <= idx then Nothing
      else if idx < length - 1 then Between(data, Entry(data, idx), Entry(data, idx + 1))
      else Between(data, Entry(data, idx), Some(|data|))
  }

  lemma {:induction false} CountParts(magic: Bytes, size: Bytes, count: Bytes, rest: Bytes)
    requires |magic| == 4 && |size| == 4 && |count| == 2 && Get32(size) <= 10 + |rest|
    ensures Count(magic + size + count + rest) == Some(Get16(count))
  {
    var data := magic + size + count + rest;
    assert data[4..8] == size && data[8..10] == count;
  }

  lemma {:induction false} CountWords(magic: Bytes, size: nat, n: nat, rest: Bytes)
    requires |magic| == 4 && size < WORD && size <= 10 + |rest|
    ensures Count(magic + Put32(size) + Put16(n) + rest) == Some(n % 65536)
  {
    Word(size);
    HalfWord(n);
    CountParts(magic, Put32(size), Put16(n), rest);
  }

  lemma {:induction false} CountIsLength(magic: Bytes, fields: seq<Bytes>)
    requires |magic| == 4 && |Image(magic, fields)| < WORD
    ensures Count(Image(magic, fields)) == Some(|fields| % 65536)
  {
    var size := Start(fields) + |Flatten(fields)|;
    var table := Table(fields, Start(fields), |fields|);
    CountWords(magic, size, |fields|, table + Flatten(fields));
    assert Head(magic, fields) + table + Flatten(fields) == Head(magic, fields) + (table + Flatten(fields));
  }

  lemma {:induction false} TableAt(fields: seq<Bytes>, start: nat, n: nat, i: nat)
    requires i < n <= |fields|
    ensures Table(fields, start, n)[4 * i..4 * i + 4] == Put32(start + Offset(fields, i))
  {
    if i < n - 1 {
      TableAt(fields, start, n - 1, i);
      assert Table(fields, start, n)[4 * i..4 * i + 4] == Table(fields, start, n - 1)[4 * i..4 * i + 4];
    }
  }

  lemma {:induction false} OffsetBound(fields: seq<Bytes>, i: nat)
    requires i <= |fields|
    ensures Offset(fields, i) <= |Flatten(fields)|
  {
    assert fields == fields[..i] + fields[i..];
    FlattenAppend(fields[..i], fields[i..]);
  }

  lemma {:induction false} EntryParts(head: Bytes, table: Bytes, data: Bytes, i: nat, word: Bytes)
    requires |head| == 10 && 4 * i + 4 <= |table| && table[4 * i..4 * i + 4] == word && i < MAX_FIELDS
    ensures Entry(head + table + data, i) == Some(Get32(word))
  {
    assert (head + table + data)[10 + i * 4..10 + i * 4 + 4] == word;
  }

  lemma {:induction false} EntryWord(head: Bytes, table: Bytes, data: Bytes, i: nat, n: nat)
    requires |head| == 10 && 4 * i + 4 <= |table| && table[4 * i..4 * i + 4] == Put32(n) && i < MAX_FIELDS && n < WORD
    ensures Entry(head + table + data, i) == Some(n)
  {
    Word(n);
    EntryParts(head, table, data, i, Put32(n));
  }

  lemma {:induction false} EntryIsOffset(magic: Bytes, fields: seq<Bytes>, i: nat)
    requires |magic| == 4 && |Image(magic, fields)| < WORD && i < |fields| && i < MAX_FIELDS
    ensures Entry(Image(magic, fields), i) == Some(Start(fields) + Offset(fields, i))
  {
    TableAt(fields, Start(fields), |fields|, i);
    OffsetBound(fields, i);
    EntryWord(Head(magic, fields), Table(fields, Start(fields), |fields|), Flatten(fields), i,
              Start(fields) + Offset(fields, i));
  }

  lemma {:induction false} FieldParts(front: Bytes, before: Bytes, field: Bytes, after: Bytes)
    ensures Slice(front + (before + field + after), |front| + |before|, |front| + |before| + |field|) == Some(field)
  {
    var lo, flat := |front| + |before|, before + field + after;
    assert (front + flat)[lo..lo + |field|] == field;
  }

  lemma {:induction false} FieldIsThere(magic: Bytes, fields: seq<Bytes>, i: nat)
    requires |magic| == 4 && i < |fields|
    ensures Slice(Image(magic, fields), Start(fields) + Offset(fields, i), Start(fields) + Offset(fields, i + 1))
         == Some(fields[i])
  {
    OffsetStep(fields, i);
    assert fields == fields[..i + 1] + fields[i + 1..];
    FlattenAppend(fields[..i + 1], fields[i + 1..]);
    var front := Head(magic, fields) + Table(fields, Start(fields), |fields|);
    FieldParts(front, Flatten(fields[..i]), fields[i], Flatten(fields[i + 1..]));
  }

  lemma {:induction false} GetParts(data: Bytes, length: nat, i: nat, lo: nat, hi: nat, field: Bytes)
    requires Count(data) == Some(length) && i < length && Entry(data, i) == Some(lo)
             && Slice(data, lo, hi) == Some(field)
    requires if i < length - 1 then Entry(data, i + 1) == Some(hi) else hi == |data|
    ensures Get(data, i) == Field(field)
  {
  }

  lemma {:induction false} CountSmall(magic: Bytes, fields: seq<Bytes>)
    requires |magic| == 4 && |Image(magic, fields)| < WORD && |fields| < 65536
    ensures Count(Image(magic, fields)) == Some(|fields|)
  {
    CountIsLength(magic, fields);
  }

  /** The end of a field: where the next one starts, or the end of the data. */
  lemma {:induction false} FieldEnds(magic: Bytes, fields: seq<Bytes>, i: nat, end: nat)
    requires |magic| == 4 && |Image(magic, fields)| < WORD && i < |fields| <= MAX_FIELDS
    requires end == Start(fields) + Offset(fields, i + 1)
    ensures if i < |fields| - 1 then Entry(Image(magic, fields), i + 1) == Some(end) else end == |Image(magic, fields)|
  {
    if i < |fields| - 1 {
      EntryIsOffset(magic, fields, i + 1);
    } else {
      assert fields[..i + 1] == fields;
    }
  }

  /** Every field of a container of at most MAX_FIELDS fields can be read back. */
  lemma {:induction false} GetReads(magic: Bytes, fields: seq<Bytes>, i: nat)
    requires |magic| == 4 && |Image(magic, fields)| < WORD && i < |fields| <= MAX_FIELDS
    ensures Get(Image(magic, fields), i) == Field(fields[i])
  {
    var data, lo, hi := Image(magic, fields), Start(fields) + Offset(fields, i), Start(fields) + Offset(fields, i + 1);
    CountSmall(magic, fields);
    EntryIsOffset(magic, fields, i);
    FieldIsThere(magic, fields, i);
    FieldEnds(magic, fields, i, hi);
    GetParts(data, |fields|, i, lo, hi, fields[i]);
  }

  lemma {:induction false} GetNothing(magic: Bytes, fields: seq<Bytes>, i: nat)
    requires |magic| == 4 && |Image(magic, fields)| < WORD && |fields| % 65536 <= i
    ensures Get(Image(magic, fields), i) == Nothing
  {
    CountIsLength(magic, fields);
  }

  /** One field more, and the table index of the last one wraps: its slice ends before it begins. */
  lemma {:induction false} IndexWraps(magic: Bytes, fields: seq<Bytes>)
    requires |magic| == 4 && |Image(magic, fields)| < WORD && MAX_FIELDS < |fields| % 65536
    ensures Get(Image(magic, fields), MAX_FIELDS) == Panic
  {
    CountIsLength(magic, fields);
    assert Entry(Image(magic, fields), MAX_FIELDS) == None;
  }

  /** A container gives back its count and all its fields, and nothing beyond. */
  ghost predicate Faithful(data: Bytes, fields: seq<Bytes>)
  {
    && Count(data) == Some(|fields|)
    && (forall i :: 0 <= i < |fields| ==> Get(data, i) == Field(fields[i]))
    && (forall i :: i >= |fields| ==> Get(data, i) == Nothing)
  }

  lemma {:induction false} TooMany(magic: Bytes, fields: seq<Bytes>)
    requires |magic| == 4 && |Image(magic, fields)| < WORD && |fields| > MAX_FIELDS
    ensures !Faithful(Image(magic, fields), fields)
  {
    if |fields| < 65536 {
      IndexWraps(magic, fields);
    } else {
      CountIsLength(magic, fields);
    }
  }

  lemma {:induction false} AllRead(magic: Bytes, fields: seq<Bytes>)
    requires |magic| == 4 && |Image(magic, fields)| < WORD && |fields| <= MAX_FIELDS
    ensures forall i :: 0 <= i < |fields| ==> Get(Image(magic, fields), i) == Field(fields[i])
  {
    forall i | 0 <= i < |fields|
      ensures Get(Image(magic, fields), i) == Field(fields[i])
    {
      GetReads(magic, fields, i);
    }
  }

  lemma {:induction false} NothingBeyond(magic: Bytes, fields: seq<Bytes>)
    requires |magic| == 4 && |Image(magic, fields)| < WORD && |fields| < 65536
    ensures forall i :: i >= |fields| ==> Get(Image(magic, fields), i) == Nothing
  {
    forall i | i >= |fields|
      ensures Get(Image(magic, fields), i) == Nothing
    {
      GetNothing(magic, fields, i);
    }
  }

  /** It does exactly when it has at most MAX_FIELDS fields. */
  lemma {:induction false} FieldBound(magic: Bytes, fields: seq<Bytes>)
    requires |magic| == 4 && |Image(magic, fields)| < WORD
    ensures Faithful(Image(magic, fields), fields) <==> |fields| <= MAX_FIELDS
  {
    if |fields| <= MAX_FIELDS {
      CountSmall(magic, fields);
      AllRead(magic, fields);
      NothingBeyond(magic, fields);
    } else {
      TooMany(magic, fields);
    }
  }

  /** The magic stands in front, and a container cut short counts nothing: the size in its head tells. */
  lemma {:induction false} Truncated(magic: Bytes, fields: seq<Bytes>, n: nat, i: nat)
    requires |magic| == 4 && |Image(magic, fields)| < WORD && 8 <= n < |Image(magic, fields)|
    ensures Image(magic, fields)[..4] == magic
    ensures var cut := Image(magic, fields)[..n]; Count(cut) == Some(0) && Get(cut, i) == Nothing
  {
    var data := Image(magic, fields);
    var size := Put32(Start(fields) + |Flatten(fields)|);
    assert Head(magic, fields)[4..8] == size;
    assert data[..n][4..8] == data[4..8] == Head(magic, fields)[4..8];
    assert data[..4] == Head(magic, fields)[..4];
    Word(Start(fields) + |Flatten(fields)|);
    CutCounts(data[..n], size);
  }

  /** Without a whole size field the slice panics. */
  lemma {:induction false} ShortContainer(data: Bytes, i: nat)
    requires |data| < 8
    ensures Count(data) == None && Get(data, i) == Panic
  {
  }

  lemma {:induction false} CutCounts(cut: Bytes, size: Bytes)
    requires |cut| >= 8 && |size| == 4 && cut[4..8] == size && Get32(size) > |cut|
    ensures Count(cut) == Some(0)
  {
  }
}
