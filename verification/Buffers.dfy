/** Writing, copying and enciphering ranges of one byte buffer in place. */
module Buffers {
  import opened Bytes

  /** copy(a[at:at+len(src)], src) */
  method CopyInto(a: array<byte>, at: nat, src: Bytes)
    requires at + |src| <= a.Length
    modifies a
    ensures a[..at + |src|] == old(a[..at]) + src
    ensures a[at + |src|..] == old(a[at + |src|..])
  {
    for i := 0 to |src|
      invariant a[..at + i] == old(a[..at]) + src[..i]
      invariant a[at + i..] == old(a[at + i..])
    {
      a[at + i] := src[i];
    }
    assert src[..|src|] == src;
  }

  /** ciph.Encipher on a[lo:hi] */
  method EncipherRange(a: array<byte>, lo: nat, hi: nat, stream: nat -> byte)
    requires lo <= hi <= a.Length
    modifies a
    ensures a[..lo] == old(a[..lo])
    ensures a[lo..hi] == Encipher(old(a[lo..hi]), stream)
    ensures a[hi..] == old(a[hi..])
  {
    for i := lo to hi
      invariant a[..lo] == old(a[..lo])
      invariant forall j :: lo <= j < i ==> a[j] == Xor(old(a[j]), stream(j - lo))
      invariant forall j :: i <= j < a.Length ==> a[j] == old(a[j])
    {
      a[i] := Xor(a[i], stream(i - lo));
    }
  }

  /** copy(a[to:to+len], a[from:from+len]), overlapping either way. */
  method CopyRanges(a: array<byte>, to: nat, from: nat, len: nat)
    requires to + len <= a.Length && from + len <= a.Length
    modifies a
    ensures forall j :: 0 <= j < a.Length ==> a[j] == if to <= j < to + len then old(a[j + (from - to)]) else old(a[j])
  {
    if to <= from {
      for i := 0 to len
        invariant forall j :: 0 <= j < a.Length ==> a[j] == if to <= j < to + i then old(a[j + (from - to)])
                  else old(a[j])
      {
        a[to + i] := a[from + i];
      }
    } else {
      for i := len downto 0
        invariant forall j :: 0 <= j < a.Length ==>
                    a[j] == if to + i <= j < to + len then old(a[j + (from - to)]) else old(a[j])
      {
        a[to + i] := a[from + i];
      }
    }
  }
}
