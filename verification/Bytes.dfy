// Writing a run of bytes into a longer one.
module Bytes {
  import opened Checksum

  function Put(img: seq<Byte>, at: nat, bytes: seq<Byte>): (r: seq<Byte>)
    requires at + |bytes| <= |img|
    ensures |r| == |img| && r[at..at + |bytes|] == bytes
    ensures forall i :: 0 <= i < at || at + |bytes| <= i < |img| ==> r[i] == img[i]
    ensures forall i :: 0 <= i < |bytes| ==> r[at + i] == bytes[i]
  {
    img[..at] + bytes + img[at + |bytes|..]
  }

  lemma PutMisses(img: seq<Byte>, at: nat, bytes: seq<Byte>, lo: nat, hi: nat)
    requires at + |bytes| <= |img| && lo <= hi <= |img|
    requires hi <= at || at + |bytes| <= lo
    ensures Put(img, at, bytes)[lo..hi] == img[lo..hi]
  {
  }

  // memcpy
  method CopyIn(mem: array<Byte>, at: nat, bytes: seq<Byte>)
    requires at + |bytes| <= mem.Length
    modifies mem
    ensures mem[..] == Put(old(mem[..]), at, bytes)
  {
    ghost var was := mem[..];
    for i := 0 to |bytes|
      invariant forall j :: 0 <= j < mem.Length ==> mem[j] == if at <= j < at + i then bytes[j - at] else was[j]
    {
      mem[at + i] := bytes[i];
    }
    assert mem[..] == Put(was, at, bytes);
  }
}
