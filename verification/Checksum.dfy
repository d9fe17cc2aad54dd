// The Internet checksum (section 2 of RFC 1071) in the forms the driver computes it: plain
// loop, halving blocks, two folds and full fold.
module Checksum {
  import opened Arith

  type Byte = x: int | 0 <= x < 0x100
  type Word16 = x: int | 0 <= x < 0x1_0000

  const ONES := 0xFFFF

  // Two bytes as a little-endian host reads them.
  function HostWord(x: Byte, y: Byte): Word16 {
    var lo: int, hi: int := x, y;
    lo + 0x100 * hi
  }

  // Sum of the 16-bit words of a buffer as a little-endian host reads them; an odd last byte
  // is a word of its own.
  function WordSum(b: seq<Byte>): nat {
    if b == [] then 0
    else if |b| == 1 then b[0]
    else HostWord(b[0], b[1]) + WordSum(b[2..])
  }

  // The same sum over words in network order.
  function NetSum(b: seq<Byte>): nat {
    if b == [] then 0
    else if |b| == 1 then 0x100 * b[0]
    else 0x100 * b[0] + b[1] + NetSum(b[2..])
  }

  function Swap16(x: Word16): Word16 {
    x % 0x100 * 0x100 + x / 0x100
  }

  // The one's complement sum of a value's 16-bit digits, all carries folded.
  function Fold(s: nat): (r: Word16)
    ensures r == 0 <==> s == 0
  {
    if s == 0 then 0 else (s - 1) % ONES + 1
  }

  // One's complement of the low 16 bits.
  function Complement16(s: nat): Word16 {
    ONES - s % 0x1_0000
  }

  // ----- the word sum -----

  lemma {:induction false} WordSumSplit(b: seq<Byte>, k: nat)
    requires k <= |b| && k % 2 == 0
    ensures WordSum(b) == WordSum(b[..k]) + WordSum(b[k..])
    decreases k
  {
    if k == 0 {
      assert b[0..] == b;
    } else {
      assert b[..k][2..] == b[2..][..k - 2];
      assert b[k..] == b[2..][k - 2..];
      WordSumSplit(b[2..], k - 2);
    }
  }

  lemma {:induction false} NetSumSplit(b: seq<Byte>, k: nat)
    requires k <= |b| && k % 2 == 0
    ensures NetSum(b) == NetSum(b[..k]) + NetSum(b[k..])
    decreases k
  {
    if k == 0 {
      assert b[0..] == b;
    } else {
      assert b[..k][2..] == b[2..][..k - 2];
      assert b[k..] == b[2..][k - 2..];
      NetSumSplit(b[2..], k - 2);
    }
  }

  // Changing one byte moves the sum by the byte's weight.
  lemma {:induction false} WordSumUpdate(b: seq<Byte>, i: nat, v: Byte)
    requires i < |b|
    ensures WordSum(b[i := v]) == WordSum(b) + (if i % 2 == 0 then 1 else 0x100) * (v - b[i])
    decreases i
  {
    var c := b[i := v];
    if i >= 2 {
      assert c[2..] == b[2..][i - 2 := v];
      WordSumUpdate(b[2..], i - 2, v);
    } else if |b| > 1 {
      assert c[2..] == b[2..];
    }
  }

  lemma {:induction false} WordSumBound(b: seq<Byte>)
    ensures 2 * WordSum(b) <= ONES * (|b| + 1)
    decreases |b|
  {
    if |b| > 1 {
      WordSumBound(b[2..]);
    }
  }

  lemma WordSumNextWord(b: seq<Byte>, pos: nat)
    requires pos + 2 <= |b| && pos % 2 == 0
    ensures WordSum(b[..pos + 2]) == WordSum(b[..pos]) + HostWord(b[pos], b[pos + 1])
  {
    WordSumSplit(b[..pos + 2], pos);
    assert b[..pos + 2][..pos] == b[..pos];
    assert b[..pos + 2][pos..] == [b[pos], b[pos + 1]];
    WordSumPair(b[pos], b[pos + 1]);
  }

  lemma WordSumPair(x: Byte, y: Byte)
    ensures WordSum([x, y]) == HostWord(x, y)
  {
    assert [x, y][2..] == [];
  }

  // ----- folding -----

  lemma FoldUnique(s: nat, r: Word16, k: int)
    requires s > 0 && r > 0 && s == k * ONES + r
    ensures Fold(s) == r
  {
    ModUnique(s - 1, ONES, k, r - 1);
  }

  lemma FoldIsCongruent(s: nat)
    ensures (s - Fold(s)) % ONES == 0
  {
    if s > 0 {
      assert s - 1 == (s - 1) / ONES * ONES + (s - 1) % ONES;
      ModUnique(s - Fold(s), ONES, (s - 1) / ONES, 0);
    }
  }

  // One carry step keeps the folded value.
  lemma FoldStep(s: nat)
    ensures Fold(s / 0x1_0000 + s % 0x1_0000) == Fold(s)
  {
    var h, l := s / 0x1_0000, s % 0x1_0000;
    assert s == h * ONES + (h + l);
    if s > 0 {
      assert h + l > 0;
      var q := (h + l - 1) / ONES;
      assert h + l - 1 == q * ONES + (h + l - 1) % ONES;
      FoldUnique(s, Fold(h + l), h + q);
    }
  }

  lemma FoldSmall(s: nat)
    requires s <= ONES
    ensures Fold(s) == s
  {
    if s > 0 {
      ModUnique(s - 1, ONES, 0, s - 1);
    }
  }

  // pseudo_csum2csum, foldPseudoCsum, csum_oc16_reduce: the carry loop.
  method FoldPseudoCsum(pseudo: nat) returns (r: Word16)
    ensures r == ONES - Fold(pseudo)
  {
    var sum := pseudo;
    while sum / 0x1_0000 != 0
      invariant Fold(sum) == Fold(pseudo)
      decreases sum
    {
      FoldStep(sum);
      sum := sum % 0x1_0000 + sum / 0x1_0000;
    }
    FoldSmall(sum);
    r := Complement16(sum);
  }

  // Two folds are enough below 2^32.
  lemma TwoFolds(s: nat)
    requires s < TWO32
    ensures var once := s / 0x1_0000 + s % 0x1_0000;
            (once + once / 0x1_0000) % 0x1_0000 == Fold(s)
  {
    var once := s / 0x1_0000 + s % 0x1_0000;
    FoldStep(s);
    FoldStep(once);
    var twice := once / 0x1_0000 + once % 0x1_0000;
    assert once <= 2 * ONES;
    FoldSmall(twice);
    if once >= 0x1_0000 {
      ModUnique(once + 1, 0x1_0000, 1, twice);
    }
  }

  // ----- the plain loops -----

  // pseudo_csum, and the loop of calculate_pseudo_tcp_checksum_old.
  method PseudoCsum(b: seq<Byte>) returns (sum: nat)
    ensures sum == WordSum(b)
    ensures |b| <= 0x2_0000 ==> sum < TWO32
  {
    WordSumBound(b);
    sum := 0;
    var pos: nat, nbytes: nat := 0, |b|;
    while nbytes > 1
      invariant pos + nbytes == |b|
      invariant sum + WordSum(b[pos..]) == WordSum(b)
    {
      assert b[pos..][2..] == b[pos + 2..];
      sum := sum + HostWord(b[pos], b[pos + 1]);
      pos, nbytes := pos + 2, nbytes - 2;
    }
    if nbytes == 1 {
      sum := sum + b[pos];
    }
  }

  // csum and ekaCsum: the two-fold complement equals the full one for buffers up to 2^17 bytes.
  method Csum(b: seq<Byte>) returns (answer: Word16)
    ensures |b| <= 0x2_0000 ==> answer == ONES - Fold(WordSum(b))
  {
    var sum := PseudoCsum(b);
    if sum < TWO32 {
      TwoFolds(sum);
    }
    sum := sum / 0x1_0000 + sum % 0x1_0000;
    sum := sum + sum / 0x1_0000;
    answer := Complement16(sum);
  }

  // ----- halving blocks -----

  method CalcPseudoBlock(b: seq<Byte>, pos: nat, iter: nat) returns (sum: nat)
    requires pos + 2 * iter <= |b|
    ensures sum == WordSum(b[pos..pos + 2 * iter])
  {
    sum := 0;
    for i := 0 to iter
      invariant sum == WordSum(b[pos..pos + 2 * i])
    {
      var q := pos + 2 * i;
      WordSumNextWord(b[pos..], 2 * i);
      assert b[pos..][..2 * i] == b[pos..q] && b[pos..][..2 * i + 2] == b[pos..q + 2];
      sum := sum + HostWord(b[q], b[q + 1]);
    }
  }

  lemma WordSumExtend(b: seq<Byte>, pos: nat, end: nat)
    requires pos <= end <= |b| && pos % 2 == 0
    ensures WordSum(b[..end]) == WordSum(b[..pos]) + WordSum(b[pos..end])
  {
    var upTo := b[..end];
    WordSumSplit(upTo, pos);
    assert upTo[..pos] == b[..pos] && upTo[pos..] == b[pos..end];
  }

  // pseudo_csum_unrolled: ten blocks of 512, 256, ..., 1 words, each taken at most once.
  // Exact up to 2047 bytes; of a longer buffer it sums the first 2046 bytes.
  method PseudoCsumUnrolled(b: seq<Byte>) returns (sum: nat)
    ensures sum == WordSum(b[..if |b| <= 2047 then |b| else 2046])
    ensures sum < TWO32
  {
    sum := 0;
    var pos: nat, restBytes: nat, iter: nat := 0, |b|, 512;
    while iter > 0
      invariant iter in {512, 256, 128, 64, 32, 16, 8, 4, 2, 1, 0}
      invariant pos + restBytes == |b| && pos % 2 == 0
      invariant sum == WordSum(b[..pos])
      invariant |b| <= 2047 ==> restBytes < if iter == 0 then 2 else 4 * iter
      invariant |b| > 2047 ==> pos == if iter == 0 then 2046 else 2048 - 4 * iter
      decreases iter
    {
      if restBytes >= iter * 2 {
        var block := CalcPseudoBlock(b, pos, iter);
        WordSumExtend(b, pos, pos + 2 * iter);
        sum := sum + block;
        pos, restBytes := pos + 2 * iter, restBytes - 2 * iter;
      }
      iter := iter / 2;
    }
    if restBytes == 1 {
      WordSumExtend(b, pos, |b|);
      sum := sum + b[pos];
    }
    WordSumBound(b[..if |b| <= 2047 then |b| else 2046]);
  }

  // The blocks miss nothing exactly when all bytes from the 2047th on are zero or the buffer
  // is short enough.
  predicate AllZero(b: seq<Byte>, from: nat) {
    forall i :: from <= i < |b| ==> b[i] == 0
  }

  lemma {:induction false} WordSumZero(b: seq<Byte>, from: nat)
    requires from <= |b| && from % 2 == 0
    ensures WordSum(b[from..]) == 0 <==> AllZero(b, from)
    decreases |b| - from
  {
    if from + 2 <= |b| {
      assert b[from..][2..] == b[from + 2..];
      WordSumZero(b, from + 2);
    }
  }

  lemma UnrolledIsExact(b: seq<Byte>)
    ensures WordSum(b[..if |b| <= 2047 then |b| else 2046]) == WordSum(b)
            <==> |b| <= 2047 || AllZero(b, 2046)
  {
    if |b| <= 2047 {
      assert b[..|b|] == b;
    } else {
      WordSumSplit(b, 2046);
      WordSumZero(b, 2046);
    }
  }

  // ----- byte order independence -----

  lemma {:induction false} NetSumIsShifted(b: seq<Byte>) returns (k: int)
    ensures 0x100 * WordSum(b) == NetSum(b) + k * ONES
    ensures NetSum(b) == 0 <==> WordSum(b) == 0
    decreases |b|
  {
    k := 0;
    if |b| > 1 {
      var r := NetSumIsShifted(b[2..]);
      k := r + b[1];
    }
  }

  lemma SwapIsShifted(x: Word16)
    ensures 0x100 * x == Swap16(x) + x / 0x100 * ONES
    ensures x == 0 <==> Swap16(x) == 0
  {
  }

  // Section 2(B) of RFC 1071: summing in the other byte order swaps the folded sum.
  lemma ByteOrderIndependence(b: seq<Byte>)
    ensures Fold(NetSum(b)) == Swap16(Fold(WordSum(b)))
  {
    var k := NetSumIsShifted(b);
    var s, n := WordSum(b), NetSum(b);
    var x := Fold(s);
    SwapIsShifted(x);
    if s > 0 {
      var q := (s - 1) / ONES;
      assert s == q * ONES + x;
      assert n == 0x100 * s - k * ONES;
      assert n == (0x100 * q + x / 0x100 - k) * ONES + Swap16(x);
      FoldUnique(n, Swap16(x), 0x100 * q + x / 0x100 - k);
    }
  }

  lemma SwapComplement(x: Word16)
    ensures Swap16(ONES - x) == ONES - Swap16(x)
  {
    var h, l := x / 0x100, x % 0x100;
    ModUnique(ONES - x, 0x100, 0xFF - h, 0xFF - l);
  }

  // ----- inserting a checksum makes the sum verify -----

  function PutWord(b: seq<Byte>, k: nat, w: Word16): (c: seq<Byte>)
    requires k + 1 < |b|
    ensures |c| == |b|
  {
    b[k := w % 0x100][k + 1 := w / 0x100]
  }

  lemma WordSumEven(b: seq<Byte>, i: nat, v: Byte)
    requires i < |b| && i % 2 == 0 && b[i] == 0
    ensures WordSum(b[i := v]) == WordSum(b) + v
  {
    WordSumUpdate(b, i, v);
  }

  lemma WordSumOdd(b: seq<Byte>, i: nat, v: Byte)
    requires i < |b| && i % 2 == 1 && b[i] == 0
    ensures WordSum(b[i := v]) == WordSum(b) + 0x100 * v as int
  {
    WordSumUpdate(b, i, v);
  }

  lemma WordSumBoth(b: seq<Byte>, k: nat, lo: Byte, hi: Byte)
    requires k + 1 < |b| && k % 2 == 0 && b[k] == 0 && b[k + 1] == 0
    ensures WordSum(b[k := lo][k + 1 := hi]) == WordSum(b) + HostWord(lo, hi)
  {
    WordSumEven(b, k, lo);
    var c := b[k := lo];
    WordSumOdd(c, k + 1, hi);
  }

  lemma WordSumPut(b: seq<Byte>, k: nat, w: Word16)
    requires k + 1 < |b| && k % 2 == 0 && b[k] == 0 && b[k + 1] == 0
    ensures WordSum(PutWord(b, k, w)) == WordSum(b) + w
  {
    WordSumBoth(b, k, w % 0x100, w / 0x100);
    assert HostWord(w % 0x100, w / 0x100) == w;
  }

  // Section 1 of RFC 1071: with the complement in the zeroed field, the sum is all ones.
  lemma InsertedChecksumVerifies(b: seq<Byte>, k: nat)
    requires k + 1 < |b| && k % 2 == 0 && b[k] == 0 && b[k + 1] == 0
    ensures Fold(WordSum(PutWord(b, k, ONES - Fold(WordSum(b))))) == ONES
  {
    var s := WordSum(b);
    WordSumPut(b, k, ONES - Fold(s));
    if s == 0 {
      FoldSmall(ONES);
    } else {
      var q := (s - 1) / ONES;
      assert s == q * ONES + Fold(s);
      FoldUnique(s + ONES - Fold(s), ONES, q);
    }
  }
}
