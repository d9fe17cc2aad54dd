// 32-bit TCP sequence numbers and their 64-bit reconstruction.
module SeqNum {
  import opened Arith

  const TWO31 := 0x8000_0000
  const TWO64 := 0x1_0000_0000_0000_0000

  function Low32(x: int): (r: nat)
    ensures r < TWO32
  {
    x % TWO32
  }

  // seq32to64: the 64-bit number that ends in new32, one 2^32 block further on when new32
  // is below the previous 32-bit number. All arithmetic is unsigned 64-bit.
  function Seq32To64(prev64: nat, prev32: nat, new32: nat, baseOffs: nat): nat {
    var bumped := if new32 < prev32 then (prev64 + TWO32) % TWO64 else prev64;
    (bumped / TWO32 * TWO32 + new32 - baseOffs) % TWO64
  }

  // TCP_SEQ_LT: the sign bit of the 32-bit difference.
  predicate TcpSeqLt(a: nat, b: nat) {
    (a - b) % TWO32 >= TWO31
  }

  lemma SplitBlocks(x: nat)
    ensures x == x / TWO32 * TWO32 + Low32(x)
  {
  }

  // What seq32to64 really returns: the value congruent to next in the block of 2^32 numbers
  // that starts at prev.
  lemma {:induction false} Seq32To64Value(prev: nat, next: nat)
    requires prev < TWO64 && next < TWO64
    ensures Seq32To64(prev, Low32(prev), Low32(next), 0) == (prev + (next - prev) % TWO32) % TWO64
  {
    var q, l, n := prev / TWO32, Low32(prev), Low32(next);
    SplitBlocks(prev);
    SplitBlocks(next);
    if n < l {
      WrappedValue(prev, next);
    } else {
      ModUnique(next - prev, TWO32, next / TWO32 - q, n - l);
      assert prev + (next - prev) % TWO32 == q * TWO32 + n;
    }
  }

  lemma WrappedValue(prev: nat, next: nat)
    requires prev < TWO64 && next < TWO64 && Low32(next) < Low32(prev)
    ensures Seq32To64(prev, Low32(prev), Low32(next), 0) == (prev + (next - prev) % TWO32) % TWO64
  {
    var q, l, n := prev / TWO32, Low32(prev), Low32(next);
    SplitBlocks(prev);
    SplitBlocks(next);
    ModUnique(next - prev, TWO32, next / TWO32 - q - 1, n - l + TWO32);
    assert prev + (next - prev) % TWO32 == (q + 1) * TWO32 + n;
    var wrapped := if prev + TWO32 < TWO64 then 0 else 1;
    var bumped := prev + TWO32 - wrapped * TWO64;
    ModUnique(prev + TWO32, TWO64, wrapped, bumped);
    ModUnique(bumped, TWO32, q + 1 - wrapped * TWO32, l);
    assert bumped / TWO32 * TWO32 + n == (q + 1) * TWO32 + n - wrapped * TWO64;
    ModUnique((q + 1) * TWO32 + n, TWO64, wrapped, bumped / TWO32 * TWO32 + n);
  }

  // The 64-bit reconstruction is exact if and only if the new number is at most 2^32 - 1
  // ahead of the old one: a number that goes backwards is always misread.
  lemma {:induction false} Seq32To64Exact(prev: nat, next: nat)
    requires prev < TWO64 && next < TWO64
    ensures Seq32To64(prev, Low32(prev), Low32(next), 0) == next <==> (next - prev) % TWO64 < TWO32
  {
    Seq32To64Value(prev, next);
    var step := (next - prev) % TWO32;
    var wrapped := if next < prev then 1 else 0;
    var far := next - prev + wrapped * TWO64;
    ModUnique(next - prev, TWO64, -wrapped, far);
    if far < TWO32 {
      ModUnique(next - prev, TWO32, -wrapped * TWO32, far);
      ModUnique(prev + step, TWO64, wrapped, next);
    } else if prev + step < TWO64 {
      ModUnique(prev + step, TWO64, 0, prev + step);
    } else {
      ModUnique(prev + step, TWO64, 1, prev + step - TWO64);
    }
  }

  // A base only shifts the result.
  lemma BaseIsSubtracted(prev64: nat, prev32: nat, new32: nat, baseOffs: nat)
    ensures Seq32To64(prev64, prev32, new32, baseOffs) == (Seq32To64(prev64, prev32, new32, 0) - baseOffs) % TWO64
  {
    var bumped := if new32 < prev32 then (prev64 + TWO32) % TWO64 else prev64;
    var x := bumped / TWO32 * TWO32 + new32;
    assert x == x / TWO64 * TWO64 + x % TWO64;
    ModUnique(x - baseOffs, TWO64, x / TWO64 + (x % TWO64 - baseOffs) / TWO64, (x % TWO64 - baseOffs) % TWO64);
  }

  // An acknowledgement that goes backwards by at most 2^32 is read one full block too
  // high, above every byte that the session has handed to the driver.
  lemma BackwardAckReadAhead(prev: nat, next: nat, sent: nat)
    requires prev < TWO64 - TWO32 && next < prev <= next + TWO32
    requires sent < next + TWO32
    ensures Seq32To64(prev, Low32(prev), Low32(next), 0) == next + TWO32 > sent
  {
    Seq32To64Value(prev, next);
    assert (next - prev) % TWO32 == next - prev + TWO32 || prev == next + TWO32;
  }

  // TCP_SEQ_LT agrees with the true order of two numbers less than half the space apart.
  lemma TcpSeqLtIsOrder(x: nat, y: nat)
    requires -TWO31 <= x - y < TWO31
    ensures TcpSeqLt(Low32(x), Low32(y)) <==> x < y
  {
    Low32Difference(x, y);
  }

  lemma Low32Difference(x: nat, y: nat)
    ensures (Low32(x) - Low32(y)) % TWO32 == (x - y) % TWO32
  {
    SplitBlocks(x);
    SplitBlocks(y);
    assert x - y == (x / TWO32 - y / TWO32) * TWO32 + (Low32(x) - Low32(y));
  }

  lemma Low32Add(x: nat, n: nat)
    ensures Low32(Low32(x) + n) == Low32(x + n)
  {
    SplitBlocks(x);
    assert x + n == x / TWO32 * TWO32 + (Low32(x) + n);
  }
}
