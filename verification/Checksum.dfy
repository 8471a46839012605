/** The Internet checksum: two loops that compute it in different ways, and the 16-bit
    one's-complement sum of RFC 1071 they are measured against. */
module Checksum {
  import opened Bytes

  type Word = w: int | 0 <= w < 0x1_0000
  type U64 = w: int | 0 <= w < 0x1_0000_0000_0000_0000

  // ----- RFC 1071 -----

  /** One's-complement addition of 16-bit words: a carry out of the top is added at the bottom. */
  function OnesAdd(a: Word, b: Word): Word {
    if a + b > 0xFFFF then a + b - 0xFFFF else a + b
  }

  /** A 16-bit word from its high and its low byte. */
  function Pair(high: int, low: int): (w: int)
    ensures 0 <= high < 256 && 0 <= low < 256 ==> 0 <= w < 0x1_0000
  {
    256 * high + low
  }

  /** The one's-complement sum of the data as big-endian 16-bit words, a last odd byte padded with zero. */
  function OnesSum(d: bytes): Word {
    if d == [] then 0
    else if |d| == 1 then Pair(d[0], 0)
    else OnesAdd(Pair(d[0], d[1]), OnesSum(d[2..]))
  }

  predicate AllZero(d: bytes) {
    forall k :: 0 <= k < |d| ==> d[k] == 0
  }

  /** The checksum of RFC 1071, section 1. */
  function RfcChecksum(d: bytes): Word {
    0xFFFF - OnesSum(d)
  }

  // ----- sums modulo 0xFFFF -----

  /** The plain sum of the bytes, every other one counted 256 times; high says whether the first is. */
  function Weighted(d: bytes, high: bool): nat {
    if d == [] then 0 else (if high then Pair(d[0], 0) else d[0]) + Weighted(d[1..], !high)
  }

  function Ones(k: int): int { 0xFFFF * k }

  /** Congruence modulo 0xFFFF. */
  ghost predicate Congruent(a: int, b: int) {
    exists k :: a == b + Ones(k)
  }

  lemma CongruentAdd(a: int, b: int, c: int, d: int)
    requires Congruent(a, b) && Congruent(c, d)
    ensures Congruent(a + c, b + d)
  {
    var k :| a == b + Ones(k);
    var m :| c == d + Ones(m);
    assert a + c == b + d + Ones(k + m);
  }

  lemma CongruentTimes256(a: int, b: int)
    requires Congruent(a, b)
    ensures Congruent(256 * a, 256 * b)
  {
    var k :| a == b + Ones(k);
    assert 256 * a == 256 * b + Ones(256 * k);
  }

  lemma CongruentChain(a: int, b: int, c: int)
    requires Congruent(a, b) && (Congruent(b, c) || Congruent(c, b))
    ensures Congruent(a, c)
  {
    var k :| a == b + Ones(k);
    if Congruent(b, c) {
      var m :| b == c + Ones(m);
      assert a == c + Ones(k + m);
    } else {
      var m :| c == b + Ones(m);
      assert a == c + Ones(k - m);
    }
  }

  lemma CongruentSelf(a: int)
    ensures Congruent(a, a)
  {
    assert a == a + Ones(0);
  }

  lemma CarryWraps(b: int)
    ensures Congruent(0x1_0000 * b, b)
    ensures Congruent(0x1_0000_0000 * b, b)
  {
    assert 0x1_0000 * b == b + Ones(b);
    assert 0x1_0000_0000 * b == b + Ones(0x1_0001 * b);
  }

  lemma {:induction false} WeightedConcat(a: bytes, b: bytes, high: bool)
    ensures Weighted(a + b, high) == Weighted(a, high) + Weighted(b, high == (|a| % 2 == 0))
    decreases |a|
  {
    if a == [] {
      assert a + b == b;
    } else {
      assert (a + b)[1..] == a[1..] + b;
      WeightedConcat(a[1..], b, !high);
    }
  }

  /** Shifting every byte to the other half of its word multiplies the sum by 256. */
  lemma {:induction false} WeightedSwap(d: bytes, high: bool)
    ensures Congruent(256 * Weighted(d, high), Weighted(d, !high))
    decreases |d|
  {
    CongruentSelf(0);
    if d != [] {
      WeightedSwap(d[1..], !high);
      hide Congruent;
      var x: int := d[0];
      var more, swapped := Weighted(d[1..], !high), Weighted(d[1..], high);
      CarryWraps(x);
      CongruentSelf(256 * x);
      assert 256 * Weighted(d, high) == (if high then 0x1_0000 * x else 256 * x) + 256 * more;
      CongruentAdd(if high then 0x1_0000 * x else 256 * x, if high then x else 256 * x, 256 * more, swapped);
    }
  }

  lemma {:induction false} WeightedZero(d: bytes, high: bool)
    ensures Weighted(d, high) == 0 <==> AllZero(d)
    decreases |d|
  {
    if d == [] {
    } else {
      WeightedZero(d[1..], !high);
      assert AllZero(d) <==> d[0] == 0 && AllZero(d[1..]) by {
        if d[0] == 0 && AllZero(d[1..]) {
          forall k | 0 <= k < |d| ensures d[k] == 0 { assert k > 0 ==> d[k] == d[1..][k - 1]; }
        }
      }
    }
  }

  lemma OnesAddMeans(a: Word, b: Word)
    ensures Congruent(OnesAdd(a, b), a + b)
    ensures OnesAdd(a, b) == 0 <==> a == 0 && b == 0
  {
    assert a + b == a + b + Ones(0);
    assert a + b - 0xFFFF == a + b + Ones(-1);
  }

  /** The one's-complement sum stands for the plain sum modulo 0xFFFF, and is 0 only for zero data. */
  lemma {:induction false} OnesSumMeans(d: bytes)
    ensures Congruent(OnesSum(d), Weighted(d, true))
    ensures OnesSum(d) == 0 <==> Weighted(d, true) == 0
    decreases |d|
  {
    hide Congruent;
    CongruentSelf(OnesSum(d));
    if |d| >= 2 {
      OnesSumMeans(d[2..]);
      assert d[1..][1..] == d[2..];
      var word := Pair(d[0], d[1]);
      assert Weighted(d, true) == word + Weighted(d[2..], true);
      OnesAddMeans(word, OnesSum(d[2..]));
      hide OnesSum, Weighted;
      CongruentSelf(word);
      CongruentAdd(word, word, OnesSum(d[2..]), Weighted(d[2..], true));
      CongruentChain(OnesAdd(word, OnesSum(d[2..])), word + OnesSum(d[2..]), word + Weighted(d[2..], true));
    }
  }

  /** Two values in 1..0xFFFF that agree modulo 0xFFFF are the same. */
  lemma OneRepresentative(x: int, y: int)
    requires 1 <= x <= 0xFFFF && 1 <= y <= 0xFFFF && Congruent(x, y)
    ensures x == y
  {
    var k :| x == y + Ones(k);
    assert -1 < k < 1;
  }

  lemma ZeroRepresentative(x: int)
    requires 1 <= x <= 0xFFFF && Congruent(x, 0)
    ensures x == 0xFFFF
  {
    var k :| x == 0 + Ones(k);
    assert k == 1;
  }

  /** The only value in 1..0xFFFF that stands for the sum of the data. */
  lemma Representative(x: int, d: bytes)
    requires 1 <= x <= 0xFFFF && Congruent(x, Weighted(d, true))
    ensures x == if AllZero(d) then 0xFFFF else OnesSum(d)
  {
    OnesSumMeans(d);
    WeightedZero(d, true);
    hide Congruent, Weighted, OnesSum;
    CongruentChain(x, Weighted(d, true), OnesSum(d));
    if AllZero(d) { ZeroRepresentative(x); } else { OneRepresentative(x, OnesSum(d)); }
  }

  // ----- ip_checksum -----

  /** ntohl of four bytes in memory order. */
  function BigEndian(w: bytes): (n: nat)
    requires |w| == 4
    ensures n < 0x1_0000_0000
  {
    0x1_0000 * Pair(w[0], w[1]) + Pair(w[2], w[3])
  }

  function Zeros(n: nat): bytes {
    seq(n, _ => 0)
  }

  lemma {:induction false} WeightedZeros(n: nat, high: bool)
    ensures Weighted(Zeros(n), high) == 0
  {
    WeightedZero(Zeros(n), high);
  }

  lemma WordMeans(w: bytes)
    requires |w| == 4
    ensures Congruent(BigEndian(w), Weighted(w, true))
  {
    hide Congruent;
    assert w[1..][1..][1..][1..] == [];
    assert w[1..][0] == w[1] && w[1..][1..][0] == w[2] && w[1..][1..][1..][0] == w[3];
    var top: int := Pair(w[0], w[1]);
    assert Weighted(w[1..][1..][1..], false) == w[3];
    assert Weighted(w[1..][1..], true) == Pair(w[2], w[3]);
    assert Weighted(w, true) == top + Pair(w[2], w[3]);
    CarryWraps(top);
    CongruentSelf(Pair(w[2], w[3]));
    CongruentAdd(0x1_0000 * top, top, Pair(w[2], w[3]), Pair(w[2], w[3]));
  }

  /** A 32-bit block counts the same modulo 0xFFFF as its bytes, wherever in it they lie. */
  lemma BlockMeans(before: nat, chunk: bytes, after: nat)
    requires before + |chunk| + after == 4
    ensures Congruent(BigEndian(Zeros(before) + chunk + Zeros(after)), Weighted(chunk, before % 2 == 0))
  {
    hide Weighted, BigEndian, Congruent;
    var w := Zeros(before) + chunk + Zeros(after);
    WordMeans(w);
    WeightedConcat(Zeros(before) + chunk, Zeros(after), true);
    WeightedConcat(Zeros(before), chunk, true);
    WeightedZeros(before, true);
    WeightedZeros(after, true);
    WeightedZeros(after, false);
  }

  /** Deferred carries: adding the high half to the low half keeps the value modulo 0xFFFF. */
  lemma FoldMeans(a: nat)
    ensures Congruent(a % 0x1_0000 + a / 0x1_0000, a)
    ensures Congruent(a % 0x1_0000_0000 + a / 0x1_0000_0000, a)
    ensures a > 0 ==> a % 0x1_0000 + a / 0x1_0000 > 0 && a % 0x1_0000_0000 + a / 0x1_0000_0000 > 0
  {
    assert a % 0x1_0000 + a / 0x1_0000 == a + Ones(-(a / 0x1_0000));
    assert a % 0x1_0000_0000 + a / 0x1_0000_0000 == a + Ones(-(0x1_0001 * (a / 0x1_0000_0000)));
  }

  function SwapBytes(w: Word): Word {
    w / 256 + w % 256 * 256
  }

  lemma SwapMeans(w: Word)
    ensures Congruent(SwapBytes(w), 256 * w)
    ensures SwapBytes(w) == 0 <==> w == 0
    ensures SwapBytes(SwapBytes(w)) == w
    ensures SwapBytes(0xFFFF - w) == 0xFFFF - SwapBytes(w)
  {
    var high, low := w / 256, w % 256;
    assert 256 * w == 0x1_0000 * high + 256 * low;
    assert SwapBytes(w) == 256 * w + Ones(-high);
    SwapDigits(high, low);
    SwapDigits(low, high);
    SwapDigits(255 - high, 255 - low);
    assert 0xFFFF - w == 256 * (255 - high) + (255 - low);
  }

  lemma SwapDigits(high: nat, low: nat)
    requires high < 256 && low < 256
    ensures SwapBytes(256 * high + low) == 256 * low + high
  {
    assert (256 * high + low) / 256 == high;
  }

  /** The carries at the end of ip_checksum. */
  method FoldCarries(start: U64) returns (acc: Word)
    requires start > 0
    ensures acc > 0 && Congruent(acc, start)
  {
    hide Congruent;
    FoldMeans(start);
    var wide: U64 := start % 0x1_0000_0000 + start / 0x1_0000_0000;
    while wide / 0x1_0000 != 0
      invariant wide > 0 && Congruent(wide, start)
      decreases wide
    {
      FoldMeans(wide);
      CongruentChain(wide % 0x1_0000 + wide / 0x1_0000, wide, start);
      wide := wide % 0x1_0000 + wide / 0x1_0000;
    }
    acc := wide;
  }

  lemma BlockStep(data: bytes, p: nat, q: nat, before: nat, after: nat, high: bool, acc: int)
    requires p <= q <= |data| && before + (q - p) + after == 4
    requires Congruent(acc, Weighted(data[..p], high))
    requires (before % 2 == 0) == (high == (p % 2 == 0))
    ensures Congruent(acc + BigEndian(Zeros(before) + data[p..q] + Zeros(after)), Weighted(data[..q], high))
  {
    hide Weighted, BigEndian, Congruent;
    var w := data[p..q];
    BlockMeans(before, w, after);
    assert data[..q] == data[..p] + w;
    WeightedConcat(data[..p], w, high);
    CongruentAdd(acc, Weighted(data[..p], high), BigEndian(Zeros(before) + w + Zeros(after)),
        Weighted(w, before % 2 == 0));
  }

  /** The loops of ip_checksum: everything added up, carries deferred. */
  method AddBlocks(data: bytes, offset: nat) returns (acc: U64)
    requires offset < 4 && offset + |data| <= 0x4_0000_0000
    ensures acc > 0 && Congruent(acc, Weighted(data, offset % 2 == 0))
  {
    hide Weighted, Congruent, BigEndian;
    acc := 0xFFFF;
    var p := 0;
    ghost var high := offset % 2 == 0;
    assert Congruent(acc, Weighted(data[..0], high)) by { NothingYet(data, high); }
    if offset != 0 {
      var count := 4 - offset;
      if count > |data| { count := |data|; }
      BlockStep(data, 0, count, offset, 4 - offset - count, high, acc);
      assert data[0..count] == data[..count];
      acc := acc + BigEndian(Zeros(offset) + data[..count] + Zeros(4 - offset - count));
      p := count;
    }
    var length := |data| - p;
    ghost var words := if offset == 0 then 0 else 1;
    while length >= 4
      invariant 0 <= p && 0 <= length && p + length == |data|
      invariant offset + p <= 4 * words <= offset + p + 3 && (length == 0 || 4 * words == offset + p)
      invariant acc <= 0xFFFF + words * 0xFFFF_FFFF
      invariant acc > 0 && Congruent(acc, Weighted(data[..p], high))
      decreases length
    {
      SameParity(offset, p, words);
      BlockStep(data, p, p + 4, 0, 0, high, acc);
      assert Zeros(0) + data[p..p + 4] + Zeros(0) == data[p..p + 4];
      acc := acc + BigEndian(data[p..p + 4]);
      words := words + 1;
      p := p + 4;
      length := length - 4;
    }
    if length != 0 {
      SameParity(offset, p, words);
      BlockStep(data, p, |data|, 0, 4 - length, high, acc);
      assert Zeros(0) + data[p..|data|] + Zeros(4 - length) == data[p..] + Zeros(4 - length);
      acc := acc + BigEndian(data[p..] + Zeros(4 - length));
    }
    assert data[..|data|] == data;
  }

  lemma SameParity(offset: nat, p: nat, words: nat)
    requires offset + p == 4 * words
    ensures (p % 2 == 0) == (offset % 2 == 0)
  {
    var half := 2 * words - offset / 2;
    assert if offset % 2 == 0 then p == 2 * half else p == 2 * (half - 1) + 1;
  }

  lemma NothingYet(data: bytes, high: bool)
    ensures Congruent(0xFFFF, Weighted(data[..0], high))
  {
    assert 0xFFFF == 0 + Ones(1);
  }

  /** ip_checksum of data that starts offset bytes after a multiple of four; the result is the value
      whose two bytes, high byte first, are stored. The accumulator never leaves 64 bits, and no
      alignment changes the result: the RFC 1071 checksum, except that zero data gives 0. */
  method IpChecksum(data: bytes, offset: nat) returns (result: Word)
    requires offset < 4 && offset + |data| <= 0x4_0000_0000
    ensures result == if AllZero(data) then 0 else RfcChecksum(data)
  {
    hide Congruent, Weighted;
    var acc := AddBlocks(data, offset);
    var sum := FoldCarries(acc);
    CongruentChain(sum, acc, Weighted(data, offset % 2 == 0));
    if offset % 2 == 1 {
      SwapSum(sum, data);
      sum := SwapBytes(sum);
    }
    Representative(sum, data);
    result := 0xFFFF - sum;
  }

  lemma SwapSum(sum: Word, data: bytes)
    requires sum > 0 && Congruent(sum, Weighted(data, false))
    ensures SwapBytes(sum) > 0 && Congruent(SwapBytes(sum), Weighted(data, true))
  {
    hide Congruent, Weighted, SwapBytes;
    SwapMeans(sum);
    WeightedSwap(data, false);
    CongruentTimes256(sum, Weighted(data, false));
    CongruentChain(SwapBytes(sum), 256 * sum, 256 * Weighted(data, false));
    CongruentChain(SwapBytes(sum), 256 * Weighted(data, false), Weighted(data, true));
  }

  // ----- icmp_checksum -----

  /** A 16-bit load from memory on a host of either byte order. */
  function Load16(first: byte, second: byte, little: bool): Word {
    if little then Pair(second, first) else Pair(first, second)
  }

  /** htons and ntohs. */
  function Htons(w: Word, little: bool): Word {
    if little then SwapBytes(w) else w
  }

  /** The two bytes a host stores for a 16-bit integer, in memory order. */
  function Store16(w: Word, little: bool): (byte, byte) {
    if little then (w % 256, w / 256) else (w / 256, w % 256)
  }

  /** icmp_checksum folds the carries exactly twice. */
  function TwoFolds(sum: nat): Word {
    var once := sum / 0x1_0000 + sum % 0x1_0000;
    (once + once / 0x1_0000) % 0x1_0000
  }

  /** What the second fold adds up to; a carry out of it is lost. */
  function SecondFold(sum: nat): nat {
    var once := sum / 0x1_0000 + sum % 0x1_0000;
    once / 0x1_0000 + once % 0x1_0000
  }

  lemma SecondFoldMeans(sum: nat)
    requires sum > 0
    ensures SecondFold(sum) > 0 && Congruent(SecondFold(sum), sum)
  {
    var once := sum / 0x1_0000 + sum % 0x1_0000;
    FoldMeans(sum);
    FoldMeans(once);
    hide Congruent;
    CongruentChain(SecondFold(sum), once, sum);
  }

  /** The carry out of the second fold is dropped. */
  lemma CarryDropped(sum: nat)
    requires sum < 0x8000_0000_0000
    ensures TwoFolds(sum) == if SecondFold(sum) < 0x1_0000 then SecondFold(sum) else SecondFold(sum) - 0x1_0000
  {
    var once := sum / 0x1_0000 + sum % 0x1_0000;
    assert once < 0x8001_0000;
    LowBits(once);
  }

  lemma LowBits(once: nat)
    requires once < 0x8001_0000
    ensures var folded := once / 0x1_0000 + once % 0x1_0000;
            (once + once / 0x1_0000) % 0x1_0000 == if folded < 0x1_0000 then folded else folded - 0x1_0000
  {
    var high, low := once / 0x1_0000, once % 0x1_0000;
    assert once + high == 0x1_0000 * high + (low + high);
  }

  /** For any size a uint32_t can hold, two folds reach the one's-complement representative exactly
      when the second one leaves no further carry. */
  lemma TwoFoldsExact(sum: nat)
    requires 0 < sum < 0x8000_0000_0000
    ensures (1 <= TwoFolds(sum) && Congruent(TwoFolds(sum), sum)) <==> SecondFold(sum) < 0x1_0000
  {
    hide *;
    SecondFoldMeans(sum);
    CarryDropped(sum);
    if SecondFold(sum) >= 0x1_0000 && Congruent(TwoFolds(sum), sum) {
      CongruentChain(TwoFolds(sum), sum, SecondFold(sum));
      NotCongruent(SecondFold(sum));
    }
  }

  lemma NotCongruent(x: int)
    ensures !Congruent(x - 0x1_0000, x)
  {
    forall k ensures x - 0x1_0000 != x + Ones(k) {
      assert k >= 0 ==> Ones(k) >= 0;
      assert k <= -2 ==> Ones(k) <= Ones(-2);
    }
  }

  /** Up to 65537 words the sum stays below 2^32, and then two folds are enough. */
  lemma TwoFoldsEnough(sum: nat)
    requires 0 < sum < 0x1_0000_0000
    ensures 1 <= TwoFolds(sum) <= 0xFFFF && Congruent(TwoFolds(sum), sum)
  {
    TwoFoldsExact(sum);
  }

  /** What ip_checksum returns, before htons. */
  function IpCheck(d: bytes): Word {
    if AllZero(d) then 0 else RfcChecksum(d)
  }

  /** What that comes to for up to 65537 words. */
  function IcmpCheck(d: bytes, little: bool): Word {
    if AllZero(d) then 0xFFFF else Htons(RfcChecksum(d), little)
  }

  /** What icmp_checksum returns for an even number of bytes: the complement of two folds. */
  function IcmpResult(d: bytes, little: bool): Word {
    0xFFFF - TwoFolds(Weighted(d, !little))
  }

  lemma IcmpResultIs(d: bytes, little: bool)
    ensures IcmpResult(d, little) == 0xFFFF - TwoFolds(Weighted(d, !little))
  {
  }

  lemma {:induction false} WeightedBound(d: bytes, high: bool)
    requires |d| % 2 == 0
    ensures 0 <= Weighted(d, high) <= |d| / 2 * 0xFFFF
    decreases |d|
  {
    if d == [] {
    } else {
      assert d[1..][1..] == d[2..];
      assert Weighted(d, high) == (if high then Pair(d[0], d[1]) else Pair(d[1], d[0])) + Weighted(d[2..], high);
      WeightedBound(d[2..], high);
      assert |d| / 2 == |d[2..]| / 2 + 1;
    }
  }

  lemma NextWord(d: bytes, p: nat, little: bool)
    requires p + 2 <= |d| && p % 2 == 0
    ensures Weighted(d[..p + 2], !little) == Weighted(d[..p], !little) + Load16(d[p], d[p + 1], little)
  {
    var w := d[p..p + 2];
    assert d[..p + 2] == d[..p] + w;
    WeightedConcat(d[..p], w, !little);
    assert w[1..][1..] == [];
    assert Weighted(w[1..], little) == if little then Pair(d[p + 1], 0) else d[p + 1];
  }

  /** icmp_checksum on an even number of bytes, summing words in the byte order of the host. */
  method IcmpChecksum(data: bytes, little: bool) returns (result: Word)
    requires |data| % 2 == 0 && |data| < 0x1_0000_0000
    ensures result == IcmpResult(data, little)
    ensures |data| / 2 <= 65537 ==> result == IcmpCheck(data, little)
  {
    hide *;
    var cksum: U64 := 0;
    var size := |data|;
    var p := 0;
    ghost var words := 0;
    assert Weighted(data[..0], !little) == 0 by { NothingWeighted(!little); }
    while size > 1
      invariant p == 2 * words && p + size == |data| && 0 <= words && 0 <= size
      invariant cksum == Weighted(data[..p], !little) && cksum <= words * 0xFFFF
      decreases size
    {
      NextWord(data, p, little);
      cksum := cksum + Load16(data[p], data[p + 1], little);
      p := p + 2;
      size := size - 2;
      words := words + 1;
    }
    assert data[..p] == data;
    FoldsAre(cksum);
    IcmpResultIs(data, little);
    var once: U64 := cksum / 0x1_0000 + cksum % 0x1_0000;
    var twice: U64 := once + once / 0x1_0000;
    result := 0xFFFF - twice % 0x1_0000;
    if |data| / 2 <= 65537 { IcmpMeans(data, little); }
  }

  lemma NothingWeighted(high: bool)
    ensures Weighted([], high) == 0
  {
  }

  lemma FoldsAre(sum: nat)
    ensures var once := sum / 0x1_0000 + sum % 0x1_0000; (once + once / 0x1_0000) % 0x1_0000 == TwoFolds(sum)
  {
  }

  lemma IcmpMeans(data: bytes, little: bool)
    requires |data| % 2 == 0 && |data| / 2 <= 65537
    ensures IcmpResult(data, little) == IcmpCheck(data, little)
  {
    var sum := Weighted(data, !little);
    WeightedBound(data, !little);
    WeightedZero(data, !little);
    if sum > 0 {
      TwoFoldsEnough(sum);
      hide Weighted, Congruent, TwoFolds, OnesSum;
      var t := TwoFolds(sum);
      if little {
        SwapSum(t, data);
        Representative(SwapBytes(t), data);
        SwapMeans(t);
        SwapMeans(SwapBytes(t));
      } else {
        Representative(t, data);
      }
    }
  }

  /** The complement the host returns is right exactly when what it folded to stands for the sum. */
  lemma HostRepresentative(data: bytes, little: bool, t: Word)
    requires !AllZero(data)
    ensures 0xFFFF - t == Htons(RfcChecksum(data), little) <==> t > 0 && Congruent(t, Weighted(data, !little))
  {
    OnesSumMeans(data);
    WeightedZero(data, true);
    var ones: int := OnesSum(data);
    hide Weighted, Congruent, OnesSum;
    SwapMeans(ones);
    if little {
      WeightedSwap(data, true);
      CongruentTimes256(ones, Weighted(data, true));
      CongruentChain(SwapBytes(ones), 256 * ones, 256 * Weighted(data, true));
      CongruentChain(SwapBytes(ones), 256 * Weighted(data, true), Weighted(data, false));
    }
    if t > 0 && Congruent(t, Weighted(data, !little)) {
      var r := if little then SwapBytes(ones) else ones;
      CongruentChain(t, Weighted(data, !little), r);
      OneRepresentative(t, r);
    }
  }

  lemma SmallSumsFit(sum: nat)
    requires sum < 0x1_0000_0000
    ensures SecondFold(sum) < 0x1_0000
  {
  }

  /** For any even length both functions return the same 16-bit integer, whichever the byte order of the
      host, exactly when the data is not all zero and the second fold leaves no carry. Up to 65537 words
      it never does. */
  lemma SameChecksumIff(data: bytes, little: bool)
    requires |data| % 2 == 0 && |data| < 0x1_0000_0000
    ensures IcmpResult(data, little) == Htons(IpCheck(data), little) <==>
              !AllZero(data) && SecondFold(Weighted(data, !little)) < 0x1_0000
    ensures |data| / 2 <= 65537 ==> SecondFold(Weighted(data, !little)) < 0x1_0000
  {
    hide *;
    var sum := Weighted(data, !little);
    IcmpResultIs(data, little);
    WeightedBound(data, !little);
    WeightedZero(data, !little);
    if |data| / 2 <= 65537 { SmallSumsFit(sum); }
    if AllZero(data) {
      ZeroDataDiffers(data, little);
    } else {
      HostRepresentative(data, little, TwoFolds(sum));
      TwoFoldsExact(sum);
      IpCheckOf(data);
    }
  }

  lemma IpCheckOf(data: bytes)
    ensures IpCheck(data) == if AllZero(data) then 0 else RfcChecksum(data)
  {
  }

  lemma ZeroFolds(little: bool)
    ensures TwoFolds(0) == 0 && Htons(0, little) == 0
  {
  }

  lemma ZeroDataDiffers(data: bytes, little: bool)
    requires AllZero(data)
    ensures 0xFFFF - TwoFolds(0) != Htons(IpCheck(data), little)
  {
    hide *;
    IpCheckOf(data);
    ZeroFolds(little);
  }

  /** The word FF FF, again and again. */
  function Full(words: nat): bytes {
    seq(2 * words, _ => 0xFF)
  }

  lemma {:induction false} FullSum(words: nat, high: bool)
    ensures Weighted(Full(words), high) == 0xFFFF * words
  {
    if words > 0 {
      var d := Full(words);
      assert d[1..][1..] == Full(words - 1);
      FullSum(words - 1, high);
    }
  }

  /** Data on which the second fold does carry: 65538 words FFFF and a word 1. There icmp_checksum is off by one. */
  lemma TwoFoldsFallShort(little: bool)
    ensures var data := Full(65538) + if little then [1, 0] else [0, 1];
            && Weighted(data, !little) == 0x1_0000_FFFF && SecondFold(0x1_0000_FFFF) == 0x1_0000
            && IcmpResult(data, little) != Htons(IpCheck(data), little)
  {
    hide Weighted, AllZero, RfcChecksum;
    var one: bytes := if little then [1, 0] else [0, 1];
    var data := Full(65538) + one;
    FullSum(65538, !little);
    WeightedConcat(Full(65538), one, !little);
    OneWord(little);
    assert |data| == 131078;
    SameChecksumIff(data, little);
  }

  lemma OneWord(little: bool)
    ensures Weighted(if little then [1, 0] else [0, 1], !little) == 1
  {
    var d: bytes := if little then [1, 0] else [0, 1];
    assert d[1..][1..] == [] && Weighted([], !little) == 0;
    assert Weighted(d[1..], little) == if little then 0 else 1;
  }

  // ----- storing the checksum -----

  /** Data checks to 0 exactly when its sum is a multiple of 0xFFFF. */
  lemma VerifiesIff(d: bytes)
    ensures IpCheck(d) == 0 <==> Congruent(Weighted(d, true), 0)
    ensures RfcChecksum(d) == 0 <==> Congruent(Weighted(d, true), 0) && !AllZero(d)
  {
    OnesSumMeans(d);
    WeightedZero(d, true);
    CongruentSelf(0);
    hide Weighted, OnesSum, Congruent;
    var s := OnesSum(d);
    if s == 0xFFFF {
      AllOnes();
      CongruentChain(0xFFFF, Weighted(d, true), Weighted(d, true)) by { CongruentSelf(Weighted(d, true)); }
      CongruentSwap(0xFFFF, Weighted(d, true));
      CongruentChain(Weighted(d, true), 0xFFFF, 0);
    } else if Congruent(Weighted(d, true), 0) && !AllZero(d) {
      CongruentChain(s, Weighted(d, true), 0);
      ZeroRepresentative(s);
    }
  }

  lemma AllOnes()
    ensures Congruent(0xFFFF, 0)
  {
    assert 0xFFFF == 0 + Ones(1);
  }

  lemma CongruentSwap(a: int, b: int)
    requires Congruent(a, b)
    ensures Congruent(b, a)
  {
    CongruentSelf(b);
    CongruentChain(b, b, a);
  }

  function Stored(d: bytes, p: nat, w: Word): bytes
    requires p + 2 <= |d|
  {
    d[p := w / 256][p + 1 := w % 256]
  }

  lemma StoredSum(d: bytes, p: nat, w: Word)
    requires p + 2 <= |d| && p % 2 == 0 && d[p] == 0 && d[p + 1] == 0
    ensures Weighted(Stored(d, p, w), true) == Weighted(d, true) + w
  {
    hide Weighted;
    var a, b := d[..p], d[p + 2..];
    StoredParts(d, p, w);
    WordInside(a, [0, 0], b);
    WordInside(a, [w / 256, w % 256], b);
    TwoBytes(0, 0);
    TwoBytes(w / 256, w % 256);
    assert Pair(w / 256, w % 256) == w;
  }

  lemma StoredParts(d: bytes, p: nat, w: Word)
    requires p + 2 <= |d| && d[p] == 0 && d[p + 1] == 0
    ensures d == d[..p] + ([0, 0] + d[p + 2..])
    ensures Stored(d, p, w) == d[..p] + ([w / 256, w % 256] + d[p + 2..])
  {
  }

  lemma WordInside(a: bytes, word: bytes, b: bytes)
    requires |a| % 2 == 0 && |word| == 2
    ensures Weighted(a + (word + b), true) == Weighted(a, true) + Weighted(word, true) + Weighted(b, true)
  {
    hide Weighted;
    WeightedConcat(a, word + b, true);
    WeightedConcat(word, b, true);
  }

  lemma TwoBytes(x: byte, y: byte)
    ensures Weighted([x, y], true) == Pair(x, y)
  {
    assert [x, y][1..] == [y];
    assert [y][1..] == [];
    assert Weighted([y], false) == y;
  }

  /** Writing the checksum of data into its own zeroed, even-positioned field makes the data check to 0. */
  lemma ChecksumVerifies(d: bytes, p: nat)
    requires p + 2 <= |d| && p % 2 == 0 && d[p] == 0 && d[p + 1] == 0
    ensures IpCheck(Stored(d, p, IpCheck(d))) == 0
  {
    var w := IpCheck(d);
    StoredSum(d, p, w);
    OnesSumMeans(d);
    WeightedZero(d, true);
    VerifiesIff(Stored(d, p, w));
    hide Weighted, OnesSum, Congruent, Stored;
    if AllZero(d) {
      CongruentSelf(0);
    } else {
      CheckedSum(OnesSum(d), Weighted(d, true));
    }
  }

  lemma CheckedSum(s: int, sum: int)
    requires Congruent(s, sum)
    ensures Congruent(sum + (0xFFFF - s), 0)
  {
    var k :| s == sum + Ones(k);
    assert sum + (0xFFFF - s) == 0 + Ones(1 - k);
  }

  /** The same for icmp_checksum, up to 65537 words: the bytes the host stores make the data check to 0. */
  lemma IcmpVerifies(d: bytes, p: nat, little: bool)
    requires |d| % 2 == 0 && |d| / 2 <= 65537
    requires p + 2 <= |d| && p % 2 == 0 && d[p] == 0 && d[p + 1] == 0
    ensures var (x, y) := Store16(IcmpResult(d, little), little); IcmpResult(d[p := x][p + 1 := y], little) == 0
  {
    hide *;
    IcmpMeans(d, little);
    IcmpCheckVerifies(d, p, little);
    var (x, y) := Store16(IcmpResult(d, little), little);
    IcmpMeans(d[p := x][p + 1 := y], little);
  }

  lemma IcmpCheckVerifies(d: bytes, p: nat, little: bool)
    requires p + 2 <= |d| && p % 2 == 0 && d[p] == 0 && d[p + 1] == 0
    ensures var (x, y) := Store16(IcmpCheck(d, little), little); IcmpCheck(d[p := x][p + 1 := y], little) == 0
  {
    var w: Word := if AllZero(d) then 0xFFFF else RfcChecksum(d);
    IcmpStores(d, little);
    StoredVerifies(d, p, w);
    SwapMeans(0);
    hide OnesSum, Store16;
    assert Stored(d, p, w) == d[p := w / 256][p + 1 := w % 256];
  }

  /** The bytes that reach memory: the RFC 1071 checksum, high byte first. */
  lemma IcmpStores(d: bytes, little: bool)
    ensures var w: Word := if AllZero(d) then 0xFFFF else RfcChecksum(d);
            Store16(IcmpCheck(d, little), little) == (w / 256, w % 256)
  {
    StoresNetworkOrder(if AllZero(d) then 0xFFFF else RfcChecksum(d));
  }

  lemma StoredVerifies(d: bytes, p: nat, w: Word)
    requires p + 2 <= |d| && p % 2 == 0 && d[p] == 0 && d[p + 1] == 0
    requires w == if AllZero(d) then 0xFFFF else RfcChecksum(d)
    ensures RfcChecksum(Stored(d, p, w)) == 0 && !AllZero(Stored(d, p, w))
  {
    var e := Stored(d, p, w);
    StoredSum(d, p, w);
    OnesSumMeans(d);
    WeightedZero(d, true);
    WeightedZero(e, true);
    VerifiesIff(e);
    hide Weighted, OnesSum, Congruent, Stored;
    if AllZero(d) {
      AllOnes();
    } else {
      CheckedSum(OnesSum(d), Weighted(d, true));
    }
  }

  lemma StoresNetworkOrder(w: Word)
    ensures Store16(SwapBytes(w), true) == (w / 256, w % 256)
    ensures SwapBytes(0xFFFF) == 0xFFFF
  {
    SwapDigits(w / 256, w % 256);
    assert (256 * (w % 256) + w / 256) / 256 == w % 256;
  }
}
