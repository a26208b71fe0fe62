/**
 * ichecksum: the Internet checksum routine of section 4.1 of RFC 1071.
 *
 * 16-bit words are summed into a 32-bit accumulator, a trailing odd byte is
 * added unshifted, carries are folded back until the sum fits in 16 bits, and
 * the 16-bit complement is returned.  Words are read in host order; this model
 * fixes a little-endian host, so word i is data[2i] + 256 * data[2i+1].
 */
module InternetChecksum {
  import opened Wire

  /** The range of the uint32_t accumulator. */
  const Modulus32: nat := 0x1_0000_0000

  /** Word i as a little-endian host reads it through a uint16_t pointer. */
  function Word(data: seq<byte>, i: nat): u16
    requires 2 * i + 1 < |data|
  {
    (data[2 * i + 1] as int) * 0x100 + (data[2 * i] as int)
  }

  /** The unbounded sum of the first k words. */
  function WordsSum(data: seq<byte>, k: nat): nat
    requires 2 * k <= |data|
  {
    if k == 0 then 0 else WordsSum(data, k - 1) + Word(data, k - 1)
  }

  /** Everything the summing loop adds: each whole word, then a trailing odd byte. */
  function RawSum(data: seq<byte>): nat
  {
    WordsSum(data, |data| / 2) + (if |data| % 2 == 1 then data[|data| - 1] as int else 0)
  }

  /**
   * The carry-folding loop, (sum & 0xffff) + (sum >> 16) until sum >> 16 is 0.
   * The result fits in 16 bits, is congruent to the input modulo 0xFFFF (the
   * end-around carry of one's-complement addition), and is 0 only for 0.
   */
  function Fold(s: nat): (r: nat)
    ensures r <= 0xFFFF
    ensures r % 0xFFFF == s % 0xFFFF
    ensures r == 0 <==> s == 0
    decreases s
  {
    if s / 0x1_0000 == 0 then s
    else
      FoldStep(s);
      Fold(s % 0x1_0000 + s / 0x1_0000)
  }

  /** One folding step shrinks the sum and keeps it modulo 0xFFFF, since 0x10000 is 1 modulo 0xFFFF. */
  lemma FoldStep(s: nat)
    requires s / 0x1_0000 != 0
    ensures s % 0x1_0000 + s / 0x1_0000 < s
    ensures (s % 0x1_0000 + s / 0x1_0000) % 0xFFFF == s % 0xFFFF
  {
    var q, lo := s / 0x1_0000, s % 0x1_0000;
    assert s == 0x1_0000 * q + lo;
    var t := lo + q;
    assert s == t + 0xFFFF * q;
    var k := t / 0xFFFF;
    assert t == 0xFFFF * k + t % 0xFFFF;
    assert s == 0xFFFF * (k + q) + t % 0xFFFF;
  }

  /** The value ichecksum(data, len) returns, for a length that stays inside data. */
  function Checksum(data: seq<byte>, len: int): (r: u16)
    requires len <= |data|
    ensures len <= 0 ==> r == 0xFFFF
    ensures r == 0xFFFF <==> RawSum(data[..if len < 0 then 0 else len]) % Modulus32 == 0
  {
    var n := if len < 0 then 0 else len;
    0xFFFF - Fold(RawSum(data[..n]) % Modulus32)
  }

  lemma ModAdd(a: nat, b: nat)
    ensures (a % Modulus32 + b) % Modulus32 == (a + b) % Modulus32
  {
    var q := a / Modulus32;
    assert a == Modulus32 * q + a % Modulus32;
    assert a + b == (a % Modulus32 + b) + Modulus32 * q;
  }

  /** The words of a prefix are the words of the whole sequence. */
  lemma {:induction false} WordsSumPrefix(data: seq<byte>, n: nat, k: nat)
    requires n <= |data| && 2 * k <= n
    ensures WordsSum(data[..n], k) == WordsSum(data, k)
  {
    if k > 0 {
      WordsSumPrefix(data, n, k - 1);
      assert Word(data[..n], k - 1) == Word(data, k - 1);
    }
  }

  /**
   * ichecksum as the C routine runs it: a summing loop over a byte offset, an
   * odd-byte step, a folding loop and a truncating complement.
   */
  method IChecksum(data: seq<byte>, len: int) returns (r: u16)
    requires len <= |data|
    ensures r == Checksum(data, len)
  {
    var sum: nat := 0;
    var ptr: nat := 0;
    var count := len;
    while count > 1
      invariant ptr % 2 == 0
      invariant count == len - ptr
      invariant len >= 0 ==> ptr <= len
      invariant len < 0 ==> ptr == 0
      invariant sum == WordsSum(data, ptr / 2) % Modulus32
    {
      ModAdd(WordsSum(data, ptr / 2), Word(data, ptr / 2));
      sum := (sum + Word(data, ptr / 2)) % Modulus32;
      ptr := ptr + 2;
      count := count - 2;
    }
    var n := if len < 0 then 0 else len;
    WordsSumPrefix(data, n, n / 2);
    assert ptr / 2 == n / 2;
    if count > 0 {
      ModAdd(WordsSum(data, ptr / 2), data[ptr]);
      sum := (sum + data[ptr]) % Modulus32;
    }
    assert sum == RawSum(data[..n]) % Modulus32;
    sum := FoldCarries(sum);
    Complement16(sum);
    r := (0xFFFF_FFFF - sum) % 0x1_0000;
  }

  /** The folding loop of ichecksum: `(sum & 0xffff) + (sum >> 16)` while `sum >> 16` is not 0. */
  method FoldCarries(start: nat) returns (sum: nat)
    ensures sum == Fold(start)
  {
    sum := start;
    while sum / 0x1_0000 != 0
      invariant Fold(sum) == Fold(start)
      decreases sum
    {
      sum := sum % 0x1_0000 + sum / 0x1_0000;
    }
  }

  /** `return ~sum;` truncates the 32-bit complement to 16 bits. */
  lemma Complement16(sum: nat)
    requires sum <= 0xFFFF
    ensures (0xFFFF_FFFF - sum) % 0x1_0000 == 0xFFFF - sum
  {
    assert 0xFFFF_FFFF - sum == 0x1_0000 * 0xFFFF + (0xFFFF - sum);
  }

  // ---------------------------------------------------------------------------
  // Properties of the checksum
  // ---------------------------------------------------------------------------

  lemma {:induction false} WordsSumBound(data: seq<byte>, k: nat)
    requires 2 * k <= |data|
    ensures WordsSum(data, k) <= 0xFFFF * k
  {
    if k > 0 {
      WordsSumBound(data, k - 1);
    }
  }

  /**
   * Up to 2^17 bytes the 32-bit accumulator never wraps, and the checksum is the
   * complement of the one's-complement sum of the words and trailing byte: the
   * folded value is congruent to the plain sum modulo 0xFFFF.
   */
  lemma OnesComplementSum(data: seq<byte>)
    requires |data| <= 0x2_0000
    ensures RawSum(data) < Modulus32
    ensures (0xFFFF - Checksum(data, |data|)) % 0xFFFF == RawSum(data) % 0xFFFF
  {
    WordsSumBound(data, |data| / 2);
    assert data[..|data|] == data;
  }

  lemma {:induction false} WordsSumAppend(x: seq<byte>, y: seq<byte>, k: nat)
    requires |x| % 2 == 0 && 2 * k <= |y|
    ensures WordsSum(x + y, |x| / 2 + k) == WordsSum(x, |x| / 2) + WordsSum(y, k)
  {
    if k == 0 {
      WordsSumPrefix(x + y, |x|, |x| / 2);
      assert (x + y)[..|x|] == x;
    } else {
      WordsSumAppend(x, y, k - 1);
      assert Word(x + y, |x| / 2 + k - 1) == Word(y, k - 1);
    }
  }

  /** The sum over a concatenation whose first part has whole words is the sum of the parts. */
  lemma RawSumAppend(x: seq<byte>, y: seq<byte>)
    requires |x| % 2 == 0
    ensures RawSum(x + y) == RawSum(x) + RawSum(y)
  {
    WordsSumAppend(x, y, |y| / 2);
  }

  /**
   * The checksum cannot tell two word-aligned blocks apart from the same blocks
   * in the other order: it detects changed words, not transposed ones.
   */
  lemma ChecksumIgnoresBlockOrder(x: seq<byte>, y: seq<byte>)
    requires |x| % 2 == 0 && |y| % 2 == 0
    ensures Checksum(x + y, |x| + |y|) == Checksum(y + x, |x| + |y|)
  {
    RawSumAppend(x, y);
    RawSumAppend(y, x);
    assert (x + y)[..|x| + |y|] == x + y;
    assert (y + x)[..|x| + |y|] == y + x;
  }

  /** The weight of byte i in the sum: low byte of a word, or high byte of one. */
  function ByteWeight(i: nat): nat
  {
    if i % 2 == 0 then 1 else 0x100
  }

  /** Replacing byte i moves the sum of the words that hold it by the change in that byte times its weight. */
  lemma {:induction false} WordsSumUpdate(data: seq<byte>, i: nat, b: byte, k: nat)
    requires i < |data| && 2 * k <= |data|
    ensures var w := if i < 2 * k then ByteWeight(i) else 0;
            WordsSum(data[i := b], k) + (data[i] as int) * w == WordsSum(data, k) + (b as int) * w
  {
    if k > 0 {
      WordsSumUpdate(data, i, b, k - 1);
    }
  }

  /** Replacing byte i moves what the summing loop adds by the change in that byte times its weight. */
  lemma RawSumUpdate(data: seq<byte>, i: nat, b: byte)
    requires i < |data|
    ensures RawSum(data[i := b]) + (data[i] as int) * ByteWeight(i) == RawSum(data) + (b as int) * ByteWeight(i)
  {
    WordsSumUpdate(data, i, b, |data| / 2);
  }

  /** Two numbers less than 0xFFFF apart, and not equal, are not congruent modulo 0xFFFF. */
  lemma DistinctModulo(x: nat, y: nat)
    requires x < y < x + 0xFFFF
    ensures x % 0xFFFF != y % 0xFFFF
  {
    var qx, qy := x / 0xFFFF, y / 0xFFFF;
    assert x == 0xFFFF * qx + x % 0xFFFF;
    assert y == 0xFFFF * qy + y % 0xFFFF;
    assert y - x == 0xFFFF * (qy - qx) + (y % 0xFFFF - x % 0xFFFF);
  }

  /** Replacing one byte by a different value moves the sum by a nonzero amount of at most 0xFF * 0x100 = 0xFF00, never by a multiple of 0xFFFF. */
  lemma RawSumDetectsByteChange(data: seq<byte>, i: nat, b: byte)
    requires i < |data| && b != data[i]
    ensures RawSum(data) % 0xFFFF != RawSum(data[i := b]) % 0xFFFF
  {
    RawSumUpdate(data, i, b);
    var w := ByteWeight(i);
    if data[i] < b {
      assert (b as int - data[i] as int) * w <= 0xFF * 0x100;
      DistinctModulo(RawSum(data), RawSum(data[i := b]));
    } else {
      assert (data[i] as int - b as int) * w <= 0xFF * 0x100;
      DistinctModulo(RawSum(data[i := b]), RawSum(data));
    }
  }

  /**
   * The checksum detects any single changed byte: up to 2^17 bytes, replacing
   * one byte by a different value changes ichecksum over the whole sequence.
   */
  lemma ChecksumDetectsByteChange(data: seq<byte>, i: nat, b: byte)
    requires |data| <= 0x2_0000 && i < |data| && b != data[i]
    ensures Checksum(data, |data|) != Checksum(data[i := b], |data|)
  {
    RawSumDetectsByteChange(data, i, b);
    OnesComplementSum(data);
    OnesComplementSum(data[i := b]);
  }
}
