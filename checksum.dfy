/**
 * The internet checksum of `calculate_checksum`: the 16-bit one's-complement
 * sum of a buffer (section 4.1 of RFC 1071), read through `unsigned short *`
 * on a little-endian host, with its 32-bit accumulator, the two end-around
 * carry folds and the final complement.
 */
module Checksum {
  import opened Bytes

  /** 2^32: the accumulator is an `unsigned int`. */
  const Word32Modulus: nat := 0x1_0000_0000

  /**
   * A length up to which the word sum stays below 2^32, so that the
   * accumulator cannot wrap: 65536 words of at most 0xFFFF each.
   */
  const MaxExactLen: nat := 0x2_0000

  /** The 16-bit word at offset i, read in little-endian host order. */
  function WordAt(b: seq<byte>, i: nat): (w: u16)
    requires i + 1 < |b|
  {
    b[i] + 0x100 * (b[i + 1] as int)
  }

  /**
   * The plain sum of the buffer's 16-bit words in order, plus the value of
   * the last byte when the length is odd.
   */
  function WordSum(b: seq<byte>): nat
    decreases |b|
  {
    if |b| == 0 then 0
    else if |b| == 1 then b[0]
    else WordAt(b, 0) + WordSum(b[2..])
  }

  /**
   * One's-complement reduction: add the carries above bit 16 back in until
   * the value fits in 16 bits.
   */
  function Fold(x: nat): (r: u16)
    decreases x
  {
    if x < 0x1_0000 then x else Fold(x / 0x1_0000 + x % 0x1_0000)
  }

  /** The internet checksum: the complement of the one's-complement sum. */
  function InternetChecksum(b: seq<byte>): u16
  {
    0xFFFF - Fold(WordSum(b))
  }

  /** Folding keeps the value modulo 0xFFFF, maps 0 to 0 and every positive value into 1..0xFFFF. */
  lemma {:induction false} FoldProperties(x: nat)
    ensures Fold(x) % 0xFFFF == x % 0xFFFF
    ensures x == 0 <==> Fold(x) == 0
    decreases x
  {
    if x >= 0x1_0000 {
      var q, r := x / 0x1_0000, x % 0x1_0000;
      assert x == 0xFFFF * q + (q + r);
      assert x % 0xFFFF == (q + r) % 0xFFFF;
      FoldProperties(q + r);
    }
  }

  /** Adding the complement of a value congruent to a gives a multiple of 0xFFFF. */
  lemma ComplementAddsToMultiple(a: nat, f: nat)
    requires a % 0xFFFF == f % 0xFFFF && f <= 0xFFFF
    ensures (a - f + 0xFFFF) % 0xFFFF == 0
  {
    var k := a / 0xFFFF - f / 0xFFFF + 1;
    assert a - f + 0xFFFF == 0xFFFF * k;
  }

  /** A positive multiple of 0xFFFF folds to 0xFFFF (one's-complement "negative zero"). */
  lemma FoldOfMultiple(x: nat)
    requires x > 0 && x % 0xFFFF == 0
    ensures Fold(x) == 0xFFFF
  {
    FoldProperties(x);
  }

  /** The two folds of the C code, `(sum >> 16) + (sum & 0xFFFF)` then `sum += sum >> 16`, reduce any 32-bit sum completely. */
  lemma TwoFoldsSuffice(sum: nat, s1: nat, s2: nat)
    requires sum < Word32Modulus
    requires s1 == sum / 0x1_0000 + sum % 0x1_0000
    requires s2 == s1 + s1 / 0x1_0000
    ensures s2 < Word32Modulus && s2 % 0x1_0000 == Fold(sum)
  {
    if sum >= 0x1_0000 {
      assert Fold(sum) == Fold(s1);
      if s1 >= 0x1_0000 {
        assert s1 / 0x1_0000 == 1 && s1 % 0x1_0000 == s1 - 0x1_0000;
        assert Fold(s1) == Fold(1 + (s1 - 0x1_0000));
      }
    }
  }

  /** Each pair of bytes adds at most 0xFFFF to the word sum. */
  lemma {:induction false} WordSumBound(b: seq<byte>)
    ensures WordSum(b) <= 0xFFFF * ((|b| + 1) / 2)
    decreases |b|
  {
    if |b| >= 2 {
      WordSumBound(b[2..]);
      assert (|b[2..]| + 1) / 2 + 1 == (|b| + 1) / 2;
    }
  }

  /** Within MaxExactLen the 32-bit accumulator cannot overflow. */
  lemma WordSumFits(b: seq<byte>)
    requires |b| <= MaxExactLen
    ensures WordSum(b) < Word32Modulus
  {
    WordSumBound(b);
    var words := (|b| + 1) / 2;
    assert words <= 0x1_0000;
    assert 0xFFFF * words <= 0xFFFF * 0x1_0000;
  }

  /** A value below 2^32 is its own 32-bit truncation. */
  lemma NoWrap(x: nat)
    requires x < Word32Modulus
    ensures x % Word32Modulus == x
  {
  }

  /** The words still to be summed from offset i are the word at i followed by those from i + 2. */
  lemma WordSumStep(b: seq<byte>, i: nat)
    requires i + 1 < |b|
    ensures WordSum(b[i..]) == WordAt(b, i) + WordSum(b[i + 2..])
  {
    assert b[i..][2..] == b[i + 2..];
  }

  /** Adding the odd trailing byte completes the sum, without a wrap. */
  lemma AccumulateLastByte(b: seq<byte>, i: nat, sum: nat)
    requires i + 1 == |b| && WordSum(b) < Word32Modulus
    requires sum + WordSum(b[i..]) == WordSum(b)
    ensures (sum + b[i]) % Word32Modulus == WordSum(b)
  {
    assert WordSum(b[i..]) == b[i];
  }

  /**
   * `calculate_checksum`: the loop adds the buffer's words into a 32-bit
   * `sum`, adds an odd trailing byte, folds twice and complements. The
   * result always fits in 16 bits, and as long as the accumulator cannot
   * overflow it is exactly the internet checksum of the buffer.
   */
  method CalculateChecksum(b: seq<byte>) returns (result: u16)
    ensures |b| <= MaxExactLen ==> result == InternetChecksum(b)
  {
    ghost var exact := |b| <= MaxExactLen;
    if exact {
      WordSumFits(b);
    }
    var sum: nat := 0;
    var i := 0;
    var len := |b|;
    while len > 1
      invariant 0 <= i <= |b| && len == |b| - i
      invariant sum < Word32Modulus
      invariant exact ==> sum + WordSum(b[i..]) == WordSum(b)
    {
      if exact {
        WordSumStep(b, i);
        NoWrap(sum + WordAt(b, i));
      }
      sum := (sum + WordAt(b, i)) % Word32Modulus;
      i := i + 2;
      len := len - 2;
    }
    if len == 1 {
      if exact {
        AccumulateLastByte(b, i, sum);
      }
      sum := (sum + b[i]) % Word32Modulus;
    } else if exact {
      assert b[i..] == [];
    }
    ghost var total := sum;
    sum := sum / 0x1_0000 + sum % 0x1_0000;
    ghost var once := sum;
    sum := sum + sum / 0x1_0000;
    TwoFoldsSuffice(total, once, sum);
    result := 0xFFFF - sum % 0x1_0000;
  }

  /** A buffer of n zero bytes. */
  function Zeros(n: nat): (z: seq<byte>)
    ensures |z| == n && forall i :: 0 <= i < n ==> z[i] == 0
  {
    seq(n, _ => 0)
  }

  /** An all-zero buffer, the empty one included, has checksum 0xFFFF. */
  lemma {:induction false} ChecksumOfZeros(n: nat)
    ensures WordSum(Zeros(n)) == 0
    ensures InternetChecksum(Zeros(n)) == 0xFFFF
    decreases n
  {
    if n >= 2 {
      assert Zeros(n)[2..] == Zeros(n - 2);
      ChecksumOfZeros(n - 2);
    }
  }

  /** Rewriting the aligned word at offset k shifts the word sum by the difference. */
  lemma {:induction false} WordSumUpdate(b: seq<byte>, k: nat, lo: byte, hi: byte)
    requires k % 2 == 0 && k + 1 < |b|
    ensures WordSum(b[k := lo][k + 1 := hi]) == WordSum(b) - WordAt(b, k) + lo + 0x100 * hi
    decreases k
  {
    var b' := b[k := lo][k + 1 := hi];
    if k > 0 {
      assert b'[2..] == b[2..][k - 2 := lo][k - 1 := hi];
      WordSumUpdate(b[2..], k - 2, lo, hi);
    } else {
      assert b'[2..] == b[2..];
    }
  }

  /**
   * Self-consistency (section 1 of RFC 1071): in a buffer whose aligned
   * 16-bit field at offset k is zero, storing the checksum in that field
   * makes the checksum of the whole buffer 0.
   */
  lemma ChecksumVerifies(b: seq<byte>, k: nat)
    requires k % 2 == 0 && k + 1 < |b|
    requires b[k] == 0 && b[k + 1] == 0
    ensures var c := InternetChecksum(b);
            InternetChecksum(b[k := c % 0x100][k + 1 := c / 0x100]) == 0
  {
    var c := InternetChecksum(b);
    var s := WordSum(b);
    WordSumUpdate(b, k, c % 0x100, c / 0x100);
    var s' := s + c;
    assert WordSum(b[k := c % 0x100][k + 1 := c / 0x100]) == s';
    FoldProperties(s);
    assert s' == s - Fold(s) + 0xFFFF;
    ComplementAddsToMultiple(s, Fold(s));
    FoldOfMultiple(s');
  }

  /** Swapping two aligned 16-bit words leaves the sum, and so the checksum, unchanged (section 2(A) of RFC 1071). */
  lemma SwapWordsPreservesChecksum(b: seq<byte>, i: nat, j: nat)
    requires i % 2 == 0 && j % 2 == 0 && i + 1 < |b| && j + 1 < |b| && i != j
    ensures var swapped := b[i := b[j]][i + 1 := b[j + 1]][j := b[i]][j + 1 := b[i + 1]];
            WordSum(swapped) == WordSum(b) && InternetChecksum(swapped) == InternetChecksum(b)
  {
    var b1 := b[i := b[j]][i + 1 := b[j + 1]];
    WordSumUpdate(b, i, b[j], b[j + 1]);
    assert WordAt(b1, j) == WordAt(b, j);
    WordSumUpdate(b1, j, b[i], b[i + 1]);
  }
}
