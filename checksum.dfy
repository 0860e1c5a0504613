/**
 The Internet checksum (RFC 1071) as computed by EvaluateCheckSum in icmp.cpp.

 The buffer is read through an `unsigned short *`, so it is modelled as the
 sequence of 16-bit words the host reads, plus the single trailing byte that
 is read through an `unsigned char *` when the length is odd. The host's byte
 order therefore does not appear here; the Echo module brings it in.
 */
module InternetChecksum {

  type Byte = x: int | 0 <= x < 0x100
  type Word16 = x: int | 0 <= x < 0x10000

  datatype Option<T> = None | Some(value: T)

  /** Largest value of the C `int` that carries the buffer length. */
  const INT_MAX: int := 0x7FFF_FFFF
  /** Number of values of the 64-bit `unsigned long` accumulator. */
  const ULONG_MODULUS: int := 0x1_0000_0000_0000_0000

  /** Length in bytes of a buffer made of `words` and an optional odd byte. */
  function ByteLength(words: seq<Word16>, trailing: Option<Byte>): nat
  {
    2 * |words| + (if trailing.Some? then 1 else 0)
  }

  /** Plain (unbounded) sum of the words, added in order from the first. */
  function WordSum(words: seq<Word16>): (s: nat)
    ensures s <= 0xFFFF * |words|
  {
    if words == [] then 0 else WordSum(words[..|words| - 1]) + words[|words| - 1]
  }

  function TrailingValue(trailing: Option<Byte>): nat
  {
    if trailing.Some? then trailing.value else 0
  }

  /** What the accumulator holds once every word and the odd byte are added. */
  function RawSum(words: seq<Word16>, trailing: Option<Byte>): nat
  {
    WordSum(words) + TrailingValue(trailing)
  }

  /**
   End-around carry: the carries out of the low 16 bits are added back in
   until none remain. The result is the one's-complement sum: 0 for 0, and
   otherwise the unique value in 1..0xFFFF congruent to the sum modulo 0xFFFF.
   */
  function Fold(sum: nat): (r: Word16)
    ensures r == if sum == 0 then 0 else (sum - 1) % 0xFFFF + 1
    ensures r % 0xFFFF == sum % 0xFFFF
    decreases sum
  {
    if sum < 0x10000 then sum
    else
      var next := sum % 0x10000 + sum / 0x10000;
      FoldStep(sum);
      Fold(next)
  }

  /** One carry fold shrinks the sum and keeps it modulo 0xFFFF. */
  lemma FoldStep(sum: nat)
    requires sum >= 0x10000
    ensures 0 < sum % 0x10000 + sum / 0x10000 < sum
    ensures (sum % 0x10000 + sum / 0x10000 - 1) % 0xFFFF == (sum - 1) % 0xFFFF
  {
  }

  /** Euclidean division by 0xFFFF is unique. */
  lemma ModUnique(x: int, q: int, m: int)
    requires 0 <= m < 0xFFFF
    requires x == 0xFFFF * q + m
    ensures x % 0xFFFF == m && x / 0xFFFF == q
  {
  }

  /** The checksum as the standard defines it: the complement of the folded sum. */
  function Checksum(words: seq<Word16>, trailing: Option<Byte>): Word16
  {
    0xFFFF - Fold(RawSum(words, trailing))
  }

  /**
   EvaluateCheckSum: `next` is the index of the word `buffer` points at and
   `length` the count of bytes not yet read. The accumulator is a 64-bit
   `unsigned long`; that it never wraps is part of what is proved.
   */
  method EvaluateCheckSum(buffer: seq<Word16>, trailing: Option<Byte>) returns (r: int)
    requires ByteLength(buffer, trailing) <= INT_MAX
    ensures 0 <= r <= 0xFFFF
    ensures r == Checksum(buffer, trailing)
    ensures ByteLength(buffer, trailing) == 0 ==> r == 0xFFFF
  {
    var sum: nat := 0;
    var length: int := ByteLength(buffer, trailing);
    var next: nat := 0;
    while length > 1
      invariant next <= |buffer|
      invariant length == ByteLength(buffer[next..], trailing)
      invariant sum == WordSum(buffer[..next])
    {
      assert buffer[..next + 1][..next] == buffer[..next];
      sum := (sum + buffer[next]) % ULONG_MODULUS;
      next := next + 1;
      length := length - 2;
    }
    assert buffer[..next] == buffer;
    if length > 0 {
      sum := (sum + trailing.value) % ULONG_MODULUS;
    }
    assert sum == RawSum(buffer, trailing);
    ghost var total := sum;
    while sum / 0x10000 != 0
      invariant Fold(sum) == Fold(total)
      decreases sum
    {
      FoldStep(sum);
      sum := sum % 0x10000 + sum / 0x10000;
    }
    // (unsigned short)(~sum): complement in 64 bits, then keep the low 16 bits
    assert ULONG_MODULUS - 1 - sum == 0x10000 * 0xFFFF_FFFF_FFFF + (0xFFFF - sum);
    r := (ULONG_MODULUS - 1 - sum) % 0x10000;
  }

  /** A buffer of zero bytes, of any length, has checksum 0xFFFF. */
  lemma {:induction false} ChecksumOfZeros(words: seq<Word16>, trailing: Option<Byte>)
    requires forall i :: 0 <= i < |words| ==> words[i] == 0
    requires trailing == None || trailing == Some(0)
    ensures Checksum(words, trailing) == 0xFFFF
  {
    ZeroWordSum(words);
  }

  lemma {:induction false} ZeroWordSum(words: seq<Word16>)
    requires forall i :: 0 <= i < |words| ==> words[i] == 0
    ensures WordSum(words) == 0
  {
    if words != [] {
      ZeroWordSum(words[..|words| - 1]);
    }
  }

  /** Replacing one word changes the sum by the difference of the two values. */
  lemma {:induction false} WordSumUpdate(words: seq<Word16>, k: nat, v: Word16)
    requires k < |words|
    ensures WordSum(words[k := v]) == WordSum(words) - words[k] + v
  {
    var n := |words|;
    var updated := words[k := v];
    if k == n - 1 {
      assert updated[..n - 1] == words[..n - 1];
    } else {
      assert updated[..n - 1] == words[..n - 1][k := v];
      WordSumUpdate(words[..n - 1], k, v);
    }
  }

  /**
   Receiver-side verification: once the checksum, computed while the word at
   `k` held 0, is written into that word, the checksum of the buffer is 0.
   */
  lemma ChecksumVerifies(words: seq<Word16>, trailing: Option<Byte>, k: nat)
    requires k < |words| && words[k] == 0
    ensures Checksum(words[k := Checksum(words, trailing)], trailing) == 0
  {
    var c := Checksum(words, trailing);
    var s := RawSum(words, trailing);
    WordSumUpdate(words, k, c);
    var s' := RawSum(words[k := c], trailing);
    assert s' == s + c;
    // s + (0xFFFF - Fold(s)) is positive and a multiple of 0xFFFF
    var f := Fold(s);
    if s == 0 {
      assert s' == 0xFFFF;
    } else {
      var q := (s - 1) / 0xFFFF;
      assert s - 1 == 0xFFFF * q + (f - 1);
      assert s' - 1 == 0xFFFF * q + 0xFFFE;
      ModUnique(s' - 1, q, 0xFFFE);
    }
  }

  /** The two bytes of a word exchanged. */
  function Swap(w: Word16): Word16
  {
    (w % 0x100) * 0x100 + w / 0x100
  }

  /** Every word of `words` byte-swapped. */
  function Swapped(words: seq<Word16>): seq<Word16>
  {
    seq(|words|, i requires 0 <= i < |words| => Swap(words[i]))
  }

  /** Exchanging the bytes multiplies a word by 0x100 modulo 0xFFFF. */
  lemma SwapScales(w: Word16)
    ensures 0x100 * w == Swap(w) + 0xFFFF * (w / 0x100)
    ensures Swap(w) == 0 <==> w == 0
  {
  }

  /** Sum of the high bytes: the multiple of 0xFFFF that byte swapping loses. */
  function HighSum(words: seq<Word16>): nat
  {
    if words == [] then 0 else HighSum(words[..|words| - 1]) + words[|words| - 1] / 0x100
  }

  lemma {:induction false} SwappedSum(words: seq<Word16>)
    ensures 0x100 * WordSum(words) == WordSum(Swapped(words)) + 0xFFFF * HighSum(words)
    ensures WordSum(Swapped(words)) == 0 <==> WordSum(words) == 0
  {
    if words != [] {
      var n := |words|;
      assert Swapped(words)[..n - 1] == Swapped(words[..n - 1]);
      SwappedSum(words[..n - 1]);
      SwapScales(words[n - 1]);
    }
  }

  /**
   Byte-order independence (section 2(B) of RFC 1071): the checksum of the
   byte-swapped words is the byte-swapped checksum, so a host of either byte
   order computes the right checksum bytes.
   */
  lemma ChecksumSwapped(words: seq<Word16>)
    ensures Checksum(Swapped(words), None) == Swap(Checksum(words, None))
  {
    SwappedSum(words);
    FoldSwapped(WordSum(words), WordSum(Swapped(words)), HighSum(words));
    SwapComplement(Fold(WordSum(words)));
  }

  /** If `t` is `0x100 * s` modulo 0xFFFF (and zero exactly when `s` is), their folds are byte swaps. */
  lemma FoldSwapped(s: nat, t: nat, h: nat)
    requires 0x100 * s == t + 0xFFFF * h
    requires t == 0 <==> s == 0
    ensures Fold(t) == Swap(Fold(s))
  {
    var f, g := Fold(s), Fold(t);
    SwapScales(f);
    if s != 0 {
      // f and g are s and t less multiples of 0xFFFF, so Swap(f) and g differ by one too
      var q1, q2 := (s - 1) / 0xFFFF, (t - 1) / 0xFFFF;
      assert f == s - 0xFFFF * q1;
      assert g == t - 0xFFFF * q2;
      CongruentInRange(Swap(f), g, q2 - 0x100 * q1 - f / 0x100 + h);
    }
  }

  /** Two values in 1..0xFFFF that differ by a multiple of 0xFFFF are equal. */
  lemma CongruentInRange(a: int, b: int, k: int)
    requires 1 <= a <= 0xFFFF && 1 <= b <= 0xFFFF
    requires a - b == 0xFFFF * k
    ensures a == b
  {
  }

  lemma SwapComplement(w: Word16)
    ensures Swap(0xFFFF - w) == 0xFFFF - Swap(w)
  {
  }
}
