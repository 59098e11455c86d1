/** The Internet checksum (dataplane.rs, inet_checksum; section 1 of RFC 1071). */
module Checksum {
  import opened Arith
  import opened Base

  /** Big-endian 16-bit words summed; an odd last byte counts as a high byte. */
  function WordSum(data: Bytes): nat
  {
    if |data| == 0 then 0
    else if |data| == 1 then data[0] * 0x100
    else Be16(data[0], data[1]) + WordSum(data[2..])
  }

  /** End-around carry until the sum fits sixteen bits. */
  function Fold(sum: nat): u16
  {
    if sum < 0x1_0000 then sum else Fold(sum % 0x1_0000 + sum / 0x1_0000)
  }

  function Sum(data: Bytes): u16
  {
    0xffff - Fold(WordSum(data))
  }

  /** Folding keeps the residue modulo 65535 and never turns a non-zero sum into zero. */
  lemma {:induction false} FoldMeans(sum: nat)
    ensures Fold(sum) % 0xffff == sum % 0xffff
    ensures Fold(sum) == 0 <==> sum == 0
    decreases sum
  {
    if sum >= 0x1_0000 {
      var q, r := sum / 0x1_0000, sum % 0x1_0000;
      FoldMeans(r + q);
      assert sum == (r + q) + 0xffff * q;
      ModAddMultiple(r + q, 0xffff, q);
    }
  }

  // ---- summing piecewise ---------------------------------------------------------------------

  lemma {:induction false} WordSumSplit(a: Bytes, b: Bytes)
    requires |a| % 2 == 0
    ensures WordSum(a + b) == WordSum(a) + WordSum(b)
  {
    if a == [] {
      assert a + b == b;
    } else {
      WordSumSplit(a[2..], b);
      assert (a + b)[2..] == a[2..] + b;
    }
  }

  function Put16(b: Bytes, at: nat, w: u16): (r: Bytes)
    requires at + 2 <= |b|
    ensures |r| == |b|
  {
    b[at := w / 0x100][at + 1 := w % 0x100]
  }

  /** Writing a word over a zero word at an even offset adds it to the sum. */
  lemma {:induction false} WordSumPatch(data: Bytes, at: nat, w: u16)
    requires at % 2 == 0 && at + 2 <= |data| && data[at] == 0 && data[at + 1] == 0
    ensures WordSum(Put16(data, at, w)) == WordSum(data) + w
  {
    var patched := Put16(data, at, w);
    if at == 0 {
      assert patched[2..] == data[2..];
    } else {
      WordSumPatch(data[2..], at - 2, w);
      assert patched[2..] == Put16(data[2..], at - 2, w);
    }
  }

  /** Numbers with equal residues modulo 65535 differ by a multiple of it. */
  lemma DifferenceIsMultiple(a: nat, b: nat)
    requires b <= a + 0xffff && a % 0xffff == b % 0xffff
    ensures (a + 0xffff - b) % 0xffff == 0
  {
    var k := a / 0xffff - b / 0xffff + 1;
    assert a + 0xffff - b == 0xffff * k;
    ModUnique(a + 0xffff - b, 0xffff, k, 0);
  }

  /** Storing the checksum in its zeroed field makes the data check to zero. */
  lemma StoredSumVerifies(data: Bytes, at: nat)
    requires at % 2 == 0 && at + 2 <= |data| && data[at] == 0 && data[at + 1] == 0
    ensures Sum(Put16(data, at, Sum(data))) == 0
  {
    WordSumPatch(data, at, Sum(data));
    WrappedComplement(WordSum(data), WordSum(data), 0);
  }

  // ---- the 32-bit accumulator --------------------------------------------------------------------

  const ACCUMULATOR_MODULUS: nat := 0x1_0000_0000

  /**
    The checksum as computed: a sum beyond 32 bits traps (None) in a build that checks
    arithmetic, and wraps in one that does not.
   */
  function Sum32(data: Bytes, checked: bool): Option<u16>
  {
    if checked && WordSum(data) > U32_MAX then None
    else Some(0xffff - Fold(WordSum(data) % ACCUMULATOR_MODULUS))
  }

  /** The accumulator wrapped a multiple of 65535 times, or never. */
  predicate WrapsCancel(sum: nat)
  {
    sum / ACCUMULATOR_MODULUS % 0xffff == 0
  }

  /**
    Storing the computed checksum in its zeroed field makes the data check to zero iff the
    accumulator wrapped a multiple of 65535 times; each wrap loses 2^32, which is 1 modulo 65535.
   */
  lemma StoredSum32Verifies(data: Bytes, at: nat, checked: bool)
    requires at % 2 == 0 && at + 2 <= |data| && data[at] == 0 && data[at + 1] == 0
    requires Sum32(data, checked).Some?
    ensures Sum(Put16(data, at, Sum32(data, checked).value)) == 0
      <==> WrapsCancel(WordSum(data))
  {
    WordSumPatch(data, at, Sum32(data, checked).value);
    WrappedComplement(WordSum(data), WordSum(data) % ACCUMULATOR_MODULUS, WordSum(data) / ACCUMULATOR_MODULUS);
  }

  lemma WrappedComplement(sum: nat, low: nat, wraps: nat)
    requires sum == ACCUMULATOR_MODULUS * wraps + low
    ensures Fold(sum + (0xffff - Fold(low))) == 0xffff <==> wraps % 0xffff == 0
  {
    var multiple := low + 0xffff - Fold(low);
    FoldMeans(low);
    DifferenceIsMultiple(low, Fold(low));
    FoldMeans(ACCUMULATOR_MODULUS * wraps + multiple);
    WrapsRemain(multiple, wraps);
    MaxIffMultiple(Fold(ACCUMULATOR_MODULUS * wraps + multiple));
  }

  lemma MaxIffMultiple(f: u16)
    ensures f == 0xffff <==> f % 0xffff == 0 && f != 0
  {}

  lemma WrapsRemain(multiple: nat, wraps: nat)
    requires multiple % 0xffff == 0
    ensures (ACCUMULATOR_MODULUS * wraps + multiple) % 0xffff == wraps % 0xffff
  {
    var q := multiple / 0xffff + 0x1_0001 * wraps;
    assert ACCUMULATOR_MODULUS * wraps + multiple == wraps + 0xffff * q;
    ModAddMultiple(wraps, 0xffff, q);
  }

  const MAX_SUMMABLE: nat := 131074

  lemma {:induction false} WordSumBound(data: Bytes)
    ensures WordSum(data) <= 0xffff * (|data| / 2) + (if |data| % 2 == 1 then 0xff00 else 0)
  {
    if |data| >= 2 {
      WordSumBound(data[2..]);
    }
  }

  function Ones(n: nat): (b: Bytes)
    ensures |b| == n && forall i :: 0 <= i < n ==> b[i] == 0xff
  {
    if n == 0 then [] else Ones(n - 1) + [0xff]
  }

  lemma {:induction false} WordSumOfOnes(data: Bytes)
    requires forall i :: 0 <= i < |data| ==> data[i] == 0xff
    ensures WordSum(data) == 0xffff * (|data| / 2) + (if |data| % 2 == 1 then 0xff00 else 0)
  {
    if |data| >= 2 {
      WordSumOfOnes(data[2..]);
    }
  }

  /** A 32-bit accumulator holds every sum over `n` bytes iff `n` is at most 131074. */
  lemma AccumulatorIsEnough(n: nat)
    ensures n <= MAX_SUMMABLE <==> forall data: Bytes :: |data| == n ==> WordSum(data) <= U32_MAX
  {
    if n <= MAX_SUMMABLE {
      forall data: Bytes | |data| == n ensures WordSum(data) <= U32_MAX {
        WordSumBound(data);
      }
    } else {
      WordSumOfOnes(Ones(n));
    }
  }

  /** Adds to the accumulator: None is a trap, or the trap already taken. */
  function Accumulate(sum: Option<u32>, w: u16, checked: bool): Option<u32>
  {
    if sum.None? || (checked && sum.value + w > U32_MAX) then None
    else Some((sum.value + w) % ACCUMULATOR_MODULUS)
  }

  /** The accumulator after words adding up to `total`. */
  function Accumulated(total: nat, checked: bool): Option<u32>
  {
    if checked && total > U32_MAX then None else Some(total % ACCUMULATOR_MODULUS)
  }

  lemma AccumulateMore(total: nat, w: u16, checked: bool)
    ensures Accumulate(Accumulated(total, checked), w, checked) == Accumulated(total + w, checked)
  {
    var m := ACCUMULATOR_MODULUS;
    assert total + w == (total % m + w) + m * (total / m);
    ModAddMultiple(total % m + w, m, total / m);
  }

  /** The summing loop, on a 32-bit accumulator. */
  method AddWords(data: Bytes, checked: bool) returns (sum: Option<u32>)
    ensures sum == Accumulated(WordSum(data), checked)
  {
    sum := Some(0);
    var words := |data| / 2;
    for i := 0 to words
      invariant sum == Accumulated(WordSum(data[..2 * i]), checked)
    {
      NextWord(data, i);
      AccumulateMore(WordSum(data[..2 * i]), Be16(data[2 * i], data[2 * i + 1]), checked);
      sum := Accumulate(sum, Be16(data[2 * i], data[2 * i + 1]), checked);
    }
    if |data| % 2 == 1 {
      LastByte(data);
      var high: u16 := data[|data| - 1] as int * 0x100;
      AccumulateMore(WordSum(data[..2 * words]), high, checked);
      sum := Accumulate(sum, high, checked);
    } else {
      assert data[..2 * words] == data;
    }
  }

  lemma NextWord(data: Bytes, i: nat)
    requires 2 * i + 2 <= |data|
    ensures WordSum(data[..2 * (i + 1)]) == WordSum(data[..2 * i]) + Be16(data[2 * i], data[2 * i + 1])
  {
    var word := data[2 * i..2 * i + 2];
    assert data[..2 * i] + word == data[..2 * (i + 1)];
    WordSumSplit(data[..2 * i], word);
    assert word[2..] == [];
  }

  lemma LastByte(data: Bytes)
    requires |data| % 2 == 1
    ensures WordSum(data) == WordSum(data[..2 * (|data| / 2)]) + data[|data| - 1] as int * 0x100
  {
    var n := |data| - 1;
    assert data[..n] + data[n..] == data;
    WordSumSplit(data[..n], data[n..]);
  }

  /** The whole computation: sum, fold, complement. */
  method Compute(data: Bytes, checked: bool) returns (c: Option<u16>)
    ensures c == Sum32(data, checked)
  {
    var total := AddWords(data, checked);
    if total.None? {
      return None;
    }
    var sum := total.value;
    while sum / 0x1_0000 != 0
      invariant Fold(sum) == Fold(total.value)
      decreases sum
    {
      sum := sum % 0x1_0000 + sum / 0x1_0000;
    }
    return Some(0xffff - sum);
  }
}
