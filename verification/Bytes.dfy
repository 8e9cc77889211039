/** Bytes, 32-bit words, little-endian encodings and a few facts about sequences that the models share. */
module Bytes {

  type u8 = x: int | 0 <= x < 0x100
  type u32 = x: int | 0 <= x < 0x1_0000_0000
  type i32 = x: int | -0x8000_0000 <= x < 0x8000_0000

  /** The value left in a 32-bit unsigned register. */
  function Wrap32(x: int): u32 {
    x % 0x1_0000_0000
  }

  /** Bit number `n` of a word, for `n` given as the power of two `weight`. */
  predicate HasBit(x: nat, weight: nat)
    requires weight > 0
  {
    x / weight % 2 == 1
  }

  /** A number with a bit set is its higher bits, the bit itself and a remainder below it. */
  lemma BitMeans(high: nat, low: nat, weight: nat)
    requires low < weight
    ensures HasBit(2 * weight * high + weight + low, weight) && !HasBit(2 * weight * high + low, weight)
  {
    DivideOut(2 * high + 1, low, weight);
    DivideOut(2 * high, low, weight);
    assert (2 * high + 1) * weight + low == 2 * weight * high + weight + low;
    assert 2 * high * weight + low == 2 * weight * high + low;
  }

  lemma DivideOut(q: nat, low: nat, weight: nat)
    requires low < weight
    ensures (q * weight + low) / weight == q
  {
    var x := q * weight + low;
    OneQuotient(x / weight, x % weight, q, low, weight);
  }

  lemma OneQuotient(p: int, r: nat, q: int, low: nat, weight: nat)
    requires r < weight && low < weight && p * weight + r == q * weight + low
    ensures p == q
  {
    if p > q {
      Further(p, q, weight);
    } else if p < q {
      Further(q, p, weight);
    }
  }

  lemma {:induction false} Further(p: int, q: int, weight: nat)
    requires p > q
    ensures p * weight >= q * weight + weight
    decreases p - q
  {
    if p > q + 1 {
      Further(p - 1, q, weight);
    }
    assert p * weight == (p - 1) * weight + weight;
  }

  function LE32(w: u32): (s: seq<u8>)
    ensures |s| == 4
  {
    [w % 0x100, w / 0x100 % 0x100, w / 0x1_0000 % 0x100, w / 0x100_0000]
  }

  /** The little-endian word at offset `off`. */
  function Word(s: seq<u8>, off: nat): u32
    requires off + 4 <= |s|
  {
    (s[off] as int) + 0x100 * (s[off + 1] as int) + 0x1_0000 * (s[off + 2] as int) + 0x100_0000 * (s[off + 3] as int)
  }

  /** Least significant byte first: the first byte is the last digit in base 256. */
  lemma LE32Digits(w: u32)
    ensures LE32(w) == [w % 0x100] + LE32(w / 0x100)[..3]
  {
    assert w / 0x100 / 0x100 == w / 0x1_0000 && w / 0x100 / 0x1_0000 == w / 0x100_0000;
  }

  lemma WordOfLE32(w: u32)
    ensures Word(LE32(w), 0) == w
  {
    var lo := w / 0x100;
    var mid := lo / 0x100;
    assert w == 0x100 * lo + w % 0x100;
    assert lo == 0x100 * mid + lo % 0x100;
    assert w / 0x1_0000 == mid && w / 0x100_0000 == mid / 0x100;
  }

  /** The digits of a number in base 256. */
  lemma LowDigit(lo: int, rest: int)
    requires 0 <= lo < 0x100
    ensures (lo + 0x100 * rest) % 0x100 == lo && (lo + 0x100 * rest) / 0x100 == rest
  {
  }

  lemma LE32OfWord(s: seq<u8>, p: nat)
    requires p + 4 <= |s|
    ensures LE32(Word(s, p)) == s[p..p + 4]
  {
    var b0: int, b1: int, b2: int, b3: int := s[p], s[p + 1], s[p + 2], s[p + 3];
    var w := Word(s, p);
    LowDigit(b0, b1 + 0x100 * b2 + 0x1_0000 * b3);
    LowDigit(b1, b2 + 0x100 * b3);
    LowDigit(b2, b3);
    assert w / 0x1_0000 == w / 0x100 / 0x100 && w / 0x100_0000 == w / 0x1_0000 / 0x100;
    assert s[p..p + 4] == [b0, b1, b2, b3];
  }

  function Zeros(n: nat): (s: seq<u8>)
    ensures |s| == n && forall k | 0 <= k < n :: s[k] == 0
  {
    seq(n, _ => 0)
  }

  method StoreWord(dst: array<u8>, at: nat, w: u32)
    requires at + 4 <= dst.Length
    modifies dst
    ensures dst[at..at + 4] == LE32(w)
    ensures forall k | 0 <= k < dst.Length && !(at <= k < at + 4) :: dst[k] == old(dst[k])
  {
    var b := LE32(w);
    dst[at], dst[at + 1], dst[at + 2], dst[at + 3] := b[0], b[1], b[2], b[3];
  }

  // ---------------------------------------------------------------- values and sequences

  datatype Option<+T> = None | Some(value: T)

  /** Distinct elements of a set are no more than the set has. */
  lemma {:induction false} DistinctFit<T>(w: seq<T>, pool: set<T>)
    requires forall i | 0 <= i < |w| :: w[i] in pool
    requires forall i, j | 0 <= i < j < |w| :: w[i] != w[j]
    ensures |w| <= |pool|
    decreases |w|
  {
    if w != [] {
      var last, rest := w[|w| - 1], w[..|w| - 1];
      forall i | 0 <= i < |rest|
        ensures rest[i] in pool - {last}
      {
        assert w[i] in pool && w[i] != last;
      }
      DistinctFit(rest, pool - {last});
    }
  }
}
