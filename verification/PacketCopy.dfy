/**
 Copying packets on the Dreamcast, `client/dreamcast/memfuncs.c`: the software-pipelined copy
 that shifts a packet by two bytes, and the general copy that picks the widest loop the
 pointers allow.
 */
module PacketCopy {
  import opened Bytes

  // ---------------------------------------------------------------- xtrct

  /** The middle 32 bits of the pair m:n. */
  function Xtrct(m: u32, n: u32): u32 {
    m % 0x1_0000 * 0x1_0000 + n / 0x1_0000
  }

  lemma WordHalves(s: seq<u8>, p: nat)
    requires p + 4 <= |s|
    ensures Word(s, p) % 0x1_0000 == (s[p] as int) + 0x100 * (s[p + 1] as int)
    ensures Word(s, p) / 0x1_0000 == (s[p + 2] as int) + 0x100 * (s[p + 3] as int)
  {
    var low, high := (s[p] as int) + 0x100 * (s[p + 1] as int), (s[p + 2] as int) + 0x100 * (s[p + 3] as int);
    assert Word(s, p) == low + 0x1_0000 * high && low < 0x1_0000;
  }

  /** Two neighbouring words give the word half way between them. */
  lemma XtrctIsTheWordBetween(s: seq<u8>, p: nat)
    requires p + 8 <= |s|
    ensures Xtrct(Word(s, p + 4), Word(s, p)) == Word(s, p + 2)
  {
    hide Word;
    WordHalves(s, p);
    WordHalves(s, p + 4);
    WordHalves(s, p + 2);
    assert Word(s, p + 2) == Word(s, p + 2) % 0x1_0000 + 0x1_0000 * (Word(s, p + 2) / 0x1_0000);
  }

  function Block(s: seq<u8>, p: nat): (b: seq<u32>)
    requires p + 34 <= |s|
    ensures |b| == 8
  {
    [Word(s, p + 2), Word(s, p + 6), Word(s, p + 10), Word(s, p + 14), Word(s, p + 18), Word(s, p + 22),
        Word(s, p + 26), Word(s, p + 30)]
  }

  /** One pass through the registers: eight loads, eight extractions, the last word carried over
      to the next pass in Z. */
  method Extract(src: array<u8>, at: nat, z: u32) returns (words: seq<u32>, carry: u32)
    requires at >= 4 && at + 32 <= src.Length && z == Word(src[..], at - 4)
    ensures words == Block(src[..], at - 4) && carry == Word(src[..], at + 28)
  {
    hide Xtrct, Word;
    ghost var s := src[..];
    var a := Word(src[..], at);
    var b := Word(src[..], at + 4);
    var r0 := z;
    var c := Word(src[..], at + 8);
    r0 := Xtrct(a, r0);
    XtrctIsTheWordBetween(s, at - 4);
    var d := Word(src[..], at + 12);
    a := Xtrct(b, a);
    XtrctIsTheWordBetween(s, at);
    var w := Word(src[..], at + 16);
    b := Xtrct(c, b);
    XtrctIsTheWordBetween(s, at + 4);
    var x := Word(src[..], at + 20);
    c := Xtrct(d, c);
    XtrctIsTheWordBetween(s, at + 8);
    var y := Word(src[..], at + 24);
    d := Xtrct(w, d);
    XtrctIsTheWordBetween(s, at + 12);
    carry := Word(src[..], at + 28);
    w := Xtrct(x, w);
    XtrctIsTheWordBetween(s, at + 16);
    x := Xtrct(y, x);
    XtrctIsTheWordBetween(s, at + 20);
    y := Xtrct(carry, y);
    XtrctIsTheWordBetween(s, at + 24);
    words := [r0, a, b, c, d, w, x, y];
  }

  /** The stores of one pass, through the two output pointers in turn. */
  method StoreBlock(dst: array<u8>, src: array<u8>, at: nat, words: seq<u32>)
    requires dst != src && at + 32 <= dst.Length && at + 34 <= src.Length && words == Block(src[..], at)
    modifies dst
    ensures forall k | 0 <= k < dst.Length :: dst[k] == if at <= k < at + 32 then src[k + 2] else old(dst[k])
  {
    hide Word, LE32;
    ghost var s := src[..];
    var out, out2 := at, at + 4;
    var i := 0;
    while i < 4
      invariant 0 <= i <= 4 && out == at + 8 * i && out2 == out + 4
      invariant forall k | 0 <= k < dst.Length :: dst[k] == if at <= k < at + 8 * i then src[k + 2] else old(dst[k])
    {
      assert words[2 * i] == Word(s, out + 2) && words[2 * i + 1] == Word(s, out2 + 2);
      LE32OfWord(s, out + 2);
      LE32OfWord(s, out2 + 2);
      StoreWord(dst, out, words[2 * i]);
      ghost var first := dst[out..out + 4];
      StoreWord(dst, out2, words[2 * i + 1]);
      assert dst[out..out + 4] == first == s[out + 2..out + 6];
      assert dst[out2..out2 + 4] == s[out2 + 2..out2 + 6];
      assert forall k | out <= k < out + 4 :: dst[k] == dst[out..out + 4][k - out];
      assert forall k | out2 <= k < out2 + 4 :: dst[k] == dst[out2..out2 + 4][k - out2];
      out, out2, i := out + 8, out2 + 8, i + 1;
    }
  }

  /** Passes of 32 bytes for a packet of n bytes, in 32-bit arithmetic. */
  function Passes(n: u32): u32 {
    Wrap32((n as int) + 31) / 32
  }

  /** `SH4_mem_to_pkt_X_movca_32`: the whole packet, rounded up to 32 bytes, arrives two bytes
      earlier than it was; nothing else is written. */
  method MemToPacket(dst: array<u8>, src: array<u8>, n: u32)
    requires dst != src && (n as int) + 31 < 0x1_0000_0000
    requires 32 * (Passes(n) as int) <= dst.Length && 32 * (Passes(n) as int) + 4 <= src.Length
    modifies dst
    ensures n <= 32 * (Passes(n) as int) < n + 32
    ensures forall k | 0 <= k < dst.Length :: dst[k] == if k < 32 * (Passes(n) as int) then src[k + 2] else old(dst[k])
  {
    hide Block, Word;
    if n == 0 {
      return;
    }
    var z := Word(src[..], 0);
    var input, out, size := 4, 0, Passes(n);
    while true
      invariant 0 < size <= Passes(n) && out == 32 * (Passes(n) - size) && input == out + 4
      invariant z == Word(src[..], out)
      invariant forall k | 0 <= k < dst.Length :: dst[k] == if k < out then src[k + 2] else old(dst[k])
      decreases size
    {
      var words, carry := Extract(src, input, z);
      StoreBlock(dst, src, out, words);
      z, input, out, size := carry, input + 32, out + 32, size - 1;
      if size == 0 {
        break;
      }
    }
  }

  // ---------------------------------------------------------------- the general copy

  /** The byte an address names, cached or not. */
  function Phys(a: u32): nat {
    a % 0x2000_0000
  }

  predicate InMemory(n: nat, a: u32, len: nat) {
    Phys(a) + len <= n <= 0x2000_0000
  }

  predicate Apart(a: u32, b: u32, len: nat) {
    Phys(a) + len <= Phys(b) || Phys(b) + len <= Phys(a)
  }

  /** Byte k after a copy of `len` bytes. */
  function CopyAt(was: seq<u8>, dest: nat, src: nat, len: nat, k: nat): u8
    requires k < |was| && src + len <= |was|
  {
    if dest <= k < dest + len then was[src + (k - dest)] else was[k]
  }

  ghost predicate CopiedTo(was: seq<u8>, now: seq<u8>, dest: nat, src: nat, len: nat) {
    && |now| == |was| && dest + len <= |was| && src + len <= |was|
    && forall k | 0 <= k < |was| :: now[k] == CopyAt(was, dest, src, len, k)
  }

  /** One load into a register and one store of it, `width` bytes each. */
  method MoveUnit(mem: array<u8>, dest: nat, src: nat, width: nat)
    requires dest + width <= mem.Length && src + width <= mem.Length
    modifies mem
    ensures CopiedTo(old(mem[..]), mem[..], dest, src, width)
  {
    var scratch := mem[src..src + width];
    for i := 0 to width
      invariant forall k | 0 <= k < mem.Length ::
                mem[k] == if dest <= k < dest + i then scratch[k - dest] else old(mem[k])
    {
      mem[dest + i] := scratch[i];
    }
  }

  lemma CopyMore(was: seq<u8>, mid: seq<u8>, now: seq<u8>, dest: nat, src: nat, done: nat, more: nat)
    requires CopiedTo(was, mid, dest, src, done) && CopiedTo(mid, now, dest + done, src + done, more)
    requires dest + done + more <= src || src + done + more <= dest
    ensures CopiedTo(was, now, dest, src, done + more)
  {
    forall k | 0 <= k < |was|
      ensures now[k] == CopyAt(was, dest, src, done + more, k)
    {
      assert now[k] == CopyAt(mid, dest + done, src + done, more, k);
      if dest + done <= k < dest + done + more {
        var j := src + (k - dest);
        assert mid[j] == CopyAt(was, dest, src, done, j);
      } else {
        assert mid[k] == CopyAt(was, dest, src, done, k);
      }
    }
  }

  function Span(width: nat, count: nat): nat {
    width * count
  }

  lemma OneUnit(width: nat, len: nat)
    requires len > 0
    ensures Span(width, len) == width + Span(width, len - 1)
  {
  }

  lemma NoUnits(width: nat)
    ensures Span(width, 0) == 0
  {
  }

  method UnitLoop(mem: array<u8>, dest: nat, src: nat, width: nat, count: nat)
    requires dest + Span(width, count) <= mem.Length && src + Span(width, count) <= mem.Length && count > 0
    requires dest + Span(width, count) <= src || src + Span(width, count) <= dest
    modifies mem
    ensures CopiedTo(old(mem[..]), mem[..], dest, src, Span(width, count))
  {
    hide CopiedTo, Span;
    var diff := dest - (src + width);
    var input, len := src, count;
    ghost var done: nat := 0;
    NothingCopied(mem[..], dest, src);
    NoUnits(width);
    while true
      invariant 0 < len <= count && done + Span(width, len) == Span(width, count) && input == src + done
      invariant CopiedTo(old(mem[..]), mem[..], dest, src, done)
      decreases len
    {
      ghost var was := mem[..];
      OneUnit(width, len);
      len := len - 1;
      var from := input;
      input := input + width;
      MoveUnit(mem, input + diff, from, width);
      CopyMore(old(mem[..]), was, mem[..], dest, src, done, width);
      done := done + width;
      if len == 0 {
        break;
      }
    }
  }

  /** `memcpy_8bit`, `_16bit`, `_32bit` and `_64bit`: `count` units of a width both pointers are
      multiples of. The store address is the load address plus a difference of physical addresses,
      so it may name the destination through the other segment. */
  method CopyUnits(mem: array<u8>, dest: u32, src: u32, width: nat, count: nat)
    requires width in {1, 2, 4, 8} && BothAligned(src, dest, width)
    requires InMemory(mem.Length, dest, Span(width, count)) && InMemory(mem.Length, src, Span(width, count))
    requires Apart(dest, src, Span(width, count))
    modifies mem
    ensures CopiedTo(old(mem[..]), mem[..], Phys(dest), Phys(src), Span(width, count))
  {
    hide CopiedTo, Span, Phys;
    if count == 0 {
      NoUnits(width);
      NothingCopied(mem[..], Phys(dest), Phys(src));
      return;
    }
    UnitLoop(mem, Phys(dest), Phys(src), width, count);
  }

  lemma NothingCopied(was: seq<u8>, dest: nat, src: nat)
    requires dest <= |was| && src <= |was|
    ensures CopiedTo(was, was, dest, src, 0)
  {
  }

  /** `memcpy_64bit_32Bytes`: four loads, then four stores from the top down. */
  method Copy32(mem: array<u8>, dest: u32, src: u32, count: nat)
    requires dest % 8 == 0 && src % 8 == 0
    requires InMemory(mem.Length, dest, 32 * count) && InMemory(mem.Length, src, 32 * count)
             && Apart(dest, src, 32 * count)
    modifies mem
    ensures CopiedTo(old(mem[..]), mem[..], Phys(dest), Phys(src), 32 * count)
  {
    if count == 0 {
      return;
    }
    hide CopiedTo, Phys;
    NothingCopied(mem[..], Phys(dest), Phys(src));
    var input, out, len := Phys(src), Phys(dest), count;
    while true
      invariant 0 < len <= count && input == Phys(src) + 32 * (count - len) && out == Phys(dest) + 32 * (count - len)
      invariant CopiedTo(old(mem[..]), mem[..], Phys(dest), Phys(src), 32 * (count - len))
      decreases len
    {
      ghost var was, done := mem[..], 32 * (count - len);
      Burst(mem, out, input);
      CopyMore(old(mem[..]), was, mem[..], Phys(dest), Phys(src), done, 32);
      input, out, len := input + 32, out + 32, len - 1;
      if len == 0 {
        break;
      }
    }
  }

  function BurstAt(was: seq<u8>, dest: nat, src: nat, out: nat, k: nat): u8
    requires k < |was| && src + 32 <= |was| && dest <= out
  {
    if out <= k < dest + 32 then was[src + (k - dest)] else was[k]
  }

  /** The top of the burst, from `out` on, is stored. */
  ghost predicate StoredFrom(was: seq<u8>, now: seq<u8>, dest: nat, src: nat, out: nat) {
    && |now| == |was| && dest <= out <= dest + 32 <= |was| && src + 32 <= |was|
    && forall k | 0 <= k < |was| :: now[k] == BurstAt(was, dest, src, out, k)
  }

  method StoreQuad(mem: array<u8>, ghost was: seq<u8>, ghost dest: nat, ghost src: nat, above: nat,
      quad: seq<u8>) returns (out: nat)
    requires StoredFrom(was, mem[..], dest, src, above) && dest + 8 <= above && |quad| == 8
    requires quad == was[src + (above - 8 - dest)..src + (above - dest)]
    modifies mem
    ensures out == above - 8 && StoredFrom(was, mem[..], dest, src, out)
  {
    out := above - 8;
    ghost var mid := mem[..];
    StoreBytes(mem, out, quad);
    forall k | 0 <= k < |was|
      ensures mem[k] == BurstAt(was, dest, src, out, k)
    {
      if out <= k < above {
        assert mem[k] == quad[k - out] == was[src + (k - dest)];
      } else {
        assert mem[k] == mid[k] == BurstAt(was, dest, src, above, k);
      }
    }
  }

  method Burst(mem: array<u8>, dest: nat, src: nat)
    requires dest + 32 <= mem.Length && src + 32 <= mem.Length
    modifies mem
    ensures CopiedTo(old(mem[..]), mem[..], dest, src, 32)
  {
    ghost var was := mem[..];
    var s1, s2, s3, s4 := mem[src..src + 8], mem[src + 8..src + 16], mem[src + 16..src + 24], mem[src + 24..src + 32];
    var out := dest + 32;
    assert StoredFrom(was, mem[..], dest, src, out);
    hide StoredFrom, CopiedTo;
    out := StoreQuad(mem, was, dest, src, out, s4);
    out := StoreQuad(mem, was, dest, src, out, s3);
    out := StoreQuad(mem, was, dest, src, out, s2);
    out := StoreQuad(mem, was, dest, src, out, s1);
    BurstDone(was, mem[..], dest, src);
  }

  lemma BurstDone(was: seq<u8>, now: seq<u8>, dest: nat, src: nat)
    requires StoredFrom(was, now, dest, src, dest)
    ensures CopiedTo(was, now, dest, src, 32)
  {
    forall k | 0 <= k < |was|
      ensures now[k] == CopyAt(was, dest, src, 32, k)
    {
      assert now[k] == BurstAt(was, dest, src, dest, k);
    }
  }

  method StoreBytes(mem: array<u8>, at: nat, bytes: seq<u8>)
    requires at + |bytes| <= mem.Length
    modifies mem
    ensures forall k | 0 <= k < mem.Length :: mem[k] == if at <= k < at + |bytes| then bytes[k - at] else old(mem[k])
  {
    for i := 0 to |bytes|
      invariant forall k | 0 <= k < mem.Length :: mem[k] == if at <= k < at + i then bytes[k - at] else old(mem[k])
    {
      mem[at + i] := bytes[i];
    }
  }

  predicate BothAligned(a: u32, b: u32, width: nat)
    requires width > 0
  {
    a % width == 0 && b % width == 0
  }

  /** One turn of the loop: the widest copy that both pointers and the length allow. */
  method CopyStep(mem: array<u8>, dest: u32, src: u32, left: nat) returns (offset: nat)
    requires left > 0 && InMemory(mem.Length, dest, left) && InMemory(mem.Length, src, left) && Apart(dest, src, left)
    modifies mem
    ensures 0 < offset <= left && CopiedTo(old(mem[..]), mem[..], Phys(dest), Phys(src), offset)
  {
    hide CopiedTo, Span, Phys;
    if BothAligned(src, dest, 8) && left >= 32 {
      offset := left - left % 32;
      assert offset == 32 * (left / 32);
      Copy32(mem, dest, src, left / 32);
    } else {
      var width := if BothAligned(src, dest, 8) && left >= 8 then 8
          else if BothAligned(src, dest, 4) && left >= 4 then 4
                   else if BothAligned(src, dest, 2) && left >= 2 then 2 else 1;
      offset := left - left % width;
      AllAligned(src, dest);
      WholeUnits(left, width);
      CopyUnits(mem, dest, src, width, left / width);
    }
  }

  lemma AllAligned(a: u32, b: u32)
    ensures BothAligned(a, b, 1)
  {
  }

  /** `SH4_aligned_memcpy` is a byte copy: wide loops only ever see pointers aligned for them. */
  method AlignedMemcpy(mem: array<u8>, dest0: u32, src0: u32, n: u32)
    requires InMemory(mem.Length, dest0, n) && InMemory(mem.Length, src0, n) && (dest0 == src0 || Apart(dest0, src0, n))
    requires (dest0 as int) + n < 0x1_0000_0000 && (src0 as int) + n < 0x1_0000_0000
    modifies mem
    ensures dest0 == src0 ==> mem[..] == old(mem[..])
    ensures dest0 != src0 ==> CopiedTo(old(mem[..]), mem[..], Phys(dest0), Phys(src0), n)
    ensures var to, from := dest0 % 0x2000_0000, src0 % 0x2000_0000;
            forall k | 0 <= k < mem.Length ::
              mem[..][k] == old(mem[..])[if to <= k < to + n then from + (k - to) else k]
  {
    hide CopiedTo, Phys;
    if dest0 == src0 {
      return;
    }
    NothingCopied(mem[..], Phys(dest0), Phys(src0));
    var dest, src, left := dest0, src0, n;
    while left > 0
      invariant 0 <= left <= n && (dest as int) == dest0 + (n - left) && (src as int) == src0 + (n - left)
      invariant CopiedTo(old(mem[..]), mem[..], Phys(dest0), Phys(src0), n - left)
      invariant left > 0 ==> Phys(dest) == Phys(dest0) + (n - left) && Phys(src) == Phys(src0) + (n - left)
      decreases left
    {
      ghost var was := mem[..];
      var offset := CopyStep(mem, dest, src, left);
      CopyMore(old(mem[..]), was, mem[..], Phys(dest0), Phys(src0), n - left, offset);
      if offset < left {
        Further(dest0, n, n - left + offset);
        Further(src0, n, n - left + offset);
      }
      dest, src, left := dest + offset, src + offset, left - offset;
    }
    Copied(old(mem[..]), mem[..], dest0, src0, n);
  }

  /** What a copy leaves, byte by byte. */
  lemma Copied(was: seq<u8>, now: seq<u8>, dest: u32, src: u32, n: nat)
    requires CopiedTo(was, now, Phys(dest), Phys(src), n)
    ensures var to, from := dest % 0x2000_0000, src % 0x2000_0000;
            forall k | 0 <= k < |was| :: now[k] == was[if to <= k < to + n then from + (k - to) else k]
  {
    var to, from := dest % 0x2000_0000, src % 0x2000_0000;
    forall k | 0 <= k < |was|
      ensures now[k] == was[if to <= k < to + n then from + (k - to) else k]
    {
      assert now[k] == CopyAt(was, to, from, n, k);
    }
  }

  lemma WholeUnits(n: nat, width: nat)
    requires width in {1, 2, 4, 8} && width <= n
    ensures Span(width, n / width) == n - n % width > 0
  {
  }

  lemma Further(a: u32, n: nat, k: nat)
    requires Phys(a) + n <= 0x2000_0000 && k < n && (a as int) + n < 0x1_0000_0000
    ensures Phys(a + k) == Phys(a) + k
  {
  }
}
