/**
 The blob `perform_update` uploads - trampoline, patched size word, firmware with the IP
 setting patched in - and what running it does to the two consoles modelled here.
 */
module FirmwareBlob {
  import opened Bytes
  import S = Sh4Machine
  import ST = Sh4Trampoline
  import A = AllegrexMachine
  import AT = AllegrexTrampoline

  type Image = seq<u8>

  const MAGIC: Image := [0x4B, 0x4F, 0x53, 0x4C, 0x44, 0x5F, 0x49, 0x50]  // "KOSLD_IP"
  const MAGIC_LEN := 8
  const IP_LEN := 16
  const MAX_BLOB := 0x1_0000_0000

  // ---------------------------------------------------------------- the IP block

  predicate MagicAt(fw: Image, i: nat) {
    i + MAGIC_LEN + IP_LEN <= |fw| && fw[i..i + MAGIC_LEN] == MAGIC
  }

  /** The first IP block from `from` on, or -1. */
  function FindMagic(fw: Image, from: nat): (i: int)
    ensures -1 <= i && (i >= 0 ==> from <= i && MagicAt(fw, i))
    ensures forall k | from <= k < (if i < 0 then |fw| else i) :: !MagicAt(fw, k)
    decreases |fw| - from
  {
    if from + MAGIC_LEN + IP_LEN > |fw| then -1 else if MagicAt(fw, from) then from else FindMagic(fw, from + 1)
  }

  /** A block is the text KOSLD_IP with sixteen bytes behind it; the first one is found if there is any. */
  lemma FindsTheFirstBlock(fw: Image, k: nat)
    ensures var i := FindMagic(fw, 0);
            && (i >= 0 ==> i + 24 <= |fw| && fw[i..i + 8] == [0x4B, 0x4F, 0x53, 0x4C, 0x44, 0x5F, 0x49, 0x50])
            && (k + 24 <= |fw| && fw[k..k + 8] == [0x4B, 0x4F, 0x53, 0x4C, 0x44, 0x5F, 0x49, 0x50] ==> 0 <= i <= k)
  {
    assert k + 24 <= |fw| && fw[k..k + 8] == MAGIC ==> MagicAt(fw, k);
  }

  /** At most 15 characters of the address, padded with NULs. */
  function IpField(ip: Image): (f: Image)
    ensures |f| == IP_LEN && f[IP_LEN - 1] == 0
  {
    var n := if |ip| < IP_LEN then |ip| else IP_LEN - 1;
    ip[..n] + Zeros(IP_LEN - n)
  }

  function Patched(fw: Image, ip: Image): (r: Image)
    ensures |r| == |fw|
  {
    var i := FindMagic(fw, 0);
    if i < 0 then fw else fw[..i + MAGIC_LEN] + IpField(ip) + fw[i + MAGIC_LEN + IP_LEN..]
  }

  /** Patching touches at most the 16 bytes after the first magic, which then hold the address
      and nothing else; patching again just replaces it. */
  lemma PatchTouchesOneField(fw: Image, ip: Image, other: Image)
    ensures FindMagic(fw, 0) < 0 ==> Patched(fw, ip) == fw
    ensures var i := FindMagic(fw, 0); i >= 0 ==>
              && Patched(fw, ip)[..i + MAGIC_LEN] == fw[..i + MAGIC_LEN]
              && Patched(fw, ip)[i + MAGIC_LEN..i + MAGIC_LEN + IP_LEN] == IpField(ip)
              && Patched(fw, ip)[i + MAGIC_LEN + IP_LEN..] == fw[i + MAGIC_LEN + IP_LEN..]
    ensures Patched(Patched(fw, ip), other) == Patched(fw, other)
  {
    var i := FindMagic(fw, 0);
    if i >= 0 {
      var p := Patched(fw, ip);
      assert p[..i + MAGIC_LEN] == fw[..i + MAGIC_LEN];
      forall k | 0 <= k <= i
        ensures MagicAt(p, k) == MagicAt(fw, k)
      {
        SameBytesSameMagic(p, fw, i + MAGIC_LEN, k);
      }
      FirstIs(p, 0, i);
      assert p[i + MAGIC_LEN + IP_LEN..] == fw[i + MAGIC_LEN + IP_LEN..];
    }
  }

  /** The bytes of `image` after the magic at i hold the address: its first 15 characters, then NULs. */
  predicate HoldsAddress(image: Image, i: nat, ip: Image) {
    i + MAGIC_LEN + IP_LEN <= |image|
    && var field := image[i + MAGIC_LEN..i + MAGIC_LEN + IP_LEN];
       forall k | 0 <= k < IP_LEN :: field[k] == if k < |ip| && k < IP_LEN - 1 then ip[k] else 0
  }

  lemma PatchedHoldsAddress(fw: Image, ip: Image)
    ensures var i := FindMagic(fw, 0); i >= 0 ==> HoldsAddress(Patched(fw, ip), i, ip)
  {
    hide FindMagic, MagicAt;
    MagicFits(fw);
    var i := FindMagic(fw, 0);
    if i >= 0 {
      assert Patched(fw, ip)[i + MAGIC_LEN..i + MAGIC_LEN + IP_LEN] == IpField(ip);
    }
  }

  lemma HoldsBehind(head: Image, image: Image, i: nat, ip: Image)
    ensures HoldsAddress(image, i, ip) ==> HoldsAddress(head + image, |head| + i, ip)
  {
    assert (head + image)[|head|..|head| + |image|] == image;
    if HoldsAddress(image, i, ip) {
      HoldsInPart(head + image, |head|, |head| + |image|, i, ip);
    }
  }

  lemma HoldsInPart(image: Image, lo: nat, hi: nat, i: nat, ip: Image)
    requires lo <= hi <= |image| && HoldsAddress(image[lo..hi], i, ip)
    ensures HoldsAddress(image, lo + i, ip)
  {
    SliceOfSlice(image, lo, hi, i + MAGIC_LEN, i + MAGIC_LEN + IP_LEN);
  }

  lemma SliceOfSlice(s: Image, lo: nat, hi: nat, a: nat, b: nat)
    requires lo <= hi <= |s| && a <= b <= hi - lo
    ensures s[lo..hi][a..b] == s[lo + a..lo + b]
  {
    var t := s[lo..hi];
    assert |t[a..b]| == |s[lo + a..lo + b]|;
    forall k | 0 <= k < b - a
      ensures t[a..b][k] == s[lo + a..lo + b][k]
    {
      assert t[a..b][k] == t[a + k] == s[lo + a + k];
    }
  }

  lemma SameBytesSameMagic(p: Image, q: Image, n: nat, k: nat)
    requires |p| == |q| && n <= |p| && p[..n] == q[..n] && k + MAGIC_LEN <= n
    ensures MagicAt(p, k) == MagicAt(q, k)
  {
    assert p[k..k + MAGIC_LEN] == p[..n][k..k + MAGIC_LEN] && q[k..k + MAGIC_LEN] == q[..n][k..k + MAGIC_LEN];
  }

  lemma {:induction false} FirstIs(fw: Image, from: nat, i: nat)
    requires from <= i && MagicAt(fw, i) && forall k | from <= k < i :: !MagicAt(fw, k)
    ensures FindMagic(fw, from) == i
    decreases i - from
  {
    if from < i {
      FirstIs(fw, from + 1, i);
    }
  }

  // ---------------------------------------------------------------- the blob

  datatype Arch = Arch(trampoline: Image, sizeAt: nat, bigEndian: bool)

  predicate ArchOk(arch: Arch) {
    arch.sizeAt + 4 <= |arch.trampoline|
  }

  function SizeWord(arch: Arch, size: u32): (w: Image)
    ensures |w| == 4
  {
    var le := LE32(size);
    if arch.bigEndian then [le[3], le[2], le[1], le[0]] else le
  }

  function Payload(fw: Image, ip: Image, patch: bool): (r: Image)
    ensures |r| == |fw|
  {
    if patch then Patched(fw, ip) else fw
  }

  function Blob(arch: Arch, fw: Image, ip: Image, patch: bool): (b: Image)
    requires ArchOk(arch) && |fw| < MAX_BLOB
    ensures |b| == |arch.trampoline| + |fw|
  {
    arch.trampoline[..arch.sizeAt] + SizeWord(arch, |fw|) + arch.trampoline[arch.sizeAt + 4..] + Payload(fw, ip, patch)
  }

  function Overlay(s: Image, at: nat, bytes: Image): (r: Image)
    requires at + |bytes| <= |s|
    ensures |r| == |s|
  {
    s[..at] + bytes + s[at + |bytes|..]
  }

  lemma TwoParts(s: Image, head: Image, tail: Image)
    requires |s| == |head| + |tail|
    ensures Overlay(Overlay(s, 0, head), |head|, tail) == head + tail
  {
  }

  lemma OverlayHead(head: Image, tail: Image, at: nat, bytes: Image)
    requires at + |bytes| <= |head|
    ensures Overlay(head + tail, at, bytes) == head[..at] + bytes + head[at + |bytes|..] + tail
  {
  }

  lemma OverlayTail(head: Image, tail: Image, at: nat, bytes: Image)
    requires at + |bytes| <= |tail|
    ensures Overlay(head + tail, |head| + at, bytes) == head + (tail[..at] + bytes + tail[at + |bytes|..])
  {
  }

  lemma MagicFits(fw: Image)
    ensures FindMagic(fw, 0) < 0 || FindMagic(fw, 0) + MAGIC_LEN + IP_LEN <= |fw|
  {
  }

  lemma PatchIs(head: Image, fw: Image, ip: Image)
    ensures var i := FindMagic(fw, 0);
            if i < 0 then Patched(fw, ip) == fw
            else i + MAGIC_LEN + IP_LEN <= |fw|
                 && head + Patched(fw, ip) == Overlay(head + fw, |head| + i + MAGIC_LEN, IpField(ip))
  {
    hide FindMagic, Overlay, IpField, MagicAt;
    MagicFits(fw);
    var i := FindMagic(fw, 0);
    if i >= 0 {
      OverlayTail(head, fw, i + MAGIC_LEN, IpField(ip));
    }
  }

  lemma Halves(head: Image, tail: Image)
    ensures (head + tail)[..|head|] == head && (head + tail)[|head|..] == tail
  {
  }

  method CopyIn(blob: array<u8>, at: nat, bytes: Image)
    requires at + |bytes| <= blob.Length
    modifies blob
    ensures blob[..] == Overlay(old(blob[..]), at, bytes)
  {
    for i := 0 to |bytes|
      invariant forall k | 0 <= k < blob.Length :: blob[k] == if at <= k < at + i then bytes[k - at] else old(blob[k])
    {
      blob[at + i] := bytes[i];
    }
  }

  method FindBlock(blob: array<u8>, base: nat) returns (at: int)
    requires base <= blob.Length
    ensures at == FindMagic(blob[base..], 0)
  {
    at := 0;
    while base + at + MAGIC_LEN + IP_LEN <= blob.Length
      invariant 0 <= at && FindMagic(blob[base..], 0) == FindMagic(blob[base..], at)
    {
      assert blob[base + at..base + at + MAGIC_LEN] == blob[base..][at..at + MAGIC_LEN];
      if blob[base + at..base + at + MAGIC_LEN] == MAGIC {
        return;
      }
      at := at + 1;
    }
    at := -1;
  }

  /** `patch_firmware_ip` on the firmware that starts at `base`. */
  method PatchFirmwareIp(blob: array<u8>, base: nat, ip: Image) returns (found: bool)
    requires base <= blob.Length
    modifies blob
    ensures blob[..] == old(blob[..base]) + Patched(old(blob[base..]), ip)
    ensures found == (FindMagic(old(blob[base..]), 0) >= 0)
    ensures found ==> HoldsAddress(blob[..], base + FindMagic(old(blob[base..]), 0), ip)
  {
    hide FindMagic, Overlay, MagicAt, IpField, Patched, HoldsAddress;
    ghost var head, fw := blob[..base], blob[base..];
    PatchedHoldsAddress(fw, ip);
    HoldsBehind(head, Patched(fw, ip), if FindMagic(fw, 0) < 0 then 0 else FindMagic(fw, 0), ip);
    assert blob[..] == head + fw;
    var i := FindBlock(blob, base);
    PatchIs(head, fw, ip);
    if i >= 0 {
      CopyIn(blob, base + i + MAGIC_LEN, IpField(ip));
    }
    found := i >= 0;
  }

  lemma PayloadHoldsAddress(fw: Image, ip: Image, patch: bool)
    ensures patch && FindMagic(fw, 0) >= 0 ==> HoldsAddress(Payload(fw, ip, patch), FindMagic(fw, 0), ip)
  {
    hide Patched, FindMagic, HoldsAddress;
    PatchedHoldsAddress(fw, ip);
  }

  lemma BlobHoldsAddress(arch: Arch, fw: Image, ip: Image, patch: bool)
    requires ArchOk(arch) && |fw| < MAX_BLOB
    ensures patch && FindMagic(fw, 0) >= 0
            ==> HoldsAddress(Blob(arch, fw, ip, patch), |arch.trampoline| + FindMagic(fw, 0), ip)
  {
    hide Payload, FindMagic, HoldsAddress, SizeWord;
    PayloadHoldsAddress(fw, ip, patch);
    var head := arch.trampoline[..arch.sizeAt] + SizeWord(arch, |fw|) + arch.trampoline[arch.sizeAt + 4..];
    assert Blob(arch, fw, ip, patch) == head + Payload(fw, ip, patch);
    if FindMagic(fw, 0) >= 0 {
      HoldsBehind(head, Payload(fw, ip, patch), FindMagic(fw, 0), ip);
    }
  }

  /** The size word is the size, in the byte order of the target. */
  lemma SizeWordIsTheSize(arch: Arch, size: u32)
    ensures var w := SizeWord(arch, size);
            size == Word(if arch.bigEndian then [w[3], w[2], w[1], w[0]] else w, 0)
  {
    hide LE32, Word;
    WordOfLE32(size);
    var le := LE32(size);
    assert [le[0], le[1], le[2], le[3]] == le;
  }

  method PerformUpdate(arch: Arch, fw: Image, ip: Image, patch: bool) returns (blob: array<u8>)
    requires ArchOk(arch) && |arch.trampoline| + |fw| < MAX_BLOB
    ensures fresh(blob) && blob[..] == Blob(arch, fw, ip, patch)
    ensures patch && FindMagic(fw, 0) >= 0 ==> HoldsAddress(blob[..], |arch.trampoline| + FindMagic(fw, 0), ip)
  {
    hide Overlay, Patched, SizeWord, HoldsAddress;
    BlobHoldsAddress(arch, fw, ip, patch);
    blob := new u8[|arch.trampoline| + |fw|](_ => 0);
    TwoParts(blob[..], arch.trampoline, fw);
    CopyIn(blob, 0, arch.trampoline);
    CopyIn(blob, |arch.trampoline|, fw);
    if patch {
      Halves(arch.trampoline, fw);
      assert blob[..|arch.trampoline|] == arch.trampoline && blob[|arch.trampoline|..] == fw;
      var _ := PatchFirmwareIp(blob, |arch.trampoline|, ip);
    }
    OverlayHead(arch.trampoline, Payload(fw, ip, patch), arch.sizeAt, SizeWord(arch, |fw|));
    CopyIn(blob, arch.sizeAt, SizeWord(arch, |fw|));
  }

  // ---------------------------------------------------------------- the Dreamcast

  function Sh4Byte(i: nat, size: u32): u8 {
    ST.Tramp16Fits(i / 2, size);
    if i % 2 == 0 then ST.Tramp16(i / 2, size) % 0x100 else ST.Tramp16(i / 2, size) / 0x100
  }

  /** `sh4_params`: 256 bytes, size word at 0x3C. */
  function Sh4Arch(): (a: Arch)
    ensures ArchOk(a) && |a.trampoline| == 0x100
  {
    Arch(seq(0x100, i requires 0 <= i => Sh4Byte(i, 0)), 0x3C, false)
  }

  lemma HalvesOfWord(size: u32)
    ensures size % 0x1_0000 % 0x100 == size % 0x100 && size % 0x1_0000 / 0x100 == size / 0x100 % 0x100
    ensures size / 0x1_0000 / 0x100 == size / 0x100_0000
  {
    var high, low := size / 0x1_0000, size % 0x1_0000;
    assert size == 0x1_0000 * high + low;
    assert size / 0x100 == 0x100 * high + low / 0x100;
  }

  lemma Sh4SizeBytes(size: u32)
    ensures Sh4Byte(0x3C, size) == size % 0x1_0000 % 0x100 && Sh4Byte(0x3D, size) == size % 0x1_0000 / 0x100
    ensures Sh4Byte(0x3E, size) == size / 0x1_0000 % 0x100 && Sh4Byte(0x3F, size) == size / 0x1_0000 / 0x100
  {
  }

  lemma Sh4SizeWord(size: u32, k: nat)
    requires k < 4
    ensures LE32(size)[k] == Sh4Byte(0x3C + k, size)
  {
    hide Sh4Byte;
    Sh4SizeBytes(size);
    HalvesOfWord(size);
  }

  lemma Sh4OtherBytes(i: nat, size: u32)
    requires i < 0x100 && !(0x3C <= i < 0x40)
    ensures Sh4Byte(i, size) == Sh4Byte(i, 0)
  {
    assert i / 2 != 0x1E && i / 2 != 0x1F;
  }

  lemma Sh4BlobBytes(fw: Image, ip: Image, patch: bool, i: nat)
    requires |fw| < MAX_BLOB && i < 0x100
    ensures Blob(Sh4Arch(), fw, ip, patch)[i] == Sh4Byte(i, |fw|)
  {
    hide Sh4Byte, LE32, Patched;
    if 0x3C <= i < 0x40 {
      Sh4SizeWord(|fw|, i - 0x3C);
    } else {
      Sh4OtherBytes(i, |fw|);
    }
  }

  /** The blob has been uploaded to the load address and entered there. */
  ghost predicate Sh4Uploaded(m: S.Sh4, blob: Image) {
    && S.Shape(m) && m.ok && m.pc == ST.LOAD && m.npc == ST.LOAD + 2
    && ST.CODE_AT + |blob| <= S.RAM_SIZE && m.ram[ST.CODE_AT..ST.CODE_AT + |blob|] == blob
  }

  lemma Sh4HasHalf(m: S.Sh4, blob: Image, fw: Image, ip: Image, patch: bool, k: nat)
    requires |fw| < MAX_BLOB && Sh4Uploaded(m, blob) && blob == Blob(Sh4Arch(), fw, ip, patch) && k < 0x26
    ensures ST.HasHalf(m.ram, k, |fw|)
  {
    hide Blob, ST.Tramp16, Patched;
    var code := m.ram[ST.CODE_AT..ST.CODE_AT + |blob|];
    Sh4BlobBytes(fw, ip, patch, 2 * k);
    Sh4BlobBytes(fw, ip, patch, 2 * k + 1);
    assert code[2 * k] == m.ram[ST.CODE_AT + 2 * k] && code[2 * k + 1] == m.ram[ST.CODE_AT + 2 * k + 1];
    ST.Tramp16Fits(k, |fw|);
  }

  lemma Sh4BlobIsReady(m: S.Sh4, fw: Image, ip: Image, patch: bool)
    requires |fw| < MAX_BLOB && Sh4Uploaded(m, Blob(Sh4Arch(), fw, ip, patch))
    ensures ST.Ready(m, |fw|)
    ensures m.ram[ST.FIRMWARE_AT..ST.FIRMWARE_AT + |fw|] == Payload(fw, ip, patch)
  {
    hide ST.HasHalf, Sh4Byte, Patched;
    var blob := Blob(Sh4Arch(), fw, ip, patch);
    forall k | 0 <= k < 0x26
      ensures ST.HasHalf(m.ram, k, |fw|)
    {
      Sh4HasHalf(m, blob, fw, ip, patch, k);
    }
    assert blob[0x100..] == Payload(fw, ip, patch);
    assert m.ram[ST.FIRMWARE_AT..ST.FIRMWARE_AT + |fw|] == m.ram[ST.CODE_AT..ST.CODE_AT + |blob|][0x100..];
  }

  /** The update of a Dreamcast: whatever the firmware of 1 to 0xC00B bytes and whatever is in RAM
      and registers, the run ends in the new loader, which is the firmware with its address set. */
  lemma DreamcastUpdateInstalls(m: S.Sh4, fw: Image, ip: Image, patch: bool)
    requires 0 < |fw| <= ST.MAX_SIZE && Sh4Uploaded(m, Blob(Sh4Arch(), fw, ip, patch))
    ensures var e := S.Steps(m, ST.RunLength(|fw|));
            && e.ok && e.pc == S.ENTRY && e.ram[ST.LOADER_AT..ST.LOADER_AT + |fw|] == Payload(fw, ip, patch)
            && (patch && FindMagic(fw, 0) >= 0 ==> HoldsAddress(e.ram, ST.LOADER_AT + FindMagic(fw, 0), ip))
  {
    hide S.Steps, Blob, Patched, ST.Ready, Payload, FindMagic, HoldsAddress;
    Sh4BlobIsReady(m, fw, ip, patch);
    ST.FirmwareIsInstalled(m, |fw|);
    PayloadHoldsAddress(fw, ip, patch);
    if patch && FindMagic(fw, 0) >= 0 {
      HoldsInPart(S.Steps(m, ST.RunLength(|fw|)).ram, ST.LOADER_AT, ST.LOADER_AT + |fw|, FindMagic(fw, 0), ip);
    }
  }

  // ---------------------------------------------------------------- the PSP

  function AllegrexByte(i: nat, size: u32): u8 {
    LE32(AT.Tramp(i / 4, size))[i % 4]
  }

  /** `allegrex_params`: 512 bytes, size word at 0x1F8. */
  function AllegrexArch(): (a: Arch)
    ensures ArchOk(a) && |a.trampoline| == 0x200
  {
    Arch(seq(0x200, i requires 0 <= i => AllegrexByte(i, 0)), 0x1F8, false)
  }

  lemma AllegrexBlobBytes(fw: Image, ip: Image, patch: bool, i: nat)
    requires |fw| < MAX_BLOB && i < 0x200
    ensures Blob(AllegrexArch(), fw, ip, patch)[i] == AllegrexByte(i, |fw|)
  {
    hide LE32, Patched;
    if 0x1F8 <= i < 0x1FC {
      assert i / 4 == 0x7E && i % 4 == i - 0x1F8;
    } else {
      assert i / 4 != 0x7E;
    }
  }

  ghost predicate AllegrexUploaded(m: A.Mips, blob: Image) {
    && A.Shape(m) && m.ok && m.pc == AT.LOAD && m.npc == AT.LOAD + 4
    && AT.CODE_AT + |blob| <= A.RAM_SIZE && m.ram[AT.CODE_AT..AT.CODE_AT + |blob|] == blob
  }

  lemma WordFromLE32(s: Image, off: nat, w: u32)
    requires off + 4 <= |s| && forall k | 0 <= k < 4 :: s[off + k] == LE32(w)[k]
    ensures Word(s, off) == w
  {
    WordOfLE32(w);
    var b := LE32(w);
    assert s[off + 0] == b[0] && s[off + 1] == b[1] && s[off + 2] == b[2] && s[off + 3] == b[3];
  }

  lemma AllegrexHasWord(m: A.Mips, blob: Image, fw: Image, ip: Image, patch: bool, k: nat)
    requires |fw| < MAX_BLOB && AllegrexUploaded(m, blob) && blob == Blob(AllegrexArch(), fw, ip, patch)
             && k < AT.CODE_WORDS
    ensures AT.HasWord(m.ram, k, |fw|)
  {
    hide Blob, AT.Tramp, Patched, LE32, Word;
    var code := m.ram[AT.CODE_AT..AT.CODE_AT + |blob|];
    forall j | 0 <= j < 4
      ensures m.ram[AT.CODE_AT + 4 * k + j] == LE32(AT.Tramp(k, |fw|))[j]
    {
      AllegrexBlobBytes(fw, ip, patch, 4 * k + j);
      assert (4 * k + j) / 4 == k && (4 * k + j) % 4 == j;
      assert code[4 * k + j] == m.ram[AT.CODE_AT + (4 * k + j)];
    }
    WordFromLE32(m.ram, AT.CODE_AT + 4 * k, AT.Tramp(k, |fw|));
  }

  lemma AllegrexBlobIsReady(m: A.Mips, fw: Image, ip: Image, patch: bool)
    requires |fw| < MAX_BLOB && AllegrexUploaded(m, Blob(AllegrexArch(), fw, ip, patch))
    ensures AT.Ready(m, |fw|)
    ensures m.ram[AT.FIRMWARE_AT..AT.FIRMWARE_AT + |fw|] == Payload(fw, ip, patch)
  {
    hide AT.HasWord, AllegrexByte, Patched;
    var blob := Blob(AllegrexArch(), fw, ip, patch);
    forall k | 0 <= k < AT.CODE_WORDS
      ensures AT.HasWord(m.ram, k, |fw|)
    {
      AllegrexHasWord(m, blob, fw, ip, patch, k);
    }
    assert blob[0x200..] == Payload(fw, ip, patch);
    assert m.ram[AT.FIRMWARE_AT..AT.FIRMWARE_AT + |fw|] == m.ram[AT.CODE_AT..AT.CODE_AT + |blob|][0x200..];
  }

  /** The update of a PSP: a firmware of 1 to 0x100000 bytes ends up where the loader was, and
      control with it; of any other size, the trampoline spins and RAM stays as it was. */
  lemma PspUpdateInstalls(m: A.Mips, fw: Image, ip: Image, patch: bool) returns (n: nat)
    requires |fw| < MAX_BLOB && AllegrexUploaded(m, Blob(AllegrexArch(), fw, ip, patch))
    ensures 0 < |fw| <= AT.MAX_SIZE ==>
              var e := A.Steps(m, n);
              && e.ok && e.pc == A.ENTRY && e.ram[..|fw|] == Payload(fw, ip, patch)
              && (patch && FindMagic(fw, 0) >= 0 ==> HoldsAddress(e.ram, FindMagic(fw, 0), ip))
    ensures !(0 < |fw| <= AT.MAX_SIZE) ==> forall k: nat | k >= n :: AT.Spinning(A.Steps(m, k), m.ram, |fw|)
  {
    hide A.Steps, Blob, Patched, AT.HasCode, AT.Spinning, Payload, FindMagic, HoldsAddress;
    AllegrexBlobIsReady(m, fw, ip, patch);
    if 0 < |fw| <= AT.MAX_SIZE {
      n := AT.FirmwareIsInstalled(m, |fw|);
      PayloadHoldsAddress(fw, ip, patch);
      if patch && FindMagic(fw, 0) >= 0 {
        HoldsInPart(A.Steps(m, n).ram, 0, |fw|, FindMagic(fw, 0), ip);
      }
    } else {
      n := AT.BadSizesSpin(m, |fw|);
    }
  }
}
