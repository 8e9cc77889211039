/**
 One level of page mapping over physical memory, and copying a range of virtual memory to
 the physical addresses of the same number, as `xbox_relocate_identity` does.
 */
module XboxPaging {
  import opened Bytes

  const PAGE := 0x1000

  type Ram = seq<u8>
  type Table = seq<u32>

  function Frame(entry: u32): nat {
    entry / PAGE
  }

  /** The physical address of `va` under the table or TLB `t`. */
  function Phys(t: Table, va: nat): nat
    requires va / PAGE < |t|
  {
    Frame(t[va / PAGE]) * PAGE + va % PAGE
  }

  predicate Mapped(n: nat, t: Table, va: nat) {
    va < n && va / PAGE < |t| && Phys(t, va) < n
  }

  /** The first page boundary at or after an address, as a page number. */
  function PageEnd(va: nat): nat {
    (va + PAGE - 1) / PAGE
  }

  /** Addresses lo .. hi are mapped to existing memory, and existing memory has their numbers. */
  predicate Backed(n: nat, t: Table, lo: nat, hi: nat) {
    && lo % PAGE == 0 && PageEnd(hi) <= |t| && PageEnd(hi) * PAGE <= n
    && forall p | lo / PAGE <= p < PageEnd(hi) :: Frame(t[p]) * PAGE + PAGE <= n
  }

  /** Each page has a frame of its own. */
  predicate Private(t: Table, lo: nat, hi: nat) {
    PageEnd(hi) <= |t| && forall v, w | lo / PAGE <= v < PageEnd(hi) && lo / PAGE <= w < PageEnd(hi)
        && Frame(t[v]) == Frame(t[w]) :: v == w
  }

  /** A page's frame is the identity destination of no page but, possibly, itself. */
  predicate Separate(t: Table, lo: nat, hi: nat) {
    PageEnd(hi) <= |t| && forall v | lo / PAGE <= v < PageEnd(hi) ::
        lo / PAGE <= Frame(t[v]) < PageEnd(hi) ==> Frame(t[v]) == v
  }

  lemma PageOf(va: nat, lo: nat, hi: nat)
    requires lo <= va < hi
    ensures lo / PAGE <= va / PAGE < PageEnd(hi)
  {
  }

  lemma PhysIsBacked(n: nat, t: Table, lo: nat, hi: nat, va: nat)
    requires Backed(n, t, lo, hi) && lo <= va < hi
    ensures Mapped(n, t, va)
  {
    PageOf(va, lo, hi);
    assert Frame(t[va / PAGE]) * PAGE + PAGE <= n;
  }

  lemma SplitAddress(q: nat, r: nat)
    requires r < PAGE
    ensures (q * PAGE + r) / PAGE == q && (q * PAGE + r) % PAGE == r
  {
  }

  lemma PhysHits(n: nat, t: Table, lo: nat, hi: nat, v: nat, w: nat)
    requires Backed(n, t, lo, hi) && Separate(t, lo, hi) && lo <= v < hi && lo <= w < PageEnd(hi) * PAGE
    ensures v / PAGE < |t| && (Phys(t, v) == w ==> v == w)
  {
    PageOf(v, lo, hi);
    SplitAddress(Frame(t[v / PAGE]), v % PAGE);
  }

  lemma PhysIsInjective(n: nat, t: Table, lo: nat, hi: nat, v: nat, w: nat)
    requires Backed(n, t, lo, hi) && Private(t, lo, hi) && lo <= v < hi && lo <= w < hi
    ensures v / PAGE < |t| && w / PAGE < |t| && (Phys(t, v) == Phys(t, w) ==> v == w)
  {
    PageOf(v, lo, hi);
    PageOf(w, lo, hi);
    SplitAddress(Frame(t[v / PAGE]), v % PAGE);
    SplitAddress(Frame(t[w / PAGE]), w % PAGE);
  }

  // ---------------------------------------------------------------- copying to identity

  /** Memory after each byte of lo .. hi, in order, is copied to the physical byte of its number; an
      address that maps to nothing stops the copy. */
  function CopyVia(ram: Ram, t: Table, lo: nat, hi: nat): (r: Ram)
    ensures |r| == |ram|
    decreases hi - lo
  {
    if lo >= hi || !Mapped(|ram|, t, lo) then ram else CopyVia(ram[lo := ram[Phys(t, lo)]], t, lo + 1, hi)
  }

  /** Every byte reached its place, and every old frame still holds what it held. */
  ghost predicate Faithful(before: Ram, after: Ram, t: Table, lo: nat, hi: nat) {
    |after| == |before|
    && forall va | lo <= va < hi :: Mapped(|before|, t, va)
                                    && after[va] == before[Phys(t, va)] && after[Phys(t, va)] == before[Phys(t, va)]
  }

  /** The copy goes upwards: no byte may come from below its own place but above the start. */
  predicate ComesFromAhead(n: nat, t: Table, lo: nat, hi: nat) {
    forall va | lo <= va < hi :: Mapped(n, t, va) && !(lo <= Phys(t, va) < va)
  }

  lemma {:induction false} CopyGoesUpwards(ram: Ram, t: Table, lo: nat, hi: nat)
    requires ComesFromAhead(|ram|, t, lo, hi)
    ensures forall va | lo <= va < hi :: Mapped(|ram|, t, va)
    ensures forall a | 0 <= a < |ram| ::
        CopyVia(ram, t, lo, hi)[a] == if lo <= a < hi && Mapped(|ram|, t, a) then ram[Phys(t, a)] else ram[a]
    decreases hi - lo
  {
    hide Phys;
    if lo < hi {
      assert Mapped(|ram|, t, lo);
      var next := ram[lo := ram[Phys(t, lo)]];
      forall va | lo < va < hi
        ensures Mapped(|ram|, t, va) && !(lo <= Phys(t, va) < va) && next[Phys(t, va)] == ram[Phys(t, va)]
      {
        assert Mapped(|ram|, t, va);
      }
      CopyGoesUpwards(next, t, lo + 1, hi);
    }
  }

  lemma {:induction false} CopyKeepsBelow(ram: Ram, t: Table, lo: nat, hi: nat, a: nat)
    requires a < lo && a < |ram|
    ensures CopyVia(ram, t, lo, hi)[a] == ram[a]
    decreases hi - lo
  {
    if lo < hi && Mapped(|ram|, t, lo) {
      CopyKeepsBelow(ram[lo := ram[Phys(t, lo)]], t, lo + 1, hi, a);
    }
  }

  /** A byte that comes from below gets what was copied there. */
  lemma {:induction false} CopyRepeats(ram: Ram, t: Table, lo: nat, hi: nat, a: nat, b: nat)
    requires lo <= a < hi && b < a && a < |ram| && forall va | lo <= va < hi :: Mapped(|ram|, t, va)
    requires Mapped(|ram|, t, a) && Phys(t, a) == b
    ensures CopyVia(ram, t, lo, hi)[a] == CopyVia(ram, t, lo, hi)[b]
    decreases hi - lo
  {
    assert Mapped(|ram|, t, lo);
    var next := ram[lo := ram[Phys(t, lo)]];
    if lo < a {
      CopyRepeats(next, t, lo + 1, hi, a, b);
    } else {
      CopyKeepsBelow(next, t, lo + 1, hi, a);
      CopyKeepsBelow(next, t, lo + 1, hi, b);
    }
  }

  lemma CopyViaIsFaithful(ram: Ram, t: Table, base: nat, top: nat, lo: nat, hi: nat)
    requires Backed(|ram|, t, base, top) && Separate(t, base, top) && base <= lo <= hi <= top
    ensures forall va | lo <= va < hi :: Mapped(|ram|, t, va)
    ensures forall a | 0 <= a < |ram| :: CopyVia(ram, t, lo, hi)[a] == if lo <= a < hi then ram[Phys(t, a)] else ram[a]
  {
    hide Phys, Backed, Separate, PageEnd, CopyVia;
    forall va | lo <= va < hi
      ensures Mapped(|ram|, t, va) && !(lo <= Phys(t, va) < va)
    {
      PhysIsBacked(|ram|, t, base, top, va);
      if lo <= Phys(t, va) < va {
        WithinPageEnd(top, Phys(t, va));
        PhysHits(|ram|, t, base, top, va, Phys(t, va));
      }
    }
    CopyGoesUpwards(ram, t, lo, hi);
  }

  lemma WithinPageEnd(top: nat, a: nat)
    requires a < top
    ensures a < PageEnd(top) * PAGE
  {
  }

  lemma SeparateCopiesAreFaithful(ram: Ram, t: Table, base: nat, top: nat, lo: nat, hi: nat)
    requires Backed(|ram|, t, base, top) && Separate(t, base, top) && base <= lo <= hi <= top
    ensures forall va | lo <= va < hi :: Mapped(|ram|, t, va)
    ensures Faithful(ram, CopyVia(ram, t, lo, hi), t, lo, hi)
  {
    CopyViaIsFaithful(ram, t, base, top, lo, hi);
    hide Phys, Backed, Separate, CopyVia;
    forall va | lo <= va < hi
      ensures CopyVia(ram, t, lo, hi)[Phys(t, va)] == ram[Phys(t, va)]
    {
      var p := Phys(t, va);
      if lo <= p < hi {
        WithinPageEnd(top, p);
        PhysHits(|ram|, t, base, top, va, p);
      }
    }
  }

  ghost predicate AlwaysFaithful(n: nat, t: Table, lo: nat, hi: nat)
    requires Backed(n, t, lo, hi)
  {
    forall ram: Ram | |ram| == n :: Works(ram, t, lo, hi)
  }

  ghost predicate Works(ram: Ram, t: Table, lo: nat, hi: nat) {
    Faithful(ram, CopyVia(ram, t, lo, hi), t, lo, hi)
  }

  lemma WorksAt(ram: Ram, t: Table, lo: nat, hi: nat, va: nat)
    requires lo <= va < hi
    ensures Works(ram, t, lo, hi) ==>
              && Mapped(|ram|, t, va)
              && CopyVia(ram, t, lo, hi)[va] == ram[Phys(t, va)] == CopyVia(ram, t, lo, hi)[Phys(t, va)]
  {
  }

  lemma PageStart(lo: nat, hi: nat, p: nat)
    requires lo % PAGE == 0 && lo / PAGE <= p < PageEnd(hi)
    ensures lo <= p * PAGE < hi && p * PAGE / PAGE == p && p * PAGE % PAGE == 0
  {
    SplitAddress(p, 0);
  }

  lemma CrossedFramesBreak(n: nat, t: Table, lo: nat, hi: nat, v: nat, w: nat)
    requires Backed(n, t, lo, hi) && Private(t, lo, hi)
    requires lo / PAGE <= v < PageEnd(hi) && lo / PAGE <= w < PageEnd(hi) && Frame(t[v]) == w != v
    ensures !AlwaysFaithful(n, t, lo, hi)
  {
    hide PageEnd, Phys, CopyVia, Faithful, Mapped, Private;
    var a, b := v * PAGE, w * PAGE;
    PageStart(lo, hi, v);
    PageStart(lo, hi, w);
    FrameOfStart(t, v);
    PhysIsBacked(n, t, lo, hi, a);
    PhysIsBacked(n, t, lo, hi, b);
    PhysIsInjective(n, t, lo, hi, a, b);
    MappedFits(n, t, b);
    var ram: Ram := seq(n, i => if i == b then 1 else 0);
    WorksAt(ram, t, lo, hi, a);
    WorksAt(ram, t, lo, hi, b);
  }

  lemma FrameOfStart(t: Table, v: nat)
    requires v < |t|
    ensures v * PAGE / PAGE == v && Phys(t, v * PAGE) == Frame(t[v]) * PAGE
  {
    SplitAddress(v, 0);
  }

  lemma MappedFits(n: nat, t: Table, va: nat)
    requires Mapped(n, t, va)
    ensures va < n && va / PAGE < |t| && Phys(t, va) < n
  {
  }

  /** Copying under the code's own feet works for all memory contents exactly when no page's
      frame is another page's destination. */
  lemma FaithfulExactly(n: nat, t: Table, lo: nat, hi: nat)
    requires Backed(n, t, lo, hi) && Private(t, lo, hi) && lo <= hi
    ensures AlwaysFaithful(n, t, lo, hi) <==> Separate(t, lo, hi)
  {
    if Separate(t, lo, hi) {
      forall ram: Ram | |ram| == n
        ensures Works(ram, t, lo, hi)
      {
        SeparateCopiesAreFaithful(ram, t, lo, hi, lo, hi);
      }
    } else {
      var v :| lo / PAGE <= v < PageEnd(hi) && lo / PAGE <= Frame(t[v]) < PageEnd(hi) && Frame(t[v]) != v;
      CrossedFramesBreak(n, t, lo, hi, v, Frame(t[v]));
    }
  }

  // ---------------------------------------------------------------- rewriting the table

  function IdentityEntry(entry: u32, page: nat): u32
    requires page < 0x10_0000
  {
    page * PAGE + entry % PAGE
  }

  /** The table once the entries of pages first .. last point at the pages' own numbers. */
  function Rewritten(t: Table, first: nat, last: nat): (r: Table)
    requires |t| <= 0x10_0000
    ensures |r| == |t|
  {
    seq(|t|, i requires 0 <= i < |t| => if first <= i < last then IdentityEntry(t[i], i) else t[i])
  }

  lemma RewrittenKeepsFlags(t: Table, first: nat, last: nat, p: nat)
    requires |t| <= 0x10_0000 && p < |t|
    ensures Rewritten(t, first, last)[p] % PAGE == t[p] % PAGE
    ensures first <= p < last ==> Frame(Rewritten(t, first, last)[p]) == p
  {
    SplitAddress(p, t[p] % PAGE);
  }

  lemma RewrittenIsIdentity(t: Table, first: nat, last: nat, va: nat)
    requires |t| <= 0x10_0000 && first <= va / PAGE < last <= |t|
    ensures Phys(Rewritten(t, first, last), va) == va
  {
    RewrittenKeepsFlags(t, first, last, va / PAGE);
  }

  /** However far the rewrite has got, and whether an address is translated by the stale TLB or
      by the half-rewritten table, code and data read the same. */
  lemma ReadsAgreeMidway(before: Ram, ram: Ram, t: Table, lo: nat, hi: nat, midway: nat, va: nat)
    requires |t| <= 0x10_0000 && Faithful(before, ram, t, lo, hi) && lo % PAGE == 0
    requires lo / PAGE <= midway <= |t| && lo <= va < hi
    ensures Mapped(|before|, t, va)
    ensures var p := Phys(Rewritten(t, lo / PAGE, midway), va);
            p < |ram| && ram[p] == ram[Phys(t, va)] == before[Phys(t, va)]
  {
    assert Mapped(|before|, t, va) && ram[va] == before[Phys(t, va)];
    assert lo / PAGE <= va / PAGE < |t|;
    if va / PAGE < midway {
      RewrittenIsIdentity(t, lo / PAGE, midway, va);
    } else {
      assert Rewritten(t, lo / PAGE, midway)[va / PAGE] == t[va / PAGE];
    }
  }
}
