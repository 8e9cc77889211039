/**
 `xbox_relocate_identity`: the running Xbox loader moves itself to the physical pages of its
 own addresses - copy, rewrite the page table under a stale TLB, copy the live stack, flush.
 */
module XboxRelocation {
  import opened Bytes
  import opened XboxPaging

  /** The linker's bounds of the loader image; the stack lies inside it. */
  datatype Layout = Layout(start: nat, stackBottom: nat, stackTop: nat, end: nat)

  predicate LayoutOk(l: Layout) {
    && l.start % PAGE == 0 && l.stackBottom % 4 == 0 && l.stackTop % 4 == 0
    && l.start <= l.stackBottom <= l.stackTop <= l.end
  }

  /** The image's pages and the memory of the same numbers exist. */
  predicate Present(n: nat, t: Table, l: Layout) {
    LayoutOk(l) && |t| <= 0x10_0000 && Backed(n, t, l.start, l.end)
  }

  /** The pages that are moved: code, data and the stack. */
  predicate IsMoved(l: Layout, p: nat) {
    l.start / PAGE <= p < PageEnd(l.stackTop)
  }

  /** A moved page's frame is another moved page's destination only for a page of the stack and a later
      page of the stack. */
  ghost predicate Harmless(t: Table, l: Layout) {
    PageEnd(l.stackTop) <= |t|
    && forall v: nat | IsMoved(l, v) && IsMoved(l, Frame(t[v])) && Frame(t[v]) != v ::
        l.stackBottom <= v * PAGE && l.stackBottom <= Frame(t[v]) * PAGE && v < Frame(t[v])
  }

  /** What makes the move right for every content, as `MoveIsRightExactly` shows. */
  ghost predicate MappingOk(n: nat, t: Table, l: Layout) {
    Present(n, t, l) && Private(t, l.start, l.stackTop) && Harmless(t, l)
  }

  predicate AllIdentity(t: Table, l: Layout) {
    PageEnd(l.end) <= |t| && forall p | l.start / PAGE <= p < PageEnd(l.end) :: Frame(t[p]) == p && t[p] % 2 == 1
  }

  /** The byte the program sees at `va`. */
  function Visible(ram: Ram, t: Table, va: nat): u8 {
    if Mapped(|ram|, t, va) then ram[Phys(t, va)] else 0
  }

  // ---------------------------------------------------------------- the live stack

  /** Memory after the running code has left `stack` in its stack, through the stale TLB. */
  function StackWritten(ram: Ram, t: Table, at: nat, stack: seq<u8>): (r: Ram)
    ensures |r| == |ram|
    decreases |stack|
  {
    if stack == [] then ram
    else StackWritten(if Mapped(|ram|, t, at) then ram[Phys(t, at) := stack[0]] else ram, t, at + 1, stack[1..])
  }

  lemma {:induction false} StackWrittenReads(ram: Ram, t: Table, lo: nat, hi: nat, at: nat, stack: seq<u8>)
    requires Backed(|ram|, t, lo, hi) && Private(t, lo, hi) && lo <= at && at + |stack| <= hi
    ensures var r := StackWritten(ram, t, at, stack);
            && (forall va | at <= va < at + |stack| :: Mapped(|ram|, t, va) && r[Phys(t, va)] == stack[va - at])
            && (forall a | 0 <= a < |ram| ::
                (forall va | at <= va < at + |stack| :: Mapped(|ram|, t, va) && Phys(t, va) != a) ==> r[a] == ram[a])
    decreases |stack|
  {
    hide Phys, Backed, Private, PageEnd;
    if stack != [] {
      PhysIsBacked(|ram|, t, lo, hi, at);
      var next := ram[Phys(t, at) := stack[0]];
      StackWrittenReads(next, t, lo, hi, at + 1, stack[1..]);
      var r := StackWritten(ram, t, at, stack);
      forall va | at <= va < at + |stack|
        ensures Mapped(|ram|, t, va) && (va != at ==> Phys(t, va) != Phys(t, at))
      {
        PhysIsBacked(|ram|, t, lo, hi, va);
        PhysIsInjective(|ram|, t, lo, hi, va, at);
      }
      assert r[Phys(t, at)] == next[Phys(t, at)];
      forall va | at <= va < at + |stack|
        ensures Mapped(|ram|, t, va) && r[Phys(t, va)] == stack[va - at]
      {
        if va != at {
          assert stack[1..][va - (at + 1)] == stack[va - at];
        }
      }
    }
  }

  // ---------------------------------------------------------------- the whole move

  function ImageCopied(ram: Ram, t: Table, l: Layout): (r: Ram)
    ensures |r| == |ram|
  {
    CopyVia(ram, t, l.start, l.stackBottom)
  }

  function BeforeSwitch(ram: Ram, t: Table, l: Layout, stack: seq<u8>): (r: Ram)
    ensures |r| == |ram|
  {
    StackWritten(ImageCopied(ram, t, l), t, l.stackBottom, stack)
  }

  function Relocated(ram: Ram, t: Table, l: Layout, stack: seq<u8>): (r: Ram)
    ensures |r| == |ram|
  {
    CopyVia(BeforeSwitch(ram, t, l, stack), t, l.stackBottom, l.stackTop)
  }

  lemma PresentBytes(n: nat, t: Table, l: Layout, va: nat)
    requires Present(n, t, l) && l.start <= va < l.end
    ensures va < PageEnd(l.end) * PAGE <= n && Mapped(n, t, va) && l.start / PAGE <= va / PAGE < PageEnd(l.end) <= |t|
  {
    WithinPageEnd(l.end, va);
    PhysIsBacked(n, t, l.start, l.end, va);
    PageOf(va, l.start, l.end);
  }

  lemma MovedArePresent(n: nat, t: Table, l: Layout)
    requires Present(n, t, l)
    ensures LayoutOk(l) && Backed(n, t, l.start, l.stackTop)
  {
  }

  lemma SamePage(v: nat, w: nat)
    requires v / PAGE == w / PAGE && v % PAGE == w % PAGE
    ensures v == w
  {
  }

  /** Where a moved byte's frame meets the destination of another. */
  lemma HarmlessHits(n: nat, t: Table, l: Layout, v: nat, w: nat)
    requires MappingOk(n, t, l) && l.start <= v < l.stackTop && l.start <= w < l.stackTop
    ensures v / PAGE < |t| && (Phys(t, v) == w ==> v == w || l.stackBottom <= v < w)
  {
    PageOf(v, l.start, l.stackTop);
    PageOf(w, l.start, l.stackTop);
    SplitAddress(Frame(t[v / PAGE]), v % PAGE);
    if Phys(t, v) == w {
      assert Frame(t[v / PAGE]) == w / PAGE && w % PAGE == v % PAGE;
      if v / PAGE == w / PAGE {
        SamePage(v, w);
      } else {
        assert IsMoved(l, v / PAGE) && IsMoved(l, Frame(t[v / PAGE]));
        LaterPage(v, w);
      }
    }
  }

  lemma LaterPage(v: nat, w: nat)
    ensures v / PAGE < w / PAGE ==> v < w
    ensures v / PAGE * PAGE <= v
  {
  }

  lemma ImageCopiedReads(ram: Ram, t: Table, l: Layout, a: nat)
    requires MappingOk(|ram|, t, l) && a < |ram|
    ensures l.start <= a < l.stackBottom ==> Mapped(|ram|, t, a)
    ensures ImageCopied(ram, t, l)[a] == if l.start <= a < l.stackBottom then ram[Phys(t, a)] else ram[a]
  {
    hide Phys, Backed, Private, Harmless, PageEnd, CopyVia;
    forall va | l.start <= va < l.stackBottom
      ensures Mapped(|ram|, t, va) && !(l.start <= Phys(t, va) < va)
    {
      PresentBytes(|ram|, t, l, va);
      if l.start <= Phys(t, va) < va {
        HarmlessHits(|ram|, t, l, va, Phys(t, va));
      }
    }
    CopyGoesUpwards(ram, t, l.start, l.stackBottom);
  }

  /** Stack writes reach only the stack's frames. */
  lemma BeforeSwitchReads(ram: Ram, t: Table, l: Layout, stack: seq<u8>, a: nat)
    requires MappingOk(|ram|, t, l) && |stack| == l.stackTop - l.stackBottom && a < |ram|
    ensures forall s | l.stackBottom <= s < l.stackTop :: Mapped(|ram|, t, s)
    ensures (forall s | l.stackBottom <= s < l.stackTop :: Phys(t, s) != a)
            ==> BeforeSwitch(ram, t, l, stack)[a] == ImageCopied(ram, t, l)[a]
  {
    hide Phys, PageEnd, Private, Harmless, StackWritten, ImageCopied;
    MovedArePresent(|ram|, t, l);
    StackWrittenReads(ImageCopied(ram, t, l), t, l.start, l.stackTop, l.stackBottom, stack);
  }

  lemma StackIsVisible(ram: Ram, t: Table, l: Layout, stack: seq<u8>, va: nat)
    requires Present(|ram|, t, l) && Private(t, l.start, l.stackTop)
    requires |stack| == l.stackTop - l.stackBottom && l.stackBottom <= va < l.stackTop
    ensures Mapped(|ram|, t, va) && BeforeSwitch(ram, t, l, stack)[Phys(t, va)] == stack[va - l.stackBottom]
  {
    hide Phys, PageEnd, Private, StackWritten, ImageCopied;
    MovedArePresent(|ram|, t, l);
    StackWrittenReads(ImageCopied(ram, t, l), t, l.start, l.stackTop, l.stackBottom, stack);
  }

  lemma RelocatedReads(ram: Ram, t: Table, l: Layout, stack: seq<u8>, a: nat)
    requires MappingOk(|ram|, t, l) && |stack| == l.stackTop - l.stackBottom && a < |ram|
    ensures l.stackBottom <= a < l.stackTop ==> Mapped(|ram|, t, a)
    ensures Relocated(ram, t, l, stack)[a]
         == if l.stackBottom <= a < l.stackTop then BeforeSwitch(ram, t, l, stack)[Phys(t, a)]
             else BeforeSwitch(ram, t, l, stack)[a]
  {
    hide Phys, Backed, Private, Harmless, PageEnd, CopyVia, BeforeSwitch;
    forall va | l.stackBottom <= va < l.stackTop
      ensures Mapped(|ram|, t, va) && !(l.stackBottom <= Phys(t, va) < va)
    {
      PresentBytes(|ram|, t, l, va);
      if l.stackBottom <= Phys(t, va) < va {
        HarmlessHits(|ram|, t, l, va, Phys(t, va));
      }
    }
    CopyGoesUpwards(BeforeSwitch(ram, t, l, stack), t, l.stackBottom, l.stackTop);
  }

  /** After the move every address of the image is its own physical address. */
  lemma MovedMeansIdentity(n: nat, t: Table, l: Layout, va: nat)
    requires Present(n, t, l) && l.start <= va < l.end
    ensures var u := Rewritten(t, l.start / PAGE, PageEnd(l.end));
            Mapped(n, u, va) && Phys(u, va) == va && u[va / PAGE] % PAGE == t[va / PAGE] % PAGE
  {
    PresentBytes(n, t, l, va);
    RewrittenIsIdentity(t, l.start / PAGE, PageEnd(l.end), va);
    RewrittenKeepsFlags(t, l.start / PAGE, PageEnd(l.end), va / PAGE);
  }

  /** The move loses nothing the program can see: code and data read as before the call, the
      stack as it stood at the switch. Past the stack the program sees whatever lay at the
      identity address, which may have been a frame of the stack: those bytes are not copied. */
  lemma ImageSurvives(ram: Ram, t: Table, l: Layout, stack: seq<u8>, va: nat)
    requires MappingOk(|ram|, t, l) && |stack| == l.stackTop - l.stackBottom && l.start <= va < l.end
    ensures va < |ram| && forall s | l.stackBottom <= s < l.stackTop :: Mapped(|ram|, t, s)
    ensures var now := Visible(Relocated(ram, t, l, stack), Rewritten(t, l.start / PAGE, PageEnd(l.end)), va);
            if va < l.stackBottom then now == Visible(ram, t, va)
            else if va < l.stackTop then now == stack[va - l.stackBottom]
            else && ((forall s | l.stackBottom <= s < l.stackTop :: Phys(t, s) != va) ==> now == ram[va])
                 && forall s | l.stackBottom <= s < l.stackTop && Phys(t, s) == va :: now == stack[s - l.stackBottom]
  {
    hide Phys, PageEnd, Private, Harmless, BeforeSwitch, Relocated, ImageCopied, Rewritten;
    PresentBytes(|ram|, t, l, va);
    MovedMeansIdentity(|ram|, t, l, va);
    RelocatedReads(ram, t, l, stack, va);
    BeforeSwitchReads(ram, t, l, stack, va);
    ImageCopiedReads(ram, t, l, va);
    forall s | l.stackBottom <= s < l.stackTop
      ensures Mapped(|ram|, t, s) && BeforeSwitch(ram, t, l, stack)[Phys(t, s)] == stack[s - l.stackBottom]
      ensures va < l.stackBottom ==> Phys(t, s) != va
    {
      StackIsVisible(ram, t, l, stack, s);
      if va < l.stackBottom {
        HarmlessHits(|ram|, t, l, s, va);
      }
    }
  }

  /** From the end of the image copy to the flush, code and data stay intact both in the old
      frames and at their destinations. */
  lemma CodeStaysReadable(ram: Ram, t: Table, l: Layout, stack: seq<u8>)
    requires MappingOk(|ram|, t, l) && |stack| == l.stackTop - l.stackBottom
    ensures Faithful(ram, ImageCopied(ram, t, l), t, l.start, l.stackBottom)
    ensures Faithful(ram, BeforeSwitch(ram, t, l, stack), t, l.start, l.stackBottom)
    ensures Faithful(ram, Relocated(ram, t, l, stack), t, l.start, l.stackBottom)
  {
    hide Phys, PageEnd, BeforeSwitch, Relocated, ImageCopied;
    forall va | l.start <= va < l.stackBottom
      ensures Mapped(|ram|, t, va) && ReadsThroughout(ram, t, l, stack, va, va)
              && ReadsThroughout(ram, t, l, stack, va, Phys(t, va))
    {
      CodeByteStays(ram, t, l, stack, va);
    }
    SameSizes(ram, t, l, stack);
  }

  lemma SameSizes(ram: Ram, t: Table, l: Layout, stack: seq<u8>)
    ensures |ImageCopied(ram, t, l)| == |BeforeSwitch(ram, t, l, stack)| == |Relocated(ram, t, l, stack)| == |ram|
  {
  }

  ghost predicate ReadsThroughout(ram: Ram, t: Table, l: Layout, stack: seq<u8>, va: nat, a: nat) {
    && Mapped(|ram|, t, va) && a < |ram| == |ImageCopied(ram, t, l)| == |BeforeSwitch(ram, t, l, stack)|
    && ImageCopied(ram, t, l)[a] == ram[Phys(t, va)]
    && BeforeSwitch(ram, t, l, stack)[a] == ram[Phys(t, va)]
    && Relocated(ram, t, l, stack)[a] == ram[Phys(t, va)]
  }

  /** No stack byte shares a frame, or a place, with a byte of code. */
  lemma StackMissesCode(n: nat, t: Table, l: Layout, va: nat, s: nat)
    requires MappingOk(n, t, l) && l.start <= va < l.stackBottom && l.stackBottom <= s < l.stackTop
    ensures Mapped(n, t, va) && Mapped(n, t, s) && Phys(t, s) != Phys(t, va) && Phys(t, s) != va && Phys(t, va) != s
  {
    MovedArePresent(n, t, l);
    PhysIsBacked(n, t, l.start, l.stackTop, va);
    PhysIsBacked(n, t, l.start, l.stackTop, s);
    PhysIsInjective(n, t, l.start, l.stackTop, s, va);
    HarmlessHits(n, t, l, s, va);
    HarmlessHits(n, t, l, va, s);
  }

  lemma CodeByteStays(ram: Ram, t: Table, l: Layout, stack: seq<u8>, va: nat)
    requires MappingOk(|ram|, t, l) && |stack| == l.stackTop - l.stackBottom && l.start <= va < l.stackBottom
    ensures Mapped(|ram|, t, va)
    ensures ReadsThroughout(ram, t, l, stack, va, va) && ReadsThroughout(ram, t, l, stack, va, Phys(t, va))
  {
    hide Phys, PageEnd, Private, Harmless, BeforeSwitch, Relocated, ImageCopied;
    PresentBytes(|ram|, t, l, va);
    var p := Phys(t, va);
    ImageCopiedReads(ram, t, l, va);
    ImageCopiedReads(ram, t, l, p);
    forall s | l.stackBottom <= s < l.stackTop
      ensures Mapped(|ram|, t, s) && Phys(t, s) != p && Phys(t, s) != va && p != s
    {
      StackMissesCode(|ram|, t, l, va, s);
    }
    BeforeSwitchReads(ram, t, l, stack, va);
    BeforeSwitchReads(ram, t, l, stack, p);
    RelocatedReads(ram, t, l, stack, va);
    RelocatedReads(ram, t, l, stack, p);
    if l.start <= p < l.stackTop {
      HarmlessHits(|ram|, t, l, va, p);
    }
    SameSizes(ram, t, l, stack);
  }

  // ---------------------------------------------------------------- exactly when

  /** Code and data are intact throughout, and afterwards the stack is as it stood at the switch. */
  ghost predicate Right(ram: Ram, t: Table, l: Layout, stack: seq<u8>)
    requires |stack| == l.stackTop - l.stackBottom
  {
    && Faithful(ram, ImageCopied(ram, t, l), t, l.start, l.stackBottom)
    && Faithful(ram, BeforeSwitch(ram, t, l, stack), t, l.start, l.stackBottom)
    && Faithful(ram, Relocated(ram, t, l, stack), t, l.start, l.stackBottom)
    && StackSurvives(ram, t, l, stack)
  }

  ghost predicate StackSurvives(ram: Ram, t: Table, l: Layout, stack: seq<u8>)
    requires |stack| == l.stackTop - l.stackBottom
  {
    |t| <= 0x10_0000
    && forall va | l.stackBottom <= va < l.stackTop ::
        Visible(Relocated(ram, t, l, stack), Rewritten(t, l.start / PAGE, PageEnd(l.end)), va)
        == stack[va - l.stackBottom]
  }

  ghost predicate AlwaysRight(n: nat, t: Table, l: Layout) {
    forall ram: Ram, stack: seq<u8> | |ram| == n && |stack| == l.stackTop - l.stackBottom :: Right(ram, t, l, stack)
  }

  /** The first bytes of a page and of the page whose destination is its frame. */
  lemma CrossedStarts(n: nat, t: Table, l: Layout, v: nat)
    requires Present(n, t, l) && Private(t, l.start, l.stackTop)
    requires IsMoved(l, v) && v < |t| && IsMoved(l, Frame(t[v])) && Frame(t[v]) != v
    ensures var a, b := v * PAGE, Frame(t[v]) * PAGE;
            && l.start <= a < l.stackTop && l.start <= b < l.stackTop && Mapped(n, t, a) && Mapped(n, t, b)
            && Phys(t, a) == b != a && Phys(t, b) != b
  {
    var a, b := v * PAGE, Frame(t[v]) * PAGE;
    MovedArePresent(n, t, l);
    PageStart(l.start, l.stackTop, v);
    PageStart(l.start, l.stackTop, Frame(t[v]));
    PhysIsBacked(n, t, l.start, l.stackTop, a);
    PhysIsBacked(n, t, l.start, l.stackTop, b);
    PhysIsInjective(n, t, l.start, l.stackTop, a, b);
  }

  lemma FaithfulAt(before: Ram, after: Ram, t: Table, lo: nat, hi: nat, va: nat)
    requires Faithful(before, after, t, lo, hi) && lo <= va < hi
    ensures Mapped(|before|, t, va) && |after| == |before|
    ensures after[va] == before[Phys(t, va)] == after[Phys(t, va)]
  {
  }

  lemma StackSurvivesAt(ram: Ram, t: Table, l: Layout, stack: seq<u8>, va: nat)
    requires |stack| == l.stackTop - l.stackBottom && StackSurvives(ram, t, l, stack) && Present(|ram|, t, l)
    requires l.stackBottom <= va < l.stackTop
    ensures va < |ram| && Relocated(ram, t, l, stack)[va] == stack[va - l.stackBottom]
  {
    MovedMeansIdentity(|ram|, t, l, va);
    hide Relocated, Rewritten, PageEnd, Present, LayoutOk;
    assert Visible(Relocated(ram, t, l, stack), Rewritten(t, l.start / PAGE, PageEnd(l.end)), va)
        == stack[va - l.stackBottom];
  }

  /** A frame with a mark in it, or a stack with marks, shows any other crossing. */
  function Marked(n: nat, at: nat): (s: seq<u8>)
    ensures |s| == n
  {
    seq(n, i => if i == at then 1 else 0)
  }

  lemma CodeOnCodeBreaks(n: nat, t: Table, l: Layout, a: nat, b: nat)
    requires Present(n, t, l) && l.start <= a < l.stackBottom && l.start <= b < l.stackBottom
    requires Mapped(n, t, a) && Mapped(n, t, b) && Phys(t, a) == b && Phys(t, b) != b
    ensures !AlwaysRight(n, t, l)
  {
    hide ImageCopied, BeforeSwitch, Relocated, StackSurvives, Phys, Backed;
    var ram, stack := Marked(n, b), Zeros(l.stackTop - l.stackBottom);
    if Right(ram, t, l, stack) {
      FaithfulAt(ram, ImageCopied(ram, t, l), t, l.start, l.stackBottom, a);
      FaithfulAt(ram, ImageCopied(ram, t, l), t, l.start, l.stackBottom, b);
      assert false;
    }
  }

  lemma CodeOnStackBreaks(n: nat, t: Table, l: Layout, a: nat, b: nat)
    requires Present(n, t, l) && l.start <= a < l.stackBottom <= b < l.stackTop
    requires Mapped(n, t, a) && Phys(t, a) == b
    ensures !AlwaysRight(n, t, l)
  {
    hide ImageCopied, BeforeSwitch, Relocated, StackSurvives, Phys, Backed;
    var ram, stack := Zeros(n), Marked(l.stackTop - l.stackBottom, b - l.stackBottom);
    if Right(ram, t, l, stack) {
      FaithfulAt(ram, Relocated(ram, t, l, stack), t, l.start, l.stackBottom, a);
      StackSurvivesAt(ram, t, l, stack, b);
      assert false;
    }
  }

  lemma StackOnCodeBreaks(n: nat, t: Table, l: Layout, a: nat, b: nat)
    requires Present(n, t, l) && Private(t, l.start, l.stackTop) && l.start <= b < l.stackBottom <= a < l.stackTop
    requires Mapped(n, t, a) && Mapped(n, t, b) && Phys(t, a) == b
    ensures !AlwaysRight(n, t, l)
  {
    hide ImageCopied, BeforeSwitch, Relocated, StackSurvives, Phys, Backed, Private;
    var ram, stack := Zeros(n), Marked(l.stackTop - l.stackBottom, a - l.stackBottom);
    if Right(ram, t, l, stack) {
      FaithfulAt(ram, BeforeSwitch(ram, t, l, stack), t, l.start, l.stackBottom, b);
      StackIsVisible(ram, t, l, stack, a);
      assert false;
    }
  }

  lemma StackDownwardsBreaks(n: nat, t: Table, l: Layout, a: nat, b: nat)
    requires Present(n, t, l) && l.stackBottom <= b < a < l.stackTop && Mapped(n, t, a) && Phys(t, a) == b
    ensures !AlwaysRight(n, t, l)
  {
    hide ImageCopied, BeforeSwitch, StackSurvives, Phys, Backed, Faithful, CopyVia;
    var ram, stack := Zeros(n), Marked(l.stackTop - l.stackBottom, a - l.stackBottom);
    forall va | l.stackBottom <= va < l.stackTop
      ensures Mapped(n, t, va)
    {
      PresentBytes(n, t, l, va);
    }
    CopyRepeats(BeforeSwitch(ram, t, l, stack), t, l.stackBottom, l.stackTop, a, b);
    if Right(ram, t, l, stack) {
      StackSurvivesAt(ram, t, l, stack, a);
      StackSurvivesAt(ram, t, l, stack, b);
      assert false;
    }
  }

  /** The whole move - image, stack written meanwhile, stack - is right for every content exactly when no
      moved page's frame is another's destination, but for a stack page's frame that is the destination
      of a later stack page: the stack is copied upwards, and nothing reads its frames again. */
  lemma MoveIsRightExactly(n: nat, t: Table, l: Layout)
    requires Present(n, t, l) && Private(t, l.start, l.stackTop)
    ensures AlwaysRight(n, t, l) <==> Harmless(t, l)
  {
    hide Right, AlwaysRight, Phys, Private, Backed;
    if Harmless(t, l) {
      HarmlessIsRight(n, t, l);
    } else {
      MovedPages(n, t, l);
      var v: nat :| IsMoved(l, v) && IsMoved(l, Frame(t[v])) && Frame(t[v]) != v
                    && !(l.stackBottom <= v * PAGE && l.stackBottom <= Frame(t[v]) * PAGE && v < Frame(t[v]));
      var a, b := v * PAGE, Frame(t[v]) * PAGE;
      CrossedStarts(n, t, l, v);
      if a < l.stackBottom && b < l.stackBottom {
        CodeOnCodeBreaks(n, t, l, a, b);
      } else if a < l.stackBottom {
        CodeOnStackBreaks(n, t, l, a, b);
      } else if b < l.stackBottom {
        StackOnCodeBreaks(n, t, l, a, b);
      } else {
        StackDownwardsBreaks(n, t, l, a, b);
      }
    }
  }

  lemma MovedPages(n: nat, t: Table, l: Layout)
    requires Present(n, t, l)
    ensures PageEnd(l.stackTop) <= |t|
  {
  }

  lemma HarmlessIsRight(n: nat, t: Table, l: Layout)
    requires MappingOk(n, t, l)
    ensures AlwaysRight(n, t, l)
  {
    hide MappingOk, Faithful, ImageCopied, BeforeSwitch, Relocated, Visible, Rewritten, PageEnd;
    forall ram: Ram, stack: seq<u8> | |ram| == n && |stack| == l.stackTop - l.stackBottom
      ensures Right(ram, t, l, stack)
    {
      CodeStaysReadable(ram, t, l, stack);
      forall va | l.stackBottom <= va < l.stackTop
        ensures |t| <= 0x10_0000
                && Visible(Relocated(ram, t, l, stack), Rewritten(t, l.start / PAGE, PageEnd(l.end)), va)
                   == stack[va - l.stackBottom]
      {
        MappingMeans(n, t, l);
        ImageSurvives(ram, t, l, stack, va);
      }
      MappingMeans(n, t, l);
    }
  }

  lemma MappingMeans(n: nat, t: Table, l: Layout)
    requires MappingOk(n, t, l)
    ensures LayoutOk(l) && |t| <= 0x10_0000
  {
  }

  // ---------------------------------------------------------------- the running code

  class Machine {
    const ram: array<u8>
    const table: array<u32>   // page table entries, by page number
    const tlb: array<u32>     // the translations the processor still holds

    predicate Ready(l: Layout)
      reads ram, table, tlb
    {
      && table != tlb && tlb.Length == table.Length && tlb[..] == table[..]
      && Present(ram.Length, table[..], l)
    }

    constructor (bytes: seq<u8>, entries: seq<u32>)
      ensures fresh(ram) && fresh(table) && fresh(tlb) && table != tlb
      ensures ram[..] == bytes && table[..] == entries && tlb[..] == entries
    {
      ram := new u8[|bytes|](i requires 0 <= i < |bytes| => bytes[i]);
      table := new u32[|entries|](i requires 0 <= i < |entries| => entries[i]);
      tlb := new u32[|entries|](i requires 0 <= i < |entries| => entries[i]);
    }

    method AlreadyIdentity(l: Layout) returns (yes: bool)
      requires PageEnd(l.end) <= table.Length
      ensures yes == AllIdentity(table[..], l)
      ensures yes <==> forall p | l.start / PAGE <= p < PageEnd(l.end) :: table[p] / PAGE == p && table[p] % 2 == 1
    {
      var p := l.start / PAGE;
      while p < PageEnd(l.end)
        invariant l.start / PAGE <= p
        invariant forall q | l.start / PAGE <= q < p && q < PageEnd(l.end) :: Frame(table[q]) == q && table[q] % 2 == 1
      {
        if Frame(table[p]) != p || table[p] % 2 != 1 {
          return false;
        }
        p := p + 1;
      }
      return true;
    }

    /** `memcpy` to the cached alias of the identity pages. */
    method CopyBytes(lo: nat, hi: nat)
      requires lo <= hi && forall va | lo <= va < hi :: Mapped(ram.Length, tlb[..], va)
      modifies ram
      ensures ram[..] == CopyVia(old(ram[..]), tlb[..], lo, hi)
    {
      ghost var t := tlb[..];
      var va := lo;
      while va < hi
        invariant lo <= va <= hi
        invariant CopyVia(ram[..], t, va, hi) == CopyVia(old(ram[..]), t, lo, hi)
      {
        assert Mapped(ram.Length, t, va);
        ghost var was := ram[..];
        var byte := ram[tlb[va / PAGE] / PAGE * PAGE + va % PAGE];
        ram[va] := byte;
        assert ram[..] == was[va := was[Phys(t, va)]];
        va := va + 1;
      }
    }

    method MoveDword(va: nat)
      requires va % 4 == 0 && MappedDword(ram.Length, tlb[..], va)
      modifies ram
      ensures ram[..] == DwordMoved(old(ram[..]), Phys(tlb[..], va), va)
    {
      hide MappedDword;
      DwordFits(ram.Length, tlb[..], va);
      var from := tlb[va / PAGE] / PAGE * PAGE + va % PAGE;
      var b0, b1, b2, b3 := ram[from], ram[from + 1], ram[from + 2], ram[from + 3];
      ram[va], ram[va + 1], ram[va + 2], ram[va + 3] := b0, b1, b2, b3;
    }

    /** `rep movsl`: the stack, four bytes at a time. */
    method CopyDwords(lo: nat, count: nat)
      requires lo % 4 == 0 && forall va | lo <= va < lo + 4 * count :: Mapped(ram.Length, tlb[..], va)
      modifies ram
      ensures ram[..] == CopyVia(old(ram[..]), tlb[..], lo, lo + 4 * count)
    {
      hide CopyVia, DwordMoved, Mapped;
      ghost var t, hi := tlb[..], lo + 4 * count;
      var va, n := lo, 0;
      NothingToCopy(hi, t);
      while n < count
        invariant 0 <= n <= count && va == lo + 4 * n
        invariant CopyVia(ram[..], t, va, hi) == CopyVia(old(ram[..]), t, lo, hi)
      {
        assert MappedDword(ram.Length, t, va);
        FourBytes(ram[..], t, va, hi);
        MoveDword(va);
        va, n := va + 4, n + 1;
      }
    }

    method RewriteEntries(first: nat, last: nat)
      requires first <= last <= table.Length <= 0x10_0000
      modifies table
      ensures table[..] == Rewritten(old(table[..]), first, last)
    {
      var p := first;
      assert table[..] == Rewritten(old(table[..]), first, p);
      while p < last
        invariant first <= p <= last
        invariant table[..] == Rewritten(old(table[..]), first, p)
      {
        assert Rewritten(old(table[..]), first, p)[p] == table[..][p];
        table[p] := p * PAGE + table[p] % PAGE;
        p := p + 1;
        assert table[..] == Rewritten(old(table[..]), first, p);
      }
    }

    /** Everything the code did to its own stack since the image was copied. */
    method UseStack(at: nat, stack: seq<u8>)
      requires forall va | at <= va < at + |stack| :: Mapped(ram.Length, tlb[..], va)
      modifies ram
      ensures ram[..] == StackWritten(old(ram[..]), tlb[..], at, stack)
    {
      ghost var t := tlb[..];
      for i := 0 to |stack|
        invariant StackWritten(ram[..], t, at + i, stack[i..]) == StackWritten(old(ram[..]), t, at, stack)
      {
        assert Mapped(ram.Length, t, at + i);
        ghost var was := ram[..];
        ram[tlb[(at + i) / PAGE] / PAGE * PAGE + (at + i) % PAGE] := stack[i];
        assert ram[..] == was[Phys(t, at + i) := stack[i]];
        assert stack[i..][0] == stack[i] && stack[i..][1..] == stack[i + 1..];
      }
    }

    method ReloadCr3()
      requires table != tlb && tlb.Length == table.Length
      modifies tlb
      ensures tlb[..] == table[..]
    {
      for i := 0 to tlb.Length
        invariant tlb[..i] == table[..i]
      {
        tlb[i] := table[i];
      }
    }

    /** `stack` is the content of the stack when the final block is reached. */
    method RelocateIdentity(l: Layout, stack: seq<u8>) returns (moved: bool)
      requires Ready(l) && |stack| == l.stackTop - l.stackBottom
      modifies ram, table, tlb
      ensures moved == !AllIdentity(old(table[..]), l)
      ensures !moved ==> ram[..] == old(ram[..]) && table[..] == old(table[..])
      ensures moved ==> ram[..] == Relocated(old(ram[..]), old(table[..]), l, stack)
      ensures moved ==> table[..] == Rewritten(old(table[..]), l.start / PAGE, PageEnd(l.end))
      ensures tlb[..] == table[..]
      ensures forall va | l.start <= va < l.end :: IsIdentityAt(old(table[..]), tlb[..], va)
      ensures PageEnd(l.end) <= table.Length
      ensures moved <==> exists p :: l.start / PAGE <= p < PageEnd(l.end)
                                     && (old(table[p]) / PAGE != p || old(table[p]) % 2 != 1)
    {
      hide Present, LayoutOk, AllIdentity, CopyVia, StackWritten, Mapped, Rewritten, PageEnd, Phys, IsIdentityAt;
      MappedThroughout(ram.Length, table[..], l);
      EndsInIdentity(ram.Length, table[..], l);
      DwordCount(l);
      var identity := AlreadyIdentity(l);
      if identity {
        return false;
      }
      CopyBytes(l.start, l.stackBottom);
      RewriteEntries(l.start / PAGE, PageEnd(l.end));
      UseStack(l.stackBottom, stack);
      CopyDwords(l.stackBottom, (l.stackTop - l.stackBottom) / 4);
      ReloadCr3();
      return true;
    }
  }

  /** Through `now` the processor finds an address at its own physical address, under the flags its
      page had in `before`. */
  predicate IsIdentityAt(before: Table, now: Table, va: nat) {
    va / PAGE < |before| == |now| && Phys(now, va) == va && now[va / PAGE] % PAGE == before[va / PAGE] % PAGE
  }

  /** However the test turns out, what is left is an identity mapping. */
  lemma EndsInIdentity(n: nat, t: Table, l: Layout)
    requires Present(n, t, l)
    ensures forall va | l.start <= va < l.end :: IsIdentityAt(t, Rewritten(t, l.start / PAGE, PageEnd(l.end)), va)
    ensures AllIdentity(t, l) ==> forall va | l.start <= va < l.end :: IsIdentityAt(t, t, va)
  {
    hide Phys, Rewritten, PageEnd, AllIdentity;
    forall va | l.start <= va < l.end
      ensures IsIdentityAt(t, Rewritten(t, l.start / PAGE, PageEnd(l.end)), va)
      ensures AllIdentity(t, l) ==> IsIdentityAt(t, t, va)
    {
      PresentBytes(n, t, l, va);
      MovedMeansIdentity(n, t, l, va);
      if AllIdentity(t, l) {
        OwnFrame(t, l, va);
      }
    }
  }

  lemma OwnFrame(t: Table, l: Layout, va: nat)
    requires AllIdentity(t, l) && l.start / PAGE <= va / PAGE < PageEnd(l.end)
    ensures Phys(t, va) == va
  {
    assert Frame(t[va / PAGE]) == va / PAGE;
  }

  lemma NothingToCopy(hi: nat, t: Table)
    ensures forall ram: Ram :: CopyVia(ram, t, hi, hi) == ram
  {
  }

  lemma DwordCount(l: Layout)
    requires LayoutOk(l)
    ensures l.stackBottom % 4 == 0 && l.stackBottom + 4 * ((l.stackTop - l.stackBottom) / 4) == l.stackTop
  {
  }

  lemma MappedThroughout(n: nat, t: Table, l: Layout)
    requires Present(n, t, l)
    ensures LayoutOk(l) && l.start <= l.stackBottom <= l.stackTop <= l.end
    ensures l.start / PAGE <= PageEnd(l.end) <= |t| <= 0x10_0000
    ensures forall va | l.start <= va < l.end :: Mapped(n, t, va)
  {
    forall va | l.start <= va < l.end
      ensures Mapped(n, t, va)
    {
      PhysIsBacked(n, t, l.start, l.end, va);
    }
  }

  predicate MappedDword(n: nat, t: Table, va: nat) {
    Mapped(n, t, va) && Mapped(n, t, va + 1) && Mapped(n, t, va + 2) && Mapped(n, t, va + 3)
  }

  /** An aligned dword does not straddle pages. */
  lemma DwordOffset(va: nat, k: nat)
    requires va % 4 == 0 && k < 4
    ensures (va + k) / PAGE == va / PAGE && (va + k) % PAGE == va % PAGE + k
  {
    var q, r := va / PAGE, va % PAGE;
    assert va == q * PAGE + r && r == va - 4 * (1024 * q);
    assert r % 4 == 0;
    SplitAddress(q, r + k);
  }

  lemma DwordInOnePage(n: nat, t: Table, va: nat, k: nat)
    requires va % 4 == 0 && MappedDword(n, t, va) && k < 4
    ensures (va + k) / PAGE == va / PAGE && Phys(t, va + k) == Phys(t, va) + k
  {
    hide Frame;
    DwordOffset(va, k);
  }

  /** One dword read and then written. */
  function DwordMoved(ram: Ram, from: nat, to: nat): Ram {
    if from + 4 > |ram| || to + 4 > |ram| then ram
    else ram[to := ram[from]][to + 1 := ram[from + 1]][to + 2 := ram[from + 2]][to + 3 := ram[from + 3]]
  }

  lemma DwordFits(n: nat, t: Table, va: nat)
    requires va % 4 == 0 && MappedDword(n, t, va)
    ensures va / PAGE < |t| && Phys(t, va) + 4 <= n && va + 4 <= n
    ensures Phys(t, va) == va || Phys(t, va) + 4 <= va || va + 4 <= Phys(t, va)
  {
    DwordInOnePage(n, t, va, 3);
  }

  lemma OneByte(ram: Ram, t: Table, va: nat, hi: nat, from: nat)
    requires va < hi && Mapped(|ram|, t, va) && Phys(t, va) == from
    ensures CopyVia(ram, t, va, hi) == CopyVia(ram[va := ram[from]], t, va + 1, hi)
  {
  }

  /** Reading a dword before writing it is the same as going byte by byte. */
  lemma FourBytes(ram: Ram, t: Table, va: nat, hi: nat)
    requires va % 4 == 0 && va + 4 <= hi && MappedDword(|ram|, t, va)
    ensures CopyVia(ram, t, va, hi) == CopyVia(DwordMoved(ram, Phys(t, va), va), t, va + 4, hi)
  {
    hide CopyVia, Phys;
    DwordFits(|ram|, t, va);
    var p := Phys(t, va);
    DwordInOnePage(|ram|, t, va, 1);
    DwordInOnePage(|ram|, t, va, 2);
    DwordInOnePage(|ram|, t, va, 3);
    var r1 := ram[va := ram[p]];
    var r2 := r1[va + 1 := ram[p + 1]];
    var r3 := r2[va + 2 := ram[p + 2]];
    OneByte(ram, t, va, hi, p);
    OneByte(r1, t, va + 1, hi, p + 1);
    OneByte(r2, t, va + 2, hi, p + 2);
    OneByte(r3, t, va + 3, hi, p + 3);
  }
}
