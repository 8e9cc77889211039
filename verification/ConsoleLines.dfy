/** The host's console output, `host/src/console.c`: line buffering and stack-trace annotation. */
module ConsoleLines {
  import opened Bytes

  type Text = seq<u8>
  /** What the symbol decoder prints for an address: the environment of this module. */
  type Decoder = u32 -> Text

  const NEWLINE: u8 := 10
  const RETURN: u8 := 13
  const DASH: u8 := 45
  const BANNER: Text := [45, 45, 45, 45, 45, 45, 45, 45, 32]
  const INDENT: Text := [32, 32, 32]
  const LINE_BUF := 256
  const OUT_BUF := 512
  const DECODED := 256

  /** The bytes of an ASCII text. */
  function Ascii(s: string): (t: Text)
    requires forall k | 0 <= k < |s| :: s[k] < 128 as char
    ensures |t| == |s| && forall k | 0 <= k < |s| :: t[k] == s[k] as int
  {
    seq(|s|, k requires 0 <= k < |s| => s[k] as int)
  }

  lemma Texts()
    ensures BANNER == Ascii("-------- ") && INDENT == Ascii("   ") && [NEWLINE] == Ascii("\n")
    ensures [RETURN] == Ascii("\r") && [DASH] == Ascii("-")
  {
  }

  function Clip(t: Text, n: nat): Text {
    if |t| <= n then t else t[..n]
  }

  // ---------------------------------------------------------------- lines

  /** Where the first newline is, or the length when there is none. */
  function FirstNewline(t: Text): (n: nat)
    ensures n <= |t|
    ensures forall k :: 0 <= k < n ==> t[k] != NEWLINE
    ensures n < |t| ==> t[n] == NEWLINE
  {
    if t == [] || t[0] == NEWLINE then 0 else 1 + FirstNewline(t[1..])
  }

  predicate IsLine(t: Text) {
    t != [] && FirstNewline(t) == |t| - 1
  }

  lemma FirstNewlineIs(t: Text, n: nat)
    requires n <= |t|
    requires forall k :: 0 <= k < n ==> t[k] != NEWLINE
    requires n < |t| ==> t[n] == NEWLINE
    ensures FirstNewline(t) == n
  {
    var m := FirstNewline(t);
    if m < n {
      assert false;
    }
  }

  function Trimmed(t: Text): Text {
    if t != [] && (t[|t| - 1] == NEWLINE || t[|t| - 1] == RETURN) then Trimmed(t[..|t| - 1]) else t
  }

  /** What is trimmed off is all CR and LF, and no more could be. */
  lemma {:induction false} TrimmedIs(t: Text)
    ensures |Trimmed(t)| <= |t| && Trimmed(t) == t[..|Trimmed(t)|]
    ensures forall k :: |Trimmed(t)| <= k < |t| ==> t[k] == NEWLINE || t[k] == RETURN
    ensures Trimmed(t) != [] ==> Trimmed(t)[|Trimmed(t)| - 1] != NEWLINE && Trimmed(t)[|Trimmed(t)| - 1] != RETURN
  {
    if t != [] && (t[|t| - 1] == NEWLINE || t[|t| - 1] == RETURN) {
      TrimmedIs(t[..|t| - 1]);
      assert t[..|t| - 1][..|Trimmed(t)|] == t[..|Trimmed(t)|];
    }
  }

  // ---------------------------------------------------------------- addresses

  function HexDigit(c: u8): Option<nat> {
    if 48 <= c <= 57 then Some(c - 48) else if 97 <= c <= 102 then Some(c - 87)
    else if 65 <= c <= 70 then Some(c - 55) else None
  }

  lemma HexDigitMeans(c: u8, v: nat)
    requires v < 16
    ensures HexDigit(c) == Some(v) <==> c == Ascii("0123456789abcdef")[v] || c == Ascii("0123456789ABCDEF")[v]
    ensures HexDigit(c).Some? ==> HexDigit(c).value < 16
  {
  }

  /** The number a run of hexadecimal digits writes, most significant first. */
  function HexValue(digits: Text): (r: Option<nat>) {
    if digits == [] then Some(0)
    else
      var high := HexValue(digits[..|digits| - 1]);
      var low := HexDigit(digits[|digits| - 1]);
      if high.Some? && low.Some? then Some(0x10 * high.value + low.value) else None
  }

  /** 16 to the power `n`. */
  function Power16(n: nat): (r: nat)
    ensures r > 0
  {
    if n == 0 then 1 else 0x10 * Power16(n - 1)
  }

  lemma {:induction false} HexValueFits(digits: Text)
    ensures HexValue(digits).Some? ==> HexValue(digits).value < Power16(|digits|)
    ensures HexValue(digits).None? <==> exists k :: 0 <= k < |digits| && HexDigit(digits[k]).None?
  {
    if digits != [] {
      var n := |digits| - 1;
      HexValueFits(digits[..n]);
      assert forall k :: 0 <= k < n ==> digits[..n][k] == digits[k];
    }
  }

  /** An address line: three spaces, eight digits, and at least one byte more. */
  function ParsedAddress(line: Text): (r: Option<u32>) {
    if |line| < 12 || line[..3] != INDENT then None
    else
      HexValueFits(line[3..11]);
      assert Power16(8) == 0x1_0000_0000;
      var v := HexValue(line[3..11]);
      if v.Some? then Some(v.value) else None
  }

  /** `n` hexadecimal digits of a number, lower case. */
  function HexText(v: nat, n: nat): (t: Text)
    ensures |t| == n
  {
    if n == 0 then [] else
      var d := v % 0x10;
      HexText(v / 0x10, n - 1) + [if d < 10 then 48 + d else 87 + d]
  }

  lemma {:induction false} HexValueOfText(v: nat, n: nat)
    requires v < Power16(n)
    ensures HexValue(HexText(v, n)) == Some(v)
  {
    if n > 0 {
      HexValueOfText(v / 0x10, n - 1);
      assert HexText(v, n)[..n - 1] == HexText(v / 0x10, n - 1);
    }
  }

  /** A frame printed with `%08x` behind three spaces is read back, whatever follows it. */
  lemma PrintedFrameParses(addr: u32, rest: Text)
    requires rest != []
    ensures ParsedAddress(INDENT + HexText(addr, 8) + rest) == Some(addr)
  {
    var line := INDENT + HexText(addr, 8) + rest;
    assert Power16(8) == 0x1_0000_0000;
    HexValueOfText(addr, 8);
    assert line[..3] == INDENT && line[3..11] == HexText(addr, 8);
  }

  lemma OneMoreDigit(line: Text, i: nat)
    requires 3 <= i < |line| && HexValue(line[3..i]).Some? && HexDigit(line[i]).Some?
    ensures HexValue(line[3..i + 1]) == Some(0x10 * HexValue(line[3..i]).value + HexDigit(line[i]).value)
  {
    assert line[3..i + 1][..i - 3] == line[3..i];
  }

  lemma BadDigit(line: Text, i: nat)
    requires 12 <= |line| && 3 <= i < 11 && HexDigit(line[i]).None?
    ensures ParsedAddress(line).None?
  {
    hide HexDigit, HexValue, Power16;
    HexValueFits(line[3..11]);
    assert line[3..11][i - 3] == line[i];
  }

  lemma Unindented(line: Text)
    requires |line| < 12 || line[0] != 32 || line[1] != 32 || line[2] != 32
    ensures ParsedAddress(line).None?
  {
    hide HexValue, Power16;
    if |line| >= 12 {
      assert line[..3][0] == line[0] && line[..3][1] == line[1] && line[..3][2] == line[2];
    }
  }

  lemma EightDigits(line: Text)
    requires 12 <= |line| && line[0] == line[1] == line[2] == 32 && HexValue(line[3..11]).Some?
    ensures ParsedAddress(line).Some? && HexValue(line[3..11]).value == ParsedAddress(line).value
  {
    hide HexValue, HexDigit;
    assert line[..3] == INDENT;
  }

  method ParseTraceAddr(line: Text) returns (r: Option<u32>)
    ensures r == ParsedAddress(line)
  {
    hide HexDigit, HexValue, ParsedAddress;
    if |line| < 12 || line[0] != 32 || line[1] != 32 || line[2] != 32 {
      Unindented(line);
      return None;
    }
    var val: nat := 0;
    var i := 3;
    NoDigits(line[3..3]);
    while i < 11
      invariant 3 <= i <= 11
      invariant HexValue(line[3..i]) == Some(val)
    {
      var d := HexDigit(line[i]);
      if d.None? {
        BadDigit(line, i);
        return None;
      }
      OneMoreDigit(line, i);
      val := 0x10 * val + d.value;
      i := i + 1;
    }
    EightDigits(line);
    return Some(val);
  }

  lemma NoDigits(digits: Text)
    requires digits == []
    ensures HexValue(digits) == Some(0)
  {
  }

  // ---------------------------------------------------------------- annotations

  /** The C string the decoder leaves in its 256-byte buffer. */
  function Note(decode: Decoder, addr: u32): (t: Text)
    ensures |t| < DECODED
  {
    Clip(decode(addr), DECODED - 1)
  }

  predicate Useful(note: Text) {
    note != [] && note[0] != 63
  }

  /** The note a line gets inside a trace, if any. */
  function NoteFor(decode: Decoder, line: Text): (r: Option<Text>)
    ensures r.Some? ==> |r.value| < DECODED
  {
    match ParsedAddress(line)
    case None => None
    case Some(a) => if Useful(Note(decode, a)) then Some(Note(decode, a)) else None
  }

  function Annotation(line: Text, note: Text): Text {
    Clip(Trimmed(line) + INDENT + note + [NEWLINE], OUT_BUF - 1)
  }

  /** The 512-byte buffer loses nothing exactly when line and note together leave room for five bytes. */
  lemma AnnotationIsWhole(line: Text, note: Text)
    ensures Annotation(line, note) == Trimmed(line) + INDENT + note + [NEWLINE] <==> |Trimmed(line)| + |note| <= 507
  {
    var whole := Trimmed(line) + INDENT + note + [NEWLINE];
    assert |whole| == |Trimmed(line)| + |note| + 4;
    if |whole| > 511 {
      assert |Annotation(line, note)| == 511;
    }
  }

  /** A bounded append: at most `dst.Length` - 1 bytes, then a terminator. */
  method AppendBytes(dst: array<u8>, pos: nat, src: Text) returns (len: nat)
    requires 0 < dst.Length && pos < dst.Length
    modifies dst
    ensures pos <= len < dst.Length && dst[len] == 0
    ensures dst[..len] == Clip(old(dst[..pos]) + src, dst.Length - 1)
  {
    ghost var before := dst[..pos];
    len := pos;
    while len + 1 < dst.Length && len - pos < |src|
      invariant pos <= len < dst.Length && len - pos <= |src|
      invariant dst[..len] == before + src[..len - pos]
    {
      dst[len] := src[len - pos];
      len := len + 1;
      assert src[..len - pos] == src[..len - 1 - pos] + [src[len - 1 - pos]];
    }
    dst[len] := 0;
    assert len - pos == |src| ==> src[..len - pos] == src;
    assert dst[..len] == Clip(before + src, dst.Length - 1);
  }

  lemma ClipTwice(a: Text, b: Text, n: nat)
    ensures Clip(Clip(a, n) + b, n) == Clip(a + b, n)
  {
    if |a| > n {
      assert (Clip(a, n) + b)[..n] == a[..n] == (a + b)[..n];
    }
  }

  method BuildAnnotation(line: Text, note: Text) returns (out: Text)
    ensures out == Annotation(line, note)
  {
    var outbuf := new u8[OUT_BUF];
    var trim := |line|;
    assert line[..trim] == line;
    while trim > 0 && (line[trim - 1] == NEWLINE || line[trim - 1] == RETURN)
      invariant 0 <= trim <= |line|
      invariant Trimmed(line[..trim]) == Trimmed(line)
    {
      assert line[..trim][..trim - 1] == line[..trim - 1];
      trim := trim - 1;
    }
    var len := AppendBytes(outbuf, 0, line[..trim]);
    assert [] + line[..trim] == line[..trim];
    len := AppendBytes(outbuf, len, INDENT);
    ClipTwice(Trimmed(line), INDENT, OUT_BUF - 1);
    len := AppendBytes(outbuf, len, note);
    ClipTwice(Trimmed(line) + INDENT, note, OUT_BUF - 1);
    len := AppendBytes(outbuf, len, [NEWLINE]);
    ClipTwice(Trimmed(line) + INDENT + note, [NEWLINE], OUT_BUF - 1);
    out := outbuf[..len];
  }

  // ---------------------------------------------------------------- the state

  /** A piece of output and the input it stands for. */
  datatype Segment = Raw(bytes: Text) | Plain(bytes: Text) | Noted(bytes: Text, note: Text)

  datatype Probe = Unchecked | Missing | Present

  /** `out` accounts for everything emitted; `held` is the partial line. */
  datatype State = State(probe: Probe, inTrace: bool, held: Text, out: seq<Segment>)

  const START := State(Unchecked, false, [], [])

  function Shown(g: Segment): Text {
    match g
    case Noted(line, note) => Annotation(line, note)
    case _ => g.bytes
  }

  /** The bytes on the terminal. */
  function AllShown(out: seq<Segment>): Text {
    if out == [] then [] else AllShown(out[..|out| - 1]) + Shown(out[|out| - 1])
  }

  /** The input bytes they stand for. */
  function Sources(out: seq<Segment>): Text {
    if out == [] then [] else Sources(out[..|out| - 1]) + out[|out| - 1].bytes
  }

  lemma Appended(out: seq<Segment>, g: Segment)
    ensures Sources(out + [g]) == Sources(out) + g.bytes
    ensures AllShown(out + [g]) == AllShown(out) + Shown(g)
  {
    assert (out + [g])[..|out|] == out;
  }

  // ---------------------------------------------------------------- one line

  predicate IsBanner(line: Text) {
    |line| > |BANNER| && line[..|BANNER|] == BANNER
  }

  function TraceAfter(on: bool, line: Text): bool {
    if !IsBanner(line) then on
    else if |line| > 20 && line[9] == 83 then true
    else if line[9] == 69 then false
    else on
  }

  function SegmentFor(inTrace: bool, line: Text, decode: Decoder): (g: Segment)
    ensures g.bytes == line
  {
    if inTrace && !IsBanner(line) && NoteFor(decode, line).Some? then Noted(line, NoteFor(decode, line).value)
    else Plain(line)
  }

  function AfterLine(s: State, line: Text, decode: Decoder): (r: State)
    ensures r.held == s.held && r.probe == s.probe
  {
    s.(inTrace := TraceAfter(s.inTrace, line), out := s.out + [SegmentFor(s.inTrace, line, decode)])
  }

  lemma HeldAside(s: State, held: Text, line: Text, decode: Decoder)
    ensures AfterLine(s.(held := held), line, decode) == AfterLine(s, line, decode).(held := held)
  {
  }

  /** What a line puts on the terminal, in the source's terms: the decoder's answer, cut to 255 bytes, goes
      behind a frame's address inside a trace, unless it is empty or begins with a question mark; the whole
      is cut to 511 bytes. */
  function Printed(inTrace: bool, line: Text, decode: Decoder): Text {
    var a := ParsedAddress(line);
    if inTrace && a.Some? && decode(a.value) != [] && decode(a.value)[0] != Ascii("?")[0] then
      var name := if |decode(a.value)| <= 255 then decode(a.value) else decode(a.value)[..255];
      var whole := Trimmed(line) + Ascii("   ") + name + Ascii("\n");
      if |whole| <= 511 then whole else whole[..511]
    else line
  }

  /** A line's effect without the account: what is printed, and which banners open and close a trace. */
  lemma LineMeans(s: State, line: Text, decode: Decoder)
    ensures var t := AfterLine(s, line, decode);
            var opens := |line| > 20 && line[..10] == Ascii("-------- S");
            var closes := |line| >= 10 && line[..10] == Ascii("-------- E");
            && |t.out| == |s.out| + 1 && t.out[..|s.out|] == s.out
            && Shown(t.out[|s.out|]) == Printed(s.inTrace, line, decode)
            && t.inTrace == if opens then true else if closes then false else s.inTrace
  {
    hide ParsedAddress, Trimmed;
    Texts();
    if IsBanner(line) {
      BannerIsNoFrame(line);
      assert line[..10] == BANNER + [line[9]];
    } else if |line| >= 10 {
      assert line[..10][..9] == line[..9];
    }
  }

  function Emit(s: State, bytes: Text): State {
    s.(out := s.out + [Raw(bytes)])
  }

  // ---------------------------------------------------------------- one call

  /** A completed line, with what was held before it. */
  function Complete(s: State, part: Text, decode: Decoder): State {
    if s.held == [] then AfterLine(s, part, decode)
    else if |s.held| + |part| < LINE_BUF then AfterLine(s.(held := []), s.held + part, decode)
    else Emit(Emit(s.(held := []), s.held), part)
  }

  /** A remainder without newline. */
  function Keep(s: State, rem: Text): State {
    if |s.held| + |rem| < LINE_BUF then s.(held := s.held + rem)
    else if s.held != [] then Emit(Emit(s.(held := []), s.held), rem)
    else Emit(s, rem)
  }

  function Lines(s: State, data: Text, decode: Decoder): State
    decreases |data|
  {
    if data == [] then s else
      var n := FirstNewline(data);
      if n == |data| then Keep(s, data) else Lines(Complete(s, data[..n + 1], decode), data[n + 1..], decode)
  }

  /** One round of the loop over a call's data. */
  lemma LinesStep(s: State, data: Text, p: nat, decode: Decoder)
    requires p < |data|
    ensures var nl := FirstNewline(data[p..]);
            Lines(s, data[p..], decode) ==
              if nl == |data| - p then Keep(s, data[p..])
              else Lines(Complete(s, data[p..p + nl + 1], decode), data[p + nl + 1..], decode)
  {
    hide Keep, Complete;
    var nl := FirstNewline(data[p..]);
    if nl < |data| - p {
      assert data[p..][..nl + 1] == data[p..p + nl + 1] && data[p..][nl + 1..] == data[p + nl + 1..];
    }
  }

  lemma LinesEnd(s: State, data: Text, decode: Decoder)
    ensures Lines(s, data[|data|..], decode) == s
  {
  }

  function Probed(s: State, found: bool): State {
    if s.probe.Unchecked? then s.(probe := if found then Present else Missing) else s
  }

  predicate FastPath(s: State, data: Text) {
    s.probe.Missing? || (!s.inTrace && s.held == [] && (data == [] || data[0] != DASH))
  }

  function Write(s: State, found: bool, data: Text, decode: Decoder): State {
    var t := Probed(s, found);
    if FastPath(t, data) then Emit(t, data) else Lines(t, data, decode)
  }

  datatype Call = Call(found: bool, data: Text)

  function Run(s: State, calls: seq<Call>, decode: Decoder): State {
    if calls == [] then s
    else
      var t := Run(s, calls[..|calls| - 1], decode);
      Write(t, calls[|calls| - 1].found, calls[|calls| - 1].data, decode)
  }

  function Stream(calls: seq<Call>): Text {
    if calls == [] then [] else Stream(calls[..|calls| - 1]) + calls[|calls| - 1].data
  }

  // ---------------------------------------------------------------- the account is honest

  /** Inside a trace or not, as the lines handled so far decide. */
  function Tracing(out: seq<Segment>): bool {
    if out == [] then false
    else
      var g := out[|out| - 1];
      if g.Plain? then TraceAfter(Tracing(out[..|out| - 1]), g.bytes) else Tracing(out[..|out| - 1])
  }

  /** A whole line is annotated exactly when a trace is open and its address decodes. */
  predicate SegmentOk(before: seq<Segment>, g: Segment, decode: Decoder) {
    match g
    case Raw(_) => true
    case Plain(line) => IsLine(line) && !(Tracing(before) && NoteFor(decode, line).Some?)
    case Noted(line, note) => IsLine(line) && Tracing(before) && NoteFor(decode, line) == Some(note)
  }

  predicate AccountOk(out: seq<Segment>, decode: Decoder) {
    out == [] || (AccountOk(out[..|out| - 1], decode) && SegmentOk(out[..|out| - 1], out[|out| - 1], decode))
  }

  predicate Honest(s: State, decode: Decoder) {
    && s.inTrace == Tracing(s.out)
    && |s.held| < LINE_BUF
    && FirstNewline(s.held) == |s.held|
    && AccountOk(s.out, decode)
    && (!s.probe.Present? ==> s.held == [] && !s.inTrace)
  }

  /** Everything taken in so far. */
  function Taken(s: State): Text {
    Sources(s.out) + s.held
  }

  lemma BannerHasDash(line: Text)
    requires IsBanner(line)
    ensures line[0] == DASH
  {
    assert line[..|BANNER|][0] == line[0];
  }

  lemma BannerIsNoFrame(line: Text)
    requires IsBanner(line)
    ensures ParsedAddress(line).None?
  {
    BannerHasDash(line);
    if |line| >= 12 {
      assert line[..3][0] == DASH && INDENT[0] == 32;
    }
  }

  lemma AccountGrows(out: seq<Segment>, g: Segment, decode: Decoder)
    requires AccountOk(out, decode) && SegmentOk(out, g, decode)
    ensures AccountOk(out + [g], decode)
    ensures Tracing(out + [g]) == if g.Plain? then TraceAfter(Tracing(out), g.bytes) else Tracing(out)
  {
    hide SegmentOk, TraceAfter;
    assert (out + [g])[..|out|] == out;
  }

  lemma Joins(a: Text, b: Text, c: Text)
    ensures a + b + c == a + (b + c)
  {
  }

  lemma EmitKeeps(s: State, bytes: Text, decode: Decoder)
    requires Honest(s, decode)
    ensures Honest(Emit(s, bytes), decode)
    ensures Sources(Emit(s, bytes).out) == Sources(s.out) + bytes
  {
    hide AccountOk, Tracing, Sources;
    Appended(s.out, Raw(bytes));
    AccountGrows(s.out, Raw(bytes), decode);
  }

  lemma LineSegmentOk(s: State, line: Text, decode: Decoder)
    requires IsLine(line) && s.inTrace == Tracing(s.out)
    ensures SegmentOk(s.out, SegmentFor(s.inTrace, line, decode), decode)
    ensures SegmentFor(s.inTrace, line, decode).Plain?
            || (SegmentFor(s.inTrace, line, decode).Noted? && !IsBanner(line))
  {
    hide Tracing, IsLine, IsBanner, ParsedAddress;
    if IsBanner(line) {
      BannerIsNoFrame(line);
    }
  }

  lemma LineKeeps(s: State, line: Text, decode: Decoder)
    requires Honest(s, decode) && IsLine(line) && s.held == [] && s.probe.Present?
    ensures Honest(AfterLine(s, line, decode), decode)
    ensures Taken(AfterLine(s, line, decode)) == Taken(s) + line
  {
    hide AccountOk, Tracing, Sources, SegmentOk, SegmentFor, IsBanner;
    var g := SegmentFor(s.inTrace, line, decode);
    Appended(s.out, g);
    LineSegmentOk(s, line, decode);
    AccountGrows(s.out, g, decode);
  }

  lemma JoinedLine(held: Text, part: Text)
    requires FirstNewline(held) == |held| && IsLine(part)
    ensures IsLine(held + part)
  {
    FirstNewlineIs(held + part, |held| + |part| - 1);
  }

  lemma TwoEmits(s: State, part: Text, decode: Decoder)
    requires Honest(s, decode)
    ensures var t := Emit(Emit(s.(held := []), s.held), part);
            Honest(t, decode) && Taken(t) == Taken(s) + part
  {
    var t := s.(held := []);
    EmitKeeps(t, s.held, decode);
    EmitKeeps(Emit(t, s.held), part, decode);
    assert Sources(s.out) + s.held + part + [] == Taken(s) + part;
  }

  lemma CompleteKeeps(s: State, part: Text, decode: Decoder)
    requires Honest(s, decode) && IsLine(part) && s.probe.Present?
    ensures Honest(Complete(s, part, decode), decode) && Complete(s, part, decode).probe.Present?
    ensures Taken(Complete(s, part, decode)) == Taken(s) + part
    ensures Complete(s, part, decode).held == []
  {
    hide AfterLine, AccountOk, Tracing, Sources;
    if s.held == [] {
      LineKeeps(s, part, decode);
    } else if |s.held| + |part| < LINE_BUF {
      JoinedLine(s.held, part);
      LineKeeps(s.(held := []), s.held + part, decode);
      assert Sources(s.out) + [] + (s.held + part) == Taken(s) + part;
    } else {
      TwoEmits(s, part, decode);
    }
  }

  lemma NoNewlineJoined(held: Text, rem: Text)
    requires FirstNewline(held) == |held| && FirstNewline(rem) == |rem|
    ensures FirstNewline(held + rem) == |held + rem|
  {
    FirstNewlineIs(held + rem, |held| + |rem|);
  }

  lemma HeldGrows(s: State, rem: Text, decode: Decoder)
    requires Honest(s, decode) && FirstNewline(rem) == |rem| && s.probe.Present? && |s.held| + |rem| < LINE_BUF
    ensures var t := s.(held := s.held + rem);
            Honest(t, decode) && Taken(t) == Taken(s) + rem
  {
    hide AccountOk, Tracing, Sources, FirstNewline;
    NoNewlineJoined(s.held, rem);
    Joins(Sources(s.out), s.held, rem);
  }

  lemma KeepKeeps(s: State, rem: Text, decode: Decoder)
    requires Honest(s, decode) && FirstNewline(rem) == |rem| && s.probe.Present?
    ensures Honest(Keep(s, rem), decode) && Taken(Keep(s, rem)) == Taken(s) + rem
  {
    hide Honest, FirstNewline, Taken;
    if |s.held| + |rem| < LINE_BUF {
      HeldGrows(s, rem, decode);
    } else if s.held != [] {
      TwoEmits(s, rem, decode);
    } else {
      EmitUnheld(s, rem, decode);
    }
  }

  lemma EmitUnheld(s: State, bytes: Text, decode: Decoder)
    requires Honest(s, decode) && s.held == []
    ensures Honest(Emit(s, bytes), decode) && Taken(Emit(s, bytes)) == Taken(s) + bytes
  {
    hide Honest, Sources;
    EmitKeeps(s, bytes, decode);
    assert Sources(Emit(s, bytes).out) + [] == Sources(s.out) + [] + bytes;
  }

  lemma {:induction false} LinesKeep(s: State, data: Text, decode: Decoder)
    requires Honest(s, decode) && s.probe.Present?
    ensures Honest(Lines(s, data, decode), decode) && Taken(Lines(s, data, decode)) == Taken(s) + data
    decreases |data|
  {
    hide Honest, Taken, Complete, Keep;
    if data != [] {
      var n := FirstNewline(data);
      if n == |data| {
        KeepKeeps(s, data, decode);
      } else {
        var line := data[..n + 1];
        FirstNewlineIs(line, n);
        CompleteKeeps(s, line, decode);
        LinesKeep(Complete(s, line, decode), data[n + 1..], decode);
        assert Taken(s) + line + data[n + 1..] == Taken(s) + (line + data[n + 1..]) == Taken(s) + data;
      }
    }
  }

  lemma WriteKeeps(s: State, found: bool, data: Text, decode: Decoder)
    requires Honest(s, decode)
    ensures Honest(Write(s, found, data, decode), decode)
    ensures Taken(Write(s, found, data, decode)) == Taken(s) + data
  {
    var t := Probed(s, found);
    if FastPath(t, data) {
      EmitKeeps(t, data, decode);
      assert s.held == [];
    } else {
      LinesKeep(t, data, decode);
    }
  }

  lemma {:induction false} VerbatimUnlessNoted(out: seq<Segment>)
    requires forall k :: 0 <= k < |out| ==> !out[k].Noted?
    ensures AllShown(out) == Sources(out)
  {
    if out != [] {
      VerbatimUnlessNoted(out[..|out| - 1]);
    }
  }

  lemma {:induction false} RunKeeps(calls: seq<Call>, decode: Decoder)
    ensures Honest(Run(START, calls, decode), decode)
    ensures Taken(Run(START, calls, decode)) == Stream(calls)
  {
    if calls != [] {
      var n := |calls| - 1;
      RunKeeps(calls[..n], decode);
      WriteKeeps(Run(START, calls[..n], decode), calls[n].found, calls[n].data, decode);
    }
  }

  /** However the stream is cut into calls, output and held bytes stand for it, in order, without repetition. */
  lemma StreamIsConserved(calls: seq<Call>, decode: Decoder)
    ensures var s := Run(START, calls, decode);
            && AccountOk(s.out, decode)
            && Sources(s.out) + s.held == Stream(calls)
            && ((forall k :: 0 <= k < |s.out| ==> !s.out[k].Noted?) ==> AllShown(s.out) + s.held == Stream(calls))
  {
    RunKeeps(calls, decode);
    var s := Run(START, calls, decode);
    if forall k :: 0 <= k < |s.out| ==> !s.out[k].Noted? {
      VerbatimUnlessNoted(s.out);
    }
  }

  lemma {:induction false} AccountAt(out: seq<Segment>, k: nat, decode: Decoder)
    requires AccountOk(out, decode) && k < |out|
    ensures SegmentOk(out[..k], out[k], decode)
  {
    var n := |out| - 1;
    if k < n {
      AccountAt(out[..n], k, decode);
      assert out[..n][..k] == out[..k];
    }
  }

  /** An annotated line of at most 252 bytes: itself without its line end, one note, one line end. */
  lemma AnnotatedLine(calls: seq<Call>, k: nat, decode: Decoder)
    requires k < |Run(START, calls, decode).out| && Run(START, calls, decode).out[k].Noted?
    ensures var g := Run(START, calls, decode).out[k];
            && Tracing(Run(START, calls, decode).out[..k])
            && IsLine(g.bytes) && NoteFor(decode, g.bytes) == Some(g.note)
            && (|Trimmed(g.bytes)| <= 252 ==> Shown(g) == Trimmed(g.bytes) + INDENT + g.note + [NEWLINE])
  {
    RunKeeps(calls, decode);
    AccountAt(Run(START, calls, decode).out, k, decode);
    var g := Run(START, calls, decode).out[k];
    AnnotationIsWhole(g.bytes, g.note);
  }

  // ---------------------------------------------------------------- cuts do not show

  /** Line by line, with nothing flushed early. */
  function ByLine(s: State, all: Text, decode: Decoder): State
    decreases |all|
  {
    var n := FirstNewline(all);
    if n == |all| then s.(held := all) else ByLine(AfterLine(s, all[..n + 1], decode), all[n + 1..], decode)
  }

  /** Every line, and the unfinished one, fits the line buffer. */
  predicate ShortLines(all: Text)
    decreases |all|
  {
    var n := FirstNewline(all);
    if n == |all| then n < LINE_BUF else n + 1 < LINE_BUF && ShortLines(all[n + 1..])
  }

  lemma ByLineAt(s: State, all: Text, k: nat, decode: Decoder)
    requires k < |all| && FirstNewline(all) == k
    ensures ByLine(s, all, decode) == ByLine(AfterLine(s, all[..k + 1], decode), all[k + 1..], decode)
    ensures ShortLines(all) <==> k + 1 < LINE_BUF && ShortLines(all[k + 1..])
  {
  }

  lemma CutBehind(held: Text, data: Text, n: nat)
    requires n <= |data|
    ensures (held + data)[..|held| + n] == held + data[..n] && (held + data)[|held| + n..] == data[n..]
  {
  }

  /** Joining what is held in front of new bytes lengthens their first line only. */
  lemma HeldInFront(s: State, held: Text, data: Text, decode: Decoder)
    requires FirstNewline(held) == |held| && FirstNewline(data) < |data|
    ensures var n := FirstNewline(data);
            && ByLine(s, held + data, decode)
                == ByLine(AfterLine(s, held + data[..n + 1], decode), data[n + 1..], decode)
            && (ShortLines(held + data) <==> |held| + n + 1 < LINE_BUF && ShortLines(data[n + 1..]))
  {
    hide AfterLine, ByLine, ShortLines, FirstNewline;
    var n := FirstNewline(data);
    FirstNewlineIs(held + data, |held| + n);
    CutBehind(held, data, n + 1);
    ByLineAt(s, held + data, |held| + n, decode);
  }

  lemma HeldAlone(s: State, held: Text, data: Text, decode: Decoder)
    requires FirstNewline(held) == |held| && FirstNewline(data) == |data|
    ensures ByLine(s, held + data, decode) == s.(held := held + data)
    ensures ShortLines(held + data) <==> |held| + |data| < LINE_BUF
  {
    FirstNewlineIs(held + data, |held| + |data|);
  }

  lemma ShortLineCompletes(s: State, part: Text, decode: Decoder)
    requires |s.held| + |part| < LINE_BUF
    ensures Complete(s, part, decode) == AfterLine(s.(held := []), s.held + part, decode)
  {
    hide AfterLine;
    if s.held == [] {
      assert s.held + part == part && s == s.(held := []);
    }
  }

  /** What one call does to short lines is what the lines themselves say. */
  lemma {:induction false} LinesAreByLine(s: State, data: Text, decode: Decoder)
    requires FirstNewline(s.held) == |s.held| && ShortLines(s.held + data)
    ensures Lines(s, data, decode) == ByLine(s.(held := []), s.held + data, decode)
    decreases |data|
  {
    hide AfterLine, Complete, FirstNewline, ByLine, ShortLines;
    var n := FirstNewline(data);
    if n < |data| {
      HeldInFront(s.(held := []), s.held, data, decode);
      ShortLineCompletes(s, data[..n + 1], decode);
      var t := Complete(s, data[..n + 1], decode);
      NothingHeld(t, data[n + 1..]);
      LinesAreByLine(t, data[n + 1..], decode);
    } else {
      HeldAlone(s.(held := []), s.held, data, decode);
      assert data == [] ==> s.held + data == s.held;
    }
  }

  lemma NothingHeld(s: State, rest: Text)
    requires s.held == []
    ensures s.held + rest == rest && s == s.(held := []) && FirstNewline(s.held) == |s.held|
  {
  }

  lemma {:induction false} ShortPrefix(a: Text, b: Text)
    requires ShortLines(a + b)
    ensures ShortLines(a)
    decreases |a|
  {
    var n := FirstNewline(a);
    if n < |a| {
      FirstNewlineIs(a + b, n);
      assert (a + b)[n + 1..] == a[n + 1..] + b;
      ShortPrefix(a[n + 1..], b);
    } else if FirstNewline(a + b) < n {
      assert false;
    }
  }

  lemma PrefixInFront(s: State, a: Text, b: Text, decode: Decoder)
    requires FirstNewline(a) < |a|
    ensures var n := FirstNewline(a);
            && ByLine(s, a + b, decode) == ByLine(AfterLine(s, a[..n + 1], decode), a[n + 1..] + b, decode)
            && (ShortLines(a + b) <==> n + 1 < LINE_BUF && ShortLines(a[n + 1..] + b))
  {
    hide AfterLine, ByLine, ShortLines, FirstNewline;
    var n := FirstNewline(a);
    FirstNewlineIs(a + b, n);
    ByLineAt(s, a + b, n, decode);
    assert (a + b)[n + 1..] == a[n + 1..] + b && (a + b)[..n + 1] == a[..n + 1];
  }

  /** Stopping after `a` and going on with what is held and `b` is doing both at once. */
  lemma {:induction false} ByLineJoins(s: State, a: Text, b: Text, decode: Decoder)
    requires ShortLines(a + b)
    ensures var t := ByLine(s, a, decode);
            && FirstNewline(t.held) == |t.held|
            && ShortLines(t.held + b)
            && ByLine(t.(held := []), t.held + b, decode) == ByLine(s.(held := []), a + b, decode)
    decreases |a|
  {
    hide AfterLine, ShortLines;
    var n := FirstNewline(a);
    if n < |a| {
      PrefixInFront(s.(held := []), a, b, decode);
      HeldAside(s, [], a[..n + 1], decode);
      ByLineJoins(AfterLine(s, a[..n + 1], decode), a[n + 1..], b, decode);
    }
  }

  /** Two line-buffered calls do what one call with all the bytes does. */
  lemma SplittingIsInvisible(s: State, p: Text, q: Text, decode: Decoder)
    requires FirstNewline(s.held) == |s.held| && ShortLines(s.held + (p + q))
    ensures Lines(Lines(s, p, decode), q, decode) == Lines(s, p + q, decode)
  {
    var a := s.held + p;
    assert s.held + (p + q) == a + q;
    ShortPrefix(a, q);
    LinesAreByLine(s, p, decode);
    LinesAreByLine(s, p + q, decode);
    ByLineJoins(s.(held := []), a, q, decode);
    LinesAreByLine(ByLine(s.(held := []), a, decode), q, decode);
  }

  /** No call of the run takes the fast path. */
  predicate AllBuffered(s: State, calls: seq<Call>, decode: Decoder) {
    calls == [] ||
    (var n := |calls| - 1;
     AllBuffered(s, calls[..n], decode) && !FastPath(Run(s, calls[..n], decode), calls[n].data))
  }

  /** Inside a trace the cuts between calls do not show: neither in the output nor in what is held. */
  lemma {:induction false} CutsDoNotShow(s: State, calls: seq<Call>, decode: Decoder)
    requires s.probe.Present? && FirstNewline(s.held) == |s.held|
    requires ShortLines(s.held + Stream(calls)) && AllBuffered(s, calls, decode)
    ensures Run(s, calls, decode) == Lines(s, Stream(calls), decode)
    ensures Run(s, calls, decode).probe.Present?
  {
    if calls != [] {
      var n := |calls| - 1;
      var p := Stream(calls[..n]);
      assert s.held + Stream(calls) == (s.held + p) + calls[n].data;
      ShortPrefix(s.held + p, calls[n].data);
      CutsDoNotShow(s, calls[..n], decode);
      SplittingIsInvisible(s, p, calls[n].data, decode);
      ProbeStays(s, Stream(calls), decode);
    }
  }

  lemma {:induction false} ProbeStays(s: State, data: Text, decode: Decoder)
    ensures Lines(s, data, decode).probe == s.probe
    decreases |data|
  {
    var n := FirstNewline(data);
    if n < |data| {
      ProbeStays(Complete(s, data[..n + 1], decode), data[n + 1..], decode);
    }
  }

  /** No complete line of a text would close an open trace. */
  predicate StaysOpen(all: Text)
    decreases |all|
  {
    var n := FirstNewline(all);
    n == |all| || (TraceAfter(true, all[..n + 1]) && StaysOpen(all[n + 1..]))
  }

  lemma {:induction false} OpenPrefix(a: Text, b: Text)
    requires StaysOpen(a + b)
    ensures StaysOpen(a)
    decreases |a|
  {
    hide TraceAfter;
    var n := FirstNewline(a);
    if n < |a| {
      FirstNewlineIs(a + b, n);
      assert (a + b)[..n + 1] == a[..n + 1] && (a + b)[n + 1..] == a[n + 1..] + b;
      OpenPrefix(a[n + 1..], b);
    }
  }

  lemma {:induction false} TraceStaysOpen(s: State, all: Text, decode: Decoder)
    requires s.inTrace && StaysOpen(all)
    ensures ByLine(s, all, decode).inTrace
    decreases |all|
  {
    hide TraceAfter;
    var n := FirstNewline(all);
    if n < |all| {
      TraceStaysOpen(AfterLine(s, all[..n + 1], decode), all[n + 1..], decode);
    }
  }

  lemma {:induction false} OpenTraceIsBuffered(s: State, calls: seq<Call>, decode: Decoder)
    requires s.probe.Present? && s.inTrace && FirstNewline(s.held) == |s.held|
    requires ShortLines(s.held + Stream(calls)) && StaysOpen(s.held + Stream(calls))
    ensures AllBuffered(s, calls, decode)
  {
    hide StaysOpen, ShortLines, ByLine, Lines, FirstNewline;
    if calls != [] {
      var n := |calls| - 1;
      var p := Stream(calls[..n]);
      assert s.held + Stream(calls) == (s.held + p) + calls[n].data;
      ShortPrefix(s.held + p, calls[n].data);
      OpenPrefix(s.held + p, calls[n].data);
      OpenTraceIsBuffered(s, calls[..n], decode);
      CutsDoNotShow(s, calls[..n], decode);
      LinesAreByLine(s, p, decode);
      TraceStaysOpen(s.(held := []), s.held + p, decode);
    }
  }

  /** Inside a trace, two ways of cutting one stream into calls end in the same state with the same
      output, as long as no line of the stream closes the trace. */
  lemma TraceOutputIgnoresCuts(s: State, calls: seq<Call>, other: seq<Call>, decode: Decoder)
    requires s.probe.Present? && s.inTrace && FirstNewline(s.held) == |s.held|
    requires ShortLines(s.held + Stream(calls)) && StaysOpen(s.held + Stream(calls))
    requires Stream(calls) == Stream(other)
    ensures Run(s, calls, decode) == Run(s, other, decode)
  {
    OpenTraceIsBuffered(s, calls, decode);
    OpenTraceIsBuffered(s, other, decode);
    CutsDoNotShow(s, calls, decode);
    CutsDoNotShow(s, other, decode);
  }

  // ---------------------------------------------------------------- banners that are missed

  /** Complete lines, none of them a banner. */
  predicate PlainLines(t: Text)
    decreases |t|
  {
    var n := FirstNewline(t);
    t == [] || (n < |t| && !IsBanner(t[..n + 1]) && PlainLines(t[n + 1..]))
  }

  predicate OpensTrace(line: Text) {
    IsLine(line) && IsBanner(line) && TraceAfter(false, line)
  }

  lemma {:induction false} BannerBehindLines(s: State, text: Text, banner: Text, decode: Decoder)
    requires s.held == [] && PlainLines(text) && OpensTrace(banner)
    ensures Lines(s, text + banner, decode).inTrace
    decreases |text|
  {
    hide IsBanner, OpensTrace, Lines, Complete, FirstNewline;
    if text == [] {
      assert text + banner == banner;
      BannerOpens(s, banner, decode);
    } else {
      var n := FirstNewline(text);
      PlainLineStep(s, text, banner, decode);
      BannerBehindLines(Complete(s, text[..n + 1], decode), text[n + 1..], banner, decode);
    }
  }

  lemma BannerOpens(s: State, banner: Text, decode: Decoder)
    requires s.held == [] && OpensTrace(banner)
    ensures Lines(s, banner, decode).inTrace
  {
    hide IsBanner;
    assert banner[..|banner|] == banner && banner[|banner|..] == [];
    assert Lines(s, banner, decode) == Lines(Complete(s, banner, decode), [], decode);
  }

  lemma PlainLineStep(s: State, text: Text, rest: Text, decode: Decoder)
    requires s.held == [] && text != [] && PlainLines(text)
    ensures var n := FirstNewline(text);
            && n < |text| && PlainLines(text[n + 1..]) && Complete(s, text[..n + 1], decode).held == []
            && Lines(s, text + rest, decode) == Lines(Complete(s, text[..n + 1], decode), text[n + 1..] + rest, decode)
  {
    hide IsBanner, SegmentFor, TraceAfter;
    var n, all := FirstNewline(text), text + rest;
    FirstNewlineIs(all, n);
    assert all[..n + 1] == text[..n + 1] && all[n + 1..] == text[n + 1..] + rest;
  }

  /** Behind text that does not start with a dash, complete or not, a start banner is missed; in a
      call of its own it is seen. */
  lemma BannerInsideACallIsMissed(s: State, found: bool, x: Text, banner: Text, decode: Decoder)
    requires s.probe.Present? && !s.inTrace && s.held == []
    requires x != [] && x[0] != DASH && OpensTrace(banner)
    ensures !Write(s, found, x + banner, decode).inTrace
    ensures Write(Write(s, found, x, decode), found, banner, decode).inTrace
  {
    BannerHasDash(banner);
    assert [] + banner == banner;
    BannerBehindLines(Write(s, found, x, decode), [], banner, decode);
  }

  /** Outside a trace and with nothing held, a start banner behind complete lines in one call opens
      the trace exactly when the call starts with a dash; in a call of its own it always does. */
  lemma BannerIsSeenExactly(s: State, found: bool, text: Text, banner: Text, decode: Decoder)
    requires s.probe.Present? && !s.inTrace && s.held == [] && PlainLines(text) && OpensTrace(banner)
    ensures Write(s, found, text + banner, decode).inTrace <==> (text + banner)[0] == DASH
    ensures Write(s, found, banner, decode).inTrace
  {
    BannerHasDash(banner);
    BannerBehindLines(s, text, banner, decode);
    assert [] + banner == banner;
    BannerBehindLines(s, [], banner, decode);
  }

  // ---------------------------------------------------------------- the code

  class LineWriter {
    var available: int
    var inTrace: bool
    var lineBuf: array<u8>
    var lineBufLen: nat
    /** The bytes written to the descriptor, and the account of them. */
    var written: Text
    ghost var out: seq<Segment>

    ghost predicate Valid()
      reads this, lineBuf
    {
      && -1 <= available <= 1
      && lineBuf.Length == LINE_BUF
      && lineBufLen < LINE_BUF
      && written == AllShown(out)
    }

    ghost function View(): State
      reads this, lineBuf
      requires Valid()
    {
      State(if available < 0 then Unchecked else if available == 0 then Missing else Present,
            inTrace, lineBuf[..lineBufLen], out)
    }

    constructor ()
      ensures Valid() && View() == START && fresh(lineBuf)
    {
      available := -1;
      inTrace := false;
      lineBuf := new u8[LINE_BUF];
      lineBufLen := 0;
      written := [];
      out := [];
    }

    method ConsoleEmit(bytes: Text, ghost g: Segment)
      requires Valid() && Shown(g) == bytes
      modifies this`written, this`out
      ensures Valid() && View() == old(View()).(out := old(View()).out + [g]) && written == old(written) + bytes
    {
      written := written + bytes;
      Appended(out, g);
      out := out + [g];
    }

    /** `held` is what the caller empties once the line is out. */
    method ConsoleWriteLine(line: Text, decode: Decoder)
      requires Valid()
      modifies this`written, this`out, this`inTrace
      ensures Valid()
      ensures View() == AfterLine(old(View()), line, decode)
      ensures written == old(written) + Printed(old(inTrace), line, decode)
    {
      hide ParsedAddress, Annotation, AllShown;
      LineMeans(View(), line, decode);
      if |line| > |BANNER| && line[..|BANNER|] == BANNER {
        if |line| > 20 && line[|BANNER|] == 83 {
          inTrace := true;
        } else if line[|BANNER|] == 69 {
          inTrace := false;
        }
        ConsoleEmit(line, Plain(line));
        return;
      }
      if inTrace {
        var addr := ParseTraceAddr(line);
        if addr.Some? {
          var decoded := Note(decode, addr.value);
          if decoded != [] && decoded[0] != 63 {
            var annotated := BuildAnnotation(line, decoded);
            ConsoleEmit(annotated, Noted(line, decoded));
            return;
          }
        }
      }
      ConsoleEmit(line, Plain(line));
    }

    method Append(part: Text)
      requires Valid() && lineBufLen + |part| < LINE_BUF
      modifies this`lineBufLen, lineBuf
      ensures Valid() && View() == old(View()).(held := old(View()).held + part)
    {
      ghost var was := lineBuf[..lineBufLen];
      var i := 0;
      while i < |part|
        modifies lineBuf
        invariant 0 <= i <= |part|
        invariant lineBuf[..lineBufLen + i] == was + part[..i]
      {
        lineBuf[lineBufLen + i] := part[i];
        i := i + 1;
        assert part[..i] == part[..i - 1] + [part[i - 1]];
      }
      assert part[..i] == part;
      lineBufLen := lineBufLen + |part|;
    }

    method FlushHeld()
      requires Valid()
      modifies this`written, this`out, this`lineBufLen
      ensures Valid()
      ensures View() == Emit(old(View()).(held := []), old(View()).held)
      ensures written == old(written) + old(lineBuf[..lineBufLen]) && lineBufLen == 0
    {
      ConsoleEmit(lineBuf[..lineBufLen], Raw(lineBuf[..lineBufLen]));
      lineBufLen := 0;
    }

    method CompleteLine(part: Text, decode: Decoder)
      requires Valid()
      modifies this`written, this`out, this`inTrace, this`lineBufLen, lineBuf
      ensures Valid()
      ensures View() == Complete(old(View()), part, decode)
      ensures 0 < old(lineBufLen) && old(lineBufLen) + |part| >= 256
              ==> lineBufLen == 0 && written == old(written) + old(lineBuf[..lineBufLen]) + part
    {
      hide AfterLine, AllShown;
      if lineBufLen > 0 {
        if lineBufLen + |part| < LINE_BUF {
          ghost var s := View();
          Append(part);
          ConsoleWriteLine(lineBuf[..lineBufLen], decode);
          lineBufLen := 0;
          HeldAside(s.(held := s.held + part), [], s.held + part, decode);
          assert View() == AfterLine(s.(held := []), s.held + part, decode);
        } else {
          FlushHeld();
          ConsoleEmit(part, Raw(part));
        }
        lineBufLen := 0;
      } else {
        ConsoleWriteLine(part, decode);
      }
    }

    method KeepRemainder(rem: Text)
      requires Valid()
      modifies this`written, this`out, this`lineBufLen, lineBuf
      ensures Valid() && View() == Keep(old(View()), rem)
      ensures old(lineBufLen) + |rem| < 256 ==> lineBuf[..lineBufLen] == old(lineBuf[..lineBufLen]) + rem
      ensures old(lineBufLen) + |rem| >= 256 ==> lineBufLen == 0
      ensures written == old(written)
                         + if old(lineBufLen) + |rem| < 256 then [] else old(lineBuf[..lineBufLen]) + rem
    {
      if lineBufLen + |rem| < LINE_BUF {
        Append(rem);
      } else {
        if lineBufLen > 0 {
          FlushHeld();
        }
        ConsoleEmit(rem, Raw(rem));
      }
    }

    /** The loop over a call's data, line by line. */
    method BufferLines(data: Text, decode: Decoder)
      requires Valid()
      modifies this`written, this`out, this`inTrace, this`lineBufLen, lineBuf
      ensures Valid() && View() == Lines(old(View()), data, decode)
    {
      hide Lines, Complete, Keep, AllShown, FirstNewline;
      ghost var goal := Lines(View(), data, decode);
      var p: nat := 0;
      assert data[p..] == data;
      while p < |data|
        invariant Valid()
        invariant 0 <= p <= |data|
        invariant Lines(View(), data[p..], decode) == goal
      {
        LinesStep(View(), data, p, decode);
        var nl := FirstNewline(data[p..]);
        if nl == |data| - p {
          KeepRemainder(data[p..]);
          return;
        }
        CompleteLine(data[p..p + nl + 1], decode);
        p := p + nl + 1;
      }
      LinesEnd(View(), data, decode);
    }

    /** `found` is what probing for the decoder and an ELF file gives, should it be asked. */
    method ConsoleWrite(found: bool, data: Text, decode: Decoder) returns (n: nat)
      requires Valid()
      modifies this, lineBuf
      ensures Valid() && lineBuf == old(lineBuf)
      ensures View() == Write(old(View()), found, data, decode) && n == |data|
      ensures available == if old(available) >= 0 then old(available) else if found then 1 else 0
      ensures available == 0 || (!old(inTrace) && old(lineBufLen) == 0 && (data == [] || data[0] != 45))
              ==> written == old(written) + data && inTrace == old(inTrace) && lineBufLen == old(lineBufLen)
    {
      hide Lines, AllShown;
      if available < 0 {
        available := if found then 1 else 0;
      }
      if available == 0 {
        ConsoleEmit(data, Raw(data));
        return |data|;
      }
      if !inTrace && lineBufLen == 0 && (|data| == 0 || data[0] != DASH) {
        ConsoleEmit(data, Raw(data));
        return |data|;
      }
      BufferLines(data, decode);
      n := |data|;
    }
  }
}
