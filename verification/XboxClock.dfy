/** The Xbox CMOS clock, `rtc.c`: setting it and reading it back through the index and data ports. */
module XboxClock {
  import opened Bytes
  import opened Calendar

  const RTC_OK := 0
  const RTC_NO_SHADOW := 1
  const RTC_UIP_TIMEOUT := 2
  const RTC_ALREADY_FROZEN := 3
  const POLLS := 2_560_000

  // ---------------------------------------------------------------- field encodings

  /** The four ways register B can ask for: binary or BCD, 24 or 12 hours. */
  datatype Mode = Mode(binary: bool, hour24: bool)

  function ModeOf(b: u8): Mode {
    Mode(HasBit(b, 4), HasBit(b, 2))
  }

  function EncodeValue(v: nat, binary: bool): u8 {
    if binary then v % 0x100 else (v / 10 * 0x10 + v % 10) % 0x100
  }

  function DecodeValue(b: u8, binary: bool): nat {
    if binary then b else b / 0x10 * 10 + b % 0x10
  }

  lemma Nibbles(t: nat, u: nat)
    requires t < 10 && u < 10
    ensures var w := t * 0x10 + u; w % 0x100 == w && w / 0x10 == t && w % 0x10 == u && (t < 8 ==> w < 0x80)
  {
  }

  lemma Digits(v: nat)
    requires v < 100
    ensures v / 10 < 10 && v % 10 < 10 && v / 10 * 10 + v % 10 == v && (v < 80 ==> v / 10 < 8)
  {
  }

  lemma EncodedBcd(v: nat)
    requires v < 100
    ensures EncodeValue(v, false) == v / 10 * 0x10 + v % 10
  {
    Digits(v);
    Nibbles(v / 10, v % 10);
  }

  lemma DecodedBcd(t: nat, u: nat)
    requires t < 10 && u < 10
    ensures t * 0x10 + u < 0x100 && DecodeValue(t * 0x10 + u, false) == t * 10 + u
  {
    Nibbles(t, u);
  }

  lemma ValueRoundTrip(v: nat, binary: bool)
    requires v < 100
    ensures DecodeValue(EncodeValue(v, binary), binary) == v
    ensures v < 80 ==> EncodeValue(v, binary) < 0x80
  {
    if binary {
      assert v % 0x100 == v;
    } else {
      BcdRoundTrip(v);
    }
  }

  lemma BcdRoundTrip(v: nat)
    requires v < 100
    ensures DecodeValue(EncodeValue(v, false), false) == v
    ensures v < 80 ==> EncodeValue(v, false) < 0x80
  {
    hide EncodeValue, DecodeValue;
    EncodedBcd(v);
    var t, u := v / 10, v % 10;
    Digits(v);
    DecodedBcd(t, u);
    Nibbles(t, u);
  }

  function EncodeHour(h: nat, mode: Mode): u8
    requires h < 24
  {
    if mode.hour24 then EncodeValue(h, mode.binary)
    else
      var twelve := if h % 12 == 0 then 12 else h % 12;
      (EncodeValue(twelve, mode.binary) + if h >= 12 then 0x80 else 0) % 0x100
  }

  function DecodeHour(b: u8, mode: Mode): nat {
    if mode.hour24 then DecodeValue(b, mode.binary)
    else
      var h := DecodeValue(b % 0x80, mode.binary);
      (if h == 12 then 0 else h) + if HasBit(b, 0x80) then 12 else 0
  }

  lemma PmBit(e: u8)
    requires e < 0x80
    ensures (e + 0x80) % 0x100 == e + 0x80 && (e + 0x80) % 0x80 == e && HasBit(e + 0x80, 0x80)
    ensures e % 0x100 == e && e % 0x80 == e && !HasBit(e, 0x80)
  {
  }

  lemma HourRoundTrip(h: nat, mode: Mode)
    requires h < 24
    ensures DecodeHour(EncodeHour(h, mode), mode) == h
  {
    hide EncodeValue, DecodeValue, HasBit;
    if mode.hour24 {
      ValueRoundTrip(h, mode.binary);
    } else {
      var twelve := if h % 12 == 0 then 12 else h % 12;
      ValueRoundTrip(twelve, mode.binary);
      PmBit(EncodeValue(twelve, mode.binary));
      assert h % 12 == if h >= 12 then h - 12 else h;
    }
  }

  // ---------------------------------------------------------------- the registers as a value

  type Regs = seq<u8>

  const SECOND := 0x00
  const MINUTE := 0x02
  const HOUR := 0x04
  const WEEKDAY := 0x06
  const DAY := 0x07
  const MONTH := 0x08
  const YEAR := 0x09
  const STATUS_A := 0x0a
  const STATUS_B := 0x0b
  const CENTURY := 0x7f

  predicate IsRegs(r: Regs) {
    |r| == 0x80
  }

  function Stored(r: Regs, f: Fields): (s: Regs)
    requires IsRegs(r) && ValidFields(f)
    ensures IsRegs(s)
  {
    var m := ModeOf(r[STATUS_B]);
    r[SECOND := EncodeValue(f.second, m.binary)][MINUTE := EncodeValue(f.minute,
        m.binary)][HOUR := EncodeHour(f.hour, m)]
     [WEEKDAY := EncodeValue(f.weekday, m.binary)][DAY := EncodeValue(f.day, m.binary)][MONTH := EncodeValue(f.month,
         m.binary)]
     [YEAR := EncodeValue(f.year % 100, m.binary)][CENTURY := EncodeValue(f.year / 100, m.binary)]
  }

  function Loaded(r: Regs): Fields
    requires IsRegs(r)
  {
    var m := ModeOf(r[STATUS_B]);
    Fields(DecodeValue(r[CENTURY], m.binary) * 100 + DecodeValue(r[YEAR], m.binary),
        DecodeValue(r[MONTH], m.binary) % 0x100,
           DecodeValue(r[DAY], m.binary) % 0x100, DecodeValue(r[WEEKDAY], m.binary) % 0x100,
               DecodeHour(r[HOUR], m) % 0x100,
           DecodeValue(r[MINUTE], m.binary) % 0x100, DecodeValue(r[SECOND], m.binary) % 0x100)
  }

  lemma StoredRegisters(r: Regs, f: Fields)
    requires IsRegs(r) && ValidFields(f)
    ensures var m := ModeOf(r[STATUS_B]); var s := Stored(r, f);
            && s[SECOND] == EncodeValue(f.second, m.binary) && s[MINUTE] == EncodeValue(f.minute, m.binary)
            && s[HOUR] == EncodeHour(f.hour, m) && s[WEEKDAY] == EncodeValue(f.weekday, m.binary)
            && s[DAY] == EncodeValue(f.day, m.binary) && s[MONTH] == EncodeValue(f.month, m.binary)
            && s[YEAR] == EncodeValue(f.year % 100, m.binary) && s[CENTURY] == EncodeValue(f.year / 100, m.binary)
            && s[STATUS_B] == r[STATUS_B]
  {
    hide EncodeValue, EncodeHour, ModeOf;
  }

  /** What is stored is what is loaded, in all four modes; everything else keeps its value. */
  lemma LoadUndoesStore(r: Regs, f: Fields)
    requires IsRegs(r) && ValidFields(f) && f.year < 10000 && f.weekday < 8
    ensures Loaded(Stored(r, f)) == f && Stored(r, f)[STATUS_B] == r[STATUS_B]
  {
    hide EncodeValue, DecodeValue, EncodeHour, DecodeHour, ModeOf, Stored;
    StoredRegisters(r, f);
    var m := ModeOf(r[STATUS_B]);
    ValueRoundTrip(f.second, m.binary);
    ValueRoundTrip(f.minute, m.binary);
    ValueRoundTrip(f.weekday, m.binary);
    ValueRoundTrip(f.day, m.binary);
    ValueRoundTrip(f.month, m.binary);
    ValueRoundTrip(f.year % 100, m.binary);
    ValueRoundTrip(f.year / 100, m.binary);
    HourRoundTrip(f.hour, m);
  }

  /** A register shows a value: as it is, or as two decimal digits. */
  predicate ShowsValue(b: u8, v: nat, binary: bool) {
    if binary then b == v else v < 100 && b / 0x10 == v / 10 && b % 0x10 == v % 10
  }

  /** The chip shows these fields: bit 2 of register B chooses binary, bit 1 the 24-hour form; without
      that the hour counts from 1 to 12 and its top bit means pm. */
  predicate Shows(r: Regs, f: Fields)
    requires IsRegs(r)
  {
    var binary, hour24 := r[0x0b] / 4 % 2 == 1, r[0x0b] / 2 % 2 == 1;
    && ShowsValue(r[0x00], f.second, binary) && ShowsValue(r[0x02], f.minute, binary)
    && ShowsValue(r[0x06], f.weekday, binary) && ShowsValue(r[0x07], f.day, binary)
    && ShowsValue(r[0x08], f.month, binary)
    && ShowsValue(r[0x09], f.year % 100, binary) && ShowsValue(r[0x7f], f.year / 100, binary)
    && if hour24 then ShowsValue(r[0x04], f.hour, binary)
       else ShowsValue(r[0x04] % 0x80, (f.hour + 11) % 12 + 1, binary) && (r[0x04] >= 0x80 <==> f.hour >= 12)
  }

  lemma EncodedShows(v: nat, binary: bool)
    requires v < 100
    ensures ShowsValue(EncodeValue(v, binary), v, binary)
  {
    if !binary {
      EncodedBcd(v);
      Digits(v);
      Nibbles(v / 10, v % 10);
    }
  }

  lemma EncodedHourShows(h: nat, m: Mode)
    requires h < 24
    ensures var b := EncodeHour(h, m);
            if m.hour24 then ShowsValue(b, h, m.binary)
            else ShowsValue(b % 0x80, (h + 11) % 12 + 1, m.binary) && (b >= 0x80 <==> h >= 12)
  {
    hide EncodeValue, ShowsValue, HasBit;
    if m.hour24 {
      EncodedShows(h, m.binary);
    } else {
      var twelve := (h + 11) % 12 + 1;
      assert twelve == if h % 12 == 0 then 12 else h % 12;
      EncodedShows(twelve, m.binary);
      ValueRoundTrip(twelve, m.binary);
      PmBit(EncodeValue(twelve, m.binary));
    }
  }

  lemma ModeBits(b: u8)
    ensures ModeOf(b).binary <==> b / 4 % 2 == 1
    ensures ModeOf(b).hour24 <==> b / 2 % 2 == 1
  {
  }

  /** Every register after a set. */
  lemma StoredShows(r: Regs, f: Fields)
    requires IsRegs(r) && ValidFields(f) && f.year < 10000 && f.weekday < 8
    ensures Shows(Stored(r, f), f)
    ensures forall k | 0 <= k < 0x80 && k !in {0x00, 0x02, 0x04, 0x06, 0x07, 0x08, 0x09, 0x7f} ::
              Stored(r, f)[k] == r[k]
  {
    hide EncodeValue, EncodeHour, ModeOf, ShowsValue;
    StoredRegisters(r, f);
    var m := ModeOf(r[STATUS_B]);
    ModeBits(r[STATUS_B]);
    EncodedShows(f.second, m.binary);
    EncodedShows(f.minute, m.binary);
    EncodedShows(f.weekday, m.binary);
    EncodedShows(f.day, m.binary);
    EncodedShows(f.month, m.binary);
    EncodedShows(f.year % 100, m.binary);
    EncodedShows(f.year / 100, m.binary);
    EncodedHourShows(f.hour, m);
  }

  lemma DecodesShown(b: u8, v: nat, binary: bool)
    requires ShowsValue(b, v, binary)
    ensures DecodeValue(b, binary) == v && v < 0x100
  {
    if !binary {
      Digits(v);
    }
  }

  lemma DecodesShownHour(b: u8, h: nat, m: Mode)
    requires h < 24
    requires if m.hour24 then ShowsValue(b, h, m.binary)
             else ShowsValue(b % 0x80, (h + 11) % 12 + 1, m.binary) && (b >= 0x80 <==> h >= 12)
    ensures DecodeHour(b, m) == h
  {
    hide DecodeValue, ShowsValue;
    if m.hour24 {
      DecodesShown(b, h, m.binary);
    } else {
      DecodesShown(b % 0x80, (h + 11) % 12 + 1, m.binary);
    }
  }

  /** What the chip shows is what is read. */
  lemma LoadedIsShown(r: Regs, f: Fields)
    requires IsRegs(r) && Shows(r, f) && f.hour < 24
    ensures Loaded(r) == f
  {
    hide DecodeValue, DecodeHour, ModeOf, ShowsValue;
    var m := ModeOf(r[STATUS_B]);
    ModeBits(r[STATUS_B]);
    DecodesShown(r[SECOND], f.second, m.binary);
    DecodesShown(r[MINUTE], f.minute, m.binary);
    DecodesShown(r[WEEKDAY], f.weekday, m.binary);
    DecodesShown(r[DAY], f.day, m.binary);
    DecodesShown(r[MONTH], f.month, m.binary);
    DecodesShown(r[YEAR], f.year % 100, m.binary);
    DecodesShown(r[CENTURY], f.year / 100, m.binary);
    DecodesShownHour(r[HOUR], f.hour, m);
    assert f.year == f.year / 100 * 100 + f.year % 100;
  }

  /** The plausibility test of the read path. */
  predicate Plausible(f: Fields) {
    1970 <= f.year && 1 <= f.month <= 12 && 1 <= f.day <= 31 && f.hour <= 23 && f.minute <= 59 && f.second <= 59
  }

  /** `waits[i]` says whether the time limit has passed at the i-th busy poll of register A; after
      these the update-in-progress bit reads clear. */
  function TimesOut(waits: seq<bool>, polls: nat): bool
    decreases polls
  {
    if waits == [] then false else if waits[0] || polls <= 1 then true else TimesOut(waits[1..], polls - 1)
  }

  /** The wait is given up exactly when the bit stays set for the whole budget of polls or the time
      limit passes at one of them. */
  lemma {:induction false} TimesOutExactly(waits: seq<bool>, polls: nat)
    requires polls > 0
    ensures TimesOut(waits, polls) <==> |waits| >= polls || true in waits
    decreases polls
  {
    if waits != [] && !waits[0] && polls > 1 {
      TimesOutExactly(waits[1..], polls - 1);
      assert waits == [waits[0]] + waits[1..];
    }
  }

  class Clock {
    const regs: array<u8>
    var index: u8          // what was last written to the index port
    var shadow: u8
    var shadowValid: bool
    var locked: bool
    var status: nat

    predicate Valid()
      reads this, regs
    {
      regs.Length == 0x80
    }

    constructor (initial: Regs)
      requires IsRegs(initial)
      ensures Valid() && fresh(regs) && regs[..] == initial && !locked && !shadowValid && status == RTC_NO_SHADOW
    {
      regs := new u8[0x80](i requires 0 <= i < 0x80 => initial[i]);
      index, shadow, shadowValid, locked, status := 0, 0, false, false, RTC_NO_SHADOW;
    }

    /** The index port and its shadow agree, and the lock is free. */
    predicate AtRest()
      reads this
    {
      !locked && (shadowValid ==> index == shadow)
    }

    method Init()
      requires Valid() && !locked
      modifies this
      ensures Valid() && AtRest() && !locked && shadowValid && index == shadow == 0x0a && regs[..] == old(regs[..])
    {
      locked := true;
      index := 0x0a;
      shadow := 0x0a;
      shadowValid := true;
      locked := false;
    }

    method Select(reg: u8)
      requires Valid() && reg < 0x80
      modifies this`index, this`shadow
      ensures index == shadow == 0x80 + reg
    {
      shadow := 0x80 + reg % 0x80;
      index := shadow;
    }

    method ReadReg(reg: u8) returns (b: u8)
      requires Valid() && reg < 0x80
      modifies this`index, this`shadow
      ensures b == regs[reg]
    {
      Select(reg);
      b := regs[index % 0x80];
    }

    method WriteReg(reg: u8, b: u8)
      requires Valid() && reg < 0x80
      modifies this`index, this`shadow, regs
      ensures Valid() && regs[..] == old(regs[..])[reg := b]
    {
      Select(reg);
      regs[index % 0x80] := b;
    }

    method RestoreIndex(saved: u8)
      modifies this`index, this`shadow
      ensures index == shadow == saved
    {
      shadow := saved;
      index := saved;
    }

    /** Poll register A until its update-in-progress bit reads clear. */
    method WaitForUpdate(waits: seq<bool>) returns (ready: bool)
      requires Valid()
      modifies this`index, this`shadow
      ensures ready == !TimesOut(waits, POLLS)
    {
      var polls, i := POLLS, 0;
      assert waits[0..] == waits;
      while i < |waits|
        invariant 0 <= i <= |waits| && 0 < polls <= POLLS
        invariant TimesOut(waits, POLLS) == TimesOut(waits[i..], polls)
      {
        assert waits[i..][0] == waits[i] && waits[i..][1..] == waits[i + 1..];
        Select(STATUS_A);
        if waits[i] {
          return false;
        }
        polls := polls - 1;
        if polls == 0 {
          return false;
        }
        i := i + 1;
      }
      Select(STATUS_A);
      ready := true;
    }

    method WriteFields(f: Fields, b: u8)
      requires Valid() && ValidFields(f) && !HasBit(b, 0x80) && regs[STATUS_B] == b
      modifies this`index, this`shadow, regs
      ensures Valid() && regs[..] == Stored(old(regs[..]), f)
    {
      hide EncodeValue, EncodeHour, ModeOf;
      ghost var was := regs[..];
      var m := ModeOf(b);
      WriteReg(STATUS_B, (b + 0x80) % 0x100);
      WriteReg(SECOND, EncodeValue(f.second, m.binary));
      WriteReg(MINUTE, EncodeValue(f.minute, m.binary));
      WriteReg(HOUR, EncodeHour(f.hour, m));
      WriteReg(WEEKDAY, EncodeValue(f.weekday, m.binary));
      WriteReg(DAY, EncodeValue(f.day, m.binary));
      WriteReg(MONTH, EncodeValue(f.month, m.binary));
      WriteReg(YEAR, EncodeValue(f.year % 100, m.binary));
      WriteReg(CENTURY, EncodeValue(f.year / 100, m.binary));
      WriteReg(STATUS_B, b);
      assert regs[..] == Stored(was, f);
    }

    /** `xbox_clean_set_rtc`. Whatever happens, the index port, its shadow and register B are as
        they were and the lock is free; the clock is set exactly when nothing stood in the way. */
    method SetRtc(t: u32, waits: seq<bool>) returns (ghost f: Fields)
      requires Valid() && AtRest()
      modifies this, regs
      ensures Valid() && AtRest() && shadowValid == old(shadowValid) && shadow == old(shadow) && index == old(index)
      ensures !locked
      ensures ValidFields(f) && Seconds(f) == t && f.weekday == (DayNumber(f) + 4) % 7 + 1
      ensures status == if !old(shadowValid) then RTC_NO_SHADOW
                        else if TimesOut(waits, POLLS) then RTC_UIP_TIMEOUT
                        else if HasBit(old(regs[STATUS_B]), 0x80) then RTC_ALREADY_FROZEN else RTC_OK
      ensures regs[..] == if status == RTC_OK then Stored(old(regs[..]), f) else old(regs[..])
      ensures status == RTC_OK ==> Shows(regs[..], f)
    {
      hide Stored, ModeOf, ValidFields, Seconds, DayNumber, TimesOut, Shows;
      var value := ConvertTimestamp(t);
      f := value;
      TimestampYears(f, t);
      StoredShows(regs[..], f);
      locked := true;
      if !shadowValid {
        status := RTC_NO_SHADOW;
        locked := false;
        return;
      }
      var savedIndex := shadow;
      var ready := WaitForUpdate(waits);
      if !ready {
        status := RTC_UIP_TIMEOUT;
      } else {
        var b := ReadReg(STATUS_B);
        if HasBit(b, 0x80) {
          status := RTC_ALREADY_FROZEN;
        } else {
          WriteFields(value, b);
          status := RTC_OK;
        }
      }
      RestoreIndex(savedIndex);
      locked := false;
    }

    method ReadFields() returns (f: Fields)
      requires Valid()
      modifies this`index, this`shadow
      ensures f == Loaded(regs[..])
    {
      hide DecodeValue, DecodeHour, ModeOf;
      var b := ReadReg(STATUS_B);
      var m := ModeOf(b);
      var second := ReadReg(SECOND);
      var minute := ReadReg(MINUTE);
      var hour := ReadReg(HOUR);
      var weekday := ReadReg(WEEKDAY);
      var day := ReadReg(DAY);
      var month := ReadReg(MONTH);
      var century := ReadReg(CENTURY);
      var year := ReadReg(YEAR);
      f := Fields(DecodeValue(century, m.binary) * 100 + DecodeValue(year, m.binary),
          DecodeValue(month, m.binary) % 0x100,
                  DecodeValue(day, m.binary) % 0x100, DecodeValue(weekday, m.binary) % 0x100,
                      DecodeHour(hour, m) % 0x100,
                  DecodeValue(minute, m.binary) % 0x100, DecodeValue(second, m.binary) % 0x100);
    }

    /** `xbox_clean_get_rtc`: no register changes on any path. */
    method GetRtc(waits: seq<bool>) returns (rc: int, t: u32)
      requires Valid() && AtRest()
      modifies this
      ensures Valid() && AtRest() && shadowValid == old(shadowValid) && shadow == old(shadow) && index == old(index)
      ensures !locked
      ensures rc == (if status == RTC_OK then 0 else -1)
      ensures status == if !old(shadowValid) then RTC_NO_SHADOW
                        else if TimesOut(waits, POLLS) then RTC_UIP_TIMEOUT
                        else if !Plausible(Loaded(regs[..])) then RTC_NO_SHADOW else RTC_OK
      ensures rc == 0 ==> t == Wrap32(Seconds(Loaded(regs[..])))
      ensures forall f | Shows(regs[..], f) && f.hour < 24 ::
                && (rc == 0 <==> && old(shadowValid) && !TimesOut(waits, POLLS)
                                 && 1970 <= f.year && 1 <= f.month <= 12 && 1 <= f.day <= 31
                                 && f.minute <= 59 && f.second <= 59)
                && (rc == 0 ==> t == Wrap32(Seconds(f)))
    {
      hide Loaded, Seconds, TimesOut, Shows;
      rc, t := -1, 0;
      forall f | Shows(regs[..], f) && f.hour < 24
        ensures Loaded(regs[..]) == f
      {
        LoadedIsShown(regs[..], f);
      }
      locked := true;
      if !shadowValid {
        status := RTC_NO_SHADOW;
        locked := false;
        return;
      }
      var savedIndex := shadow;
      var ready := WaitForUpdate(waits);
      if !ready {
        status := RTC_UIP_TIMEOUT;
      } else {
        var f := ReadFields();
        if !Plausible(f) {
          status := RTC_NO_SHADOW;
        } else {
          t := MakeTimestamp(f);
          status := RTC_OK;
          rc := 0;
        }
      }
      RestoreIndex(savedIndex);
      locked := false;
    }

    /** A clock that does not tick tells the time it was set to, in every mode. */
    method SetThenGet(t: u32, setWaits: seq<bool>, getWaits: seq<bool>) returns (rc: int, back: u32)
      requires Valid() && AtRest() && shadowValid
      requires !TimesOut(setWaits, POLLS) && !TimesOut(getWaits, POLLS) && !HasBit(regs[STATUS_B], 0x80)
      modifies this, regs
      ensures rc == 0 && back == t && regs[STATUS_B] == old(regs[STATUS_B]) && AtRest()
    {
      hide Stored, Loaded, TimesOut, Seconds, ValidFields, DayNumber, Shows;
      ghost var was := regs[..];
      ghost var f := SetRtc(t, setWaits);
      TimestampYears(f, t);
      LoadUndoesStore(was, f);
      ValidIsPlausible(f);
      rc, back := GetRtc(getWaits);
    }
  }

  lemma ValidIsPlausible(f: Fields)
    requires ValidFields(f)
    ensures Plausible(f)
  {
  }

  /** A 32-bit timestamp lies before the year 2107. */
  lemma TimestampYears(f: Fields, t: u32)
    requires ValidFields(f) && Seconds(f) == t
    ensures f.year < 2107
  {
    DayInsideYear(f);
    LeapDaysInClosedForm(f.year);
  }
}
