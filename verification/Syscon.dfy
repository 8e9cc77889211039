/** The PSP system controller driver, `client/psp/syscon.c`: exchanges, the bounded second phase,
    and the calls that read the status byte and the version. */
module Syscon {
  import opened Bytes
  import opened SysconPackets

  /** What the hardware does during one exchange: a stale completion that will not clear, words
      left in the receive FIFO, whether completion is signalled, whether the transmit FIFO is
      empty then, an overrun, and the words received. */
  datatype Hardware = Hardware(stale: bool, leftover: nat, completes: bool, drained: bool, overrun: bool,
      words: seq<Half>)

  /** Hardware that never answers, used when nothing further is scripted. */
  function Dead(): Hardware {
    Hardware(false, 0, false, false, false, [])
  }

  function ScriptAt(hws: seq<Hardware>, k: nat): Hardware {
    if k < |hws| then hws[k] else Dead()
  }

  // ---------------------------------------------------------------- one exchange

  predicate Transmits(hw: Hardware) {
    !hw.stale && hw.leftover <= FIFO_WORDS
  }

  predicate ControllerError(hw: Hardware) {
    hw.words == [] || !hw.drained || hw.overrun
  }

  /** The bytes received, if the exchange got that far cleanly. */
  predicate Receives(hw: Hardware) {
    Transmits(hw) && hw.completes && !ControllerError(hw) && |hw.words| <= FIFO_WORDS
  }

  predicate Replies(hw: Hardware) {
    Receives(hw) && ValidReply(BytesOf(hw.words))
  }

  /** The line was quiet, the packet went out, its end was signalled, and one to eight words came back that
      are a valid reply. */
  predicate Answers(hw: Hardware) {
    && !hw.stale && hw.leftover <= 8 && hw.completes && hw.drained && !hw.overrun
    && 1 <= |hw.words| <= 8 && ValidReply(BytesOf(hw.words))
  }

  /** What a valid reply's code means to the command that caused it. */
  function Classify(cmd: u8, code: u8): int {
    if code == 0x82 then 0
    else if cmd >= 0x20 && (code == 0x80 || code == 0x81) then RESULT_RETRY
    else if cmd < 0x20 && code < 0x80 then 0
    else ERR_STATUS
  }

  function Result(cmd: u8, hw: Hardware): int {
    if hw.stale then ERR_STATUS
    else if hw.leftover > FIFO_WORDS then ERR_DRAIN
    else if !hw.completes then ERR_COMPLETE
    else if !Replies(hw) then ERR_STATUS
    else Classify(cmd, BytesOf(hw.words)[2])
  }

  // ---------------------------------------------------------------- a whole command

  /** The driver's memory of replies, and (history) every packet that went out. */
  datatype Log = Log(reply: Packet, replySeq: u32, sent: seq<Packet>)

  function AfterExchange(l: Log, tx: Packet, hw: Hardware): Log {
    var sent := if Transmits(hw) then l.sent + [tx] else l.sent;
    if Replies(hw) then Log(ReplyOf(BytesOf(hw.words)), Wrap32((l.replySeq as int) + 1), sent)
        else Log(l.reply, l.replySeq, sent)
  }

  /** The second phase: polls while the answer is "retry", at most `left` of them. */
  function Polls(l: Log, cmd: u8, result: int, hws: seq<Hardware>, k: nat, left: nat): (Log, int)
    decreases left
  {
    if result != RESULT_RETRY || left == 0 then (l, result)
    else Polls(AfterExchange(l, Poll(cmd), ScriptAt(hws, k)), cmd, Result(cmd, ScriptAt(hws, k)), hws, k + 1, left - 1)
  }

  function Command(l: Log, cmd: u8, params: Packet, hws: seq<Hardware>): (Log, int)
    requires |params| <= MAX_PARAMS
  {
    var first := AfterExchange(l, Request(cmd, params), ScriptAt(hws, 0));
    var (end, result) := Polls(first, cmd, Result(cmd, ScriptAt(hws, 0)), hws, 1, RETRY_LIMIT);
    (end, if result == RESULT_RETRY then ERR_STATUS else result)
  }

  /** `count` copies of a packet. */
  function Copies(p: Packet, count: nat): (c: seq<Packet>)
    ensures |c| == count && forall i | 0 <= i < count :: c[i] == p
  {
    seq(count, _ => p)
  }

  /** Valid replies among `n` exchanges from number `k` on. */
  function CountReplies(hws: seq<Hardware>, k: nat, n: nat): (c: nat)
    ensures c <= n
    decreases n
  {
    if n == 0 then 0 else (if Replies(ScriptAt(hws, k)) then 1 else 0) + CountReplies(hws, k + 1, n - 1)
  }

  /** How many exchanges the second phase makes. */
  function PollCount(cmd: u8, result: int, hws: seq<Hardware>, k: nat, left: nat): (n: nat)
    ensures n <= left
    decreases left
  {
    if result != RESULT_RETRY || left == 0 then 0
        else 1 + PollCount(cmd, Result(cmd, ScriptAt(hws, k)), hws, k + 1, left - 1)
  }

  /** Packets that went out among `n` exchanges from number `k` on. */
  function CountSent(hws: seq<Hardware>, k: nat, n: nat): (c: nat)
    ensures c <= n
    decreases n
  {
    if n == 0 then 0 else (if Transmits(ScriptAt(hws, k)) then 1 else 0) + CountSent(hws, k + 1, n - 1)
  }

  lemma WrapTwice(a: u32, n: nat)
    ensures Wrap32((Wrap32((a as int) + 1) as int) + n) == Wrap32((a as int) + (1 + n))
  {
  }

  lemma WrapNothing(a: u32)
    ensures Wrap32((a as int) + 0) == a
  {
  }

  lemma {:induction false} PollsCount(l: Log, cmd: u8, result: int, hws: seq<Hardware>, k: nat, left: nat)
    ensures Polls(l, cmd, result, hws, k, left).0.replySeq
         == Wrap32((l.replySeq as int) + CountReplies(hws, k, PollCount(cmd, result, hws, k, left)))
    decreases left
  {
    hide Poll, Replies, Transmits, Result, Wrap32;
    WrapNothing(l.replySeq);
    if result == RESULT_RETRY && left > 0 {
      var hw := ScriptAt(hws, k);
      WrapTwice(l.replySeq, CountReplies(hws, k + 1, PollCount(cmd, Result(cmd, hw), hws, k + 1, left - 1)));
      PollsCount(AfterExchange(l, Poll(cmd), hw), cmd, Result(cmd, hw), hws, k + 1, left - 1);
    }
  }

  lemma {:induction false} PollsResult(l: Log, cmd: u8, result: int, hws: seq<Hardware>, k: nat, left: nat)
    ensures var r := Polls(l, cmd, result, hws, k, left).1;
            r == result || r in {0, ERR_DRAIN, ERR_COMPLETE, ERR_STATUS, RESULT_RETRY}
    decreases left
  {
    hide Poll, Replies, Transmits, AfterExchange;
    if result == RESULT_RETRY && left > 0 {
      PollsResult(AfterExchange(l, Poll(cmd), ScriptAt(hws, k)), cmd, Result(cmd, ScriptAt(hws, k)), hws, k + 1,
          left - 1);
    }
  }

  lemma OneCopyMore(l: seq<Packet>, p: Packet, m: nat)
    ensures (l + [p]) + Copies(p, m) == l + Copies(p, m + 1)
    ensures l + Copies(p, 0) == l
  {
  }

  lemma {:induction false} PollsSent(l: Log, cmd: u8, result: int, hws: seq<Hardware>, k: nat, left: nat)
    ensures Polls(l, cmd, result, hws, k, left).0.sent
         == l.sent + Copies(Poll(cmd), CountSent(hws, k, PollCount(cmd, result, hws, k, left)))
    decreases left
  {
    hide Poll, Replies, Transmits, Result, Copies;
    OneCopyMore(l.sent, Poll(cmd), 0);
    if result == RESULT_RETRY && left > 0 {
      var hw := ScriptAt(hws, k);
      PollsSent(AfterExchange(l, Poll(cmd), hw), cmd, Result(cmd, hw), hws, k + 1, left - 1);
      OneCopyMore(l.sent, Poll(cmd), CountSent(hws, k + 1, PollCount(cmd, Result(cmd, hw), hws, k + 1, left - 1)));
    }
  }

  /** Exchanges of a command: the request and its polls. */
  function ExchangeCount(cmd: u8, hws: seq<Hardware>): (n: nat)
    ensures 1 <= n <= 1 + RETRY_LIMIT
  {
    1 + PollCount(cmd, Result(cmd, ScriptAt(hws, 0)), hws, 1, RETRY_LIMIT)
  }

  /** The internal retry code never comes out. */
  lemma CommandResult(l: Log, cmd: u8, params: Packet, hws: seq<Hardware>)
    requires |params| <= MAX_PARAMS
    ensures Command(l, cmd, params, hws).1 in {0, ERR_DRAIN, ERR_COMPLETE, ERR_STATUS}
  {
    hide Request, AfterExchange, Replies;
    var hw := ScriptAt(hws, 0);
    PollsResult(AfterExchange(l, Request(cmd, params), hw), cmd, Result(cmd, hw), hws, 1, RETRY_LIMIT);
  }

  /** What one exchange's hardware says about a command: the code of its valid reply, if there is one. */
  function CodeIn(hw: Hardware): (code: int)
    ensures Replies(hw) ==> 0 <= code < 0x100
  {
    if Replies(hw) then BytesOf(hw.words)[2] else -1
  }

  lemma {:induction false} PollsEndWith(l: Log, cmd: u8, result: int, hws: seq<Hardware>, k: nat, left: nat)
    ensures var n := PollCount(cmd, result, hws, k, left);
            && (n == 0 ==> Polls(l, cmd, result, hws, k, left).1 == result && (result == RESULT_RETRY ==> left == 0))
            && (n > 0 ==> result == RESULT_RETRY
                          && Polls(l, cmd, result, hws, k, left).1 == Result(cmd, ScriptAt(hws, k + n - 1)))
            && (forall i: nat | k <= i < k + n - 1 :: Result(cmd, ScriptAt(hws, i)) == RESULT_RETRY)
            && (0 < n < left ==> Result(cmd, ScriptAt(hws, k + n - 1)) != RESULT_RETRY)
    decreases left
  {
    hide Poll, AfterExchange, Result;
    if result == RESULT_RETRY && left > 0 {
      var next := Result(cmd, ScriptAt(hws, k));
      PollsEndWith(AfterExchange(l, Poll(cmd), ScriptAt(hws, k)), cmd, next, hws, k + 1, left - 1);
    }
  }

  lemma ResultMeans(cmd: u8, hw: Hardware)
    ensures Result(cmd, hw) == RESULT_RETRY <==> Replies(hw) && cmd >= 0x20 && CodeIn(hw) in {0x80, 0x81}
    ensures Result(cmd, hw) == 0 <==> Replies(hw) && (CodeIn(hw) == 0x82 || (cmd < 0x20 && CodeIn(hw) < 0x80))
    ensures Result(cmd, hw) == ERR_DRAIN <==> !hw.stale && hw.leftover > FIFO_WORDS
    ensures Result(cmd, hw) == ERR_COMPLETE <==> !hw.stale && hw.leftover <= FIFO_WORDS && !hw.completes
    ensures Result(cmd, hw) in {0, ERR_DRAIN, ERR_COMPLETE, ERR_STATUS, RESULT_RETRY}
  {
    hide ValidReply, BytesOf;
    CodeIsInside(hw);
  }

  lemma CodeIsInside(hw: Hardware)
    ensures Replies(hw) ==> |BytesOf(hw.words)| >= 4
  {
  }

  /** A reply asks for another poll: its code is 0x80 or 0x81, to a command from 0x20 on. */
  predicate AsksAgain(cmd: u8, hw: Hardware) {
    Replies(hw) && cmd >= 0x20 && CodeIn(hw) in {0x80, 0x81}
  }

  /** The exchanges of a command go on as long as the reply asks for it, at most six; the last one
      decides the result. */
  lemma LastReplyDecides(l: Log, cmd: u8, params: Packet, hws: seq<Hardware>)
    requires |params| <= MAX_PARAMS
    ensures var n := ExchangeCount(cmd, hws);
            var result, last := Command(l, cmd, params, hws).1, ScriptAt(hws, n - 1);
            && (forall j: nat | j < n - 1 :: AsksAgain(cmd, ScriptAt(hws, j)))
            && (n < 6 ==> !AsksAgain(cmd, last))
            && (result == 0 <==> Replies(last) && (CodeIn(last) == 0x82 || (cmd < 0x20 && CodeIn(last) < 0x80)))
            && (result == ERR_DRAIN <==> !last.stale && last.leftover > FIFO_WORDS)
            && (result == ERR_COMPLETE <==> !last.stale && last.leftover <= FIFO_WORDS && !last.completes)
            && result in {0, ERR_DRAIN, ERR_COMPLETE, ERR_STATUS}
  {
    hide Request, Poll, AfterExchange, Replies, Result, CodeIn;
    var first := ScriptAt(hws, 0);
    PollsEndWith(AfterExchange(l, Request(cmd, params), first), cmd, Result(cmd, first), hws, 1, RETRY_LIMIT);
    var n := ExchangeCount(cmd, hws);
    forall j: nat | j < n
      ensures AsksAgain(cmd, ScriptAt(hws, j)) <==> Result(cmd, ScriptAt(hws, j)) == RESULT_RETRY
    {
      ResultMeans(cmd, ScriptAt(hws, j));
    }
    ResultMeans(cmd, ScriptAt(hws, n - 1));
  }

  /** The reply counter grows by exactly the valid replies. */
  lemma CommandCounts(l: Log, cmd: u8, params: Packet, hws: seq<Hardware>)
    requires |params| <= MAX_PARAMS
    ensures Command(l, cmd, params, hws).0.replySeq
            == Wrap32((l.replySeq as int) + CountReplies(hws, 0, ExchangeCount(cmd, hws)))
  {
    hide Request, Replies, Transmits, Result, Polls, PollCount, Wrap32;
    var hw := ScriptAt(hws, 0);
    WrapTwice(l.replySeq, CountReplies(hws, 1, ExchangeCount(cmd, hws) - 1));
    PollsCount(AfterExchange(l, Request(cmd, params), hw), cmd, Result(cmd, hw), hws, 1, RETRY_LIMIT);
  }

  lemma SentOnce(hws: seq<Hardware>)
    ensures CountSent(hws, 0, 1) == if Transmits(ScriptAt(hws, 0)) then 1 else 0
  {
    hide Transmits;
    assert CountSent(hws, 1, 0) == 0;
  }

  /** A command puts its own packet on the wire at most once, then at most five command-only
      polls, all of them well formed. */
  lemma CommandSends(l: Log, cmd: u8, params: Packet, hws: seq<Hardware>)
    requires |params| <= MAX_PARAMS
    ensures var own, polls := CountSent(hws, 0, 1), CountSent(hws, 1, ExchangeCount(cmd, hws) - 1);
            && own <= 1 && polls <= RETRY_LIMIT
            && Command(l, cmd, params, hws).0.sent
                == l.sent + Copies(Request(cmd, params), own) + Copies(Poll(cmd), polls)
    ensures WellFormed(Request(cmd, params)) && WellFormed(Poll(cmd))
  {
    hide Request, Poll, Replies, Transmits, Copies, WellFormed, Result, Polls, PollCount, CountSent;
    RequestsAreWellFormed(cmd, params);
    RequestsAreWellFormed(cmd, []);
    PollIsAnEmptyRequest(cmd);
    SentOnce(hws);
    var hw := ScriptAt(hws, 0);
    PollsSent(AfterExchange(l, Request(cmd, params), hw), cmd, Result(cmd, hw), hws, 1, RETRY_LIMIT);
    OneCopyMore(l.sent, Request(cmd, params), 0);
  }

  // ---------------------------------------------------------------- the driver

  lemma {:induction false} WordsStep(p: Packet, i: nat)
    requires i % 2 == 0 && i < |p|
    ensures Words(p[i..]) == [HalfWord(p[i], if i + 1 < |p| then p[i + 1] else 0xFF)] + if i + 2 <= |p|
            then Words(p[i + 2..]) else []
  {
    if i + 1 < |p| {
      assert p[i..][2..] == p[i + 2..];
    }
  }

  lemma {:induction false} BytesInParts(ws: seq<Half>, i: nat)
    requires i < |ws|
    ensures BytesOf(ws[..i + 1]) == BytesOf(ws[..i]) + [ws[i] / 0x100, ws[i] % 0x100]
    decreases i
  {
    if i == 0 {
      assert ws[..1] == [ws[0]] && ws[..1][1..] == [] && ws[..0] == [];
    } else {
      assert ws[..i + 1][1..] == ws[1..][..i] && ws[..i][1..] == ws[1..][..i - 1];
      BytesInParts(ws[1..], i - 1);
    }
  }

  class Driver {
    const store: array<u8>     // the reply on file, and older bytes behind it
    var replyLen: nat
    var replySeq: u32
    ghost var sent: seq<Packet>

    ghost function State(): Log
      requires replyLen <= store.Length
      reads this, store
    {
      Log(store[..replyLen], replySeq, sent)
    }

    ghost predicate Valid()
      reads this, store
    {
      store.Length == 16 && replyLen <= 16 && (replySeq == 0 || replyLen >= 4)
    }

    constructor ()
      ensures Valid() && fresh(store) && State() == Log([], 0, [])
    {
      store := new u8[16](_ => 0);
      replyLen, replySeq, sent := 0, 0, [];
      new;
      assert store[..0] == [];
    }

    /** The FIFO words written for `total` bytes of a buffer whose odd tail is padded. */
    method Load(tx: array<u8>, total: nat) returns (words: seq<Half>)
      requires total < tx.Length && (total % 2 == 1 ==> tx[total] == 0xFF)
      ensures words == Words(tx[..total])
    {
      words := [];
      ghost var p := tx[..total];
      var i := 0;
      assert p[0..] == p;
      while i < total
        invariant 0 <= i <= total + 1 && i % 2 == 0
        invariant Words(p) == words + if i <= total then Words(p[i..]) else []
      {
        WordsStep(p, i);
        words := words + [HalfWord(tx[i], tx[i + 1])];
        i := i + 2;
      }
    }

    /** At most eight words from the receive FIFO. */
    method Drain(words: seq<Half>) returns (rx: Packet)
      ensures rx == BytesOf(words[..if |words| <= FIFO_WORDS then |words| else FIFO_WORDS])
    {
      rx := [];
      var i := 0;
      assert words[..0] == [];
      while i < FIFO_WORDS && i < |words|
        invariant 0 <= i <= FIFO_WORDS && i <= |words| && rx == BytesOf(words[..i])
      {
        BytesInParts(words, i);
        rx := rx + [words[i] / 0x100, words[i] % 0x100];
        i := i + 1;
      }
    }

    method Checksum(p: Packet) returns (h: u8)
      ensures h == Hash(p)
    {
      var sum: nat := 0;
      assert p[..|p|] == p;
      for i := 0 to |p|
        invariant sum == Sum(p[..i])
      {
        assert p[..i + 1][..i] == p[..i];
        sum := sum + p[i];
      }
      h := 0xFF - sum % 0x100;
    }

    method CheckReply(rx: Packet) returns (ok: bool)
      ensures ok == ValidReply(rx)
    {
      if |rx| < 4 {
        return false;
      }
      var len := rx[1];
      if len < 3 || len >= 16 || |rx| < len + 1 {
        return false;
      }
      var h := Checksum(rx[..len]);
      ok := rx[len] == h;
    }

    method Publish(rx: Packet)
      requires Valid() && ValidReply(rx)
      modifies this`replyLen, this`replySeq, store
      ensures Valid() && State() == Log(ReplyOf(rx), Wrap32((old(replySeq) as int) + 1), old(sent))
    {
      replyLen := rx[1] + 1;
      for i := 0 to replyLen
        invariant replyLen == rx[1] + 1 && replySeq == old(replySeq) && sent == old(sent)
        invariant forall k | 0 <= k < i :: store[k] == rx[k]
      {
        store[i] := rx[i];
      }
      assert store[..replyLen] == ReplyOf(rx);
      replySeq := Wrap32((replySeq as int) + 1);
    }

    /** `sc_exchange`: one packet out, at most one reply in. */
    method Exchange(tx: array<u8>, total: nat, hw: Hardware) returns (result: int, words: seq<Half>)
      requires Valid() && tx != store && 1 <= total < tx.Length && (total % 2 == 1 ==> tx[total] == 0xFF)
      modifies this, store
      ensures Valid() && State() == AfterExchange(old(State()), tx[..total], hw)
      ensures result == Result(tx[0], hw)
      ensures words == if Transmits(hw) then Words(tx[..total]) else []
      ensures sent == old(sent) + if !hw.stale && hw.leftover <= 8 then [tx[..total]] else []
      ensures replySeq == if Answers(hw) then Wrap32((old(replySeq) as int) + 1) else old(replySeq)
    {
      hide Words, BytesOf, ValidReply, ReplyOf;
      result, words := ERR_STATUS, [];
      if hw.stale {
        return;
      }
      var left := hw.leftover;
      var i := 0;
      while i < FIFO_WORDS && left > 0
        invariant 0 <= i <= FIFO_WORDS && left == if hw.leftover <= i then 0 else hw.leftover - i
      {
        left, i := left - 1, i + 1;
      }
      if left > 0 {
        return ERR_DRAIN, [];
      }
      words := Load(tx, total);
      sent := sent + [tx[..total]];
      if !hw.completes {
        return ERR_COMPLETE, words;
      }
      var controllerError := hw.words == [] || !hw.drained || hw.overrun;
      var rx := Drain(hw.words);
      if |hw.words| > FIFO_WORDS || controllerError {
        return;
      }
      assert hw.words[..|hw.words|] == hw.words;
      var ok := CheckReply(rx);
      if !ok {
        return;
      }
      CodeIsThere(rx);
      Publish(rx);
      result := Classify(tx[0], rx[2]);
    }

    method BuildRequest(cmd: u8, params: Packet) returns (buf: array<u8>, total: nat)
      requires |params| <= MAX_PARAMS
      ensures fresh(buf) && buf.Length == 16 && total == 3 + |params| && buf[..total] == Request(cmd, params)
      ensures forall k | total <= k < 16 :: buf[k] == 0xFF
    {
      hide Hash;
      buf := new u8[16](_ => 0xFF);
      var len := 2 + |params|;
      buf[0], buf[1] := cmd, len;
      for i := 0 to |params|
        invariant buf[0] == cmd && buf[1] == len && buf[2..2 + i] == params[..i]
        invariant forall k | 2 + i <= k < 16 :: buf[k] == 0xFF
      {
        buf[2 + i] := params[i];
      }
      assert buf[..len] == [cmd, len] + params;
      var h := Checksum(buf[..len]);
      buf[len] := h;
      total := len + 1;
    }

    method BuildPoll(cmd: u8) returns (retry: array<u8>)
      ensures fresh(retry) && retry.Length == 4 && retry[..3] == Poll(cmd) && retry[3] == 0xFF
    {
      retry := new u8[4](_ => 0xFF);
      PollHash(cmd);
      retry[0], retry[1], retry[2], retry[3] := cmd, 2, 0xFF - ((cmd as int) + 2) % 0x100, 0xFF;
    }

    /** `psp_syscon_cmd`. */
    method Cmd(cmd: u8, params: Packet, hws: seq<Hardware>) returns (result: int)
      requires Valid()
      modifies this, store
      ensures Valid()
      ensures |params| > MAX_PARAMS ==> result == -1 && State() == old(State())
      ensures |params| <= MAX_PARAMS ==> (State(), result) == Command(old(State()), cmd, params, hws)
    {
      hide Request, Poll, AfterExchange, Result, Words;
      if |params| > MAX_PARAMS {
        return -1;
      }
      var buf, total := BuildRequest(cmd, params);
      FirstByte(cmd, params);
      assert buf[..total][0] == buf[0];
      var _, _ := Exchange(buf, total, ScriptAt(hws, 0));
      result := Result(cmd, ScriptAt(hws, 0));
      result := Repeat(cmd, result, hws);
      if result == RESULT_RETRY {
        result := ERR_STATUS;
      }
    }

    method Repeat(cmd: u8, first: int, hws: seq<Hardware>) returns (result: int)
      requires Valid()
      modifies this, store
      ensures Valid() && (State(), result) == Polls(old(State()), cmd, first, hws, 1, RETRY_LIMIT)
    {
      hide Poll, AfterExchange, Result, Words;
      var retry := BuildPoll(cmd);
      FirstByteOfPoll(cmd);
      assert retry[..3][0] == retry[0];
      result := first;
      var i := 0;
      while result == RESULT_RETRY && i < RETRY_LIMIT
        invariant 0 <= i <= RETRY_LIMIT && Valid()
        invariant retry[..3] == Poll(cmd) && retry[3] == 0xFF && retry[0] == cmd
        invariant Polls(old(State()), cmd, first, hws, 1, RETRY_LIMIT)
                  == Polls(State(), cmd, result, hws, 1 + i, RETRY_LIMIT - i)
      {
        var words;
        result, words := Exchange(retry, 3, ScriptAt(hws, 1 + i));
        i := i + 1;
      }
    }

    /** `psp_syscon_poll_status`: succeeds exactly when a valid reply arrived during the call. */
    method PollStatus(hws: seq<Hardware>) returns (rc: int, status: u8)
      requires Valid()
      modifies this, store
      ensures Valid() && State() == Command(old(State()), 0x00, [], hws).0
      ensures rc == 0 <==> CountReplies(hws, 0, ExchangeCount(0x00, hws)) > 0
      ensures rc == 0 ==> status == store[0]
      ensures rc != 0 ==> status == 0
                          && var result := Command(old(State()), 0x00, [], hws).1;
                             rc == if result != 0 then result else -1
    {
      hide Command, CountReplies, ExchangeCount;
      var seqBefore := replySeq;
      CommandCounts(State(), 0x00, [], hws);
      CommandResult(State(), 0x00, [], hws);
      status := 0;
      var result := Cmd(0x00, [], hws);
      CounterMoved(seqBefore, CountReplies(hws, 0, ExchangeCount(0x00, hws)));
      if replySeq == seqBefore {
        rc := if result != 0 then result else -1;
      } else {
        status := store[0];
        rc := 0;
      }
    }

    /** `psp_syscon_baryon_version`: a version comes only from a reply of this call, and is its
        payload as a little-endian number. */
    method BaryonVersion(hws: seq<Hardware>) returns (rc: int, version: nat)
      requires Valid()
      modifies this, store
      ensures Valid() && State() == Command(old(State()), 0x01, [], hws).0 && rc in {0, -1}
      ensures rc == 0 <==> && Command(old(State()), 0x01, [], hws).1 == 0
                           && CountReplies(hws, 0, ExchangeCount(0x01, hws)) > 0 && 5 <= replyLen <= 8
      ensures rc == 0 ==> version == LittleEndian(store[3..replyLen - 1])
    {
      hide Command, CountReplies, ExchangeCount;
      rc, version := -1, 0;
      var seqBefore := replySeq;
      CommandCounts(State(), 0x01, [], hws);
      var result := Cmd(0x01, [], hws);
      CounterMoved(seqBefore, CountReplies(hws, 0, ExchangeCount(0x01, hws)));
      if result != 0 || replySeq == seqBefore {
        return;
      }
      var payload := (replyLen as int) - 1 - 3;
      if payload < 1 || payload > 4 {
        return;
      }
      version := ReadNumber(payload);
      rc := 0;
    }

    method ReadNumber(payload: nat) returns (version: nat)
      requires Valid() && 3 + payload <= 16
      ensures version == LittleEndian(store[3..3 + payload])
    {
      version := 0;
      var weight: nat := 1;
      ghost var bytes := store[3..3 + payload];
      NothingYet(bytes);
      for i := 0 to payload
        invariant version == LittleEndian(bytes[..i]) && weight == Weight(i)
      {
        LittleEndianStep(bytes, i);
        version := version + (store[3 + i] as nat) * weight;
        weight := weight * 0x100;
      }
      assert bytes[..payload] == bytes;
    }
  }

  function Weight(i: nat): nat {
    if i == 0 then 1 else Weight(i - 1) * 0x100
  }

  /** The number a little-endian byte string stands for. */
  function LittleEndian(p: Packet): nat {
    if p == [] then 0 else LittleEndian(p[..|p| - 1]) + (p[|p| - 1] as nat) * Weight(|p| - 1)
  }

  /** The first byte is the last digit in base 256. */
  lemma {:induction false} FirstByteIsLowest(p: Packet)
    requires p != []
    ensures LittleEndian(p) == p[0] + 0x100 * LittleEndian(p[1..])
    decreases |p|
  {
    if |p| == 1 {
      assert p[..0] == [] && p[1..] == [];
    } else {
      FirstByteIsLowest(p[..|p| - 1]);
      assert p[..|p| - 1][1..] == p[1..][..|p| - 2];
    }
  }

  lemma LittleEndianStep(p: Packet, i: nat)
    requires i < |p|
    ensures LittleEndian(p[..i + 1]) == LittleEndian(p[..i]) + (p[i] as nat) * Weight(i)
  {
    assert p[..i + 1][..i] == p[..i];
  }

  lemma NothingYet(p: Packet)
    ensures LittleEndian(p[..0]) == 0
  {
  }

  lemma CodeIsThere(rx: Packet)
    requires ValidReply(rx)
    ensures |rx| > 2
  {
  }

  lemma PollHash(cmd: u8)
    ensures Poll(cmd) == [cmd, 2, 0xFF - ((cmd as int) + 2) % 0x100]
  {
    SumOf([], cmd);
    SumOf([cmd], 2);
    assert [] + [cmd] == [cmd] && [cmd] + [2] == [cmd, 2];
  }

  lemma FirstByte(cmd: u8, params: Packet)
    requires |params| <= MAX_PARAMS
    ensures |Request(cmd, params)| == 3 + |params| && Request(cmd, params)[0] == cmd
  {
  }

  lemma FirstByteOfPoll(cmd: u8)
    ensures |Poll(cmd)| == 3 && Poll(cmd)[0] == cmd
  {
  }

  /** A counter that has seen a few events has moved exactly when there was one. */
  lemma CounterMoved(before: u32, n: nat)
    requires n <= 6
    ensures Wrap32((before as int) + n) == before <==> n == 0
  {
  }
}
