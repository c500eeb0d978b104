/**
  The reader on plain text. When a stream pauses for less than the retry budget allows, the
  zero-length reads have no effect, so what a response means can be studied on its bytes.
*/
module HttpText {
  import opened CText
  import opened HttpMachine

  function Chars(s: seq<Item>): string {
    if s == [] then ""
    else if s[0].Data? then [s[0].c] + Chars(s[1..])
    else Chars(s[1..])
  }

  /** `n` bytes that all renew the retry budget. */
  function Renewing(n: nat): (r: seq<bool>)
    ensures |r| == n && forall i | 0 <= i < n :: r[i]
  {
    seq(n, _ => true)
  }

  /**
    The rest of a script whose next bytes, one for each element of `renews`, come in time:
    before each there are fewer zero-length reads than the budget, which is `budget` at
    first and set to `renew` by every byte that renews it. With `toEnd` no error follows
    before the last budget is used up. None when a byte is late or an error comes first.
  */
  function Deliver(s: seq<Item>, renews: seq<bool>, toEnd: bool, budget: nat, renew: nat): Option<seq<Item>>
    decreases |s|
  {
    if renews == [] && !toEnd then Some(s)
    else if s == [] then if renews == [] then Some([]) else None
    else
      match s[0]
      case Fail => None
      case Idle =>
        if budget > 0 then Deliver(s[1..], renews, toEnd, budget - 1, renew)
        else if renews == [] then Some(s[1..])
        else None
      case Data(_) =>
        if renews == [] || budget == 0 then None
        else Deliver(s[1..], renews[1..], toEnd, if renews[0] then renew else budget, renew)
  }

  // ------------------------------------------------------------------ header

  datatype HText = HText(stop: Stop, info: Info, rest: string)

  function NormH(st: HState): HState {
    st.(retry := 0, count := 0)
  }

  /** `HeaderRun` on bytes alone. */
  function HeaderText(st: HState, t: string): (r: HText)
    requires HeaderOk(st)
    ensures if r.stop.Quiet? then r.rest == "" else |r.rest| < |t|
    ensures !r.stop.Failed?
    decreases |t|
  {
    if t == "" then HText(Quiet, st.info, t)
    else
      match HeaderByte(st, t[0])
      case Halt(stop, end) => HText(stop, end.info, t[1..])
      case Go(next) => HeaderText(NormH(next), t[1..])
  }

  lemma HeaderByteNorm(st: HState, c: char)
    requires HeaderOk(st)
    ensures var a, b := HeaderByte(st, c), HeaderByte(NormH(st), c);
      && (a.Go? ==> b.Go? && NormH(a.st) == NormH(b.st) && a.st.retry == GET_RETRY && a.st.count == st.count + 1)
      && (a.Halt? ==> a.stop.HeaderEnd? || a.stop.Dropped? || a.stop.Overrun?)
      && (a.Halt? ==> b.Halt? && a.stop == b.stop && a.end.info == b.end.info && a.end.count == st.count + 1)
  {
    hide ReadLine, CStr;
  }

  /** The bytes that `HeaderText` takes. */
  function HeaderTaken(st: HState, t: string): nat
    requires HeaderOk(st)
  {
    |t| - |HeaderText(st, t).rest|
  }

  ghost predicate HeaderAgrees(st: HState, s: seq<Item>)
    requires HeaderOk(st)
  {
    var r, q := HeaderRun(st, s), HeaderText(NormH(st), Chars(s));
    && r.stop == q.stop && r.info == q.info && Chars(r.rest) == q.rest
    && r.count == st.count + HeaderTaken(NormH(st), Chars(s))
  }

  /** The header run does with a script what it does with the bytes alone exactly when the
      bytes that it takes come in time: each before the retries since the last are used up. */
  lemma {:induction false} HeaderPauses(st: HState, s: seq<Item>)
    requires HeaderOk(st)
    ensures var r, q := HeaderRun(st, s), HeaderText(NormH(st), Chars(s));
      var d := Deliver(s, Renewing(HeaderTaken(NormH(st), Chars(s))), q.stop.Quiet?, st.retry, GET_RETRY);
      && (HeaderAgrees(st, s) <==> d.Some?)
      && (d.Some? ==> r.rest == d.value)
      && (d.None? ==> r.stop.Quiet? || r.stop.Failed?)
    decreases |s|, st.retry
  {
    hide HeaderByte;
    var t := Chars(s);
    if s == [] {
      HeaderEnds(st);
    } else if s[0].Idle? && st.retry > 0 {
      HeaderPauses(st.(retry := st.retry - 1), s[1..]);
    } else if s[0].Data? {
      assert t[1..] == Chars(s[1..]);
      HeaderByteNorm(st, s[0].c);
      var step := HeaderByte(st, s[0].c);
      if st.retry > 0 && step.Go? {
        HeaderPauses(step.st, s[1..]);
        assert Renewing(HeaderTaken(NormH(st), t))[1..] == Renewing(HeaderTaken(NormH(step.st), t[1..]));
      }
    }
  }

  lemma {:induction false} HeaderEnds(st: HState)
    requires HeaderOk(st)
    ensures HeaderRun(st, []) == HResult(Quiet, st.info, st.count, [])
    decreases st.retry
  {
    if st.retry > 0 {
      HeaderEnds(st.(retry := st.retry - 1));
    }
  }

  // ------------------------------------------------------------------ body

  datatype BText = BText(end: End, text: string, rest: string)

  function NormB(st: BState): BState {
    st.(retry := 0, count := 0)
  }

  /** `BodyRun` on bytes alone. */
  function BodyText(m: Mode, st: BState, t: string): (r: BText)
    requires BodyOk(m, st)
    ensures if r.end.Complete? then |r.rest| < |t| else r.end.TimedOut? && r.rest == ""
    ensures |r.text| < m.max
    decreases |t|
  {
    if t == "" then BText(TimedOut, st.text, t)
    else
      match BodyByte(m, st, t[0])
      case Done(end) => BText(Complete, end.text, t[1..])
      case More(next) => BodyText(m, NormB(next), t[1..])
  }

  lemma BodyByteNorm(m: Mode, st: BState, c: char)
    requires BodyOk(m, st)
    ensures var a, b := BodyByte(m, st, c), BodyByte(m, NormB(st), c);
      && (a.More? ==> b.More? && NormB(a.st) == NormB(b.st) && a.st.count == st.count + 1 && a.st.last == c)
      && (a.More? ==> a.st.retry == if Skips(st, c) then st.retry else POST_RETRY)
      && Skips(st, c) == Skips(NormB(st), c)
      && (a.Done? ==> b.Done? && a.end.text == b.end.text && a.end.count == st.count + 1)
  {
  }

  /** The line feed behind a chunk, which is skipped without renewing the retry count. */
  predicate Skips(st: BState, c: char) {
    st.fetchTerm && st.last == CR && c == LF
  }

  /** Which of the bytes that `BodyText` takes renew the retry count. */
  function Renewals(m: Mode, st: BState, t: string): (r: seq<bool>)
    requires BodyOk(m, st)
    ensures |r| == |t| - |BodyText(m, st, t).rest|
    decreases |t|
  {
    if t == "" then []
    else
      match BodyByte(m, st, t[0])
      case Done(_) => [true]
      case More(next) => [!Skips(st, t[0])] + Renewals(m, NormB(next), t[1..])
  }

  ghost predicate BodyAgrees(m: Mode, st: BState, s: seq<Item>)
    requires BodyOk(m, st)
  {
    var r, q := BodyRun(m, st, s), BodyText(m, NormB(st), Chars(s));
    && r.end == q.end && r.text == q.text && Chars(r.rest) == q.rest
    && r.count == st.count + |Chars(s)| - |q.rest|
  }

  /** The same for the body, in which the line feeds behind chunks renew nothing: the pauses
      on both sides of one of them share a budget. */
  lemma {:induction false} BodyPauses(m: Mode, st: BState, s: seq<Item>)
    requires BodyOk(m, st)
    ensures var r, q := BodyRun(m, st, s), BodyText(m, NormB(st), Chars(s));
      var d := Deliver(s, Renewals(m, NormB(st), Chars(s)), q.end.TimedOut?, st.retry, POST_RETRY);
      && (BodyAgrees(m, st, s) <==> d.Some?)
      && (d.Some? ==> r.rest == d.value)
    decreases |s|, st.retry
  {
    hide BodyByte, Skips;
    if s == [] {
      BodyEnds(m, st);
    } else if s[0].Idle? && st.retry > 0 {
      BodyPauses(m, st.(retry := st.retry - 1), s[1..]);
    } else if s[0].Data? {
      var step := BodyByte(m, st, s[0].c);
      BodyByteNorm(m, st, s[0].c);
      assert Chars(s)[1..] == Chars(s[1..]);
      if st.retry > 0 && step.More? {
        BodyPauses(m, step.st, s[1..]);
        BodyPauseStep(m, st, s, step.st);
      }
    }
  }

  lemma BodyPauseStep(m: Mode, st: BState, s: seq<Item>, next: BState)
    requires BodyOk(m, st) && s != [] && s[0].Data? && st.retry > 0 && BodyByte(m, st, s[0].c) == More(next)
    ensures BodyRun(m, st, s) == BodyRun(m, next, s[1..])
    ensures BodyText(m, NormB(st), Chars(s)) == BodyText(m, NormB(next), Chars(s[1..]))
    ensures var more := Renewals(m, NormB(next), Chars(s[1..]));
      && Renewals(m, NormB(st), Chars(s)) == [!Skips(st, s[0].c)] + more
      && forall toEnd :: Deliver(s, [!Skips(st, s[0].c)] + more, toEnd, st.retry, POST_RETRY) ==
                         Deliver(s[1..], more, toEnd, next.retry, POST_RETRY)
  {
    hide BodyByte;
    BodyByteNorm(m, st, s[0].c);
    assert Chars(s)[1..] == Chars(s[1..]);
    var more := Renewals(m, NormB(next), Chars(s[1..]));
    assert ([!Skips(st, s[0].c)] + more)[1..] == more;
  }

  lemma {:induction false} BodyEnds(m: Mode, st: BState)
    requires BodyOk(m, st)
    ensures BodyRun(m, st, []) == BResult(TimedOut, st.text, st.count, [])
    decreases st.retry
  {
    if st.retry > 0 {
      BodyEnds(m, st.(retry := st.retry - 1));
    }
  }

  // ------------------------------------------------------------------ one response

  datatype RText = RText(stop: Stop, code: int, text: Option<string>, end: Option<End>, rest: string)

  function ReplyText(max: nat, last: char, garbage: string, t: string): (r: RText)
    requires 0 < max && last != CR
  {
    var h := HeaderText(NormH(StartHeader(last, garbage)), t);
    var code := if h.stop.Dropped? then ERROR_CONNECTION_DROP else h.info.retcode;
    if h.stop.Overrun? || code <= 0 then RText(h.stop, code, None, None, h.rest)
    else
      var m := Mode(h.info.size, h.info.chunked, max);
      var b := BodyText(m, NormB(StartBody(m)), h.rest);
      RText(h.stop, code, Some(b.text), Some(b.end), b.rest)
  }

  /** A call takes a whole answer in time; the rest of the script then. */
  function CallDelivers(max: nat, last: char, garbage: string, s: seq<Item>): Option<seq<Item>>
    requires 0 < max && last != CR
  {
    var st, t := NormH(StartHeader(last, garbage)), Chars(s);
    var h := HeaderText(st, t);
    match Deliver(s, Renewing(HeaderTaken(st, t)), h.stop.Quiet?, POST_RETRY, GET_RETRY)
    case None => None
    case Some(rest) =>
      if ReplyText(max, last, garbage, t).text.None? then Some(rest)
      else
        var m := Mode(h.info.size, h.info.chunked, max);
        var b := NormB(StartBody(m));
        Deliver(rest, Renewals(m, b, h.rest), BodyText(m, b, h.rest).end.TimedOut?, POST_RETRY, POST_RETRY)
  }

  ghost predicate ReplyAgrees(max: nat, last: char, garbage: string, s: seq<Item>)
    requires 0 < max && last != CR
  {
    var r, q := GetReply(max, last, garbage, s), ReplyText(max, last, garbage, Chars(s));
    && r.stop == q.stop && r.code == q.code && r.text == q.text && r.end == q.end
    && Chars(r.rest) == q.rest && r.count == |Chars(s)| - |q.rest|
  }

  /** Pauses are invisible to a call that takes its answer in time, and to no other when
      there is a whole header to read. */
  lemma PausesAreInvisible(max: nat, last: char, garbage: string, s: seq<Item>)
    requires 0 < max && last != CR
    ensures var d := CallDelivers(max, last, garbage, s);
      && (d.Some? ==> ReplyAgrees(max, last, garbage, s) && GetReply(max, last, garbage, s).rest == d.value)
      && (!ReplyText(max, last, garbage, Chars(s)).stop.Quiet? && ReplyAgrees(max, last, garbage, s) ==> d.Some?)
  {
    hide HeaderRun, HeaderText, BodyRun, BodyText, Deliver, Renewals;
    var st := StartHeader(last, garbage);
    HeaderPauses(st, s);
    var h := HeaderRun(st, s);
    if !h.stop.Overrun? && HeaderCode(h) > 0 {
      var m := Mode(h.info.size, h.info.chunked, max);
      BodyPauses(m, StartBody(m), h.rest);
    }
  }

  function Pause(n: nat): (s: seq<Item>)
    ensures |s| == n && forall i | 0 <= i < n :: s[i] == Idle
  {
    seq(n, _ => Idle)
  }

  lemma PauseSplits(n: nat, k: nat, s: seq<Item>)
    requires k <= n
    ensures Pause(n) + s == Pause(k) + (Pause(n - k) + s)
    ensures s != [] ==> (Pause(n - k) + s)[1..] == (Pause(n) + s)[k + 1..]
  {
  }

  /** A pause costs its length in retries. */
  lemma {:induction false} HeaderWaits(st: HState, n: nat, s: seq<Item>)
    requires HeaderOk(st) && n <= st.retry
    ensures HeaderRun(st, Pause(n) + s) == HeaderRun(st.(retry := st.retry - n), s)
    decreases n
  {
    hide HeaderByte;
    if n == 0 {
      assert Pause(n) + s == s;
    } else {
      assert (Pause(n) + s)[1..] == Pause(n - 1) + s;
      HeaderWaits(st.(retry := st.retry - 1), n - 1, s);
    }
  }

  /** A pause before a byte of the header changes nothing exactly when it is shorter than the
      retry budget; otherwise the call ends there, and one more read is lost with it. */
  lemma HeaderPauseExact(st: HState, n: nat, c: char, s: seq<Item>)
    requires HeaderOk(st)
    ensures HeaderRun(st, Pause(n) + ([Data(c)] + s)) == HeaderRun(st, [Data(c)] + s) <==> n == 0 || n < st.retry
    ensures n >= st.retry ==>
      var all := Pause(n) + ([Data(c)] + s);
      HeaderRun(st, all) == HResult(Quiet, st.info, st.count, all[st.retry + 1..])
  {
    hide HeaderRun;
    var byte := [Data(c)] + s;
    if n < st.retry {
      HeaderWaits(st, n, byte);
      HeaderSameBudget(st, st.(retry := st.retry - n), byte);
    } else {
      HeaderTooLate(st, n, byte);
      NoPause(byte);
      HeaderCounts(st, byte);
      if st.retry == 0 {
        HeaderTooLate(st, 0, byte);
      }
    }
  }

  lemma NoPause(s: seq<Item>)
    ensures Pause(0) + s == s
  {
  }

  lemma HeaderTooLate(st: HState, n: nat, byte: seq<Item>)
    requires HeaderOk(st) && byte != [] && byte[0].Data? && n >= st.retry
    ensures HeaderRun(st, Pause(n) + byte) == HResult(Quiet, st.info, st.count, (Pause(n) + byte)[st.retry + 1..])
  {
    hide HeaderRun;
    HeaderWaits(st, st.retry, Pause(n - st.retry) + byte);
    PauseSplits(n, st.retry, byte);
    HeaderSpent(st.(retry := 0), Pause(n - st.retry) + byte);
  }

  lemma HeaderSpent(st: HState, s: seq<Item>)
    requires HeaderOk(st) && st.retry == 0 && s != [] && !s[0].Fail?
    ensures HeaderRun(st, s) == HResult(Quiet, st.info, st.count, s[1..])
  {
  }

  lemma HeaderSameBudget(st: HState, less: HState, s: seq<Item>)
    requires HeaderOk(st) && st == less.(retry := st.retry) && st.retry > 0 && less.retry > 0
    requires s != [] && s[0].Data?
    ensures HeaderRun(st, s) == HeaderRun(less, s)
  {
    hide ReadLine, CStr;
    assert HeaderByte(st, s[0].c) == HeaderByte(less, s[0].c);
  }

  lemma {:induction false} HeaderCounts(st: HState, s: seq<Item>)
    requires HeaderOk(st)
    ensures HeaderRun(st, s).count >= st.count
    ensures s != [] && s[0].Data? && st.retry > 0 ==> HeaderRun(st, s).count > st.count
    decreases |s|, st.retry
  {
    hide HeaderByte;
    if s == [] {
      HeaderEnds(st);
    } else if s[0].Idle? && st.retry > 0 {
      HeaderCounts(st.(retry := st.retry - 1), s[1..]);
    } else if s[0].Data? && st.retry > 0 {
      HeaderByteNorm(st, s[0].c);
      if HeaderByte(st, s[0].c).Go? {
        HeaderCounts(HeaderByte(st, s[0].c).st, s[1..]);
      }
    }
  }

  lemma {:induction false} BodyCounts(m: Mode, st: BState, s: seq<Item>)
    requires BodyOk(m, st)
    ensures BodyRun(m, st, s).count >= st.count
    ensures s != [] && s[0].Data? && st.retry > 0 ==> BodyRun(m, st, s).count > st.count
    decreases |s|, st.retry
  {
    hide BodyByte;
    if s == [] {
      BodyEnds(m, st);
    } else if s[0].Idle? && st.retry > 0 {
      BodyCounts(m, st.(retry := st.retry - 1), s[1..]);
    } else if s[0].Data? && st.retry > 0 {
      BodyByteNorm(m, st, s[0].c);
      if BodyByte(m, st, s[0].c).More? {
        BodyCounts(m, BodyByte(m, st, s[0].c).st, s[1..]);
      }
    }
  }

  lemma {:induction false} BodyWaits(m: Mode, st: BState, n: nat, s: seq<Item>)
    requires BodyOk(m, st) && n <= st.retry
    ensures BodyRun(m, st, Pause(n) + s) == BodyRun(m, st.(retry := st.retry - n), s)
    decreases n
  {
    hide BodyByte;
    if n == 0 {
      assert Pause(n) + s == s;
    } else {
      assert (Pause(n) + s)[1..] == Pause(n - 1) + s;
      BodyWaits(m, st.(retry := st.retry - 1), n - 1, s);
    }
  }

  lemma BodyTooLate(m: Mode, st: BState, n: nat, byte: seq<Item>)
    requires BodyOk(m, st) && byte != [] && byte[0].Data? && n >= st.retry
    ensures BodyRun(m, st, Pause(n) + byte) == BResult(TimedOut, st.text, st.count, (Pause(n) + byte)[st.retry + 1..])
  {
    hide BodyRun;
    BodyWaits(m, st, st.retry, Pause(n - st.retry) + byte);
    PauseSplits(n, st.retry, byte);
    BodySpent(m, st.(retry := 0), Pause(n - st.retry) + byte);
  }

  lemma BodySpent(m: Mode, st: BState, s: seq<Item>)
    requires BodyOk(m, st) && st.retry == 0 && s != [] && !s[0].Fail?
    ensures BodyRun(m, st, s) == BResult(TimedOut, st.text, st.count, s[1..])
  {
  }

  /** The same for a pause in the body before a byte that renews the retry count. */
  lemma BodyPauseExact(m: Mode, st: BState, n: nat, c: char, s: seq<Item>)
    requires BodyOk(m, st) && !Skips(st, c)
    ensures BodyRun(m, st, Pause(n) + ([Data(c)] + s)) == BodyRun(m, st, [Data(c)] + s) <==> n == 0 || n < st.retry
    ensures n >= st.retry ==>
      var all := Pause(n) + ([Data(c)] + s);
      BodyRun(m, st, all) == BResult(TimedOut, st.text, st.count, all[st.retry + 1..])
  {
    hide BodyRun;
    var byte := [Data(c)] + s;
    if n < st.retry {
      BodyWaits(m, st, n, byte);
      SameBudget(m, st, st.(retry := st.retry - n), byte);
    } else {
      BodyTooLate(m, st, n, byte);
      NoPause(byte);
      BodyCounts(m, st, byte);
      if st.retry == 0 {
        BodyTooLate(m, st, 0, byte);
      }
    }
  }

  /** Before a byte that renews it, how much of the budget is left does not matter. */
  lemma SameBudget(m: Mode, st: BState, less: BState, s: seq<Item>)
    requires BodyOk(m, st) && st == less.(retry := st.retry) && st.retry > 0 && less.retry > 0
    requires s != [] && s[0].Data? && !Skips(st, s[0].c)
    ensures BodyRun(m, st, s) == BodyRun(m, less, s)
  {
    hide Strtoul16, CStr, ToInt32;
    assert BodyByte(m, st, s[0].c).More? ==> BodyByte(m, st, s[0].c) == BodyByte(m, less, s[0].c);
  }

  /** The pauses before and after the line feed behind a chunk count together. */
  lemma SkippedByteRenewsNothing(m: Mode, st: BState, a: nat, b: nat, c: char, s: seq<Item>)
    requires BodyOk(m, st) && Skips(st, LF) && !st.fetchBlank
    ensures var plain, late := [Data(LF)] + ([Data(c)] + s), Pause(a) + ([Data(LF)] + (Pause(b) + ([Data(c)] + s)));
      BodyRun(m, st, late) == BodyRun(m, st, plain) <==> a + b == 0 || a + b < st.retry
  {
    hide BodyRun;
    var byte := [Data(c)] + s;
    var late := Pause(b) + byte;
    if a < st.retry {
      var less := st.(retry := st.retry - a);
      BodyWaits(m, st, a, [Data(LF)] + late);
      AfterSkip(m, st, byte);
      AfterSkip(m, less, late);
      BodyPauseExact(m, Skipped(less), b, c, s);
      SameBudget(m, Skipped(st), Skipped(less), byte);
      BodyCounts(m, Skipped(st), byte);
    } else {
      BodyTooLate(m, st, a, [Data(LF)] + late);
      BodyCounts(m, st, [Data(LF)] + byte);
      NoPause([Data(LF)] + byte);
      NoPause(byte);
      if st.retry == 0 {
        BodyTooLate(m, st, 0, [Data(LF)] + byte);
      }
    }
  }

  function Skipped(st: BState): BState {
    st.(last := LF, count := st.count + 1, fetchTerm := false)
  }

  lemma AfterSkip(m: Mode, st: BState, s: seq<Item>)
    requires BodyOk(m, st) && Skips(st, LF) && !st.fetchBlank && st.retry > 0
    ensures BodyRun(m, st, [Data(LF)] + s) == BodyRun(m, Skipped(st), s)
  {
    assert ([Data(LF)] + s)[1..] == s;
  }
}
