/**
  Answers outside the framing theorem: bodies longer than the buffer, answers without a
  length or with both framings, header lines of every kind, and the limits in figures.
*/
module HttpEdges {
  import opened CText
  import opened HttpMachine
  import opened HttpText
  import opened HttpLines
  import opened HttpFraming
  import opened HttpExact

  // ------------------------------------------------------------------ reading to a line end

  /** With this text in the buffer, the call goes on to the first CR LF of `u`. */
  function ToLineEnd(text: string, u: string): (r: BText)
    ensures r.text == text
  {
    match Find(u, CRLF)
    case None => BText(TimedOut, text, "")
    case Some(i) => BText(Complete, text, u[i + 2..])
  }

  lemma ToLineEndShift(text: string, c: char, u: string)
    ensures u != "" && c == CR && u[0] == LF ==> ToLineEnd(text, [c] + u) == BText(Complete, text, u[1..])
    ensures u != "" && !(c == CR && u[0] == LF) ==> ToLineEnd(text, [c] + u) == ToLineEnd(text, u)
    ensures u == "" ==> ToLineEnd(text, [c] + u) == BText(TimedOut, text, "")
  {
    var s := [c] + u;
    assert s[1..] == u;
    if u != "" {
      assert s[0] == c && s[1] == u[0];
      assert c == CR && u[0] == LF ==> s[..2] == CRLF;
      var r := Find(u, CRLF);
      assert r.Some? ==> s[r.value + 3..] == u[r.value + 2..];
    }
  }

  /** Once a blank line is awaited outside a chunk, nothing is stored any more. */
  lemma {:induction false} Awaits(m: Mode, text: string, copy: int, enc: string, ft: bool, last: char, u: string)
    requires 0 < m.max && |text| < m.max && |enc| < ENC_SIZE && copy <= 0
    ensures BodyText(m, B(text, copy, enc, ft, true, last), u) == ToLineEnd(text, [last] + u)
    decreases |u|
  {
    hide ToLineEnd, BodyText, Cut;
    ToLineEndShift(text, last, u);
    var st := B(text, copy, enc, ft, true, last);
    if u == "" {
      EndOfText(m, st);
    } else if last == CR && u[0] == LF {
      BodyDone(m, st, u);
    } else {
      var more := if m.chunked then Cut(enc + [u[0]], ENC_SIZE - 1) else enc;
      BodyStep(m, st, u);
      AwaitStep(m, text, copy, enc, ft, last, u[0]);
      Awaits(m, text, copy, more, ft, u[0], u[1..]);
      assert [u[0]] + u[1..] == u;
    }
  }

  lemma AwaitStep(m: Mode, text: string, copy: int, enc: string, ft: bool, last: char, c: char)
    requires 0 < m.max && |text| < m.max && |enc| < ENC_SIZE && copy <= 0 && !(last == CR && c == LF)
    ensures var more := if m.chunked then Cut(enc + [c], ENC_SIZE - 1) else enc;
      var r := BodyByte(m, B(text, copy, enc, ft, true, last), c);
      r.More? && NormB(r.st) == B(text, copy, more, ft, true, c)
  {
    hide Strtoul16, CStr, ToInt32;
  }

  /** With nothing left to copy, a sized answer goes on to the next CR LF. */
  lemma NothingToCopy(m: Mode, text: string, copy: int, ft: bool, last: char, u: string)
    requires 0 < m.max && |text| < m.max && copy <= 0 && !m.chunked
    requires !(ft && u != "" && last == CR && u[0] == LF)
    ensures BodyText(m, B(text, copy, "", ft, false, last), u) == ToLineEnd(text, u)
  {
    hide ToLineEnd, BodyText;
    var st := B(text, copy, "", ft, false, last);
    if u == "" {
      EndOfText(m, st);
      ToLineEndEmpty(text);
    } else {
      BodyStep(m, st, u);
      assert NormB(BodyByte(m, st, u[0]).st) == B(text, copy, "", ft, true, u[0]);
      Awaits(m, text, copy, "", ft, u[0], u[1..]);
      assert [u[0]] + u[1..] == u;
    }
  }

  lemma ToLineEndEmpty(text: string)
    ensures ToLineEnd(text, "") == BText(TimedOut, text, "")
  {
  }

  // ------------------------------------------------------------------ bodies of any length

  /** What lies behind a body that did not fit: a line feed that goes with its last CR is
      skipped first. */
  function Behind(data: string, t: string): string {
    if data != "" && data[|data| - 1] == CR && t != "" && t[0] == LF then t[1..] else t
  }

  /** A body as long as the buffer or longer leaves its first max - 1 characters, and the call
      is not done behind it: it goes on to the next CR LF. */
  lemma LongBody(m: Mode, data: string, t: string)
    requires !m.chunked && 0 < m.max <= m.size == |data| && NoBreak(data)
    ensures BodyText(m, NormB(StartBody(m)), data + t) == ToLineEnd(Cut(data, m.max - 1), Behind(data, t))
  {
    hide BodyText, Cut, ToLineEnd;
    PlainIsNoBreak(NUL, data);
    BodyCopy(m, "", m.size, "", false, NUL, data, t);
    assert "" + data == data;
    var text, last := Cut(data, m.max - 1), data[|data| - 1];
    if last == CR && t != "" && t[0] == LF {
      assert t == [LF] + t[1..];
      SkipLf(m, text, 0, t[1..]);
      NothingToCopy(m, text, 0, false, LF, t[1..]);
    } else {
      NothingToCopy(m, text, 0, true, last, t);
    }
  }

  /** Whatever its length, a Content-Length body without CR LF leaves its first max - 1
      characters in the buffer; it is the fitting ones that end where they should. */
  lemma AnyLength(m: Mode, data: string, t: string)
    requires !m.chunked && m.size == |data| && 0 < m.max && NoBreak(data)
    ensures var r := BodyText(m, NormB(StartBody(m)), data + t);
      && r.text == (if |data| < m.max then data else data[..m.max - 1])
      && (0 < |data| < m.max ==> r.end == Complete && r.rest == t)
      && (|data| >= m.max ==> r == ToLineEnd(data[..m.max - 1], Behind(data, t)))
      && (data == "" ==> r == ToLineEnd("", t))
  {
    hide BodyText, ToLineEnd;
    if data == "" {
      NoLength(m, t);
      assert data + t == t;
    } else if |data| < m.max {
      SizedBody(m, data, t);
    } else {
      LongBody(m, data, t);
    }
  }

  /** An answer without a length, or with one that is zero or negative, has no body, and still
      the call takes everything up to the next CR LF: the first line of the next answer. */
  lemma NoLength(m: Mode, t: string)
    requires !m.chunked && m.size <= 0 < m.max
    ensures BodyText(m, NormB(StartBody(m)), t) == ToLineEnd("", t)
  {
    NothingToCopy(m, "", m.size, false, NUL, t);
  }

  /** The bytes of a text, without pauses. */
  function Bytes(t: string): (s: seq<Item>)
    ensures |s| == |t| && forall i | 0 <= i < |t| :: s[i] == Data(t[i])
  {
    seq(|t|, i requires 0 <= i < |t| => Data(t[i]))
  }

  lemma {:induction false} CharsOfBytes(t: string)
    ensures Chars(Bytes(t)) == t
  {
    if t != "" {
      assert Bytes(t)[1..] == Bytes(t[1..]);
      CharsOfBytes(t[1..]);
    }
  }

  lemma {:induction false} BytesInTime(t: string, renews: seq<bool>, toEnd: bool, budget: nat, renew: nat)
    requires |renews| <= |t| && (toEnd ==> |renews| == |t|) && budget > 0 && renew > 0
    ensures Deliver(Bytes(t), renews, toEnd, budget, renew) == Some(Bytes(t[|renews|..]))
    decreases |t|
  {
    if renews == [] {
      assert t[0..] == t;
    } else {
      assert Bytes(t)[1..] == Bytes(t[1..]) && t[1..][|renews[1..]|..] == t[|renews|..];
      BytesInTime(t[1..], renews[1..], toEnd, if renews[0] then renew else budget, renew);
    }
  }

  /** Without pauses, a call answers as on the text. */
  lemma BytesAnswer(max: nat, last: char, garbage: string, t: string)
    requires 0 < max && last != CR
    ensures ReplyAgrees(max, last, garbage, Bytes(t))
  {
    hide HeaderText, BodyText, Renewals, ReplyText, ReplyAgrees, Deliver;
    CharsOfBytes(t);
    PausesAreInvisible(max, last, garbage, Bytes(t));
    var st := NormH(StartHeader(last, garbage));
    var h := HeaderText(st, t);
    BytesInTime(t, Renewing(HeaderTaken(st, t)), h.stop.Quiet?, POST_RETRY, GET_RETRY);
    TakenIsPrefix(st, t);
    if ReplyText(max, last, garbage, t).text.Some? {
      var m := Mode(h.info.size, h.info.chunked, max);
      var b := NormB(StartBody(m));
      var toEnd := BodyText(m, b, h.rest).end.TimedOut?;
      BytesInTime(h.rest, Renewals(m, b, h.rest), toEnd, POST_RETRY, POST_RETRY);
    }
  }

  lemma {:induction false} TakenIsPrefix(st: HState, t: string)
    requires HeaderOk(st)
    ensures t[HeaderTaken(st, t)..] == HeaderText(st, t).rest
    decreases |t|
  {
    hide HeaderByte;
    if t != "" {
      var step := HeaderByte(st, t[0]);
      if step.Go? {
        TakenIsPrefix(NormH(step.st), t[1..]);
      }
    }
  }

  /** An answer with any Content-Length body, longer than the buffer or not: the call returns
      its status, and the buffer holds as much of the body as it has room for. */
  lemma SizedAnswer(max: nat, last: char, garbage: string, lines: seq<string>, code: int, data: string, t: string)
    requires 0 < max && last != CR && (forall l | l in lines :: LineOk(l)) && code > 0
    requires HeadMeans(lines, code, |data|, false) && NoBreak(data)
    ensures var r := GetReply(max, last, garbage, Bytes(WireLines(lines) + CRLF + (data + t)));
      r.code == code && r.text == Some(if |data| < max then data else data[..max - 1])
  {
    hide HeaderText, BodyText, Fold, LineOk, GetReply, WireLines, ToLineEnd;
    BytesAnswer(max, last, garbage, WireLines(lines) + CRLF + (data + t));
    CharsOfBytes(WireLines(lines) + CRLF + (data + t));
    HeaderLines(StartInfo(garbage), last, lines, data + t);
    var info := Fold(StartInfo(garbage), lines).value;
    AnyLength(Mode(info.size, info.chunked, max), data, t);
  }

  // ------------------------------------------------------------------ bodies with CR LF pairs

  /** The text without the line feeds of its CR LF pairs. */
  function Squeeze(last: char, u: string): string
    decreases |u|
  {
    if u == "" then ""
    else if last == CR && u[0] == LF then Squeeze(LF, u[1..])
    else [u[0]] + Squeeze(u[0], u[1..])
  }

  /** Whatever follows the header, a call that expects n bytes and has room for them takes
      bytes until n of them are not the line feed of a CR LF pair, and returns these: a body
      with such pairs is made up from what follows it. */
  lemma SizedAlways(m: Mode, t: string)
    requires !m.chunked && 0 < m.size < m.max
    ensures var r, s := BodyText(m, NormB(StartBody(m)), t), Squeeze(NUL, t);
      var n := |t| - |r.rest|;
      && r.text == Cut(s, m.size) && (r.end == if |s| >= m.size then Complete else TimedOut)
      && r.rest == t[n..] && Squeeze(NUL, t[..n]) == r.text
      && (r.end.Complete? ==> n > 0 && |Squeeze(NUL, t[..n - 1])| < m.size)
  {
    hide BodyText, Squeeze;
    SqueezedBody(m, "", m.size, false, NUL, t);
    assert "" + Cut(Squeeze(NUL, t), m.size) == Cut(Squeeze(NUL, t), m.size);
  }

  /** `r` has taken from `u` just enough bytes for `k` more characters behind `text`. */
  ghost predicate Took(r: BText, text: string, k: nat, last: char, u: string) {
    var s, n := Squeeze(last, u), |u| - |r.rest|;
    && n >= 0
    && r.text == text + Cut(s, k) && (r.end == if |s| >= k then Complete else TimedOut)
    && r.rest == u[n..] && Squeeze(last, u[..n]) == Cut(s, k)
    && (r.end.Complete? ==> n > 0 && |Squeeze(last, u[..n - 1])| < k)
  }

  lemma {:induction false} SqueezedBody(m: Mode, text: string, copy: int, ft: bool, last: char, u: string)
    requires !m.chunked && |text| < m.size < m.max && copy >= m.size - |text| && (last == CR ==> ft)
    ensures Took(BodyText(m, B(text, copy, "", ft, false, last), u), text, m.size - |text|, last, u)
    decreases |u|
  {
    hide BodyText, Renewals, Took;
    var st, k := B(text, copy, "", ft, false, last), m.size - |text|;
    if u == "" {
      EndOfText(m, st);
      TookNothing(text, k, last);
    } else {
      var c, v := u[0], u[1..];
      assert u == [c] + v;
      if last == CR && c == LF {
        BodyStep(m, st, u);
        assert NormB(BodyByte(m, st, c).st) == B(text, copy, "", false, false, LF);
        SqueezedBody(m, text, copy, false, LF, v);
        TookSkipped(BodyText(m, st, u), text, k, v);
      } else if |text| + 1 == m.size {
        LastByte(m, st, c);
        BodyDone(m, st, u);
        TookLast(text, last, c, v);
      } else {
        BodyStep(m, st, u);
        assert NormB(BodyByte(m, st, c).st) == B(text + [c], copy - 1, "", true, false, c);
        SqueezedBody(m, text + [c], copy - 1, true, c, v);
        TookOne(BodyText(m, st, u), text, k, last, c, v);
      }
    }
  }

  lemma TookNothing(text: string, k: nat, last: char)
    requires k > 0
    ensures Took(BText(TimedOut, text, ""), text, k, last, "")
  {
  }

  lemma TookSkipped(r: BText, text: string, k: nat, v: string)
    requires Took(r, text, k, LF, v) && k > 0
    ensures Took(r, text, k, CR, [LF] + v)
  {
    SqueezePrefix(CR, LF, v, |v| - |r.rest|);
  }

  lemma TookLast(text: string, last: char, c: char, v: string)
    requires !(last == CR && c == LF)
    ensures Took(BText(Complete, text + [c], v), text, 1, last, [c] + v)
  {
    SqueezePrefix(last, c, v, 0);
    assert Cut([c] + Squeeze(c, v), 1) == [c];
    assert Squeeze(c, v[..0]) == "";
  }

  lemma TookOne(r: BText, text: string, k: nat, last: char, c: char, v: string)
    requires !(last == CR && c == LF) && k > 1 && Took(r, text + [c], k - 1, c, v)
    ensures Took(r, text, k, last, [c] + v)
  {
    hide Cut;
    SqueezePrefix(last, c, v, |v| - |r.rest|);
    CutOne(text, c, Squeeze(c, v), k);
  }

  lemma CutOne(text: string, c: char, s: string, k: nat)
    requires k > 0
    ensures Cut([c] + s, k) == [c] + Cut(s, k - 1)
    ensures text + Cut([c] + s, k) == text + [c] + Cut(s, k - 1)
  {
  }

  /** Squeezing one more character in front. */
  lemma SqueezePrefix(last: char, c: char, v: string, n: nat)
    requires n <= |v|
    ensures var front := if last == CR && c == LF then "" else [c];
      && Squeeze(last, [c] + v) == front + Squeeze(c, v)
      && Squeeze(last, ([c] + v)[..n + 1]) == front + Squeeze(c, v[..n])
      && (n > 0 ==> Squeeze(last, ([c] + v)[..n]) == front + Squeeze(c, v[..n - 1]))
      && Squeeze(last, "") == "" && ([c] + v)[..0] == ""
      && ([c] + v)[n + 1..] == v[n..]
  {
    assert ([c] + v)[1..] == v;
    assert ([c] + v)[..n + 1] == [c] + v[..n] && ([c] + v[..n])[1..] == v[..n];
    if n > 0 {
      assert ([c] + v)[..n] == [c] + v[..n - 1] && ([c] + v[..n - 1])[1..] == v[..n - 1];
    }
  }

  /** The same inside a chunk, or a longer body: of each CR LF pair the CR counts as data and
      the line feed does not, so the data go on into the line end behind them. */
  lemma {:induction false} CopySqueezed(m: Mode, text: string, copy: int, enc: string, ft: bool, last: char,
                                        p: string, t: string)
    requires 0 < m.max && |text| < m.max && |enc| < ENC_SIZE && (last == CR ==> ft)
    requires copy >= |Squeeze(last, p)| && Unreached(m, |text| + |Squeeze(last, p)|)
    ensures BodyText(m, B(text, copy, enc, ft, false, last), p + t) ==
            BodyText(m, B(Cut(text + Squeeze(last, p), m.max - 1), copy - |Squeeze(last, p)|, enc,
                          Pending(ft, last, p), false, Last(last, p)), t)
    decreases |p|
  {
    hide BodyText, BodyByte, Cut, Renewals;
    if p == "" {
      assert p + t == t && text + "" == text;
    } else {
      var c, v := p[0], p[1..];
      var st := B(text, copy, enc, ft, false, last);
      assert (p + t)[0] == c && (p + t)[1..] == v + t;
      if last == CR && c == LF {
        SkipByte(m, st);
        BodyStep(m, st, p + t);
        CopySqueezed(m, text, copy, enc, false, LF, v, t);
      } else {
        var more := Cut(text + [c], m.max - 1);
        CopyByte(m, text, copy, enc, ft, last, c);
        BodyStep(m, st, p + t);
        CopySqueezed(m, more, copy - 1, enc, true, c, v, t);
        CutAppend(text, [c], Squeeze(c, v), m.max - 1);
      }
    }
  }

  /** A line feed that follows would be skipped: the last byte has been copied. */
  function Pending(ft: bool, last: char, p: string): bool
    decreases |p|
  {
    if p == "" then ft else Pending(!(last == CR && p[0] == LF), p[0], p[1..])
  }

  lemma SkipByte(m: Mode, st: BState)
    requires BodyOk(m, st) && st.fetchTerm && st.last == CR && !st.fetchBlank
    ensures var r := BodyByte(m, st, LF);
      r.More? && NormB(r.st) == B(st.text, st.copy, st.enc, false, false, LF)
  {
    hide Strtoul16, CStr, ToInt32;
  }

  // ------------------------------------------------------------------ scripts with errors

  /** On every script, with errors and late bytes as they come, the body run leaves of the bytes
      that it has taken what the text run leaves of them. */
  lemma {:induction false} BodyTakes(m: Mode, st: BState, s: seq<Item>)
    requires BodyOk(m, st)
    ensures var r := BodyRun(m, st, s);
      && st.count <= r.count <= st.count + |Chars(s)|
      && var q := BodyText(m, NormB(st), Chars(s)[..r.count - st.count]);
         r.text == q.text && (r.end == q.end || (q.end.TimedOut? && r.end.Broken?))
    decreases |s|, st.retry
  {
    hide BodyByte;
    if s == [] {
      BodyEnds(m, st);
    } else if s[0].Idle? && st.retry > 0 {
      BodyTakes(m, st.(retry := st.retry - 1), s[1..]);
    } else if s[0].Data? && st.retry > 0 {
      BodyByteNorm(m, st, s[0].c);
      var step, t := BodyByte(m, st, s[0].c), Chars(s);
      if step.More? {
        BodyTakes(m, step.st, s[1..]);
        var n := BodyRun(m, step.st, s[1..]).count - step.st.count;
        assert t[..n + 1][0] == s[0].c && t[..n + 1][1..] == Chars(s[1..])[..n];
      }
    }
  }

  /** An error ends the body at once, and is the only thing that breaks it. */
  lemma {:induction false} ErrorBreaks(m: Mode, st: BState, s: seq<Item>, t: seq<Item>)
    requires BodyOk(m, st) && Fail !in s
    ensures !BodyRun(m, st, s).end.Broken?
    ensures var all := BodyRun(m, st, s + ([Fail] + t));
      all.end.Broken? ==> all.rest == t
    decreases |s|, st.retry
  {
    hide BodyByte;
    var all := s + ([Fail] + t);
    if s == [] {
      BodyEnds(m, st);
      assert all[0] == Fail && all[1..] == t;
    } else if st.retry > 0 {
      assert all[0] == s[0] && all[1..] == s[1..] + ([Fail] + t);
      if s[0].Idle? {
        ErrorBreaks(m, st.(retry := st.retry - 1), s[1..], t);
      } else {
        var step := BodyByte(m, st, s[0].c);
        BodyByteNorm(m, st, s[0].c);
        if step.More? {
          ErrorBreaks(m, step.st, s[1..], t);
        }
      }
    }
  }

  // ------------------------------------------------------------------ both framings

  /** The wire text behind the first `n` bytes of data. */
  function BehindData(cs: seq<Chunk>, n: nat): string
    requires n <= |Join(cs)|
  {
    if cs == [] then ""
    else if n <= |cs[0].data| then cs[0].data[n..] + CRLF + WireChunks(cs[1..])
    else BehindData(cs[1..], n - |cs[0].data|)
  }

  /** A chunked answer that also declares a length: when the data reach it, the call ends
      there, inside the chunk, and leaves the rest of the chunked body unread. Otherwise the
      length has no effect. */
  lemma BothFramings(m: Mode, cs: seq<Chunk>, zero: string, ext: string, t: string)
    requires m.chunked && BodyFits(Chunked(cs, zero, ext), m.max) && 0 < m.size
    ensures BodyText(m, NormB(StartBody(m)), WireBody(Chunked(cs, zero, ext)) + t) ==
            if m.size <= |Join(cs)| && m.size < m.max
            then BText(Complete, Join(cs)[..m.size], BehindData(cs, m.size) + (zero + ext + CRLF) + CRLF + t)
            else BText(Complete, Cut(Join(cs), m.max - 1), t)
  {
    hide BodyText, SizeLineOk;
    if m.size <= |Join(cs)| && m.size < m.max {
      var tail := zero + ext + CRLF + CRLF + t;
      assert WireBody(Chunked(cs, zero, ext)) + t == WireChunks(cs) + tail;
      LengthReached(m, "", "", NUL, cs, tail);
      assert BehindData(cs, m.size) + (zero + ext + CRLF) + CRLF + t == BehindData(cs, m.size) + tail;
      assert "" + Join(cs)[..m.size] == Join(cs)[..m.size];
    } else {
      ChunkedBody(m, cs, zero, ext, t);
    }
  }

  lemma {:induction false} LengthReached(m: Mode, text: string, enc: string, last: char, cs: seq<Chunk>, t: string)
    requires m.max > 1 && m.chunked && Residue(enc) && last != CR && (forall c | c in cs :: ChunkOk(c))
    requires |text| < m.size < m.max && m.size <= |text| + |Join(cs)|
    ensures var n := m.size - |text|;
      BodyText(m, B(text, 0, enc, false, false, last), WireChunks(cs) + t) ==
      BText(Complete, text + Join(cs)[..n], BehindData(cs, n) + t)
    decreases |cs|
  {
    hide BodyText, SizeLineOk, WireChunks, Renewals, Join, BehindData, ChunkFlags;
    var n := m.size - |text|;
    DataSplit(cs, n, text, t);
    var c, rest := cs[0], cs[1..];
    assert c in cs;
    WireSplit(cs, t);
    if n <= |c.data| {
      var more := WireChunks(rest) + t;
      SizeLine(m, text, enc, last, c.digits, c.ext, |c.data|, c.data + (CRLF + more));
      LengthInChunk(m, text, c.data, n, CRLF + more);
    } else {
      OneChunk(m, text, enc, last, c, WireChunks(rest) + t);
      LengthReached(m, text + c.data, [CR], LF, rest, t);
    }
  }

  lemma DataSplit(cs: seq<Chunk>, n: nat, text: string, t: string)
    requires 0 < n <= |Join(cs)|
    ensures cs != [] && |Join(cs)| == |cs[0].data| + |Join(cs[1..])|
    ensures n <= |cs[0].data| ==> Join(cs)[..n] == cs[0].data[..n]
    ensures n <= |cs[0].data| ==> BehindData(cs, n) + t == cs[0].data[n..] + (CRLF + (WireChunks(cs[1..]) + t))
    ensures n > |cs[0].data| ==> BehindData(cs, n) == BehindData(cs[1..], n - |cs[0].data|)
    ensures n > |cs[0].data| ==> text + Join(cs)[..n] == text + cs[0].data + Join(cs[1..])[..n - |cs[0].data|]
  {
    hide WireChunks;
  }

  lemma LengthInChunk(m: Mode, text: string, data: string, n: nat, t: string)
    requires m.chunked && 0 < n <= |data| && |text| + n == m.size < m.max && NoBreak(data)
    ensures BodyText(m, B(text, |data|, "", false, false, LF), data + t) ==
            BText(Complete, text + data[..n], data[n..] + t)
  {
    hide BodyText, Renewals;
    var a, z, more := data[..n - 1], data[n - 1], data[n..] + t;
    assert data + t == a + ([z] + more) && data[..n] == a + [z];
    PlainIsNoBreak(LF, data[..n]);
    PlainIsNoBreak(LF, a);
    BodyCopy(m, text, |data|, "", false, LF, a, [z] + more);
    var st := B(text + a, |data| - |a|, "", a != "", false, Last(LF, a));
    LastByte(m, st, z);
    assert ([z] + more)[1..] == more && text + a + [z] == text + data[..n];
    BodyDone(m, st, [z] + more);
  }

  lemma LastByte(m: Mode, st: BState, z: char)
    requires 0 < m.max && |st.text| + 1 == m.size < m.max && |st.enc| < ENC_SIZE && st.copy > 0
    requires !st.fetchBlank && !(st.last == CR && z == LF)
    ensures BodyByte(m, st, z).Done? && BodyByte(m, st, z).end.text == st.text + [z]
  {
    hide Strtoul16, CStr, ToInt32;
  }

  // ------------------------------------------------------------------ odd size lines and trailers

  /** A size that needs the sign bit of an `int` is taken for a negative one: no byte of the
      chunk is copied, and its data are read as further size lines. */
  lemma LargeSize(m: Mode, text: string, enc: string, last: char, n: nat, upper: bool, t: string)
    requires 0 < m.max && |text| < m.max && m.chunked && Residue(enc) && last != CR
    requires 0x8000_0000 <= n < 0x1_0000_0000
    ensures BodyText(m, B(text, 0, enc, false, false, last), Hex(n, upper) + CRLF + t) ==
            BodyText(m, B(text, n - 0x1_0000_0000, "", false, false, LF), t)
  {
    hide Strtoul16, CStr, BodyText, Hex, AllDigits, Cut, ToInt32;
    var a := Hex(n, upper);
    HexChars(n, upper);
    PlainHex(a);
    AnySizeLine(m, text, enc, last, a, t);
    Collected(enc, a);
    CStrOfTerminated(enc + a, "");
    StrtoulPrinted(enc, "", n, upper, "");
    assert enc + ("" + (a + "")) == enc + a;
    SignedSize(n);
  }

  lemma Collected(enc: string, a: string)
    requires Residue(enc) && |a| <= 8
    ensures var e := Cut(enc + (a + [CR]), 255);
      e[..|e| - 1] == enc + a
  {
    assert enc + (a + [CR]) == enc + a + [CR];
  }

  lemma SignedSize(n: nat)
    requires 0x8000_0000 <= n < 0x1_0000_0000
    ensures ToInt32(n) == n - 0x1_0000_0000
  {
  }

  lemma HexChars(n: nat, upper: bool)
    requires n < 0x1_0000_0000
    ensures |Hex(n, upper)| <= 8 && AllDigits(Hex(n, upper), 16)
  {
    hide Hex, DigitValue;
    assert Pow16(4) == 65536;
    assert Pow16(8) == 65536 * Pow16(4);
    HexLength(n, upper, 8);
    HexIsDigits(n, upper);
  }

  lemma PlainHex(a: string)
    requires AllDigits(a, 16)
    ensures NoBreak(a) && NUL !in a && CR !in a && (a != "" ==> a[0] != LF)
  {
    assert !IsDigit(CR, 16) && !IsDigit(NUL, 16) && !IsDigit(LF, 16);
  }

  /** A chunk size printed in hexadecimal, in either case, is a size line for its chunk. */
  lemma PrintedSize(n: nat, upper: bool, ext: string)
    requires n < 0x8000_0000 && NoBreak(ext) && (ext != "" ==> ext[0] == ';' || ext[0] == ' ' || ext[0] == '\t')
    ensures SizeLineOk(Hex(n, upper), ext, n)
  {
    hide Hex, DigitValue;
    HexChars(n, upper);
    HexReadsBack(n, upper, "");
    assert Hex(n, upper) + "" == Hex(n, upper);
  }

  /** Behind the last chunk the call goes on to the next CR LF and no further: the blank line
      when it comes at once, but only the first line when there are trailer fields. */
  lemma Trailers(m: Mode, cs: seq<Chunk>, zero: string, ext: string, u: string)
    requires m.chunked && Unreached(m, |Join(cs)|) && BodyFits(Chunked(cs, zero, ext), m.max)
    ensures BodyText(m, NormB(StartBody(m)), WireChunks(cs) + (zero + ext + CRLF) + u) ==
            ToLineEnd(Cut(Join(cs), m.max - 1), u)
  {
    hide BodyText, SizeLineOk, Renewals, ToLineEnd;
    var tail := zero + ext + CRLF + u;
    assert WireChunks(cs) + (zero + ext + CRLF) + u == WireChunks(cs) + tail;
    ChunksDecode(m, "", "", NUL, cs, tail);
    assert "" + Join(cs) == Join(cs);
    var text := Cut(Join(cs), m.max - 1);
    SizeLine(m, text, if cs == [] then "" else [CR], if cs == [] then NUL else LF, zero, ext, 0, u);
    Awaits(m, text, 0, "", false, LF, u);
    ToLineEndShift(text, LF, u);
    if u == "" {
      ToLineEndEmpty(text);
    }
  }

  // ------------------------------------------------------------------ header lines of every kind

  /** A line that is neither a status line nor a length nor an encoding field, nor a beginning
      of the last. */
  predicate OtherLine(l: string) {
    && !("HTTP/1." <= l) && !("Content-Length:" <= l) && !("Transfer-Encoding:" <= l) && !(l <= "Transfer-Encoding:")
  }

  /** Such a line ends the header exactly when NO CARRIER stands anywhere in it. */
  lemma OtherLineReads(info: Info, l: string)
    requires OtherLine(l)
    ensures ReadLine(info, l) == if exists k | 0 <= k <= |l| :: "NO CARRIER" <= l[k..] then None else Some(info)
  {
    hide Find, ScanInt;
    FoundSomewhere(l, "NO CARRIER");
  }

  lemma FoundSomewhere(s: string, needle: string)
    ensures Find(s, needle).Some? <==> exists k | 0 <= k <= |s| :: needle <= s[k..]
  {
    var r := Find(s, needle);
    if r.Some? {
      assert needle <= s[r.value..];
    }
  }

  /** A status line without two numbers and a length without one are lines like any other. */
  lemma BrokenFields(info: Info, rest: string)
    requires ScanInt(rest).None?
    ensures ReadLine(info, "HTTP/1." + rest) == if Find("HTTP/1." + rest, "NO CARRIER").Some? then None else Some(info)
    ensures ReadLine(info, "Content-Length:" + rest) ==
            if Find("Content-Length:" + rest, "NO CARRIER").Some? then None else Some(info)
  {
    hide Find, ScanInt;
    var a, b := "HTTP/1." + rest, "Content-Length:" + rest;
    assert a[7..] == rest && b[15..] == rest;
    assert a[0] == 'H' && b[0] == 'C' && "Transfer-Encoding:"[0] == 'T';
  }

  /** A length is taken as `%d` reads it, sign and all; a later one replaces it. */
  lemma LengthReads(info: Info, blank: string, n: int, rest: string)
    requires (forall i | 0 <= i < |blank| :: IsSpace(blank[i])) && -TWO31 <= n < TWO31
    requires rest == "" || !IsDigit(rest[0], 10)
    ensures ReadLine(info, "Content-Length:" + (blank + (SignedDec(n) + rest))) == Some(info.(size := n))
  {
    hide ScanInt, SignedDec, IsSpace, IsDigit;
    var l := "Content-Length:" + (blank + (SignedDec(n) + rest));
    assert l[15..] == blank + (SignedDec(n) + rest);
    assert l[0] == 'C' && "HTTP/1."[0] == 'H';
    ScanSigned(blank, n, rest);
  }

  /** An encoding field counts as chunked exactly when its first word holds "chunked". */
  lemma EncodingReads(info: Info, blank: string, word: string, rest: string)
    requires (forall i | 0 <= i < |blank| :: IsSpace(blank[i])) && word != ""
    requires (forall i | 0 <= i < |word| :: !IsSpace(word[i])) && (rest == "" || IsSpace(rest[0]))
    ensures ReadLine(info, "Transfer-Encoding:" + (blank + (word + rest))) ==
            Some(info.(word := word, chunked := info.chunked || Find(word, "chunked").Some?))
  {
    hide ScanEncoding, Find, ScanStatus, ScanLength;
    WordScanned(blank, word, rest);
    FieldIsNoOther("Transfer-Encoding:" + (blank + (word + rest)));
  }

  lemma WordScanned(blank: string, word: string, rest: string)
    requires (forall i | 0 <= i < |blank| :: IsSpace(blank[i])) && word != ""
    requires (forall i | 0 <= i < |word| :: !IsSpace(word[i])) && (rest == "" || IsSpace(rest[0]))
    ensures ScanEncoding("Transfer-Encoding:" + (blank + (word + rest))) == GotWord(word)
  {
    hide SkipSpace, FirstWord, IsSpace;
    var t := blank + (word + rest);
    SkipBlanks(blank, word + rest);
    FirstWordIs(word, rest);
    assert ("Transfer-Encoding:" + t)[18..] == t;
  }

  lemma FieldIsNoOther(l: string)
    requires l != "" && l[0] == 'T'
    ensures ScanStatus(l).None? && ScanLength(l).None?
  {
    assert "HTTP/1."[0] == 'H' && "Content-Length:"[0] == 'C';
  }

  /** An encoding field without a word, or a line that is only the beginning of one, ends the
      scan early, which the code takes for success: what the local buffer happened to hold
      before then decides. */
  lemma GarbageDecides(info: Info, l: string, blank: string)
    requires l != "" && forall i | 0 <= i < |blank| :: IsSpace(blank[i])
    requires l <= "Transfer-Encoding:" && (blank != "" ==> l == "Transfer-Encoding:")
    ensures ReadLine(info, l + blank) == Some(info.(chunked := info.chunked || Find(info.word, "chunked").Some?))
  {
    hide ScanEncoding, Find, ScanStatus, ScanLength;
    assert (l + blank)[0] == l[0] == "Transfer-Encoding:"[0] == 'T';
    NoWordScanned(l, blank);
    FieldIsNoOther(l + blank);
  }

  lemma NoWordScanned(l: string, blank: string)
    requires l != "" && forall i | 0 <= i < |blank| :: IsSpace(blank[i])
    requires l <= "Transfer-Encoding:" && (blank != "" ==> l == "Transfer-Encoding:")
    ensures ScanEncoding(l + blank) == EndOfInput
  {
    hide SkipSpace, IsSpace;
    SkipBlanks(blank, "");
    assert blank + "" == blank;
    if l == "Transfer-Encoding:" {
      assert (l + blank)[18..] == blank;
    } else {
      assert l + blank == l;
    }
  }

  /** An answer in which the modem reports a lost connection: the call returns -6, leaves the
      buffer alone and the rest unread. */
  lemma CarrierLost(max: nat, last: char, garbage: string, lines: seq<string>, a: string, b: string, t: string)
    requires 0 < max && last != CR && (forall l | l in lines :: LineOk(l)) && Fold(StartInfo(garbage), lines).Some?
    requires OtherLine(a + "NO CARRIER" + b) && LineOk(a + "NO CARRIER" + b)
    ensures var r := GetReply(max, last, garbage, Bytes(WireLines(lines) + (a + "NO CARRIER" + b + CRLF + t)));
      r.code == -6 && r.text.None? && Chars(r.rest) == t
  {
    hide HeaderText, Fold, LineOk, ReadLines, WireLines, ReadLine, GetReply, OtherLine;
    var l := a + "NO CARRIER" + b;
    var text := WireLines(lines) + (l + CRLF + t);
    BytesAnswer(max, last, garbage, text);
    CharsOfBytes(text);
    HeaderIsByLine(StartInfo(garbage), last, text);
    WireIsRead(StartInfo(garbage), lines, l + CRLF + t);
    var info := Fold(StartInfo(garbage), lines).value;
    assert "NO CARRIER" <= l[|a|..] by {
      assert l[|a|..] == "NO CARRIER" + b;
    }
    OtherLineReads(info, l);
    DroppedLine(info, l, t);
  }

  lemma DroppedLine(info: Info, l: string, t: string)
    requires LineOk(l) && ReadLine(info, l).None?
    ensures ReadLines(info, l + CRLF + t) == HText(Dropped, info, t)
  {
    hide ReadLine;
    FirstBreakAt(l, t);
    CStrOfTerminated(l, "");
  }

  // ------------------------------------------------------------------ the limits in figures

  /** Before the first byte of a header, and of a body, a pause of up to 29 reads is harmless,
      and one of 30 is not. */
  lemma FirstPauses(last: char, garbage: string, m: Mode, n: nat, c: char, s: seq<Item>)
    requires last != CR && 0 < m.max
    ensures var st := StartHeader(last, garbage);
      HeaderRun(st, Pause(n) + ([Data(c)] + s)) == HeaderRun(st, [Data(c)] + s) <==> n < 30
    ensures var st := StartBody(m);
      BodyRun(m, st, Pause(n) + ([Data(c)] + s)) == BodyRun(m, st, [Data(c)] + s) <==> n < 30
  {
    hide HeaderRun, BodyRun;
    HeaderPauseExact(StartHeader(last, garbage), n, c, s);
    BodyPauseExact(m, StartBody(m), n, c, s);
  }

  /** Behind a byte of the header it is 49; behind one of the body, the line feed behind a
      chunk excepted, 29. */
  lemma LaterPauses(st: HState, m: Mode, b: BState, c: char, n: nat, d: char, s: seq<Item>)
    requires HeaderOk(st) && HeaderByte(st, c).Go?
    requires BodyOk(m, b) && BodyByte(m, b, c).More? && !Skips(b, c) && !Skips(BodyByte(m, b, c).st, d)
    ensures var next := HeaderByte(st, c).st;
      HeaderRun(next, Pause(n) + ([Data(d)] + s)) == HeaderRun(next, [Data(d)] + s) <==> n < 50
    ensures var next := BodyByte(m, b, c).st;
      BodyRun(m, next, Pause(n) + ([Data(d)] + s)) == BodyRun(m, next, [Data(d)] + s) <==> n < 30
  {
    hide HeaderRun, BodyRun, HeaderByte, BodyByte;
    HeaderByteNorm(st, c);
    BodyByteNorm(m, b, c);
    HeaderPauseExact(HeaderByte(st, c).st, n, d, s);
    BodyPauseExact(m, BodyByte(m, b, c).st, n, d, s);
  }

  /** A line without NUL overruns its buffer from 255 characters on. */
  lemma LineLimit(l: string)
    requires NUL !in l
    ensures Overruns(l) <==> |l| >= 255
  {
  }

  /** A header without a status line is answered with -111. */
  lemma NoStatus(max: nat, last: char, garbage: string, t: string)
    requires 0 < max && last != CR
    ensures var r := GetReply(max, last, garbage, Bytes(CRLF + t));
      r.code == -111 && r.text.None? && Chars(r.rest) == t
  {
    hide HeaderText, GetReply;
    BytesAnswer(max, last, garbage, CRLF + t);
    CharsOfBytes(CRLF + t);
    BlankLine(StartInfo(garbage), last, t);
  }
}
