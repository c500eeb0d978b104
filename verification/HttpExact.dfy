/**
  How far the framing result reaches: the bodies that the reader returns intact are exactly
  those the framing theorem allows, a body cut short is reported like a whole one, and the
  headers that clients print are among those it allows.
*/
module HttpExact {
  import opened CText
  import opened HttpMachine
  import opened HttpText
  import opened HttpLines
  import opened HttpFraming

  // ------------------------------------------------------------------ Content-Length bodies

  /** While fewer than `m.size` bytes can have been copied, the reader is not done. */
  lemma {:induction false} NotDoneYet(m: Mode, st: BState, a: string, t: string)
    requires BodyOk(m, st) && !st.fetchBlank && st.copy >= |a|
    requires |st.text| + |a| < m.size || m.max <= m.size
    ensures var r := BodyText(m, st, a + t);
      |r.rest| <= |t| && (r.end.Complete? ==> |r.rest| < |t|)
    decreases |a|
  {
    hide Strtoul16, CStr, ToInt32, BodyText;
    if a == "" {
      assert a + t == t;
    } else {
      assert (a + t)[0] == a[0] && (a + t)[1..] == a[1..] + t;
      BodyStep(m, st, a + t);
      NotDoneYet(m, NormB(BodyByte(m, st, a[0]).st), a[1..], t);
    }
  }

  /** The line feed of a CR LF pair inside a body is dropped, so the body runs short. */
  lemma BreakRunsShort(m: Mode, a: string, b: string, t: string)
    requires !m.chunked && m.size == |a| + 1 + |b| < m.max && a != "" && a[|a| - 1] == CR && NoBreak(a)
    ensures var r := BodyText(m, NormB(StartBody(m)), a + ([LF] + (b + t)));
      r.end.Complete? ==> |r.rest| < |t|
  {
    hide BodyText;
    PlainIsNoBreak(NUL, a);
    BodyCopy(m, "", m.size, "", false, NUL, a, [LF] + (b + t));
    assert "" + a == a;
    SkipLf(m, a, 1 + |b|, b + t);
    NotDoneYet(m, B(a, 1 + |b|, "", false, false, LF), b, t);
  }

  /** A Content-Length body comes back intact, with nothing after it consumed, exactly when
      it is not empty, fits the buffer and holds no CR LF pair. */
  lemma SizedExact(m: Mode, data: string, t: string)
    requires !m.chunked && m.size == |data| && 0 < m.max
    ensures BodyText(m, NormB(StartBody(m)), data + t) == BText(Complete, data, t) <==>
            0 < |data| < m.max && NoBreak(data)
  {
    hide BodyText;
    var st := NormB(StartBody(m));
    var r := BodyText(m, st, data + t);
    if 0 < |data| < m.max && NoBreak(data) {
      SizedBody(m, data, t);
    } else if data == "" {
      assert data + t == t;
    } else if m.max <= |data| {
      NotDoneYet(m, st, data, t);
    } else {
      var i := FirstBreak(data, 1);
      var a, b := data[..i], data[i + 1..];
      assert data + t == a + ([LF] + (b + t));
      BreakRunsShort(m, a, b, t);
    }
  }

  lemma {:induction false} FirstBreak(a: string, from: nat) returns (i: nat)
    requires !NoBreak(a) && 0 < from <= |a| && NoBreak(a[..from])
    ensures 0 < i < |a| && a[i - 1] == CR && a[i] == LF && NoBreak(a[..i])
    decreases |a| - from
  {
    assert a[..|a|] == a;
    if a[from - 1] == CR && a[from] == LF {
      i := from;
    } else {
      assert NoBreak(a[..from + 1]) by {
        forall k | 0 < k < from + 1 ensures !(a[k - 1] == CR && a[k] == LF) {
          assert k < from ==> a[..from][k - 1] == a[k - 1] && a[..from][k] == a[k];
        }
      }
      i := FirstBreak(a, from + 1);
    }
  }

  // ------------------------------------------------------------------ chunked bodies

  /** What is in the answer stays there. */
  lemma {:induction false} AnswerGrows(m: Mode, st: BState, t: string)
    requires BodyOk(m, st)
    ensures st.text <= BodyText(m, st, t).text
    decreases |t|
  {
    hide Strtoul16, CStr, ToInt32;
    if t != "" && BodyByte(m, st, t[0]).More? {
      AnswerGrows(m, NormB(BodyByte(m, st, t[0]).st), t[1..]);
    }
  }

  /** One byte short, the reader goes on into the line end behind the chunk and stores its CR
      where the chunk had another byte. */
  lemma {:induction false} Shifted(m: Mode, text: string, fetchTerm: bool, u: string, t: string)
    requires m.size == 0 && m.chunked && |text| + 1 + |u| < m.max
    ensures !(text + ([LF] + u) <= BodyText(m, B(text, |u| + 1, "", fetchTerm, false, LF), u + (CRLF + t)).text)
    decreases |u|
  {
    hide BodyText, BodyByte;
    var s := u + (CRLF + t);
    var c := if u == "" then CR else u[0];
    assert s[0] == c && (u != "" ==> s[1..] == u[1..] + (CRLF + t));
    assert Cut(text + [c], m.max - 1) == text + [c];
    var st := B(text, |u| + 1, "", fetchTerm, false, LF);
    CopyByte(m, text, |u| + 1, "", fetchTerm, LF, c);
    BodyStep(m, st, s);
    var next := B(text + [c], |u|, "", true, false, c);
    if c == LF {
      Shifted(m, text + [LF], true, u[1..], t);
      assert text + [LF] + ([LF] + u[1..]) == text + ([LF] + u);
    } else {
      AnswerGrows(m, next, s[1..]);
      assert (text + [c])[|text|] == c && (text + ([LF] + u))[|text|] == LF;
    }
  }

  lemma BrokenChunk(m: Mode, text: string, enc: string, last: char, c: Chunk, t: string)
    requires m.chunked && m.size == 0 && |text + c.data| < m.max && Residue(enc) && last != CR
    requires c.data != "" && SizeLineOk(c.digits, c.ext, |c.data|) && !NoBreak(c.data)
    ensures !(text + c.data <= BodyText(m, B(text, 0, enc, false, false, last),
                                        c.digits + c.ext + CRLF + (c.data + (CRLF + t))).text)
  {
    hide BodyText, SizeLineOk, Renewals, NoBreak, Residue;
    SizeLine(m, text, enc, last, c.digits, c.ext, |c.data|, c.data + (CRLF + t));
    BrokenData(m, text, c.data, t);
  }

  lemma BrokenData(m: Mode, text: string, data: string, t: string)
    requires m.chunked && m.size == 0 && |text + data| < m.max && data != "" && !NoBreak(data)
    ensures !(text + data <= BodyText(m, B(text, |data|, "", false, false, LF), data + (CRLF + t)).text)
  {
    hide BodyText, Renewals;
    var n := |data|;
    var i := FirstBreak(data, 1);
    var a, u := data[..i], data[i + 1..];
    PlainIsNoBreak(LF, a);
    var s := [LF] + (u + (CRLF + t));
    BreakSplits(data, i, text, CRLF + t);
    BodyCopy(m, text, n, "", false, LF, a, s);
    SkipLf(m, text + a, n - i, u + (CRLF + t));
    Shifted(m, text + a, false, u, t);
  }

  lemma BreakSplits(data: string, i: nat, text: string, t: string)
    requires 0 < i < |data| && data[i] == LF
    ensures data + t == data[..i] + ([LF] + (data[i + 1..] + t))
    ensures text + data == text + data[..i] + ([LF] + data[i + 1..])
  {
  }

  lemma SkipLf(m: Mode, text: string, copy: int, t: string)
    requires |text| < m.max
    ensures BodyText(m, B(text, copy, "", true, false, CR), [LF] + t) ==
            BodyText(m, B(text, copy, "", false, false, LF), t)
  {
    assert ([LF] + t)[1..] == t;
    assert NormB(BodyByte(m, B(text, copy, "", true, false, CR), LF).st) == B(text, copy, "", false, false, LF);
  }

  lemma {:induction false} BrokenChunks(m: Mode, text: string, enc: string, last: char, cs: seq<Chunk>, t: string)
    requires m.chunked && m.size == 0 && |text + Join(cs)| < m.max && Residue(enc) && last != CR && |text| < m.max
    requires forall c | c in cs :: c.data != "" && SizeLineOk(c.digits, c.ext, |c.data|)
    requires exists c | c in cs :: !NoBreak(c.data)
    ensures !(text + Join(cs) <= BodyText(m, B(text, 0, enc, false, false, last), WireChunks(cs) + t).text)
    decreases |cs|
  {
    hide BodyText, SizeLineOk, NoBreak, Renewals, Join, WireChunks;
    var c, rest := cs[0], cs[1..];
    assert c in cs;
    WireSplit(cs, t);
    JoinSplit(cs, text);
    if NoBreak(c.data) {
      OneChunk(m, text, enc, last, c, WireChunks(rest) + t);
      assert Cut(text + c.data, m.max - 1) == text + c.data;
      BrokenChunks(m, text + c.data, [CR], LF, rest, t);
    } else {
      BrokenChunk(m, text, enc, last, c, WireChunks(rest) + t);
      assert text + c.data <= text + Join(cs);
    }
  }

  /** A chunked body that fits comes back intact, with nothing after it consumed, exactly
      when no chunk holds a CR LF pair in its data. */
  lemma ChunkedExact(m: Mode, cs: seq<Chunk>, zero: string, ext: string, t: string)
    requires m.chunked && m.size == 0 && m.max > 1 && |Join(cs)| < m.max && SizeLineOk(zero, ext, 0)
    requires forall c | c in cs :: c.data != "" && SizeLineOk(c.digits, c.ext, |c.data|)
    ensures BodyText(m, NormB(StartBody(m)), WireBody(Chunked(cs, zero, ext)) + t) == BText(Complete, Join(cs), t) <==>
            forall c | c in cs :: NoBreak(c.data)
  {
    hide BodyText, SizeLineOk, NoBreak, WireChunks, Join;
    if forall c | c in cs :: NoBreak(c.data) {
      ChunkedBody(m, cs, zero, ext, t);
    } else {
      var tail := zero + ext + CRLF + (CRLF + t);
      assert WireBody(Chunked(cs, zero, ext)) + t == WireChunks(cs) + tail;
      assert "" + Join(cs) == Join(cs);
      BrokenChunks(m, "", "", NUL, cs, tail);
    }
  }

  // ------------------------------------------------------------------ truncated answers

  /** Whatever follows a complete header, the call returns its status code. */
  lemma StatusWhateverFollows(max: nat, last: char, garbage: string, lines: seq<string>, code: int, size: int,
                              chunked: bool, x: string)
    requires 0 < max && last != CR && (forall l | l in lines :: LineOk(l)) && HeadMeans(lines, code, size, chunked)
    ensures var r := ReplyText(max, last, garbage, WireLines(lines) + CRLF + x);
      r.stop.HeaderEnd? && r.code == code
  {
    hide HeaderText, BodyText, Fold, LineOk;
    HeaderLines(StartInfo(garbage), last, lines, x);
  }

  /** A body cut short of the place where the reader is done ends in a timeout, with part of
      what the whole body would have given. */
  lemma {:induction false} CutBody(m: Mode, st: BState, p: string, t: string)
    requires BodyOk(m, st) && p <= t && BodyText(m, st, t).end.Complete? && |p| < |t| - |BodyText(m, st, t).rest|
    ensures var r := BodyText(m, st, p);
      r.end.TimedOut? && r.rest == "" && r.text <= BodyText(m, st, t).text
    decreases |p|
  {
    hide BodyByte;
    if p == "" {
      AnswerGrows(m, st, t);
    } else {
      var step := BodyByte(m, st, p[0]);
      if step.More? {
        CutBody(m, NormB(step.st), p[1..], t[1..]);
      }
    }
  }

  /** An answer that stops anywhere short of the end of its body, sized or chunked, ends in a
      timeout, yet the caller gets its status code, just as for the whole answer, and never
      the timeout code. The text is part of the content; of a sized body, all that came. */
  lemma TruncatedLooksComplete(r: Response, p: string, max: nat, last: char, garbage: string)
    requires ResponseOk(r, max) && p < WireBody(r.body) && 0 < max && last != CR
    ensures var got := ReplyText(max, last, garbage, WireLines(r.lines) + CRLF + p);
      && got.stop.HeaderEnd? && got.code == r.code && got.end == Some(TimedOut) && got.rest == ""
      && got.text.Some? && got.text.value <= Cut(Content(r.body), max - 1)
      && (r.body.Sized? ==> got.text.value == p)
  {
    hide HeaderText, BodyText, Fold, LineOk, SizeLineOk, WireChunks;
    HeaderLines(StartInfo(garbage), last, r.lines, p);
    var info := Fold(StartInfo(garbage), r.lines).value;
    var m := Mode(info.size, info.chunked, max);
    assert WireBody(r.body) + "" == WireBody(r.body);
    match r.body {
      case Sized(data) =>
        SizedBody(m, data, "");
        SizedPrefix(m, p, data);
      case Chunked(cs, zero, ext) =>
        ChunkedBody(m, cs, zero, ext, "");
    }
    CutBody(m, NormB(StartBody(m)), p, WireBody(r.body));
  }

  lemma SizedPrefix(m: Mode, p: string, data: string)
    requires !m.chunked && m.size == |data| && BodyFits(Sized(data), m.max) && p < data
    ensures BodyText(m, NormB(StartBody(m)), p) == BText(TimedOut, p, "")
  {
    hide BodyText;
    PlainIsNoBreak(NUL, data);
    PlainIsNoBreak(NUL, p);
    BodyCopy(m, "", m.size, "", false, NUL, p, "");
    assert p + "" == p && "" + p == p;
    EndOfText(m, B(p, m.size - |p|, "", p != "", false, Last(NUL, p)));
  }

  lemma EndOfText(m: Mode, st: BState)
    requires BodyOk(m, st)
    ensures BodyText(m, st, "") == BText(TimedOut, st.text, "")
  {
  }

  /** A header cut behind complete lines is answered with their status: the call goes on to
      read a body, finds none, and returns the code. */
  lemma CutHeader(max: nat, last: char, garbage: string, lines: seq<string>, p: string)
    requires 0 < max && last != CR && (forall l | l in lines :: LineOk(l)) && Fold(StartInfo(garbage), lines).Some?
    requires NoBreak(p) && (p != "" ==> p[0] != NUL)
    ensures var r, status := ReplyText(max, last, garbage, WireLines(lines) + p), LastStatus(lines);
      && r.stop.Quiet? && r.rest == ""
      && r.code == (if status.Some? then status.value else ERROR_PARSING_HEADER)
      && (r.code > 0 ==> r.text == Some("") && r.end == Some(TimedOut))
  {
    hide HeaderText, BodyText, Fold, LineOk, ReadLines, LastStatus, WireLines;
    var info := Fold(StartInfo(garbage), lines).value;
    HeaderIsByLine(StartInfo(garbage), last, WireLines(lines) + p);
    WireIsRead(StartInfo(garbage), lines, p);
    HeaderIsByLine(info, last, p);
    NoLine(info, last, p);
    FoldStatus(StartInfo(garbage), lines);
    EndOfText(Mode(info.size, info.chunked, max), NormB(StartBody(Mode(info.size, info.chunked, max))));
  }

  // ------------------------------------------------------------------ printed headers

  /** A header field that the reader passes over. */
  ghost predicate Neutral(l: string) {
    forall info: Info :: ReadLine(info, l) == Some(info)
  }

  lemma OtherFieldIsNeutral(l: string)
    requires l != "" && l[0] != 'H' && l[0] != 'C' && l[0] != 'T' && Find(l, "NO CARRIER").None?
    ensures Neutral(l)
  {
    hide ScanInt, SkipSpace, Find;
    assert "HTTP/1."[0] == 'H' && "Content-Length:"[0] == 'C' && "Transfer-Encoding:"[0] == 'T';
  }

  lemma {:induction false} FoldNeutral(info: Info, lines: seq<string>)
    requires forall l | l in lines :: Neutral(l)
    ensures Fold(info, lines) == Some(info)
    decreases |lines|
  {
    hide ReadLine;
    if lines != [] {
      assert Neutral(lines[0]);
      FoldNeutral(info, lines[1..]);
    }
  }

  lemma {:induction false} FoldAppend(info: Info, a: seq<string>, b: seq<string>)
    ensures Fold(info, a + b) == if Fold(info, a).None? then None else Fold(Fold(info, a).value, b)
    decreases |a|
  {
    hide ReadLine;
    if a == [] {
      assert a + b == b;
    } else {
      assert (a + b)[1..] == a[1..] + b;
      var next := ReadLine(info, a[0]);
      if next.Some? {
        FoldAppend(next.value, a[1..], b);
      }
    }
  }

  function StatusLine(minor: nat, code: nat, reason: string): string {
    "HTTP/1." + Dec(minor) + " " + Dec(code) + reason
  }

  lemma StatusLineReads(info: Info, minor: nat, code: nat, reason: string)
    requires minor < TWO31 && code < TWO31 && (reason != "" ==> !IsDigit(reason[0], 10))
    ensures ReadLine(info, StatusLine(minor, code, reason)) == Some(info.(retcode := code))
  {
    hide Dec, ScanInt, ScanLength, ScanEncoding, Find;
    var tail := " " + Dec(code) + reason;
    ScanPrinted("", minor, tail);
    ScanPrinted(" ", code, reason);
    assert StatusLine(minor, code, reason)[7..] == "" + Dec(minor) + tail;
  }

  function LengthLine(blank: string, n: nat): string {
    "Content-Length:" + blank + Dec(n)
  }

  lemma LengthLineReads(info: Info, blank: string, n: nat)
    requires n < TWO31 && forall i | 0 <= i < |blank| :: IsSpace(blank[i])
    ensures ReadLine(info, LengthLine(blank, n)) == Some(info.(size := n))
  {
    hide Dec;
    var line := LengthLine(blank, n);
    ScanPrinted(blank, n, "");
    assert line[15..] == blank + Dec(n) + "";
    assert line[0] == 'C' && "HTTP/1."[0] == 'H';
  }

  function ChunkedLine(blank: string): string {
    "Transfer-Encoding:" + blank + "chunked"
  }

  lemma ChunkedLineReads(info: Info, blank: string)
    requires forall i | 0 <= i < |blank| :: IsSpace(blank[i])
    ensures ReadLine(info, ChunkedLine(blank)) == Some(info.(chunked := true, word := "chunked"))
  {
    hide SkipSpace, FirstWord;
    var line := ChunkedLine(blank);
    SkipBlanks(blank, "chunked");
    assert line[18..] == blank + "chunked";
    assert line[0] == 'T' && "HTTP/1."[0] == 'H' && "Content-Length:"[0] == 'C';
    WordOfPlain("chunked");
  }

  lemma {:induction false} WordOfPlain(s: string)
    requires forall i | 0 <= i < |s| :: !IsSpace(s[i])
    ensures FirstWord(s) == s
    decreases |s|
  {
    if s != "" {
      WordOfPlain(s[1..]);
    }
  }

  /** A printed header, with other fields around its framing field, means what it says. */
  lemma PrintedHeader(minor: nat, code: nat, reason: string, before: seq<string>, after: seq<string>, blank: string, n: nat)
    requires minor < TWO31 && code < TWO31 && n < TWO31 && (reason != "" ==> !IsDigit(reason[0], 10))
    requires forall l | l in before + after :: Neutral(l)
    requires forall i | 0 <= i < |blank| :: IsSpace(blank[i])
    ensures HeadMeans([StatusLine(minor, code, reason)] + before + ([LengthLine(blank, n)] + after), code, n, false)
    ensures HeadMeans([StatusLine(minor, code, reason)] + before + ([ChunkedLine(blank)] + after), code, 0, true)
  {
    hide ReadLine, StatusLine, LengthLine, ChunkedLine, Neutral;
    assert forall l | l in before || l in after :: l in before + after;
    var sized := [StatusLine(minor, code, reason)] + before + ([LengthLine(blank, n)] + after);
    var chunked := [StatusLine(minor, code, reason)] + before + ([ChunkedLine(blank)] + after);
    forall garbage: string
      ensures Fold(StartInfo(garbage), sized) == Some(StartInfo(garbage).(retcode := code, size := n))
      ensures Fold(StartInfo(garbage), chunked) ==
              Some(StartInfo(garbage).(retcode := code, chunked := true, word := "chunked"))
    {
      var start := StartInfo(garbage);
      StatusLineReads(start, minor, code, reason);
      var info := start.(retcode := code);
      LengthLineReads(info, blank, n);
      ChunkedLineReads(info, blank);
      FoldPrinted(start, StatusLine(minor, code, reason), before, LengthLine(blank, n), after, info, info.(size := n));
      FoldPrinted(start, StatusLine(minor, code, reason), before, ChunkedLine(blank), after, info,
                  info.(chunked := true, word := "chunked"));
    }
  }

  lemma FoldPrinted(start: Info, first: string, before: seq<string>, framing: string, after: seq<string>,
                    info: Info, end: Info)
    requires forall l | l in before || l in after :: Neutral(l)
    requires ReadLine(start, first) == Some(info) && ReadLine(info, framing) == Some(end)
    ensures Fold(start, [first] + before + ([framing] + after)) == Some(end)
  {
    hide ReadLine, Neutral;
    assert [first] + before + ([framing] + after) == [first] + (before + ([framing] + after));
    assert ([first] + (before + ([framing] + after)))[1..] == before + ([framing] + after);
    FoldNeutral(info, before);
    FoldAppend(info, before, [framing] + after);
    assert ([framing] + after)[1..] == after;
    FoldNeutral(end, after);
  }

  /** Text that may stand in a header line. */
  ghost predicate LinePart(s: string) {
    NUL !in s && NoBreak(s)
  }

  lemma JoinLineParts(a: string, b: string)
    requires LinePart(a) && LinePart(b) && (b != "" ==> b[0] != LF || a == "" || a[|a| - 1] != CR)
    ensures LinePart(a + b)
  {
    var s := a + b;
    forall i | 0 < i < |s| ensures !(s[i - 1] == CR && s[i] == LF) {
      if i < |a| {
        assert s[i - 1] == a[i - 1];
      } else if i > |a| {
        assert s[i - 1] == b[i - 1 - |a|] && s[i] == b[i - |a|];
      }
    }
  }

  lemma StatusLineOk(minor: nat, code: nat, reason: string)
    requires minor < TWO31 && code < TWO31 && LinePart(reason) && |reason| <= 200
    ensures LineOk(StatusLine(minor, code, reason))
  {
    hide Dec;
    Int32Digits(minor);
    Int32Digits(code);
    var front := "HTTP/1." + Dec(minor) + " " + Dec(code);
    assert forall i | 0 <= i < |Dec(code)| :: front[|front| - |Dec(code)| + i] == Dec(code)[i];
    JoinLineParts(front, reason);
  }

  lemma LengthLineOk(blank: string, n: nat)
    requires n < TWO31 && LinePart(blank) && |blank| <= 200
    ensures LineOk(LengthLine(blank, n))
  {
    hide Dec;
    Int32Digits(n);
    JoinLineParts("Content-Length:", blank);
    JoinLineParts("Content-Length:" + blank, Dec(n));
  }

  lemma ChunkedLineOk(blank: string)
    requires LinePart(blank) && |blank| <= 200
    ensures LineOk(ChunkedLine(blank))
  {
    JoinLineParts("Transfer-Encoding:", blank);
    JoinLineParts("Transfer-Encoding:" + blank, "chunked");
  }

  /** The header that a server prints for a body, with other fields before and after. */
  function PrintedLines(minor: nat, code: nat, reason: string, before: seq<string>, after: seq<string>, blank: string,
                        body: Body): seq<string> {
    [StatusLine(minor, code, reason)] + before +
    ([if body.Sized? then LengthLine(blank, |body.data|) else ChunkedLine(blank)] + after)
  }

  /** A printed response is well formed: the framing theorem applies to it. */
  lemma PrintedResponseOk(minor: nat, code: nat, reason: string, before: seq<string>, after: seq<string>, blank: string,
                          body: Body, max: nat)
    requires minor < TWO31 && 0 < code < TWO31 && (reason != "" ==> !IsDigit(reason[0], 10))
    requires LinePart(reason) && LinePart(blank) && |reason| <= 200 && |blank| <= 200
    requires forall l | l in before + after :: Neutral(l) && LineOk(l)
    requires forall i | 0 <= i < |blank| :: IsSpace(blank[i])
    requires BodyFits(body, max) && (body.Sized? ==> |body.data| < TWO31)
    ensures ResponseOk(Response(code, PrintedLines(minor, code, reason, before, after, blank, body), body), max)
  {
    hide StatusLine, LengthLine, ChunkedLine, Neutral, LineOk, BodyFits, HeadMeans, LinePart, IsSpace, IsDigit;
    StatusLineOk(minor, code, reason);
    ChunkedLineOk(blank);
    if body.Sized? {
      LengthLineOk(blank, |body.data|);
    }
    PrintedHeader(minor, code, reason, before, after, blank, if body.Sized? then |body.data| else 0);
    var lines := PrintedLines(minor, code, reason, before, after, blank, body);
    forall l | l in lines ensures LineOk(l) {
      assert l in before || l in after ==> l in before + after;
    }
  }
}
