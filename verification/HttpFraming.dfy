/**
  Framing: what responses look like on the wire (RFC 9112, sections 6.3 and 7.1), and that
  the reader takes exactly one response at a time from any sequence of them.
*/
module HttpFraming {
  import opened CText
  import opened HttpMachine
  import opened HttpText
  import opened HttpLines
  import opened HttpReader

  // ------------------------------------------------------------------ responses

  datatype Chunk = Chunk(digits: string, ext: string, data: string)

  /** Chunked: the last-chunk is written `zero`, again with an extension. */
  datatype Body = Sized(data: string) | Chunked(chunks: seq<Chunk>, zero: string, ext: string)

  datatype Response = Response(code: int, lines: seq<string>, body: Body)

  function WireLines(lines: seq<string>): string {
    if lines == [] then "" else lines[0] + CRLF + WireLines(lines[1..])
  }

  function WireChunks(cs: seq<Chunk>): string {
    if cs == [] then ""
    else cs[0].digits + cs[0].ext + CRLF + cs[0].data + CRLF + WireChunks(cs[1..])
  }

  function WireBody(b: Body): string {
    match b
    case Sized(data) => data
    case Chunked(cs, zero, ext) => WireChunks(cs) + (zero + ext + CRLF) + CRLF
  }

  function Wire(r: Response): string {
    WireLines(r.lines) + CRLF + WireBody(r.body)
  }

  function WireAll(rs: seq<Response>): string {
    if rs == [] then "" else Wire(rs[0]) + WireAll(rs[1..])
  }

  function Join(cs: seq<Chunk>): string {
    if cs == [] then "" else cs[0].data + Join(cs[1..])
  }

  function Content(b: Body): string {
    match b
    case Sized(data) => data
    case Chunked(cs, _, _) => Join(cs)
  }

  // ------------------------------------------------------------------ well-formedness

  /** A header line that fits `stringa`. */
  ghost predicate LineOk(l: string) {
    0 < |l| <= 254 && NUL !in l && NoBreak(l)
  }

  /** The lines mean this status and framing, whatever the uninitialised locals held. */
  ghost predicate HeadMeans(lines: seq<string>, code: int, size: int, chunked: bool) {
    forall garbage: string ::
      var f := Fold(StartInfo(garbage), lines);
      f.Some? && f.value.retcode == code && f.value.size == size && f.value.chunked == chunked
  }

  /** A chunk-size line: hexadecimal digits, then nothing or an extension of any length. */
  ghost predicate SizeLineOk(digits: string, ext: string, n: nat) {
    && 0 < |digits| <= 253 && AllDigits(digits, 16) && Value(digits, 16) == n < TWO31
    && (ext != "" ==> ext[0] == ';' || ext[0] == ' ' || ext[0] == '\t') && NoBreak(ext)
  }

  ghost predicate ChunkOk(c: Chunk) {
    c.data != "" && NoBreak(c.data) && SizeLineOk(c.digits, c.ext, |c.data|)
  }

  ghost predicate BodyFits(b: Body, max: nat) {
    match b
    case Sized(data) => 0 < |data| < max && NoBreak(data)
    case Chunked(cs, zero, ext) => max > 1 && SizeLineOk(zero, ext, 0) && forall c | c in cs :: ChunkOk(c)
  }

  ghost predicate ResponseOk(r: Response, max: nat) {
    && r.code > 0 && (forall l | l in r.lines :: LineOk(l))
    && HeadMeans(r.lines, r.code, if r.body.Sized? then |r.body.data| else 0, r.body.Chunked?)
    && BodyFits(r.body, max)
  }

  // ------------------------------------------------------------------ the header text

  /** Header lines and a blank line end the header with what the lines mean. */
  lemma HeaderLines(info: Info, last: char, lines: seq<string>, t: string)
    requires (forall l | l in lines :: LineOk(l)) && last != CR && Fold(info, lines).Some?
    ensures HeaderText(H(info, "", last), WireLines(lines) + CRLF + t) == HText(HeaderEnd, Fold(info, lines).value, t)
  {
    HeaderIsByLine(info, last, WireLines(lines) + CRLF + t);
    assert WireLines(lines) + CRLF + t == WireLines(lines) + (CRLF + t);
    WireIsRead(info, lines, CRLF + t);
    assert CRLF + t == "" + CRLF + t;
    FirstBreakAt("", t);
  }

  lemma {:induction false} WireIsRead(info: Info, lines: seq<string>, t: string)
    requires (forall l | l in lines :: LineOk(l)) && Fold(info, lines).Some?
    ensures ReadLines(info, WireLines(lines) + t) == ReadLines(Fold(info, lines).value, t)
    decreases |lines|
  {
    hide ReadLine;
    if lines == [] {
      assert WireLines(lines) + t == t;
    } else {
      var more := WireLines(lines[1..]) + t;
      assert WireLines(lines) + t == lines[0] + CRLF + more;
      assert lines[0] in lines;
      FirstBreakAt(lines[0], more);
      CStrOfTerminated(lines[0], "");
      WireIsRead(ReadLine(info, lines[0]).value, lines[1..], t);
    }
  }

  // ------------------------------------------------------------------ the body text

  function B(text: string, copy: int, enc: string, fetchTerm: bool, fetchBlank: bool, last: char): BState {
    BState(text, copy, enc, fetchTerm, fetchBlank, last, 0, 0)
  }

  lemma BodyStep(m: Mode, st: BState, t: string)
    requires BodyOk(m, st) && t != "" && BodyByte(m, st, t[0]).More?
    ensures BodyText(m, st, t) == BodyText(m, NormB(BodyByte(m, st, t[0]).st), t[1..])
    ensures Renewals(m, st, t) == [!Skips(st, t[0])] + Renewals(m, NormB(BodyByte(m, st, t[0]).st), t[1..])
  {
  }

  /** While up to `n` characters have been copied, their number has not been the declared
      length: there is none, or it is larger, or the buffer is too small to reach it. */
  ghost predicate Unreached(m: Mode, n: nat) {
    (m.size <= 0 && m.max > 1) || n < m.size || m.max <= m.size
  }

  lemma BodyDone(m: Mode, st: BState, t: string)
    requires BodyOk(m, st) && t != "" && BodyByte(m, st, t[0]).Done?
    ensures BodyText(m, st, t) == BText(Complete, BodyByte(m, st, t[0]).end.text, t[1..])
    ensures Renewals(m, st, t) == [true]
  {
  }

  lemma CopyByte(m: Mode, text: string, copy: int, enc: string, fetchTerm: bool, last: char, c: char)
    requires 0 < m.max && |text| < m.max && |enc| < ENC_SIZE && copy > 0 && !(last == CR && c == LF)
    requires Unreached(m, |text| + 1)
    ensures var r := BodyByte(m, B(text, copy, enc, fetchTerm, false, last), c);
      r.More? && NormB(r.st) == B(Cut(text + [c], m.max - 1), copy - 1, enc, true, false, c)
  {
    hide Strtoul16, CStr, ToInt32;
  }

  lemma RenewingFirst(n: nat, more: seq<bool>)
    requires n > 0
    ensures Renewing(n) + more == [true] + (Renewing(n - 1) + more)
  {
  }

  lemma RenewingJoin(a: nat, b: nat, more: seq<bool>)
    ensures Renewing(a) + (Renewing(b) + more) == Renewing(a + b) + more
    ensures Renewing(0) + more == more
  {
  }

  lemma CollectByte(m: Mode, text: string, enc: string, last: char, c: char)
    requires 0 < m.max && |text| < m.max && |enc| < ENC_SIZE && m.chunked && !(last == CR && c == LF)
    ensures var r := BodyByte(m, B(text, 0, enc, false, false, last), c);
      r.More? && NormB(r.st) == B(text, 0, Cut(enc + [c], ENC_SIZE - 1), false, false, c)
  {
    hide Strtoul16, CStr, ToInt32;
  }

  /** Bytes without a CR LF pair are copied as they are, up to the room in the buffer. */
  lemma {:induction false} BodyCopy(m: Mode, text: string, copy: int, enc: string, fetchTerm: bool, last: char,
                                    a: string, t: string)
    requires 0 < m.max && |text| < m.max && |enc| < ENC_SIZE && copy >= |a| && Plain(last, a)
    requires Unreached(m, |text| + |a|)
    ensures BodyText(m, B(text, copy, enc, fetchTerm, false, last), a + t) ==
            BodyText(m, B(Cut(text + a, m.max - 1), copy - |a|, enc, fetchTerm || a != "", false, Last(last, a)), t)
    ensures Renewals(m, B(text, copy, enc, fetchTerm, false, last), a + t) == Renewing(|a|) +
            Renewals(m, B(Cut(text + a, m.max - 1), copy - |a|, enc, fetchTerm || a != "", false, Last(last, a)), t)
    decreases |a|
  {
    hide BodyText, BodyByte, Cut, Renewals;
    if a == "" {
      assert a + t == t && text + a == text;
      assert Cut(text, m.max - 1) == text;
      RenewingJoin(0, 0, Renewals(m, B(text, copy, enc, fetchTerm, false, last), t));
    } else {
      var more := Cut(text + [a[0]], m.max - 1);
      CopyByte(m, text, copy, enc, fetchTerm, last, a[0]);
      assert (a + t)[0] == a[0] && (a + t)[1..] == a[1..] + t;
      BodyStep(m, B(text, copy, enc, fetchTerm, false, last), a + t);
      BodyCopy(m, more, copy - 1, enc, true, a[0], a[1..], t);
      assert [a[0]] + a[1..] == a;
      CutAppend(text, [a[0]], a[1..], m.max - 1);
      RenewingFirst(|a|, Renewals(m, B(Cut(text + a, m.max - 1), copy - |a|, enc, true, false, Last(last, a)), t));
    }
  }

  /** Outside a chunk, bytes other than a line feed after CR are collected. */
  lemma {:induction false} BodyCollect(m: Mode, text: string, enc: string, last: char, a: string, t: string)
    requires 0 < m.max && |text| < m.max && |enc| < ENC_SIZE && m.chunked && Plain(last, a)
    ensures BodyText(m, B(text, 0, enc, false, false, last), a + t) ==
            BodyText(m, B(text, 0, Cut(enc + a, ENC_SIZE - 1), false, false, Last(last, a)), t)
    ensures Renewals(m, B(text, 0, enc, false, false, last), a + t) ==
            Renewing(|a|) + Renewals(m, B(text, 0, Cut(enc + a, ENC_SIZE - 1), false, false, Last(last, a)), t)
    decreases |a|
  {
    hide BodyText, BodyByte, Cut, Renewals;
    if a == "" {
      assert a + t == t && enc + a == enc;
      assert Cut(enc, ENC_SIZE - 1) == enc;
      RenewingJoin(0, 0, Renewals(m, B(text, 0, enc, false, false, last), t));
    } else {
      var more := Cut(enc + [a[0]], ENC_SIZE - 1);
      CollectByte(m, text, enc, last, a[0]);
      assert (a + t)[0] == a[0] && (a + t)[1..] == a[1..] + t;
      BodyStep(m, B(text, 0, enc, false, false, last), a + t);
      BodyCollect(m, text, more, a[0], a[1..], t);
      assert [a[0]] + a[1..] == a;
      CutAppend(enc, [a[0]], a[1..], ENC_SIZE - 1);
      RenewingFirst(|a|, Renewals(m, B(text, 0, Cut(enc + a, ENC_SIZE - 1), false, false, Last(last, a)), t));
    }
  }

  /** What `encoding_buf` may hold where a size line starts: nothing, or the CR that the
      line end after the previous chunk left at index 0. */
  ghost predicate Residue(enc: string) {
    enc == "" || enc == [CR]
  }

  /** The collected size line converts to the chunk size: the residue is leading blank. */
  lemma SizeLineValue(enc: string, digits: string, ext: string, n: nat)
    requires Residue(enc) && SizeLineOk(digits, ext, n)
    ensures var e := Cut(enc + (digits + ext + [CR]), ENC_SIZE - 1);
      e != "" && ToInt32(Strtoul16(CStr(e[..|e| - 1]))) == n
  {
    hide Strtoul16, CStr, ToInt32, Value, AllDigits;
    var whole := enc + (digits + ext + [CR]);
    var e := Cut(whole, ENC_SIZE - 1);
    var head, tail := enc + digits, e[|enc + digits|..|e| - 1];
    assert e[..|e| - 1] == head + tail && tail <= ext by {
      assert e <= whole && whole == head + (ext + [CR]);
    }
    TailOfHead(enc, digits, tail);
    var rest := CStr(tail);
    assert CStr(tail) <= tail by { CStrIsPrefix(tail); }
    assert rest != "" ==> rest[0] == ext[0];
    StrtoulDigits(enc, digits, rest);
    assert ToInt32(n) == n;
  }

  lemma {:induction false} CStrIsPrefix(s: string)
    ensures CStr(s) <= s
  {
    if s != "" && s[0] != NUL {
      CStrIsPrefix(s[1..]);
    }
  }

  lemma {:induction false} CStrAfter(head: string, tail: string)
    requires NUL !in head
    ensures CStr(head + tail) == head + CStr(tail)
  {
    if head == "" {
      assert head + tail == tail;
    } else {
      CStrAfter(head[1..], tail);
      assert (head + tail)[1..] == head[1..] + tail;
    }
  }

  lemma TailOfHead(enc: string, digits: string, tail: string)
    requires Residue(enc) && AllDigits(digits, 16)
    ensures CStr(enc + digits + tail) == enc + digits + CStr(tail)
  {
    assert NUL !in digits by {
      assert !IsDigit(NUL, 16);
    }
    CStrAfter(enc + digits, tail);
  }

  lemma SizeLinePlain(digits: string, ext: string, n: nat)
    requires SizeLineOk(digits, ext, n)
    ensures NoBreak(digits + ext)
  {
    hide Value;
    var a := digits + ext;
    forall i | 0 < i < |a| ensures !(a[i - 1] == CR && a[i] == LF) {
      if i <= |digits| {
        assert IsDigit(digits[i - 1], 16);
      } else {
        assert a[i - 1] == ext[i - 1 - |digits|] && a[i] == ext[i - |digits|];
      }
    }
  }

  /** The line feed that ends a size line. */
  lemma SizeLineEnd(m: Mode, text: string, e: string, n: int, t: string)
    requires 0 < m.max && |text| < m.max && m.chunked && 0 < |e| < ENC_SIZE
    requires ToInt32(Strtoul16(CStr(e[..|e| - 1]))) == n
    ensures BodyText(m, B(text, 0, e, false, false, CR), [LF] + t) == BodyText(m, B(text, n, "", false, n == 0, LF), t)
    ensures Renewals(m, B(text, 0, e, false, false, CR), [LF] + t) ==
            [true] + Renewals(m, B(text, n, "", false, n == 0, LF), t)
  {
    hide Strtoul16, CStr, ToInt32, BodyText, Renewals;
    var st := B(text, 0, e, false, false, CR);
    assert ([LF] + t)[1..] == t;
    BodyStep(m, st, [LF] + t);
    assert NormB(BodyByte(m, st, LF).st) == B(text, n, "", false, n == 0, LF);
  }

  /** Any line where a chunk size is due: its number is that of the first 254 collected
      characters, in 32 bits. */
  lemma AnySizeLine(m: Mode, text: string, enc: string, last: char, a: string, t: string)
    requires 0 < m.max && |text| < m.max && m.chunked && Residue(enc) && last != CR && NoBreak(a)
    ensures var e := Cut(enc + (a + [CR]), 255);
      var n := ToInt32(Strtoul16(CStr(e[..|e| - 1])));
      && BodyText(m, B(text, 0, enc, false, false, last), a + CRLF + t) ==
         BodyText(m, B(text, n, "", false, n == 0, LF), t)
      && Renewals(m, B(text, 0, enc, false, false, last), a + CRLF + t) ==
         Renewing(|a| + 2) + Renewals(m, B(text, n, "", false, n == 0, LF), t)
  {
    hide Strtoul16, CStr, ToInt32, BodyText, Renewals, Cut;
    PlainIsNoBreak(last, a + [CR]);
    BodyCollect(m, text, enc, last, a + [CR], [LF] + t);
    assert a + CRLF + t == a + [CR] + ([LF] + t);
    var e := Cut(enc + (a + [CR]), ENC_SIZE - 1);
    CutFills(enc + (a + [CR]), ENC_SIZE - 1);
    var n := ToInt32(Strtoul16(CStr(e[..|e| - 1])));
    SizeLineEnd(m, text, e, n, t);
    RenewingJoin(|a| + 1, 1, Renewals(m, B(text, n, "", false, n == 0, LF), t));
    assert Renewing(1) == [true];
  }

  /** A whole size line sets the number of bytes to copy; a zero asks for the blank line. */
  lemma SizeLine(m: Mode, text: string, enc: string, last: char, digits: string, ext: string, n: nat, t: string)
    requires 0 < m.max && |text| < m.max && m.chunked && Residue(enc) && last != CR && SizeLineOk(digits, ext, n)
    ensures BodyText(m, B(text, 0, enc, false, false, last), digits + ext + CRLF + t) ==
            BodyText(m, B(text, n, "", false, n == 0, LF), t)
    ensures Renewals(m, B(text, 0, enc, false, false, last), digits + ext + CRLF + t) ==
            Renewing(|digits + ext| + 2) + Renewals(m, B(text, n, "", false, n == 0, LF), t)
  {
    hide Strtoul16, CStr, ToInt32, SizeLineOk, BodyText, Renewals, Residue, Cut, NoBreak;
    SizeLinePlain(digits, ext, n);
    AnySizeLine(m, text, enc, last, digits + ext, t);
    SizeLineValue(enc, digits, ext, n);
  }

  /** After the data, CR is collected and LF is skipped: the residue. */
  lemma ChunkEnd(m: Mode, text: string, last: char, t: string)
    requires 0 < m.max && |text| < m.max && m.chunked
    ensures BodyText(m, B(text, 0, "", true, false, last), CRLF + t) ==
            BodyText(m, B(text, 0, [CR], false, false, LF), t)
    ensures Renewals(m, B(text, 0, "", true, false, last), CRLF + t) ==
            [true, false] + Renewals(m, B(text, 0, [CR], false, false, LF), t)
  {
    hide BodyText, Renewals;
    assert (CRLF + t)[1..] == [LF] + t && ([LF] + t)[1..] == t;
    BodyStep(m, B(text, 0, "", true, false, last), CRLF + t);
    assert NormB(BodyByte(m, B(text, 0, "", true, false, last), CR).st) == B(text, 0, [CR], true, false, CR);
    BodyStep(m, B(text, 0, [CR], true, false, CR), [LF] + t);
    assert NormB(BodyByte(m, B(text, 0, [CR], true, false, CR), LF).st) == B(text, 0, [CR], false, false, LF);
    var more := Renewals(m, B(text, 0, [CR], false, false, LF), t);
    assert [true] + ([false] + more) == [true, false] + more;
  }

  /** Which bytes of a chunk renew the retry budget: all but its last line feed. */
  function ChunkFlags(c: Chunk): seq<bool> {
    Renewing(|c.digits + c.ext| + 2 + |c.data| + 1) + [false]
  }

  lemma OneChunk(m: Mode, text: string, enc: string, last: char, c: Chunk, t: string)
    requires m.max > 1 && m.chunked && |text| < m.max && Residue(enc) && last != CR && ChunkOk(c)
    requires Unreached(m, |text| + |c.data|)
    ensures BodyText(m, B(text, 0, enc, false, false, last), c.digits + c.ext + CRLF + (c.data + (CRLF + t))) ==
            BodyText(m, B(Cut(text + c.data, m.max - 1), 0, [CR], false, false, LF), t)
    ensures Renewals(m, B(text, 0, enc, false, false, last), c.digits + c.ext + CRLF + (c.data + (CRLF + t))) ==
            ChunkFlags(c) + Renewals(m, B(Cut(text + c.data, m.max - 1), 0, [CR], false, false, LF), t)
  {
    hide BodyText, SizeLineOk, Renewals;
    SizeLine(m, text, enc, last, c.digits, c.ext, |c.data|, c.data + (CRLF + t));
    PlainIsNoBreak(LF, c.data);
    BodyCopy(m, text, |c.data|, "", false, LF, c.data, CRLF + t);
    ChunkEnd(m, Cut(text + c.data, m.max - 1), Last(LF, c.data), t);
    FlagsOfChunk(c, Renewals(m, B(Cut(text + c.data, m.max - 1), 0, [CR], false, false, LF), t));
  }

  lemma FlagsOfChunk(c: Chunk, more: seq<bool>)
    ensures Renewing(|c.digits + c.ext| + 2) + (Renewing(|c.data|) + ([true, false] + more)) == ChunkFlags(c) + more
  {
  }

  function ChunksFlags(cs: seq<Chunk>): seq<bool> {
    if cs == [] then [] else ChunkFlags(cs[0]) + ChunksFlags(cs[1..])
  }

  /** The invariant of chunked decoding: between chunks the text so far is in the buffer,
      nothing is left to copy, and `encoding_buf` holds at most one CR. */
  lemma {:induction false} ChunksDecode(m: Mode, text: string, enc: string, last: char, cs: seq<Chunk>, t: string)
    requires m.max > 1 && m.chunked && |text| < m.max && Residue(enc) && last != CR
    requires Unreached(m, |text| + |Join(cs)|)
    requires forall c | c in cs :: ChunkOk(c)
    ensures BodyText(m, B(text, 0, enc, false, false, last), WireChunks(cs) + t) ==
            BodyText(m, B(Cut(text + Join(cs), m.max - 1), 0, if cs == [] then enc else [CR], false, false,
                          if cs == [] then last else LF), t)
    ensures Renewals(m, B(text, 0, enc, false, false, last), WireChunks(cs) + t) == ChunksFlags(cs) +
            Renewals(m, B(Cut(text + Join(cs), m.max - 1), 0, if cs == [] then enc else [CR], false, false,
                          if cs == [] then last else LF), t)
    decreases |cs|
  {
    hide BodyText, ChunkOk, Cut, Renewals, ChunkFlags, WireChunks;
    if cs == [] {
      NoChunks();
      assert WireChunks(cs) + t == t && text + Join(cs) == text == Cut(text, m.max - 1);
    } else {
      var c, rest := cs[0], cs[1..];
      assert c in cs;
      WireSplit(cs, t);
      OneChunk(m, text, enc, last, c, WireChunks(rest) + t);
      ChunksDecode(m, Cut(text + c.data, m.max - 1), [CR], LF, rest, t);
      CutAppend(text, c.data, Join(rest), m.max - 1);
    }
  }

  lemma JoinSplit(cs: seq<Chunk>, text: string)
    requires cs != []
    ensures text + Join(cs) == text + cs[0].data + Join(cs[1..])
  {
  }

  lemma NoChunks()
    ensures WireChunks([]) == ""
  {
  }

  lemma WireSplit(cs: seq<Chunk>, t: string)
    requires cs != []
    ensures WireChunks(cs) + t ==
            cs[0].digits + cs[0].ext + CRLF + (cs[0].data + (CRLF + (WireChunks(cs[1..]) + t)))
  {
  }

  /** Which bytes of a body renew the retry budget: all but the line feeds behind chunks. */
  function Flags(b: Body): seq<bool> {
    match b
    case Sized(data) => Renewing(|data|)
    case Chunked(cs, zero, ext) => ChunksFlags(cs) + Renewing(|zero + ext| + 4)
  }

  /** Chunked decoding inverts the chunk printer, cut to the room in the answer buffer, and
      stops right behind the blank line. */
  lemma ChunkedBody(m: Mode, cs: seq<Chunk>, zero: string, ext: string, t: string)
    requires m.chunked && Unreached(m, |Join(cs)|) && BodyFits(Chunked(cs, zero, ext), m.max)
    ensures BodyText(m, NormB(StartBody(m)), WireBody(Chunked(cs, zero, ext)) + t) ==
            BText(Complete, Cut(Join(cs), m.max - 1), t)
    ensures Renewals(m, NormB(StartBody(m)), WireBody(Chunked(cs, zero, ext)) + t) == Flags(Chunked(cs, zero, ext))
  {
    hide BodyText, SizeLineOk, Renewals, WireChunks, Join, ChunksFlags, Cut;
    var tail := zero + ext + CRLF + (CRLF + t);
    assert WireBody(Chunked(cs, zero, ext)) + t == WireChunks(cs) + tail;
    ChunksDecode(m, "", "", NUL, cs, tail);
    assert "" + Join(cs) == Join(cs);
    var text := Cut(Join(cs), m.max - 1);
    CutFills(Join(cs), m.max - 1);
    var enc, last := if cs == [] then "" else [CR], if cs == [] then NUL else LF;
    SizeLine(m, text, enc, last, zero, ext, 0, CRLF + t);
    BlankEnds(m, text, t);
    RenewingJoin(|zero + ext| + 2, 2, []);
  }

  lemma BlankEnds(m: Mode, text: string, t: string)
    requires 0 < m.max && |text| < m.max && m.chunked
    ensures BodyText(m, B(text, 0, "", false, true, LF), CRLF + t) == BText(Complete, text, t)
    ensures Renewals(m, B(text, 0, "", false, true, LF), CRLF + t) == Renewing(2)
  {
    assert NormB(BodyByte(m, B(text, 0, "", false, true, LF), CR).st) == B(text, 0, [CR], false, true, CR);
    assert BodyByte(m, B(text, 0, [CR], false, true, CR), LF).Done?;
    assert (CRLF + t)[1..] == [LF] + t && ([LF] + t)[1..] == t;
  }

  /** A Content-Length body without CR LF that fits is returned as it is. */
  lemma SizedBody(m: Mode, data: string, t: string)
    requires !m.chunked && m.size == |data| && BodyFits(Sized(data), m.max)
    ensures BodyText(m, NormB(StartBody(m)), data + t) == BText(Complete, data, t)
    ensures Renewals(m, NormB(StartBody(m)), data + t) == Flags(Sized(data))
  {
    var a, z := data[..|data| - 1], data[|data| - 1];
    assert data + t == a + ([z] + t) && a + [z] == data;
    PlainIsNoBreak(NUL, data);
    PlainIsNoBreak(NUL, a);
    SizedCopy(m, a, z, t);
  }

  lemma SizedCopy(m: Mode, a: string, z: char, t: string)
    requires !m.chunked && m.size == |a| + 1 < m.max && Plain(NUL, a) && !(Last(NUL, a) == CR && z == LF)
    ensures BodyText(m, NormB(StartBody(m)), a + ([z] + t)) == BText(Complete, a + [z], t)
    ensures Renewals(m, NormB(StartBody(m)), a + ([z] + t)) == Renewing(|a| + 1)
  {
    hide Strtoul16, CStr, ToInt32, BodyText, Renewals;
    BodyCopy(m, "", m.size, "", false, NUL, a, [z] + t);
    var st := B(a, 1, "", a != "", false, Last(NUL, a));
    assert "" + a == a && ([z] + t)[0] == z && ([z] + t)[1..] == t;
    assert BodyByte(m, st, z).Done? && BodyByte(m, st, z).end.text == a + [z];
    BodyDone(m, st, [z] + t);
    assert Renewing(|a|) + [true] == Renewing(|a| + 1);
  }

  // ------------------------------------------------------------------ whole responses

  /** One well-formed response is answered in full and nothing after it is touched. */
  lemma ResponseText(r: Response, max: nat, last: char, garbage: string, t: string)
    requires ResponseOk(r, max) && 0 < max && last != CR
    ensures ReplyText(max, last, garbage, Wire(r) + t) ==
            RText(HeaderEnd, r.code, Some(Cut(Content(r.body), max - 1)), Some(Complete), t)
  {
    hide HeaderText, BodyText, Fold, WireChunks;
    var more := WireBody(r.body) + t;
    assert Wire(r) + t == WireLines(r.lines) + CRLF + more;
    var info := Fold(StartInfo(garbage), r.lines);
    assert info.Some?;
    HeaderLines(StartInfo(garbage), last, r.lines, more);
    var m := Mode(info.value.size, info.value.chunked, max);
    match r.body {
      case Sized(data) =>
        SizedBody(m, data, t);
      case Chunked(cs, zero, ext) =>
        ChunkedBody(m, cs, zero, ext, t);
    }
  }

  /** The (code, answer) pairs that the responses stand for, as C strings. */
  function Expected(rs: seq<Response>, max: nat): seq<(int, string)>
    requires 0 < max
  {
    if rs == [] then []
    else [(rs[0].code, CStr(Cut(Content(rs[0].body), max - 1)))] + Expected(rs[1..], max)
  }

  // ------------------------------------------------------------------ responses in time

  /**
    The rest of a script whose next bytes are a response that comes in time: fewer than 30
    zero-length reads before the first byte of the header and of the body, fewer than 50
    before the other bytes of the header, fewer than 30 before those of the body, and around
    the line feed behind a chunk fewer than 30 on both sides together.
  */
  function ResponseDelivers(r: Response, s: seq<Item>): Option<seq<Item>> {
    match Deliver(s, Renewing(|WireLines(r.lines)| + 2), false, POST_RETRY, GET_RETRY)
    case None => None
    case Some(rest) => Deliver(rest, Flags(r.body), false, POST_RETRY, POST_RETRY)
  }

  function AllDeliver(rs: seq<Response>, s: seq<Item>): Option<seq<Item>> {
    if rs == [] then Some(s)
    else
      match ResponseDelivers(rs[0], s)
      case None => None
      case Some(rest) => AllDeliver(rs[1..], rest)
  }

  /** `r` answers the call with this response, and takes its bytes and no others. */
  ghost predicate Returns(r: Reply, response: Response, max: nat, s: seq<Item>)
    requires 0 < max
  {
    && r.stop.HeaderEnd? && r.code == response.code && r.text == Some(Cut(Content(response.body), max - 1))
    && r.end == Some(Complete) && r.count == |Wire(response)| && Chars(s) == Wire(response) + Chars(r.rest)
  }

  /** One response is returned exactly when it comes in time. */
  lemma ResponseInTime(r: Response, max: nat, last: char, garbage: string, s: seq<Item>, t: string)
    requires ResponseOk(r, max) && 0 < max && last != CR && Chars(s) == Wire(r) + t
    ensures var got := GetReply(max, last, garbage, s);
      && (Returns(got, r, max, s) <==> ResponseDelivers(r, s).Some?)
      && (ResponseDelivers(r, s).Some? ==> got.rest == ResponseDelivers(r, s).value)
  {
    hide ResponseOk, GetReply, ReplyText, Wire, CallDelivers, ResponseDelivers;
    PausesAreInvisible(max, last, garbage, s);
    ResponseText(r, max, last, garbage, t);
    ResponseBudgets(r, max, last, garbage, s, t);
    SameTail(Wire(r), t, Chars(GetReply(max, last, garbage, s).rest));
  }

  lemma SameTail(a: string, t: string, u: string)
    ensures a + t == a + u <==> t == u
  {
    assert (a + t)[|a|..] == t && (a + u)[|a|..] == u;
  }

  /** The budgets of a well-formed response are those of its header and of its body. */
  lemma ResponseBudgets(r: Response, max: nat, last: char, garbage: string, s: seq<Item>, t: string)
    requires ResponseOk(r, max) && 0 < max && last != CR && Chars(s) == Wire(r) + t
    ensures CallDelivers(max, last, garbage, s) == ResponseDelivers(r, s)
  {
    hide HeaderText, BodyText, Fold, WireChunks, Renewals, Flags, Deliver, LineOk, SizeLineOk;
    var more := WireBody(r.body) + t;
    assert Chars(s) == WireLines(r.lines) + CRLF + more;
    var info := Fold(StartInfo(garbage), r.lines);
    HeaderLines(StartInfo(garbage), last, r.lines, more);
    ResponseText(r, max, last, garbage, t);
    var m := Mode(info.value.size, info.value.chunked, max);
    match r.body {
      case Sized(data) =>
        SizedBody(m, data, t);
      case Chunked(cs, zero, ext) =>
        ChunkedBody(m, cs, zero, ext, t);
    }
  }

  /** Successive calls return the responses, each with its own bytes. */
  ghost predicate Answered(rs: seq<Response>, n: nat, max: nat, junk: nat -> Junk, s: seq<Item>)
    requires 0 < max && forall i :: junk(i).last != CR
    decreases |rs|
  {
    rs != [] ==>
      var r := GetReply(max, junk(n).last, junk(n).word, s);
      Returns(r, rs[0], max, s) && Answered(rs[1..], n + 1, max, junk, r.rest)
  }

  /** Framing never loses sync: on any sequence of well-formed responses, as many calls
      return all of them in order exactly when their bytes come in time. Then each response
      and each byte of theirs has been counted once, and the rest is unread. */
  lemma {:induction false} FramingNeverLosesSync(rs: seq<Response>, n: nat, max: nat, junk: nat -> Junk,
                                                 s: seq<Item>, t: string, answer: string)
    requires (forall r | r in rs :: ResponseOk(r, max)) && 0 < max && forall i :: junk(i).last != CR
    requires Chars(s) == WireAll(rs) + t
    ensures Answered(rs, n, max, junk, s) <==> AllDeliver(rs, s).Some?
    ensures AllDeliver(rs, s).Some? ==>
      var got := Serve(|rs|, n, max, junk, s, answer);
      && got.log == Expected(rs, max) && got.rest == AllDeliver(rs, s).value && Chars(got.rest) == t
      && got.replies == |rs| && got.bytes == |WireAll(rs)|
    decreases |rs|
  {
    hide ResponseOk, GetReply, Wire, Content, ResponseDelivers;
    if rs == [] {
      assert WireAll(rs) + t == t;
    } else {
      var more := WireAll(rs[1..]) + t;
      assert Chars(s) == Wire(rs[0]) + more;
      ResponseInTime(rs[0], max, junk(n).last, junk(n).word, s, more);
      var r := GetReply(max, junk(n).last, junk(n).word, s);
      if Returns(r, rs[0], max, s) {
        SameTail(Wire(rs[0]), more, Chars(r.rest));
        FramingNeverLosesSync(rs[1..], n + 1, max, junk, r.rest, t, CStr(r.text.value));
      }
    }
  }
}
