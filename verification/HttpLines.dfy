/**
  The header loop line by line: what the bytes of a header amount to, said without the byte
  machine, and what the status code of a call is then.
*/
module HttpLines {
  import opened CText
  import opened HttpMachine
  import opened HttpText

  const CRLF: string := "\r\n"

  /** No CR LF pair in `a`, nor across its start after the byte `last`. */
  ghost predicate Plain(last: char, a: string)
    decreases |a|
  {
    a != "" ==> !(last == CR && a[0] == LF) && Plain(a[0], a[1..])
  }

  /** No CR LF pair, seen from outside. */
  ghost predicate NoBreak(a: string) {
    forall i | 0 < i < |a| :: !(a[i - 1] == CR && a[i] == LF)
  }

  function Last(last: char, a: string): char {
    if a == "" then last else a[|a| - 1]
  }

  lemma {:induction false} PlainIsNoBreak(last: char, a: string)
    ensures Plain(last, a) <==> NoBreak(a) && !(a != "" && last == CR && a[0] == LF)
    decreases |a|
  {
    if a != "" {
      PlainIsNoBreak(a[0], a[1..]);
      if NoBreak(a) {
        assert forall i | 0 < i < |a[1..]| :: a[1..][i - 1] == a[i] && a[1..][i] == a[i + 1];
      }
      if Plain(last, a) {
        forall i | 0 < i < |a| ensures !(a[i - 1] == CR && a[i] == LF) {
          if i > 1 {
            assert !(a[1..][i - 2] == CR && a[1..][i - 1] == LF);
          }
        }
      }
    }
  }

  // ------------------------------------------------------------------ the reference reader

  /** The line fills `stringa` without a NUL, so that its end is not marked there. */
  predicate Overruns(l: string) {
    |l| > LINE_SIZE - 2 && NUL !in Cut(l, LINE_SIZE)
  }

  /** The header of a text: complete lines up to a blank one, or to one that starts with NUL. */
  function ReadLines(info: Info, t: string): HText
    decreases |t|
  {
    if t != "" && t[0] == NUL then HText(HeaderEnd, info, t[1..])
    else
      match Find(t, CRLF)
      case None => HText(Quiet, info, "")
      case Some(i) =>
        var l, rest := t[..i], t[i + 2..];
        if l == "" then HText(HeaderEnd, info, rest)
        else if Overruns(l) then HText(Overrun, info, rest)
        else
          match ReadLine(info, CStr(l))
          case None => HText(Dropped, info, rest)
          case Some(next) => ReadLines(next, rest)
  }

  lemma FirstBreakAt(l: string, t: string)
    requires NoBreak(l)
    ensures Find(l + CRLF + t, CRLF) == Some(|l|)
    ensures (l + CRLF + t)[..|l|] == l && (l + CRLF + t)[|l| + 2..] == t
  {
    hide Find;
    var s := l + CRLF + t;
    forall k | 0 <= k < |l| ensures !(CRLF <= s[k..]) {
      assert s[k..][0] == s[k] && s[k..][1] == s[k + 1];
    }
    assert s[|l|..] == CRLF + t;
    FindAt(s, CRLF, |l|);
  }

  lemma NoBreakBefore(t: string, i: nat)
    requires i <= |t| && forall k | 0 <= k < i :: !(CRLF <= t[k..])
    ensures NoBreak(t[..i])
  {
    forall k | 0 < k < i ensures !(t[..i][k - 1] == CR && t[..i][k] == LF) {
      assert t[k - 1..][0] == t[k - 1] && t[k - 1..][1] == t[k];
    }
  }

  // ------------------------------------------------------------------ the byte machine

  function H(info: Info, line: string, last: char): HState {
    HState(info, line, last, 0, 0)
  }

  lemma CutAppend(x: string, a: string, b: string, room: nat)
    ensures Cut(Cut(x + a, room) + b, room) == Cut(x + (a + b), room)
  {
    hide Cut;
    CutTwice(x + a, b, room);
    assert x + a + b == x + (a + b);
  }

  /** A byte inside a line is stored while there is room. */
  lemma HeaderChar(info: Info, line: string, last: char, t: string)
    requires t != "" && |line| <= LINE_SIZE && !(last == CR && t[0] == LF)
    requires (line + [t[0]])[0] != NUL && (last == CR ==> line != "")
    ensures HeaderText(H(info, line, last), t) == HeaderText(H(info, Cut(line + [t[0]], LINE_SIZE), t[0]), t[1..])
  {
    hide ReadLine, CStr;
    assert NormH(HeaderByte(H(info, line, last), t[0]).st) == H(info, Cut(line + [t[0]], LINE_SIZE), t[0]);
  }

  lemma {:induction false} HeaderChars(info: Info, line: string, last: char, a: string, t: string)
    requires |line| <= LINE_SIZE && Plain(last, a) && (last == CR ==> line != "")
    requires line + a != "" ==> (line + a)[0] != NUL
    ensures Last(last, a) == CR ==> Cut(line + a, LINE_SIZE) != ""
    ensures HeaderText(H(info, line, last), a + t) == HeaderText(H(info, Cut(line + a, LINE_SIZE), Last(last, a)), t)
    decreases |a|
  {
    hide HeaderByte, HeaderText;
    if a == "" {
      assert a + t == t && line + a == line;
    } else {
      var more := Cut(line + [a[0]], LINE_SIZE);
      assert (a + t)[0] == a[0] && (a + t)[1..] == a[1..] + t;
      HeaderChar(info, line, last, a + t);
      HeaderChars(info, more, a[0], a[1..], t);
      assert [a[0]] + a[1..] == a;
      CutAppend(line, [a[0]], a[1..], LINE_SIZE);
    }
  }

  lemma {:induction false} CStrOfPrefix(p: string, s: string)
    requires p <= s && NUL in p
    ensures CStr(p) == CStr(s)
  {
    if p[0] != NUL {
      CStrOfPrefix(p[1..], s[1..]);
    }
  }

  /** The line feed that ends a line hands its string to the parser. */
  lemma LineEnds(info: Info, l: string, t: string)
    requires l != "" && l[0] != NUL
    ensures HeaderText(H(info, Cut(l + [CR], LINE_SIZE), CR), [LF] + t) ==
            if Overruns(l) then HText(Overrun, info, t)
            else
              match ReadLine(info, CStr(l))
              case None => HText(Dropped, info, t)
              case Some(next) => HeaderText(H(next, "", LF), t)
  {
    hide ReadLine, CStr;
    var x := Cut(l + [CR], LINE_SIZE);
    assert ([LF] + t)[1..] == t;
    if |l| < LINE_SIZE - 1 {
      assert x == l + [CR] && x[..|x| - 1] == l;
    } else {
      var seen := Cut(l, LINE_SIZE);
      assert |l| >= LINE_SIZE ==> seen == x;
      assert |l| < LINE_SIZE ==> seen == l && x == l + [CR];
      if NUL in seen {
        CStrOfPrefix(seen, l);
        CStrOfPrefix(seen, x);
      }
    }
  }

  lemma BlankLine(info: Info, last: char, t: string)
    requires last != CR
    ensures HeaderText(H(info, "", last), CRLF + t) == HText(HeaderEnd, info, t)
  {
    hide ReadLine, CStr;
    assert (CRLF + t)[1..] == [LF] + t && ([LF] + t)[1..] == t;
    assert HeaderByte(H(info, "", last), CR).Go?;
    assert HeaderByte(H(info, [CR], CR), LF) == Halt(HeaderEnd, H(info, [CR], LF).(retry := GET_RETRY, count := 1));
  }

  lemma StartsWithNul(info: Info, last: char, t: string)
    requires last != CR && t != "" && t[0] == NUL
    ensures HeaderText(H(info, "", last), t) == HText(HeaderEnd, info, t[1..])
  {
    hide ReadLine, CStr;
  }

  lemma NoLine(info: Info, last: char, t: string)
    requires last != CR && NoBreak(t) && (t != "" ==> t[0] != NUL)
    ensures HeaderText(H(info, "", last), t) == HText(Quiet, info, "")
  {
    PlainIsNoBreak(last, t);
    HeaderChars(info, "", last, t, "");
    assert t + "" == t && "" + t == t;
  }

  lemma OneLine(info: Info, last: char, l: string, t: string)
    requires last != CR && NoBreak(l) && l != "" && l[0] != NUL
    ensures HeaderText(H(info, "", last), l + CRLF + t) ==
            HeaderText(H(info, Cut(l + [CR], LINE_SIZE), CR), [LF] + t)
  {
    hide HeaderText;
    var a := l + [CR];
    PlainIsNoBreak(last, a);
    HeaderChars(info, "", last, a, [LF] + t);
    assert l + CRLF + t == a + ([LF] + t) && "" + a == a;
  }

  /** The byte machine reads a header line by line, on every text. */
  lemma {:induction false} HeaderIsByLine(info: Info, last: char, t: string)
    requires last != CR
    ensures HeaderText(H(info, "", last), t) == ReadLines(info, t)
    decreases |t|
  {
    hide HeaderText, ReadLine, CStr, Find, Overruns;
    if t != "" && t[0] == NUL {
      StartsWithNul(info, last, t);
    } else {
      var at := Find(t, CRLF);
      if at.None? {
        NoBreakBefore(t, |t|);
        assert t[..|t|] == t;
        NoLine(info, last, t);
      } else {
        var l, rest := t[..at.value], t[at.value + 2..];
        assert t == l + CRLF + rest;
        if l == "" {
          assert t == CRLF + rest;
          BlankLine(info, last, rest);
        } else {
          NoBreakBefore(t, at.value);
          OneLine(info, last, l, rest);
          LineEnds(info, l, rest);
          var next := ReadLine(info, CStr(l));
          if !Overruns(l) && next.Some? {
            HeaderIsByLine(next.value, LF, rest);
          }
        }
      }
    }
  }

  // ------------------------------------------------------------------ the status code

  function Fold(info: Info, lines: seq<string>): Option<Info>
    decreases |lines|
  {
    if lines == [] then Some(info)
    else
      match ReadLine(info, lines[0])
      case None => None
      case Some(next) => Fold(next, lines[1..])
  }

  /** The lines of a header that reach the parser, as C strings. */
  function Handed(t: string): seq<string>
    decreases |t|
  {
    if t != "" && t[0] == NUL then []
    else
      match Find(t, CRLF)
      case None => []
      case Some(i) => if i == 0 || Overruns(t[..i]) then [] else [CStr(t[..i])] + Handed(t[i + 2..])
  }

  lemma {:induction false} LinesAreFolded(info: Info, t: string)
    ensures var r, f := ReadLines(info, t), Fold(info, Handed(t));
      if f.None? then r.stop.Dropped? else !r.stop.Dropped? && r.info == f.value
    decreases |t|
  {
    hide ReadLine, CStr, Find, Overruns;
    var at := Find(t, CRLF);
    if !(t != "" && t[0] == NUL) && at.Some? && at.value > 0 && !Overruns(t[..at.value]) {
      var l, rest := CStr(t[..at.value]), t[at.value + 2..];
      assert ([l] + Handed(rest))[1..] == Handed(rest);
      var next := ReadLine(info, l);
      if next.Some? {
        LinesAreFolded(next.value, rest);
      }
    }
  }

  /** The code of the last status line. */
  function LastStatus(lines: seq<string>): Option<int> {
    if lines == [] then None
    else
      var later := LastStatus(lines[1..]);
      if later.Some? then later else ScanStatus(lines[0])
  }

  /** Only status lines set the code. */
  lemma {:induction false} FoldStatus(info: Info, lines: seq<string>)
    requires Fold(info, lines).Some?
    ensures Fold(info, lines).value.retcode == match LastStatus(lines) case None => info.retcode case Some(c) => c
    decreases |lines|
  {
    if lines != [] {
      var next := ReadLine(info, lines[0]).value;
      FoldStatus(next, lines[1..]);
      LineStatus(info, lines[0]);
    }
  }

  lemma LineStatus(info: Info, l: string)
    requires ReadLine(info, l).Some?
    ensures ReadLine(info, l).value.retcode == match ScanStatus(l) case None => info.retcode case Some(c) => c
  {
    hide ScanStatus, ScanLength, ScanEncoding, Find;
  }

  /** On every script, the header run does to the bytes that it takes what the text run does;
      it may stop sooner, by silence or by an error. */
  lemma {:induction false} HeaderTakes(st: HState, s: seq<Item>)
    requires HeaderOk(st)
    ensures var r := HeaderRun(st, s);
      && st.count <= r.count <= st.count + |Chars(s)|
      && var q := HeaderText(NormH(st), Chars(s)[..r.count - st.count]);
         r.info == q.info && (r.stop == q.stop || (q.stop.Quiet? && r.stop.Failed?))
    decreases |s|, st.retry
  {
    hide HeaderByte;
    if s == [] {
      HeaderEnds(st);
    } else if s[0].Idle? && st.retry > 0 {
      HeaderTakes(st.(retry := st.retry - 1), s[1..]);
    } else if s[0].Data? && st.retry > 0 {
      HeaderByteNorm(st, s[0].c);
      var step, t := HeaderByte(st, s[0].c), Chars(s);
      if step.Go? {
        HeaderTakes(step.st, s[1..]);
        var n := HeaderRun(step.st, s[1..]).count - step.st.count;
        assert t[..n + 1][0] == s[0].c && t[..n + 1][1..] == Chars(s[1..])[..n];
      }
    }
  }

  /** What `getResponseHeader` returns on every script: the code of a dropped connection, or
      that of the last status line among the complete lines it has taken, or the parsing
      error when there is none. The codes for a timeout and for a read error come out only
      when such a line prints them. */
  lemma HeaderCodeExact(last: char, garbage: string, s: seq<Item>)
    requires last != CR
    ensures var r := HeaderRun(StartHeader(last, garbage), s);
      && r.count <= |Chars(s)|
      && var lines := Handed(Chars(s)[..r.count]);
         && (r.stop.Dropped? <==> Fold(StartInfo(garbage), lines).None?)
         && HeaderCode(r) == (if r.stop.Dropped? then ERROR_CONNECTION_DROP
                              else match LastStatus(lines) case None => ERROR_PARSING_HEADER case Some(c) => c)
         && (HeaderCode(r) == ERROR_TIMEOUT <==> !r.stop.Dropped? && LastStatus(lines) == Some(ERROR_TIMEOUT))
         && (HeaderCode(r) == ERROR_READING_HEADER <==>
              !r.stop.Dropped? && LastStatus(lines) == Some(ERROR_READING_HEADER))
  {
    hide HeaderRun, HeaderText, ReadLines, Handed, Fold, LastStatus;
    var st, info := StartHeader(last, garbage), StartInfo(garbage);
    HeaderTakes(st, s);
    var taken := Chars(s)[..HeaderRun(st, s).count];
    HeaderIsByLine(info, last, taken);
    LinesAreFolded(info, taken);
    if Fold(info, Handed(taken)).Some? {
      FoldStatus(info, Handed(taken));
    }
  }
}
