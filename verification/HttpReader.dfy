/** The reader of http_lib.c in its own form: loops over `read` that fill buffers in place. */
module HttpReader {
  import opened CText
  import opened HttpMachine

  class HttpHandle {
    var script: seq<Item>   // what the socket will still deliver
    const answer: array<char>
    var retcode: int
    var recvid: nat
    var recvb: nat

    constructor (script: seq<Item>, size: nat)
      requires 0 < size
      ensures this.script == script && recvid == 0 && recvb == 0 && retcode == 0
      ensures fresh(answer) && answer.Length == size
    {
      this.script := script;
      answer := new char[size](_ => NUL);
      retcode, recvid, recvb := 0, 0, 0;
    }

    method Read() returns (item: Item)
      modifies this`script
      ensures item == Head(old(script)) && script == Tail(old(script))
    {
      if script == [] {
        item := Idle;
      } else {
        item, script := script[0], script[1..];
      }
    }

    /**
      Reads up to the blank line. `last` and `garbage` are what the uninitialised locals
      `last_char` and `sencoding` happen to hold; `overrun` reports that C would have
      scanned past the end of `stringa`.
    */
    method GetResponseHeader(last: char, garbage: string)
      returns (ret: int, sizeBody: int, encoding: bool, overrun: bool)
      requires last != CR
      modifies this`script, this`recvb
      ensures var r := HeaderRun(StartHeader(last, garbage), old(script));
        && ret == HeaderCode(r) && sizeBody == r.info.size && encoding == r.info.chunked
        && overrun == r.stop.Overrun?
        && script == r.rest && recvb == old(recvb) + r.count
    {
      hide HeaderByte;
      var stringa := new char[LINE_SIZE];
      var info, lastChar := StartInfo(garbage), last;
      var cnt: nat, retry := 0, POST_RETRY;
      ghost var whole := HeaderRun(StartHeader(last, garbage), script);
      assert stringa[..0] == "";
      while true
        invariant recvb >= old(recvb) && cnt <= LINE_SIZE
        invariant var st := HState(info, stringa[..cnt], lastChar, retry, recvb - old(recvb));
          HeaderOk(st) && HeaderRun(st, script) == whole
        decreases |script|, retry
      {
        ghost var st := HState(info, stringa[..cnt], lastChar, retry, recvb - old(recvb));
        var item := Read();
        if item.Fail? || retry == 0 {
          return info.retcode, info.size, info.chunked, false;
        }
        if item.Idle? {
          retry := retry - 1;
          continue;
        }
        recvb := recvb + 1;
        retry := GET_RETRY;
        var stop;
        stop, cnt, info := TakeHeaderByte(stringa, cnt, info, lastChar, item.c, st);
        if stop.Some? {
          return if stop.value.Dropped? then ERROR_CONNECTION_DROP else info.retcode, info.size, info.chunked,
            stop.value.Overrun?;
        }
        lastChar := item.c;
      }
    }

    /** The effect of one byte on `stringa`, and on the parsed values at the end of a line. */
    static method TakeHeaderByte(stringa: array<char>, cnt: nat, info: Info, lastChar: char, buf: char, ghost st: HState)
      returns (stop: Option<Stop>, next: nat, out: Info)
      requires stringa.Length == LINE_SIZE && cnt <= LINE_SIZE && HeaderOk(st)
      requires st.info == info && st.line == stringa[..cnt] && st.last == lastChar
      modifies stringa
      ensures next <= LINE_SIZE
      ensures match HeaderByte(st, buf)
              case Halt(s, end) => stop == Some(s) && out == end.info && end.count == st.count + 1
              case Go(n) => stop == None && n == HState(out, stringa[..next], buf, GET_RETRY, st.count + 1)
    {
      hide ReadLine, CStr;
      out := info;
      var term := buf == LF && lastChar == CR;
      var ended;
      next, ended := StoreHeaderByte(stringa, cnt, buf, term);
      if ended {
        return Some(HeaderEnd), next, out;
      }
      if term {
        assert cnt < LINE_SIZE ==> stringa[cnt - 1] == stringa[..cnt][cnt - 1] == NUL;
        if NUL !in stringa[..] {
          return Some(Overrun), next, out;
        }
        TermLine(st.line, stringa[..]);
        var read := ReadLine(info, CStr(stringa[..]));
        if read.None? {
          return Some(Dropped), next, out;
        }
        next, out := 0, read.value;
      }
      return None, next, out;
    }

    /** The use of `stringa` for one byte; `ended` when its first character is now NUL. */
    static method StoreHeaderByte(stringa: array<char>, cnt: nat, buf: char, term: bool) returns (next: nat, ended: bool)
      requires stringa.Length == LINE_SIZE && cnt <= LINE_SIZE && (term ==> 0 < cnt)
      modifies stringa
      ensures cnt == LINE_SIZE ==> next == cnt && stringa[..] == old(stringa[..]) && !ended
      ensures cnt < LINE_SIZE && !term ==> next == cnt + 1 && stringa[..next] == old(stringa[..cnt]) + [buf]
      ensures cnt < LINE_SIZE && term ==> next == cnt && stringa[..next] == old(stringa[..cnt - 1]) + [NUL]
      ensures cnt < LINE_SIZE ==> ended == (stringa[0] == NUL)
    {
      next, ended := cnt, false;
      if cnt < LINE_SIZE {
        if term {
          stringa[cnt - 1] := NUL;
        } else {
          stringa[cnt] := buf;
          next := cnt + 1;
        }
        ended := stringa[0] == NUL;
      }
    }

    /**
      Reads one response into `buffer`, of which `max` characters may be used. On every
      script, well formed or not, the loop ends and the buffer holds a terminated string.
    */
    method GetResponse(buffer: array<char>, max: nat, last: char, garbage: string) returns (ret: int, overrun: bool)
      requires 0 < max <= buffer.Length && last != CR
      modifies this`script, this`recvb, this`recvid, buffer
      ensures var r := GetReply(max, last, garbage, old(script));
        && ret == r.code && overrun == r.stop.Overrun?
        && script == r.rest && recvb == old(recvb) + r.count
        && recvid == old(recvid) + (if r.text.Some? then 1 else 0)
        && (r.text.Some? ==>
             && buffer[..|r.text.value|] == r.text.value
             && buffer[|r.text.value|] == NUL
             && buffer[max..] == old(buffer[max..]))
        && (r.text.None? ==> buffer[..] == old(buffer[..]))
    {
      hide HeaderRun, BodyRun;
      var responseSize, encoding;
      ret, responseSize, encoding, overrun := GetResponseHeader(last, garbage);
      if !overrun && ret > 0 {
        recvid := recvid + 1;
        ReadBody(buffer, max, responseSize, encoding);
      }
    }

    /** The loop of `getResponse` over the bytes after the header. */
    method ReadBody(buffer: array<char>, max: nat, responseSize: int, encoding: bool)
      requires 0 < max <= buffer.Length
      modifies this`script, this`recvb, buffer
      ensures var m := Mode(responseSize, encoding, max);
        var b := BodyRun(m, StartBody(m), old(script));
        && script == b.rest && recvb == old(recvb) + b.count
        && buffer[..|b.text|] == b.text && buffer[|b.text|] == NUL
      ensures buffer[max..] == old(buffer[max..])
    {
      hide BodyByte;
      ghost var m := Mode(responseSize, encoding, max);
      ghost var whole := BodyRun(m, StartBody(m), script);
      var encodingBuf := new char[ENC_SIZE];
      var cnt: nat, encCnt: nat, copyBuffer := 0, 0, if encoding then 0 else responseSize;
      var lastChar, fetchTerm, fetchBlankLine, retry := NUL, false, false, POST_RETRY;
      buffer[0] := NUL;
      ghost var start := recvb;
      assert buffer[..0] == "" && encodingBuf[..0] == "";
      while true
        invariant cnt <= max - 1 && buffer[cnt] == NUL && encCnt <= ENC_SIZE - 1
        invariant recvb >= start
        invariant buffer[max..] == old(buffer[max..])
        invariant BodyRun(m, BState(buffer[..cnt], copyBuffer, encodingBuf[..encCnt], fetchTerm, fetchBlankLine,
                                    lastChar, retry, recvb - start), script) == whole
        decreases |script|, retry
      {
        ghost var st := BState(buffer[..cnt], copyBuffer, encodingBuf[..encCnt], fetchTerm, fetchBlankLine,
                               lastChar, retry, recvb - start);
        var item := Read();
        if item.Fail? || retry == 0 {
          return;
        }
        if item.Idle? {
          retry := retry - 1;
          continue;
        }
        recvb := recvb + 1;
        var done;
        done, cnt, copyBuffer, encCnt, fetchTerm, fetchBlankLine, retry :=
          TakeBodyByte(buffer, cnt, copyBuffer, encodingBuf, encCnt, fetchTerm, fetchBlankLine, lastChar, retry, item.c,
                       responseSize, encoding, max, st);
        if done {
          return;
        }
        lastChar := item.c;
      }
    }

    /** The effect of one byte on the two buffers and on the framing variables. */
    static method TakeBodyByte(buffer: array<char>, cnt: nat, copyBuffer: int, encodingBuf: array<char>, encCnt: nat,
                               fetchTerm: bool, fetchBlankLine: bool, lastChar: char, retry: nat, buf: char,
                               responseSize: int, encoding: bool, max: nat, ghost st: BState)
      returns (done: bool, cnt': nat, copy': int, enc': nat, term': bool, blank': bool, retry': nat)
      requires cnt < max <= buffer.Length && buffer[cnt] == NUL && buffer != encodingBuf
      requires encCnt < ENC_SIZE == encodingBuf.Length
      requires st == BState(buffer[..cnt], copyBuffer, encodingBuf[..encCnt], fetchTerm, fetchBlankLine,
                            lastChar, retry, st.count)
      modifies buffer, encodingBuf
      ensures cnt' < max && buffer[cnt'] == NUL && enc' < ENC_SIZE && buffer[max..] == old(buffer[max..])
      ensures match BodyByte(Mode(responseSize, encoding, max), st, buf)
              case Done(end) => done && end.text == buffer[..cnt'] && end.count == st.count + 1
              case More(n) => !done && n == BState(buffer[..cnt'], copy', encodingBuf[..enc'], term', blank',
                                                   buf, retry', st.count + 1)
    {
      hide Strtoul16, CStr, ToInt32;
      done, cnt', copy', enc', term', blank', retry' := false, cnt, copyBuffer, encCnt, fetchTerm, fetchBlankLine, retry;
      var term := buf == LF && lastChar == CR;
      if fetchBlankLine && term {
        done := true;
        return;
      }
      if fetchTerm && term {
        term' := false;
        return;
      }
      retry' := POST_RETRY;
      if copyBuffer > 0 {
        cnt' := Append(buffer, cnt, max - 1, buf);
        copy' := copyBuffer - 1;
        if cnt' == responseSize {
          done := true;
        } else {
          term' := true;
        }
      } else if !encoding {
        blank' := true;
      } else if !term {
        if encCnt < ENC_SIZE - 1 {
          enc' := StoreEncoding(encodingBuf, encCnt, buf);
        }
      } else if encCnt > 0 {
        assert st.enc[..encCnt - 1] == encodingBuf[..encCnt - 1];
        copy' := ChunkSize(encodingBuf, encCnt);
        blank' := fetchBlankLine || copy' == 0;
        enc' := 0;
      }
    }

    /**
      The receiving thread for as many rounds as `exit` stays clear: the codes it stored in
      turn, with the answers left in the buffer. It stops at a header that would overrun.
    */
    method Receive(rounds: nat, junk: nat -> Junk) returns (log: seq<(int, string)>)
      requires (forall i :: junk(i).last != CR) && 0 < answer.Length
      modifies this`script, this`recvb, this`recvid, this`retcode, answer
      ensures var all := Serve(rounds, 0, answer.Length, junk, old(script), old(CStr(answer[..])));
        && log == all.log && script == all.rest
        && recvid == old(recvid) + all.replies && recvb == old(recvb) + all.bytes
    {
      hide GetReply, Serve;
      log := [];
      var n := 0;
      ghost var all := Serve(rounds, 0, answer.Length, junk, script, CStr(answer[..]));
      while n < rounds
        invariant 0 <= n <= rounds
        invariant var more := Serve(rounds - n, n, answer.Length, junk, script, CStr(answer[..]));
          && log + more.log == all.log && more.rest == all.rest
          && recvid + more.replies == old(recvid) + all.replies && recvb + more.bytes == old(recvb) + all.bytes
      {
        ghost var before, was, logged := CStr(answer[..]), script, log;
        ghost var r := GetReply(answer.Length, junk(n).last, junk(n).word, script);
        ServeStep(rounds - n, n, answer.Length, junk, script, before);
        var code, overrun := GetResponse(answer, answer.Length, junk(n).last, junk(n).word);
        if overrun {
          assert log + [] == log;
          return;
        }
        AnswerText(r, answer[..], before);
        retcode := code;
        log := log + [(code, CStr(answer[..]))];
        n := n + 1;
        Regroup(logged, (code, CStr(answer[..])), Serve(rounds - n, n, answer.Length, junk, script, CStr(answer[..])).log);
      }
      ServeEnd(n, answer.Length, junk, script, CStr(answer[..]));
      assert log + [] == log;
    }

    /** Appends to the answer and terminates it, unless `room` characters are there already. */
    static method Append(buffer: array<char>, cnt: nat, room: nat, buf: char) returns (next: nat)
      requires cnt <= room < buffer.Length && buffer[cnt] == NUL
      modifies buffer
      ensures next <= room && buffer[next] == NUL
      ensures buffer[..next] == if cnt < room then old(buffer[..cnt]) + [buf] else old(buffer[..cnt])
      ensures buffer[room + 1..] == old(buffer[room + 1..])
    {
      next := cnt;
      if cnt < room {
        buffer[cnt] := buf;
        next := cnt + 1;
        buffer[next] := NUL;
      }
    }

    static method StoreEncoding(encodingBuf: array<char>, encCnt: nat, buf: char) returns (next: nat)
      requires encCnt < encodingBuf.Length
      modifies encodingBuf
      ensures next == encCnt + 1 && encodingBuf[..next] == old(encodingBuf[..encCnt]) + [buf]
    {
      encodingBuf[encCnt] := buf;
      next := encCnt + 1;
    }

    /** Terminates the collected size line over its last character and converts it. */
    static method ChunkSize(encodingBuf: array<char>, encCnt: nat) returns (n: int)
      requires 0 < encCnt <= encodingBuf.Length
      modifies encodingBuf
      ensures n == ToInt32(Strtoul16(CStr(old(encodingBuf[..encCnt - 1]))))
    {
      ghost var enc := encodingBuf[..encCnt - 1];
      encodingBuf[encCnt - 1] := NUL;
      CStrOfTerminated(enc, encodingBuf[encCnt..]);
      assert encodingBuf[..] == enc + [NUL] + encodingBuf[encCnt..];
      n := ToInt32(Strtoul16(CStr(encodingBuf[..])));
    }
  }

  /** What the uninitialised locals of one call hold: `last_char` and `sencoding`. */
  datatype Junk = Junk(last: char, word: string)

  /** What successive calls return, how many responses and bytes they count, and what the
      socket still holds. */
  datatype Session = Session(log: seq<(int, string)>, replies: nat, bytes: nat, rest: seq<Item>)

  function Serve(rounds: nat, n: nat, max: nat, junk: nat -> Junk, s: seq<Item>, answer: string): Session
    requires 0 < max && forall i :: junk(i).last != CR
    decreases rounds
  {
    if rounds == 0 then Session([], 0, 0, s)
    else
      var r := GetReply(max, junk(n).last, junk(n).word, s);
      if r.stop.Overrun? then Session([], 0, r.count, r.rest)
      else Then(r, Serve(rounds - 1, n + 1, max, junk, r.rest, NextAnswer(r, answer)), answer)
  }

  /** The string in the answer buffer after this reply. */
  function NextAnswer(r: Reply, answer: string): string {
    if r.text.Some? then CStr(r.text.value) else answer
  }

  function Then(r: Reply, more: Session, answer: string): Session {
    Session([(r.code, NextAnswer(r, answer))] + more.log, more.replies + (if r.text.Some? then 1 else 0),
            more.bytes + r.count, more.rest)
  }

  lemma ServeStep(rounds: nat, n: nat, max: nat, junk: nat -> Junk, s: seq<Item>, answer: string)
    requires 0 < max && 0 < rounds && forall i :: junk(i).last != CR
    ensures var r, all := GetReply(max, junk(n).last, junk(n).word, s), Serve(rounds, n, max, junk, s, answer);
      all == if r.stop.Overrun? then Session([], 0, r.count, r.rest)
             else Then(r, Serve(rounds - 1, n + 1, max, junk, r.rest, NextAnswer(r, answer)), answer)
  {
    hide GetReply;
  }

  lemma ServeEnd(n: nat, max: nat, junk: nat -> Junk, s: seq<Item>, answer: string)
    requires 0 < max && forall i :: junk(i).last != CR
    ensures Serve(0, n, max, junk, s, answer) == Session([], 0, 0, s)
  {
  }

  lemma Regroup(log: seq<(int, string)>, entry: (int, string), more: seq<(int, string)>)
    ensures log + ([entry] + more) == log + [entry] + more
  {
  }

  lemma AnswerText(r: Reply, buffer: string, before: string)
    requires r.text.Some? ==> |r.text.value| < |buffer| && buffer[..|r.text.value|] == r.text.value
    requires r.text.Some? ==> buffer[|r.text.value|] == NUL
    requires r.text.None? ==> CStr(buffer) == before
    ensures CStr(buffer) == NextAnswer(r, before)
  {
    if r.text.Some? {
      var n := |r.text.value|;
      CStrOfTerminated(r.text.value, buffer[n + 1..]);
      assert buffer == r.text.value + [NUL] + buffer[n + 1..];
    }
  }

  /** The string in `stringa` at the end of a line depends on this line only. */
  lemma TermLine(line: string, stringa: string)
    requires |stringa| == LINE_SIZE && line != "" && |line| <= LINE_SIZE
    requires |line| < LINE_SIZE ==> stringa[..|line|] == line[..|line| - 1] + [NUL]
    requires |line| == LINE_SIZE ==> stringa == line
    ensures CStr(stringa) == CStr(if |line| < LINE_SIZE then line[..|line| - 1] else line)
  {
    if |line| < LINE_SIZE {
      CStrOfTerminated(line[..|line| - 1], stringa[|line|..]);
      assert stringa == line[..|line| - 1] + [NUL] + stringa[|line|..];
    }
  }
}
