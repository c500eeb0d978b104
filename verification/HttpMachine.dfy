/**
  The response reader of http_lib.c as functions: what each byte does to the header state
  and to the body state, and what a whole script of `read` results does. The methods of
  module HttpReader are proved against these functions.
*/
module HttpMachine {
  import opened CText

  /** One result of `read(sock, &buf, 1)`: a byte, a zero-length read, or an error. */
  datatype Item = Data(c: char) | Idle | Fail

  /** A script that has been read to its end goes on giving zero-length reads. */
  function Head(s: seq<Item>): Item {
    if s == [] then Idle else s[0]
  }

  function Tail(s: seq<Item>): (t: seq<Item>)
    ensures s != [] ==> |t| < |s|
    ensures s == [] ==> t == []
  {
    if s == [] then [] else s[1..]
  }

  const GET_RETRY: nat := 50
  const POST_RETRY: nat := 30
  const ERROR_PARSING_HEADER: int := -111
  const ERROR_CONNECTION_DROP: int := -6
  const ERROR_TIMEOUT: int := -100
  const ERROR_READING_HEADER: int := -15
  const LINE_SIZE: nat := 256
  const ENC_SIZE: nat := 256

  // ------------------------------------------------------------------ header lines

  /** What the header lines read so far have set; `word` is the local buffer `sencoding`. */
  datatype Info = Info(retcode: int, size: int, chunked: bool, word: string)

  function StartInfo(garbage: string): Info {
    Info(ERROR_PARSING_HEADER, 0, false, garbage)
  }

  /** `sscanf(line, "HTTP/1.%d %d", &minor, &retcode) == 2`. */
  function ScanStatus(line: string): Option<int> {
    if !("HTTP/1." <= line) then None
    else
      match ScanInt(line[7..])
      case None => None
      case Some((minor, rest)) =>
        match ScanInt(rest)
        case None => None
        case Some((code, _)) => Some(code)
  }

  /** `sscanf(line, "Content-Length:%d", &response_size) == 1`. */
  function ScanLength(line: string): Option<int> {
    if !("Content-Length:" <= line) then None
    else
      match ScanInt(line[15..])
      case None => None
      case Some((n, _)) => Some(n)
  }

  /** `sscanf(line, "Transfer-Encoding:%s", sencoding)`: 1, 0, or -1 at the end of input. */
  datatype WordScan = GotWord(w: string) | NoWord | EndOfInput

  function ScanEncoding(line: string): WordScan {
    var literal := "Transfer-Encoding:";
    if literal <= line then
      var t := SkipSpace(line[|literal|..]);
      if t == "" then EndOfInput else GotWord(FirstWord(t))
    else if line <= literal then EndOfInput
    else NoWord
  }

  /** One complete header line; None when the modem reports a dropped connection. */
  function ReadLine(info: Info, line: string): Option<Info> {
    var status := ScanStatus(line);
    if status.Some? then Some(info.(retcode := status.value))
    else
      var length := ScanLength(line);
      if length.Some? then Some(info.(size := length.value))
      else
        var enc := ScanEncoding(line);
        if enc.GotWord? || enc.EndOfInput? then
          var word := if enc.GotWord? then enc.w else info.word;
          Some(info.(word := word, chunked := info.chunked || Find(word, "chunked").Some?))
        else if Find(line, "NO CARRIER").Some? then None
        else Some(info)
  }

  // ------------------------------------------------------------------ header bytes

  /** `line` is the used part of `stringa`; `count` counts the bytes taken from the socket. */
  datatype HState = HState(info: Info, line: string, last: char, retry: nat, count: nat)

  ghost predicate HeaderOk(st: HState) {
    |st.line| <= LINE_SIZE && (st.last == CR ==> st.line != "")
  }

  /** Overrun: the line filled `stringa` without any NUL, so C would scan past its end. */
  datatype Stop = HeaderEnd | Dropped | Overrun | Quiet | Failed

  datatype HStep = Go(st: HState) | Halt(stop: Stop, end: HState)

  function HeaderByte(st: HState, c: char): (r: HStep)
    requires HeaderOk(st)
    ensures r.Go? ==> HeaderOk(r.st)
  {
    var term := c == LF && st.last == CR;
    var next := st.(last := c, retry := GET_RETRY, count := st.count + 1);
    var text := if term then st.line[..|st.line| - 1] else st.line + [c];
    if |st.line| < LINE_SIZE && (text == "" || text[0] == NUL) then Halt(HeaderEnd, next)
    else if !term then Go(if |st.line| < LINE_SIZE then next.(line := text) else next)
    else if |st.line| == LINE_SIZE && NUL !in st.line then Halt(Overrun, next)
    else
      match ReadLine(st.info, CStr(if |st.line| < LINE_SIZE then text else st.line))
      case None => Halt(Dropped, next)
      case Some(info) => Go(next.(info := info, line := ""))
  }

  datatype HResult = HResult(stop: Stop, info: Info, count: nat, rest: seq<Item>)

  /** The whole loop of `getResponseHeader`. The read that ends the loop is also consumed. */
  function HeaderRun(st: HState, s: seq<Item>): HResult
    requires HeaderOk(st)
    decreases |s|, st.retry
  {
    if Head(s).Fail? then HResult(Failed, st.info, st.count, Tail(s))
    else if st.retry == 0 then HResult(Quiet, st.info, st.count, Tail(s))
    else
      match Head(s)
      case Idle => HeaderRun(st.(retry := st.retry - 1), Tail(s))
      case Data(c) =>
        match HeaderByte(st, c)
        case Halt(stop, end) => HResult(stop, end.info, end.count, Tail(s))
        case Go(next) => HeaderRun(next, Tail(s))
  }

  /** What `getResponseHeader` returns. */
  function HeaderCode(r: HResult): int {
    if r.stop.Dropped? then ERROR_CONNECTION_DROP else r.info.retcode
  }

  function StartHeader(last: char, garbage: string): (st: HState)
    requires last != CR
    ensures HeaderOk(st)
  {
    HState(StartInfo(garbage), "", last, POST_RETRY, 0)
  }

  // ------------------------------------------------------------------ body bytes

  /** `text` is the used part of `buffer`, `enc` the used part of `encoding_buf`. */
  datatype BState = BState(text: string, copy: int, enc: string, fetchTerm: bool, fetchBlank: bool,
                           last: char, retry: nat, count: nat)

  datatype Mode = Mode(size: int, chunked: bool, max: nat)

  ghost predicate BodyOk(m: Mode, st: BState) {
    0 < m.max && |st.text| < m.max && |st.enc| < ENC_SIZE
  }

  datatype BStep = More(st: BState) | Done(end: BState)

  function BodyByte(m: Mode, st: BState, c: char): (r: BStep)
    requires BodyOk(m, st)
    ensures r.More? ==> BodyOk(m, r.st)
    ensures r.Done? ==> BodyOk(m, r.end)
  {
    var term := c == LF && st.last == CR;
    var next := st.(last := c, count := st.count + 1);
    if st.fetchBlank && term then Done(next)
    else if st.fetchTerm && term then More(next.(fetchTerm := false))
    else
      var live := next.(retry := POST_RETRY);
      if st.copy > 0 then
        var text := if |st.text| < m.max - 1 then st.text + [c] else st.text;
        var copied := live.(text := text, copy := st.copy - 1);
        if |text| == m.size then Done(copied) else More(copied.(fetchTerm := true))
      else if !m.chunked then More(live.(fetchBlank := true))
      else if term then
        if st.enc == "" then More(live)
        else
          var n := ToInt32(Strtoul16(CStr(st.enc[..|st.enc| - 1])));
          More(live.(copy := n, fetchBlank := st.fetchBlank || n == 0, enc := ""))
      else More(if |st.enc| < ENC_SIZE - 1 then live.(enc := st.enc + [c]) else live)
  }

  datatype End = Complete | TimedOut | Broken

  datatype BResult = BResult(end: End, text: string, count: nat, rest: seq<Item>)

  /** The whole body loop of `getResponse`. */
  function BodyRun(m: Mode, st: BState, s: seq<Item>): (r: BResult)
    requires BodyOk(m, st)
    ensures |r.text| < m.max
    decreases |s|, st.retry
  {
    if Head(s).Fail? then BResult(Broken, st.text, st.count, Tail(s))
    else if st.retry == 0 then BResult(TimedOut, st.text, st.count, Tail(s))
    else
      match Head(s)
      case Idle => BodyRun(m, st.(retry := st.retry - 1), Tail(s))
      case Data(c) =>
        match BodyByte(m, st, c)
        case Done(end) => BResult(Complete, end.text, end.count, Tail(s))
        case More(next) => BodyRun(m, next, Tail(s))
  }

  function StartBody(m: Mode): (st: BState)
    requires 0 < m.max
    ensures BodyOk(m, st)
  {
    BState("", if m.chunked then 0 else m.size, "", false, false, NUL, POST_RETRY, 0)
  }

  // ------------------------------------------------------------------ one response

  /** What one `getResponse` does: `text` is None when the answer buffer is left alone. */
  datatype Reply = Reply(stop: Stop, code: int, text: Option<string>, end: Option<End>, count: nat, rest: seq<Item>)

  function GetReply(max: nat, last: char, garbage: string, s: seq<Item>): (r: Reply)
    requires 0 < max && last != CR
    ensures r.text.Some? ==> |r.text.value| < max
    ensures r.text.Some? <==> r.end.Some?
    ensures r.text.None? <==> r.stop.Overrun? || r.code <= 0
  {
    var h := HeaderRun(StartHeader(last, garbage), s);
    if h.stop.Overrun? || HeaderCode(h) <= 0 then Reply(h.stop, HeaderCode(h), None, None, h.count, h.rest)
    else
      var m := Mode(h.info.size, h.info.chunked, max);
      var b := BodyRun(m, StartBody(m), h.rest);
      Reply(h.stop, HeaderCode(h), Some(b.text), Some(b.end), h.count + b.count, b.rest)
  }
}
