/**
  The acquisition loop of het/src/hetAcquire.c: a six-state machine over the words of one
  DMA block that counts events, and the copy of the block into `fifo`.
*/
module HetScanner {
  import CText

  type Word = bv32

  datatype ShmState = SearchHeader | Header1Found | Header2Found | DataFound | Footer1Found | Footer2Found

  predicate IsMarker(w: Word) { w == 0xEFFFFFFF }

  /** The kinds of word that advance the machine, in the order it wants them. */
  datatype Kind = Header2 | Low | High | Footer

  predicate Is(k: Kind, w: Word) {
    match k
    case Header2 => w & 0xFFFFF000 == 0xFD000000
    case Low => w & 0x80000000 == 0
    case High => w & 0x80000000 != 0
    case Footer => w & 0xFFF00000 == 0xF7F00000
  }

  /** The kinds as ranges of numbers, and the one word that is a marker. */
  lemma KindRanges(w: Word)
    ensures IsMarker(w) <==> w == 0xEFFFFFFF
    ensures Is(Header2, w) <==> 0xFD000000 <= w <= 0xFD000FFF
    ensures Is(Low, w) <==> w <= 0x7FFFFFFF
    ensures Is(High, w) <==> 0x80000000 <= w
    ensures Is(Footer, w) <==> 0xF7F00000 <= w <= 0xF7FFFFFF
  {
    hide Is;
    HeaderRange(w);
    LowRange(w);
    HighRange(w);
    FooterRange(w);
  }

  lemma HeaderRange(w: Word)
    ensures Is(Header2, w) <==> 0xFD000000 <= w <= 0xFD000FFF
  {
  }

  lemma LowRange(w: Word)
    ensures Is(Low, w) <==> w <= 0x7FFFFFFF
  {
  }

  lemma HighRange(w: Word)
    ensures Is(High, w) <==> 0x80000000 <= w
  {
  }

  lemma FooterRange(w: Word)
    ensures Is(Footer, w) <==> 0xF7F00000 <= w <= 0xF7FFFFFF
  {
  }

  const PATTERN: seq<Kind> := [Header2, Low, High, High, Footer]

  datatype Scanner = Scanner(state: ShmState, events: nat, t2: Word)

  function Step(s: Scanner, w: Word): Scanner {
    if IsMarker(w) then s.(state := Header1Found)
    else if s.state.Header1Found? && Is(Header2, w) then s.(state := Header2Found, t2 := w & 0xFFF)
    else if (s.state.Header2Found? || s.state.DataFound?) && Is(Low, w) then s.(state := DataFound)
    else if s.state.DataFound? && Is(High, w) then s.(state := Footer1Found)
    else if s.state.Footer1Found? && Is(High, w) then s.(state := Footer2Found)
    else if s.state.Footer2Found? && Is(Footer, w) then s.(state := SearchHeader, events := s.events + 1)
    else s
  }

  /** How many kinds of the pattern the current segment has supplied. */
  function Stage(s: ShmState): (k: nat)
    ensures k <= 5
  {
    match s
    case Header1Found => 0
    case Header2Found => 1
    case DataFound => 2
    case Footer1Found => 3
    case Footer2Found => 4
    case SearchHeader => 5
  }

  /** What one word does, in terms of the pattern: a marker starts a segment; any other word
      moves the machine on exactly when it is of the kind that the pattern has next, and
      completes an event when that is the last kind. */
  ghost predicate Advances(from: ShmState, w: Word, to: ShmState, found: bool) {
    var k := Stage(from);
    if IsMarker(w) then to.Header1Found? && !found
    else
      && Stage(to) == (if k < 5 && Is(PATTERN[k], w) then k + 1 else k)
      && (found <==> k == 4 && Is(PATTERN[4], w))
  }

  /** The chain of conditions of the machine follows the pattern, and nothing else does. */
  lemma KindOrder(s: Scanner, w: Word, to: ShmState, found: bool)
    ensures Advances(s.state, w, to, found) <==>
            to == Step(s, w).state && Step(s, w).events == s.events + if found then 1 else 0
  {
    hide IsMarker, Is;
    assert to == SearchHeader || to == Header1Found || to == Header2Found || to == DataFound || to == Footer1Found ||
           to == Footer2Found;
    HighOrLow(w);
  }

  lemma TriggerNumber(w: Word)
    ensures 0xFD000000 <= w <= 0xFD000FFF ==> w & 0xFFF == w - 0xFD000000
  {
  }

  lemma HighOrLow(w: Word)
    ensures Is(High, w) <==> !Is(Low, w)
  {
  }

  function Run(s: Scanner, ws: seq<Word>): Scanner {
    if ws == [] then s else Step(Run(s, ws[..|ws| - 1]), ws[|ws| - 1])
  }

  /** The events counted in one block, which always starts in SEARCH_HEADER. */
  function Count(ws: seq<Word>): nat {
    Run(Scanner(SearchHeader, 0, 0), ws).events
  }

  lemma RunSnoc(s: Scanner, ws: seq<Word>, w: Word)
    ensures Run(s, ws + [w]) == Step(Run(s, ws), w)
  {
    assert (ws + [w])[..|ws|] == ws;
  }

  lemma StartRun(s: Scanner)
    ensures Run(s, []) == s
  {
  }

  /** The counter and `t2` only pass through: their start values do not matter. */
  lemma {:induction false} RunShift(state: ShmState, n: nat, t2: Word, m: nat, u: Word, ws: seq<Word>)
    ensures var a, b := Run(Scanner(state, n, t2), ws), Run(Scanner(state, m, u), ws);
      a.state == b.state && a.events - n == b.events - m >= 0
    decreases |ws|
  {
    if ws != [] {
      hide Is, IsMarker;
      RunShift(state, n, t2, m, u, ws[..|ws| - 1]);
    }
  }

  lemma {:induction false} RunAppend(s: Scanner, a: seq<Word>, b: seq<Word>)
    ensures Run(s, a + b) == Run(Run(s, a), b)
    decreases |b|
  {
    if b == [] {
      assert a + b == a;
    } else {
      hide Step;
      assert (a + b)[..|a + b| - 1] == a + b[..|b| - 1];
      RunAppend(s, a, b[..|b| - 1]);
    }
  }

  lemma CountFrom(t2: Word, ws: seq<Word>)
    ensures Run(Scanner(SearchHeader, 0, t2), ws).events == Count(ws)
  {
    RunShift(SearchHeader, 0, t2, 0, 0, ws);
  }

  // ------------------------------------------------------------------ byte order

  function EndianSwap(x: Word): Word {
    (x >> 24) | ((x >> 8) & 0x0000ff00) | ((x << 8) & 0x00ff0000) | (x << 24)
  }

  function Swapped(ws: seq<Word>): (r: seq<Word>)
    ensures |r| == |ws| && forall i | 0 <= i < |ws| :: r[i] == EndianSwap(ws[i])
  {
    seq(|ws|, i requires 0 <= i < |ws| => EndianSwap(ws[i]))
  }

  /** The value of a 64-bit counter. */
  function Wrap64(n: nat): (r: nat)
    ensures n < CText.TWO64 ==> r == n
    ensures r < 0x1_0000_0000_0000_0000 && (n - r) % 0x1_0000_0000_0000_0000 == 0
  {
    n % CText.TWO64
  }

  lemma WrapNext(n: nat)
    ensures Wrap64(Wrap64(n) + 1) == Wrap64(n + 1)
  {
  }

  /** The body of the MOTOROLA build for one block. */
  method ScanBlock(evtbuf: array<Word>, fifo: array<Word>, events: nat, t2Before: Word) returns (eventn: nat, t2: Word)
    requires evtbuf.Length == fifo.Length && evtbuf != fifo && events < CText.TWO64
    modifies fifo
    ensures eventn == Wrap64(events + Count(evtbuf[..]))
    ensures t2 == Run(Scanner(SearchHeader, 0, t2Before), evtbuf[..]).t2
    ensures fifo[..] == Swapped(evtbuf[..])
  {
    hide Step, EndianSwap, Wrap64, Run, Count;
    StartRun(Scanner(SearchHeader, 0, t2Before));
    var state := SearchHeader;
    eventn, t2 := events, t2Before;
    for cnt := 0 to evtbuf.Length
      invariant var r := Run(Scanner(SearchHeader, 0, t2Before), evtbuf[..cnt]);
        state == r.state && t2 == r.t2 && eventn == Wrap64(events + r.events)
      invariant forall i | 0 <= i < cnt :: fifo[i] == EndianSwap(evtbuf[i])
    {
      var w := evtbuf[cnt];
      ghost var s := Run(Scanner(SearchHeader, 0, t2Before), evtbuf[..cnt]);
      assert evtbuf[..cnt + 1] == evtbuf[..cnt] + [w];
      RunSnoc(Scanner(SearchHeader, 0, t2Before), evtbuf[..cnt], w);
      var found;
      state, t2, found := TakeWord(state, t2, w);
      KindOrder(s, w, state, found);
      StepKeepsT2(s, w);
      if found {
        WrapNext(events + s.events);
        eventn := Wrap64(eventn + 1);
      }
      fifo[cnt] := EndianSwap(w);
    }
    assert evtbuf[..evtbuf.Length] == evtbuf[..];
    CountFrom(t2Before, evtbuf[..]);
  }

  /** The if-chain over one word; `found` when the word completes an event. */
  method TakeWord(state: ShmState, t2: Word, w: Word) returns (state': ShmState, t2': Word, found: bool)
    ensures Advances(state, w, state', found)
    ensures t2' == if !IsMarker(w) && Stage(state) == 0 && Is(PATTERN[0], w) then w & 0xFFF else t2
    ensures w == 0xEFFFFFFF ==> state' == Header1Found && t2' == t2
    ensures w != 0xEFFFFFFF ==>
      match state
      case SearchHeader => state' == SearchHeader && t2' == t2
      case Header1Found =>
        if 0xFD000000 <= w <= 0xFD000FFF then state' == Header2Found && t2' == w - 0xFD000000
        else state' == Header1Found && t2' == t2
      case Header2Found => state' == (if w <= 0x7FFFFFFF then DataFound else Header2Found) && t2' == t2
      case DataFound => state' == (if w >= 0x80000000 then Footer1Found else DataFound) && t2' == t2
      case Footer1Found => state' == (if w >= 0x80000000 then Footer2Found else Footer1Found) && t2' == t2
      case Footer2Found => state' == (if 0xF7F00000 <= w <= 0xF7FFFFFF then SearchHeader else Footer2Found) && t2' == t2
    ensures found <==> state.Footer2Found? && 0xF7F00000 <= w <= 0xF7FFFFFF
  {
    hide Is, IsMarker;
    HighOrLow(w);
    KindRanges(w);
    TriggerNumber(w);
    state', t2', found := state, t2, false;
    if IsMarker(w) {
      state' := Header1Found;
    } else if state.Header1Found? && Is(Header2, w) {
      state' := Header2Found;
      t2' := w & 0xFFF;
    } else if (state.Header2Found? || state.DataFound?) && Is(Low, w) {
      state' := DataFound;
    } else if state.DataFound? && Is(High, w) {
      state' := Footer1Found;
    } else if state.Footer1Found? && Is(High, w) {
      state' := Footer2Found;
    } else if state.Footer2Found? && Is(Footer, w) {
      found := true;
      state' := SearchHeader;
    }
  }

  lemma StepKeepsT2(s: Scanner, w: Word)
    ensures Step(s, w).t2 == if !IsMarker(w) && Stage(s.state) == 0 && Is(PATTERN[0], w) then w & 0xFFF else s.t2
  {
    hide Is, IsMarker;
  }

  /** Six words, one of each kind in order, are one event, and only together. */
  lemma OneEvent(header: Word, low: Word, high: Word, next: Word, footer: Word)
    requires 0xFD000000 <= header <= 0xFD000FFF && low <= 0x7FFFFFFF && 0xF7F00000 <= footer <= 0xF7FFFFFF
    requires high >= 0x80000000 && next >= 0x80000000 && high != 0xEFFFFFFF && next != 0xEFFFFFFF
    ensures Count([0xEFFFFFFF, header, low, high, next, footer]) == 1
    ensures Count([0xEFFFFFFF, header, low, high, next]) == 0
  {
    hide Run, Step;
    var idle := Scanner(SearchHeader, 0, 0);
    StartRun(idle);
    var a, b, c, d, e := [0xEFFFFFFF as Word], [0xEFFFFFFF, header], [0xEFFFFFFF, header, low],
      [0xEFFFFFFF, header, low, high], [0xEFFFFFFF, header, low, high, next];
    assert [] + [0xEFFFFFFF] == a && a + [header] == b && b + [low] == c && c + [high] == d && d + [next] == e;
    RunSnoc(idle, [], 0xEFFFFFFF);
    RunSnoc(idle, a, header);
    RunSnoc(idle, b, low);
    RunSnoc(idle, c, high);
    RunSnoc(idle, d, next);
    RunSnoc(idle, e, footer);
    assert e + [footer] == [0xEFFFFFFF, header, low, high, next, footer];
    OneStep(idle, 0xEFFFFFFF);
    OneStep(Run(idle, a), header);
    OneStep(Run(idle, b), low);
    OneStep(Run(idle, c), high);
    OneStep(Run(idle, d), next);
    OneStep(Run(idle, e), footer);
  }

  /** One step, by ranges. */
  lemma OneStep(s: Scanner, w: Word)
    ensures w == 0xEFFFFFFF ==> Step(s, w) == s.(state := Header1Found)
    ensures s.state.Header1Found? && 0xFD000000 <= w <= 0xFD000FFF ==>
      Step(s, w).state == Header2Found && Step(s, w).events == s.events
    ensures s.state.Header2Found? && w <= 0x7FFFFFFF ==> Step(s, w) == s.(state := DataFound)
    ensures s.state.DataFound? && 0x80000000 <= w && w != 0xEFFFFFFF ==> Step(s, w) == s.(state := Footer1Found)
    ensures s.state.Footer1Found? && 0x80000000 <= w && w != 0xEFFFFFFF ==> Step(s, w) == s.(state := Footer2Found)
    ensures s.state.Footer2Found? && 0xF7F00000 <= w <= 0xF7FFFFFF ==>
      Step(s, w) == s.(state := SearchHeader, events := s.events + 1)
  {
    hide Is, IsMarker;
    KindRanges(w);
  }

  /** The body of every other build: the block is copied and nothing is counted. */
  method CopyBlock(evtbuf: array<Word>, fifo: array<Word>)
    requires evtbuf.Length == fifo.Length && evtbuf != fifo
    modifies fifo
    ensures fifo[..] == evtbuf[..]
  {
    for cnt := 0 to evtbuf.Length
      invariant forall i | 0 <= i < cnt :: fifo[i] == evtbuf[i]
    {
      fifo[cnt] := evtbuf[cnt];
    }
  }
}
