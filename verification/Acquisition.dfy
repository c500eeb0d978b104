/**
  From the acquisition buffer to the server: the loop of hetAcquire.c on top of the store,
  and what the other end can read back from the posted documents.
*/
module Acquisition {
  import opened CText
  import opened CrestModel
  import opened CrestStore
  import opened CrestLaws
  import opened CrestDocs
  import opened CrestTexts
  import opened HetScanner
  import opened HetBlocks
  import Base64
  import Base64Laws

  const STATUS: nat := 0
  const EVENTS: nat := 1
  const FIFO: nat := 3

  const DMA_WORDS: nat := 16384   // DMABUFFERSIZE / 4
  const HOWTOREAD: int := 3

  /** The dataset of the acquisition unit. */
  const HET_CU: seq<Descriptor> := [
    Descriptor("STATUS", "STATUS REGISTER", DIR_OUTPUT, INT32, 4, 0),
    Descriptor("EVENTS", "Events Found", DIR_OUTPUT, INT64, 8, 0),
    Descriptor("Config", "Config register0", DIR_OUTPUT, INT32 | VECTOR, 7, 0),
    Descriptor("FIFO", "HET Fifo", DIR_OUTPUT, INT32 | VECTOR, DMA_WORDS, 0)]

  /** A 64-bit counter read through an `int64_t` pointer. */
  function ToInt64(n: nat): (r: int)
    requires n < TWO64
    ensures -TWO63 <= r < TWO63
    ensures r == if n < 0x8000_0000_0000_0000 then n else n - 0x1_0000_0000_0000_0000
  {
    if n < TWO63 then n else n - TWO64
  }

  /** The unit at `c` has the outputs that the program updates. */
  ghost predicate IsHetUnit(st: State, c: nat, words: nat) {
    && c < |st.cus| && |st.cus[c].outds| == 4
    && st.cus[c].outds[STATUS].ty == INT32 && st.cus[c].outds[EVENTS].ty == INT64
    && st.cus[c].outds[FIFO].ty == INT32 | VECTOR && st.cus[c].outds[FIFO].size == 4 * words
  }

  /** The unit at `c` was declared with the program's dataset and a short name. */
  ghost predicate HetUnit(trace: seq<CrestModel.Event>, c: nat) {
    c < |Declared(trace)| && Declared(trace)[c].1 == HET_CU && |Declared(trace)[c].0| < 64
  }

  /** In every history such a unit has the outputs that the program updates. */
  lemma DeclaredHetUnit(trace: seq<CrestModel.Event>, c: nat)
    requires Legal(trace) && HetUnit(trace, c)
    ensures IsHetUnit(Replay(trace), c, DMA_WORDS)
  {
    hide Legal, Replay, Declared, LatestOf, OutSlot, Outs, Shown, Supported, HET_CU, IsHetUnit;
    StoreRefinesLastWrite(trace);
    HetOuts();
    HetOutputs(trace, c, Replay(trace));
  }

  lemma HetOutputs(trace: seq<CrestModel.Event>, c: nat, st: State)
    requires c < |st.cus| && (forall d | d in HET_CU :: Supported(d)) && ShowsLatest(trace, c, HET_CU, st.cus[c])
    requires Outs(HET_CU) == HET_CU
    ensures IsHetUnit(st, c, DMA_WORDS)
  {
    hide LatestOf, OutSlot, Outs, Shown, Supported;
    HetSlot(STATUS, LatestOf(trace, c, STATUS));
    HetSlot(EVENTS, LatestOf(trace, c, EVENTS));
    HetSlot(FIFO, LatestOf(trace, c, FIFO));
  }

  lemma HetSlot(a: nat, l: Latest)
    requires a < 4
    ensures TypeToFormat(HET_CU[a].ty).Some?
    ensures var s := Shown(OutSlot(HET_CU[a]), l);
      s.ty == HET_CU[a].ty && (a == FIFO ==> s.size == 4 * DMA_WORDS)
  {
    hide Printf, FormatOf;
    ShownType(OutSlot(HET_CU[a]), l);
  }

  lemma DeclaredStays(trace: seq<CrestModel.Event>, e: CrestModel.Event)
    requires !e.Added?
    ensures Declared(trace + [e]) == Declared(trace)
  {
    assert (trace + [e])[..|trace|] == trace;
  }

  /** One turn of the loop: what the board reports, and the block that the DMA delivers, or
      None when it fails. */
  datatype Poll = Poll(status: int, r6: int, dma: Option<seq<Word>>)

  predicate PollOk(p: Poll) {
    -TWO31 <= p.r6 < TWO31 && (p.dma.Some? ==> |p.dma.value| == DMA_WORDS)
  }

  /** The board asks to be read. */
  predicate Ready(p: Poll) {
    p.status <= HOWTOREAD
  }

  predicate Delivers(p: Poll) {
    Ready(p) && p.dma.Some?
  }

  /** What a turn writes into the store: the status, and what a read delivered. */
  function Writes(c: nat, p: Poll, eventn: nat): seq<CrestModel.Event>
    requires eventn < TWO64
  {
    [Wrote(c, STATUS, Int32Value(p.r6))] +
    if !Delivers(p) then []
    else [Wrote(c, EVENTS, Int64Value(ToInt64(eventn))), Wrote(c, FIFO, BytesValue(Memory(p.dma.value, false)))]
  }

  /** What the last good read has left in the attributes: its block, and the count then. */
  datatype Reading = Reading(block: seq<Word>, count: nat)

  ghost predicate Holds(trace: seq<CrestModel.Event>, c: nat, last: Option<Reading>) {
    last.Some? ==>
      && |last.value.block| == DMA_WORDS && last.value.count < TWO64
      && LatestOf(trace, c, EVENTS) == Last(Int64Value(ToInt64(last.value.count)))
      && LatestOf(trace, c, FIFO) == Last(BytesValue(Memory(last.value.block, false)))
  }

  /** A number stands in the text behind `front`. */
  ghost predicate ShowsNumber(doc: string, front: string, n: int) {
    exists p: nat :: EndsAt(doc, front, p) && ReadSigned(doc[p..]) == n
  }

  /** Base64 text stands behind `front`, and its bytes are these words, lowest byte first. */
  ghost predicate ShowsWords(doc: string, front: string, ws: seq<Word>) {
    exists p: nat :: EndsAt(doc, front, p) && Reassemble(Base64.Decode(doc[p..])) == ws
  }

  const STATUS_KEY: string := "\"STATUS\":"
  const EVENTS_KEY: string := "\"EVENTS\":{\"$numberLong\":\""
  const FIFO_KEY: string := "\"FIFO\":{\"$binary\":{\"base64\":\""

  /** What a reader finds in the document posted at `k`: the status, the count of events, with
      64 bits and a sign, and the words of the block. */
  ghost predicate Carries(trace: seq<CrestModel.Event>, k: nat, status: int, last: Reading) {
    && k < |trace| && trace[k].Posted?
    && ShowsNumber(trace[k].doc, STATUS_KEY, status)
    && ShowsNumber(trace[k].doc, EVENTS_KEY,
                   if last.count < 0x8000_0000_0000_0000 then last.count else last.count - 0x1_0000_0000_0000_0000)
    && ShowsWords(trace[k].doc, FIFO_KEY, last.block)
  }

  /**
    The loop body of the acquisition: the status; when the board is ready a DMA read into
    `evtbuf`; on a good read the events and the block; then the push. In both builds the
    block reaches the store as the same bytes, and the document that is pushed carries the
    status and what the last good read left: this one's count and the words of `evtbuf`.
  */
  method Cycle(h: Handle, cu0: nat, p: Poll, motorola: bool, evtbuf: array<Word>, fifo: array<Word>,
               events: nat, t2Before: Word, ghost last: Option<Reading>) returns (eventn: nat, t2: Word)
    requires h.Valid() && 0 < cu0 && HetUnit(h.trace, cu0 - 1) && Holds(h.trace, cu0 - 1, last)
    requires PollOk(p) && h.net(h.calls).start < TWO64 && events < TWO64
    requires evtbuf.Length == fifo.Length == DMA_WORDS && evtbuf != fifo
    modifies h, evtbuf, fifo
    ensures h.Valid() && HetUnit(h.trace, cu0 - 1) && eventn < TWO64
    ensures eventn == if Delivers(p) && motorola then Wrap64(events + Count(p.dma.value)) else events
    ensures Delivers(p) ==> evtbuf[..] == p.dma.value
    ensures p.status > 3 ==> h.trace == old(h.trace) + Writes(cu0 - 1, p, eventn) && h.calls == old(h.calls)
    ensures p.status <= 3 ==>
      && |h.trace| == |old(h.trace)| + |Writes(cu0 - 1, p, eventn)| + 1 && h.calls == old(h.calls) + 1
      && h.trace[..|h.trace| - 1] == old(h.trace) + Writes(cu0 - 1, p, eventn)
      && var post := h.trace[|h.trace| - 1];
         post.Posted? && post.cu == cu0 - 1 && !post.register && post.reply == h.net(old(h.calls))
    ensures var now := if Delivers(p) then Some(Reading(evtbuf[..], eventn)) else last;
      && Holds(h.trace, cu0 - 1, now)
      && (p.status <= 3 && now.Some? ==> Carries(h.trace, |h.trace| - 1, p.r6, now.value))
  {
    hide Legal, Replay, IsHetUnit, HetUnit, LatestOf, Count, Memory, ToInt64, CanPost, Carries, HET_CU, Holds;
    eventn, t2 := events, t2Before;
    ghost var now := last;
    WriteStatus(h, cu0, p.r6, last);
    if p.status > HOWTOREAD {
      return;
    }
    if p.dma.Some? {
      DmaRead(evtbuf, p.dma.value);
      if motorola {
        eventn, t2 := ScanBlock(evtbuf, fifo, events, t2Before);
        BuildsAgree(evtbuf[..]);
      } else {
        CopyBlock(evtbuf, fifo);
      }
      var bytes := InMemory(fifo, motorola);
      now := Some(Reading(evtbuf[..], eventn));
      WriteReading(h, cu0, eventn, bytes, p.r6, now.value);
    }
    ghost var before := h.trace;
    PushStep(h, cu0, p.r6, now);
    assert h.trace[..|h.trace| - 1] == before;
  }

  /** `VmeDmaRead`. */
  method DmaRead(evtbuf: array<Word>, block: seq<Word>)
    requires evtbuf.Length == |block|
    modifies evtbuf
    ensures evtbuf[..] == block
  {
    for cnt := 0 to evtbuf.Length
      invariant forall i | 0 <= i < cnt :: evtbuf[i] == block[i]
    {
      evtbuf[cnt] := block[cnt];
    }
  }

  /** The status attribute shows this value. */
  ghost predicate HasStatus(trace: seq<CrestModel.Event>, c: nat, r6: int) {
    -TWO31 <= r6 < TWO31 && LatestOf(trace, c, STATUS) == Last(Int32Value(r6))
  }

  lemma NextLatest(trace: seq<CrestModel.Event>, c: nat, e: CrestModel.Event, a: nat)
    requires !(e.Reset? && e.cu == c)
    ensures LatestOf(trace + [e], c, a) ==
            if e.Wrote? && e.cu == c && e.attr == a then Last(e.value) else LatestOf(trace, c, a)
  {
    assert (trace + [e])[..|trace|] == trace;
  }

  /** One `chaos_crest_update` of the program. */
  method WriteStep(h: Handle, cu0: nat, a: nat, v: Value)
    requires h.Valid() && 0 < cu0 && HetUnit(h.trace, cu0 - 1)
    requires (a == STATUS && v.Int32Value? && -TWO31 <= v.n < TWO31)
          || (a == EVENTS && v.Int64Value? && -TWO63 <= v.n < TWO63)
          || (a == FIFO && v.BytesValue? && |v.bytes| == 4 * DMA_WORDS)
    modifies h`cus, h`trace
    ensures h.Valid() && HetUnit(h.trace, cu0 - 1)
    ensures h.trace == old(h.trace) + [Wrote(cu0 - 1, a, v)]
    ensures LatestOf(h.trace, cu0 - 1, STATUS) == if a == STATUS then Last(v) else old(LatestOf(h.trace, cu0 - 1, STATUS))
    ensures LatestOf(h.trace, cu0 - 1, EVENTS) == if a == EVENTS then Last(v) else old(LatestOf(h.trace, cu0 - 1, EVENTS))
    ensures LatestOf(h.trace, cu0 - 1, FIFO) == if a == FIFO then Last(v) else old(LatestOf(h.trace, cu0 - 1, FIFO))
  {
    hide Legal, Replay, Declared, HET_CU, LatestOf;
    DeclaredHetUnit(h.trace, cu0 - 1);
    DeclaredStays(h.trace, Wrote(cu0 - 1, a, v));
    NextLatest(h.trace, cu0 - 1, Wrote(cu0 - 1, a, v), STATUS);
    NextLatest(h.trace, cu0 - 1, Wrote(cu0 - 1, a, v), EVENTS);
    NextLatest(h.trace, cu0 - 1, Wrote(cu0 - 1, a, v), FIFO);
    var ret := h.UpdateAt(cu0, a, v);
  }

  method WriteStatus(h: Handle, cu0: nat, r6: int, ghost last: Option<Reading>)
    requires h.Valid() && 0 < cu0 && HetUnit(h.trace, cu0 - 1) && Holds(h.trace, cu0 - 1, last) && -TWO31 <= r6 < TWO31
    modifies h`cus, h`trace
    ensures h.Valid() && HetUnit(h.trace, cu0 - 1) && Holds(h.trace, cu0 - 1, last)
    ensures h.trace == old(h.trace) + [Wrote(cu0 - 1, STATUS, Int32Value(r6))] && HasStatus(h.trace, cu0 - 1, r6)
  {
    hide Legal, Replay, HetUnit, LatestOf, ToInt64, Memory;
    WriteStep(h, cu0, STATUS, Int32Value(r6));
  }

  /** The two updates after a good read. */
  method WriteReading(h: Handle, cu0: nat, eventn: nat, bytes: seq<bv8>, ghost r6: int, ghost now: Reading)
    requires h.Valid() && 0 < cu0 && HetUnit(h.trace, cu0 - 1) && HasStatus(h.trace, cu0 - 1, r6)
    requires eventn == now.count < TWO64 && |now.block| == DMA_WORDS && bytes == Memory(now.block, false)
    modifies h`cus, h`trace
    ensures h.Valid() && HetUnit(h.trace, cu0 - 1) && Holds(h.trace, cu0 - 1, Some(now)) && HasStatus(h.trace, cu0 - 1, r6)
    ensures h.trace == old(h.trace) +
      [Wrote(cu0 - 1, EVENTS, Int64Value(ToInt64(eventn))), Wrote(cu0 - 1, FIFO, BytesValue(bytes))]
  {
    hide Legal, Replay, HetUnit, LatestOf, ToInt64, Memory;
    WriteStep(h, cu0, EVENTS, Int64Value(ToInt64(eventn)));
    WriteStep(h, cu0, FIFO, BytesValue(bytes));
  }

  /** The push of the program, and what it carries. */
  method PushStep(h: Handle, cu0: nat, ghost r6: int, ghost last: Option<Reading>)
    requires h.Valid() && 0 < cu0 && HetUnit(h.trace, cu0 - 1)
    requires Holds(h.trace, cu0 - 1, last) && HasStatus(h.trace, cu0 - 1, r6)
    requires h.net(h.calls).start < TWO64
    modifies h
    ensures h.Valid() && HetUnit(h.trace, cu0 - 1) && Holds(h.trace, cu0 - 1, last) && h.calls == old(h.calls) + 1
    ensures |h.trace| == |old(h.trace)| + 1 && h.trace[..|h.trace| - 1] == old(h.trace)
    ensures var post := h.trace[|h.trace| - 1];
      post.Posted? && post.cu == cu0 - 1 && !post.register && post.reply == h.net(old(h.calls))
    ensures last.Some? ==> Carries(h.trace, |h.trace| - 1, r6, last.value)
  {
    hide Legal, Replay, Declared, LatestOf, HET_CU, Carries, Turned, ToInt64, Memory;
    DeclaredHetUnit(h.trace, cu0 - 1);
    ghost var st, before := h.View(), h.trace;
    var ret, wild := h.PushCu(cu0, 0);
    TurnIs(st, before, h.View(), h.trace, cu0 - 1, false, h.net(h.calls - 1));
    ghost var post := h.trace[|before|];
    assert h.trace == before + [post];
    DeclaredStays(before, post);
    NextLatest(before, cu0 - 1, post, EVENTS);
    NextLatest(before, cu0 - 1, post, FIFO);
    if last.Some? {
      PostCarries(h.trace, cu0 - 1, r6, last.value);
    }
  }

  lemma PostCarries(trace: seq<CrestModel.Event>, c: nat, r6: int, last: Reading)
    requires trace != [] && Legal(trace)
    requires var e := trace[|trace| - 1];
      e.Posted? && e.cu == c && e.reply.start < TWO64
    requires HetUnit(trace[..|trace| - 1], c)
    requires Holds(trace[..|trace| - 1], c, Some(last)) && HasStatus(trace[..|trace| - 1], c, r6)
    ensures Carries(trace, |trace| - 1, r6, last)
  {
    hide Legal, Replay, Declared, LatestOf, HET_CU, Known, UnitAt, NumberAt, HasSlack, ToInt64, ShowsNumber, ShowsWords,
         STATUS_KEY, EVENTS_KEY, FIFO_KEY;
    var k := |trace| - 1;
    PostIsKnown(trace, k);
    HetBlockIsReadBack(trace, k, last.block);
    HetNumberIsReadBack(trace, k, STATUS, r6, Int32Value(r6));
    HetNumberIsReadBack(trace, k, EVENTS, ToInt64(last.count), Int64Value(ToInt64(last.count)));
  }

  lemma PostIsKnown(trace: seq<CrestModel.Event>, k: nat)
    requires Legal(trace) && k < |trace| && trace[k].Posted?
    ensures Known(trace, k)
  {
    PostedShowsLatest(trace, k);
  }

  lemma HetNumberIsReadBack(trace: seq<CrestModel.Event>, k: nat, a: nat, n: int, v: Value)
    requires Legal(trace) && Known(trace, k) && HasSlack(trace, k) && HetUnit(trace[..k], trace[k].cu)
    requires (a == STATUS && v == Int32Value(n)) || (a == EVENTS && v == Int64Value(n))
    requires LatestOf(trace[..k], trace[k].cu, a) == Last(v) && -TWO63 <= n < TWO63
    ensures ShowsNumber(trace[k].doc, if a == STATUS then STATUS_KEY else EVENTS_KEY, n)
  {
    hide Legal, Replay, Declared, LatestOf, HET_CU, Known, HasSlack, ShowsNumber, NumberFront, Outs, Supported,
         STATUS_KEY, EVENTS_KEY;
    HetOuts();
    HetNumber(a);
    NumberIsReadBack(trace, k, a, n);
  }

  /** The bytes of the array, as the machine of each build stores it. */
  method InMemory(fifo: array<Word>, big: bool) returns (bytes: seq<bv8>)
    ensures bytes == Memory(fifo[..], big)
  {
    bytes := Memory(fifo[..], big);
  }

  // ------------------------------------------------------------------ the whole loop

  /** What the last good read left, with `events` counted before the first poll. */
  function LastReading(polls: seq<Poll>, motorola: bool, events: nat): Option<Reading> {
    if polls == [] then None
    else
      var p := polls[|polls| - 1];
      if p.status <= 3 && p.dma.Some? then Some(Reading(p.dma.value, CountAfter(polls, motorola, events)))
      else LastReading(polls[..|polls| - 1], motorola, events)
  }

  /** The events in all the blocks that were read. */
  function TotalEvents(polls: seq<Poll>): nat {
    if polls == [] then 0
    else
      var p := polls[|polls| - 1];
      TotalEvents(polls[..|polls| - 1]) + if p.status <= 3 && p.dma.Some? then Count(p.dma.value) else 0
  }

  /** The running count: only one of the two builds counts, in 64 bits. */
  function CountAfter(polls: seq<Poll>, motorola: bool, events: nat): nat {
    if motorola then (events + TotalEvents(polls)) % 0x1_0000_0000_0000_0000 else events
  }

  /** How many documents the loop has pushed. */
  function Pushes(polls: seq<Poll>): nat {
    if polls == [] then 0 else Pushes(polls[..|polls| - 1]) + if polls[|polls| - 1].status <= 3 then 1 else 0
  }

  /** The document of every turn up to `n` in which the board was ready is at `posts` of that
      turn, and carries its status and what the last good read so far left. */
  ghost predicate AllCarry(trace: seq<CrestModel.Event>, polls: seq<Poll>, motorola: bool, events: nat, n: nat,
                           posts: seq<nat>) {
    && n <= |polls| && n <= |posts|
    && (forall i | 0 <= i < n && polls[i].status <= 3 :: posts[i] < |trace| && trace[posts[i]].Posted?)
    && (forall i | 0 <= i < n && polls[i].status <= 3 && LastReading(polls[..i + 1], motorola, events).Some? ::
         Carries(trace, posts[i], polls[i].r6, LastReading(polls[..i + 1], motorola, events).value))
  }

  lemma AllCarryStays(t: seq<CrestModel.Event>, u: seq<CrestModel.Event>, polls: seq<Poll>, motorola: bool, events: nat,
                      n: nat, posts: seq<nat>, k: nat)
    requires t <= u && AllCarry(t, polls, motorola, events, n, posts) && |posts| == n < |polls|
    requires polls[n].status <= 3 ==> k < |u| && u[k].Posted?
    requires var last := LastReading(polls[..n + 1], motorola, events);
      polls[n].status <= 3 && last.Some? ==> Carries(u, k, polls[n].r6, last.value)
    ensures AllCarry(u, polls, motorola, events, n + 1, posts + [k])
  {
    hide LastReading, ShowsNumber, ShowsWords;
    var more := posts + [k];
    forall i | 0 <= i < n + 1 && polls[i].status <= 3 && LastReading(polls[..i + 1], motorola, events).Some?
      ensures Carries(u, more[i], polls[i].r6, LastReading(polls[..i + 1], motorola, events).value)
    {
      if i < n {
        assert t[posts[i]] == u[posts[i]];
      }
    }
  }

  lemma NextPoll(polls: seq<Poll>, motorola: bool, events: nat, n: nat)
    requires n < |polls| && events < TWO64
    ensures Delivers(polls[n]) ==>
      LastReading(polls[..n + 1], motorola, events) ==
      Some(Reading(polls[n].dma.value, CountAfter(polls[..n + 1], motorola, events)))
    ensures !Delivers(polls[n]) ==>
      LastReading(polls[..n + 1], motorola, events) == LastReading(polls[..n], motorola, events)
    ensures CountAfter(polls[..n + 1], motorola, events) ==
            if Delivers(polls[n]) && motorola
            then Wrap64(CountAfter(polls[..n], motorola, events) + Count(polls[n].dma.value))
            else CountAfter(polls[..n], motorola, events)
    ensures Pushes(polls[..n + 1]) == Pushes(polls[..n]) + if polls[n].status <= 3 then 1 else 0
  {
    hide Count;
    assert polls[..n + 1][..n] == polls[..n];
  }

  /**
    The acquisition loop over any sequence of polls, from the board to the server: one
    document is pushed for every turn in which the board is ready, and each carries the
    status of the turn, the running count of events and, word for word, the block of the last
    good read.
  */
  method Acquire(h: Handle, cu0: nat, polls: seq<Poll>, motorola: bool, evtbuf: array<Word>, fifo: array<Word>,
                 events: nat) returns (eventn: nat, ghost posts: seq<nat>)
    requires h.Valid() && 0 < cu0 && HetUnit(h.trace, cu0 - 1) && forall i :: h.net(i).start < TWO64
    requires (forall i | 0 <= i < |polls| :: PollOk(polls[i])) && events < TWO64
    requires evtbuf.Length == fifo.Length == DMA_WORDS && evtbuf != fifo
    modifies h, evtbuf, fifo
    ensures h.Valid() && old(h.trace) <= h.trace && h.calls == old(h.calls) + Pushes(polls)
    ensures eventn == CountAfter(polls, motorola, events)
    ensures |posts| == |polls| && AllCarry(h.trace, polls, motorola, events, |polls|, posts)
    ensures forall i, j | 0 <= i < j < |polls| && polls[i].status <= 3 && polls[j].status <= 3 :: posts[i] < posts[j]
  {
    hide HetUnit, Holds, LastReading, Carries, Legal, Replay, Wrap64, Count, CountAfter, Pushes, AllCarry;
    var t2: Word := 0;
    eventn, posts := events, [];
    LoopStart(h.trace, cu0 - 1, polls, motorola, events);
    for n := 0 to |polls|
      invariant h.Valid() && old(h.trace) <= h.trace && h.calls == old(h.calls) + Pushes(polls[..n])
      invariant HetUnit(h.trace, cu0 - 1) && Holds(h.trace, cu0 - 1, LastReading(polls[..n], motorola, events))
      invariant eventn == CountAfter(polls[..n], motorola, events) < TWO64
      invariant |posts| == n && AllCarry(h.trace, polls, motorola, events, n, posts)
      invariant forall i | 0 <= i < n && polls[i].status <= 3 :: posts[i] < |h.trace|
      invariant forall i, j | 0 <= i < j < n && polls[i].status <= 3 && polls[j].status <= 3 :: posts[i] < posts[j]
    {
      ghost var before := h.trace;
      NextPoll(polls, motorola, events, n);
      eventn, t2 := Cycle(h, cu0, polls[n], motorola, evtbuf, fifo, eventn, t2, LastReading(polls[..n], motorola, events));
      ghost var k: nat := |h.trace| - 1;
      AllCarryStays(before, h.trace, polls, motorola, events, n, posts, k);
      posts := posts + [k];
    }
    assert polls[..|polls|] == polls;
  }

  lemma LoopStart(trace: seq<CrestModel.Event>, c: nat, polls: seq<Poll>, motorola: bool, events: nat)
    requires events < TWO64
    ensures polls[..0] == [] && Holds(trace, c, LastReading([], motorola, events)) && Pushes([]) == 0
    ensures CountAfter([], motorola, events) == events && AllCarry(trace, polls, motorola, events, 0, [])
  {
  }

  // ------------------------------------------------------------------ the other end

  lemma {:induction false} JoinedSplit(ds: seq<Slot>, n: nat, a: nat) returns (tail: string)
    requires a < n <= |ds|
    ensures Joined(ds, n) == Joined(ds, a) + ds[a].data + tail
    ensures if tail == "" then a + 1 == n == |ds| else tail[0] == ','
  {
    var comma := if n < |ds| then "," else "";
    if n == a + 1 {
      tail := comma;
    } else {
      var t := JoinedSplit(ds, n - 1, a);
      tail := t + ds[n - 1].data + comma;
      assert Joined(ds, a) + ds[a].data + t + ds[n - 1].data + comma == Joined(ds, a) + ds[a].data + tail;
    }
  }

  /** What precedes the base64 text of a vector attribute. */
  function VectorFront(name: string): string {
    "\"" + name + "\":{\"$binary\":{\"base64\":\""
  }

  lemma FrontOfVector(name: string)
    ensures VectorFront(name) == "\"" + name + "\":" + "{\"$binary\":{\"base64\":\""
  {
  }

  lemma FrontIs(name: string)
    ensures VectorFront(name) == "\"" + name + "\":{\"$binary\":{\"base64\":\""
  {
  }

  lemma VectorText(d: Descriptor, text: string) returns (tail: string)
    requires IsBinary(d.ty)
    ensures AttributeText(d, text) == VectorFront(d.name) + text + tail
    ensures tail != "" && tail[0] == '"'
  {
    hide Wrapped, SubType, VectorFront;
    WrappedBinary(d.ty, text);
    tail := "\",\"subType\":\"" + SubType(d.ty);
    var open, name := "{\"$binary\":{\"base64\":\"", "\"" + d.name + "\":";
    FrontOfVector(d.name);
    assert name + (open + text + tail) == name + open + text + tail;
  }

  /** Where the base64 text of attribute `a` starts in a whole document. */
  function TextStart(cu: Cu, a: nat, register: bool, seqId: nat, ts: nat): nat
    requires a < |cu.outds|
  {
    |Header(cu.name, register, seqId, ts, |cu.outds|)| + |Joined(cu.outds, a)| + |VectorFront(cu.outds[a].name)|
  }

  /** What precedes the digits of a number. */
  function NumberFront(d: Descriptor): string {
    "\"" + d.name + "\":" + if d.ty == INT32 then "" else "{\"$numberLong\":\""
  }

  function NumberBack(d: Descriptor): string {
    if d.ty == INT32 then "" else "\"}"
  }

  /** The value is this number, and the type one of the two integer types. */
  ghost predicate IsNumber(d: Descriptor, v: Value, n: int) {
    (d.ty == INT32 && v == Int32Value(n)) || (d.ty == INT64 && v == Int64Value(n))
  }

  lemma NumberSlot(d: Descriptor, v: Value, n: int)
    requires IsNumber(d, v, n) && -TWO63 <= n < TWO63 && |d.name| <= 16
    ensures TypeToFormat(d.ty).Some? && ('%' !in d.name ==> FormatFits(d))
    ensures '%' !in d.name ==> Print(OutSlot(d), ValueText(v)).data == NumberFront(d) + (SignedDec(n) + NumberBack(d))
    ensures Shown(OutSlot(d), Last(v)).data == Print(OutSlot(d), ValueText(v)).data
  {
    hide Print, SignedDec, OutSlot;
    NumberFormat(d);
    SignedLength(n);
    var text := AttributeText(d, SignedDec(n));
    assert text == NumberFront(d) + (SignedDec(n) + NumberBack(d));
    if '%' !in d.name {
      SlotHoldsExactly(d, SignedDec(n));
    }
  }

  lemma NumberFormat(d: Descriptor)
    requires d.ty == INT32 || d.ty == INT64
    ensures TypeToFormat(d.ty).Some? && |TypeToFormat(d.ty).value| <= 30 && AllocOf(d) == 64
  {
  }

  lemma SignedLength(n: int)
    requires -TWO63 <= n < TWO63
    ensures |SignedDec(n)| <= 21
  {
    if n == -TWO63 {
      Int64Digits(TWO63 / 10);
      assert Dec(TWO63) == Dec(TWO63 / 10) + [('0' as int + TWO63 % 10) as char];
    } else {
      Int64Digits(if n < 0 then -n else n);
    }
  }

  /** A number in a whole document reads back behind its name. */
  lemma WholeReads(cu: Cu, a: nat, register: bool, seqId: nat, ts: nat, front: string, n: int, back: string)
    requires a < |cu.outds| && cu.outds[a].data == front + (SignedDec(n) + back)
    requires back != "" ==> back[0] == '"'
    ensures ShowsNumber(Whole(cu, register, seqId, ts), front, n)
  {
    hide Header, Joined, SignedDec, EndsAt, ReadSigned;
    var ds, h := cu.outds, Header(cu.name, register, seqId, ts, |cu.outds|);
    var t := JoinedSplit(ds, |ds|, a);
    var lead, rest := h + Joined(ds, a), back + t + "}";
    assert Whole(cu, register, seqId, ts) == lead + front + (SignedDec(n) + rest);
    EndsThere(lead, front, SignedDec(n) + rest);
    assert rest[0] == '"' || rest[0] == ',' || rest[0] == '}';
    SignedReadsBack(n, rest);
  }

  /** In every history, the last value written to an integer attribute with a short name reads
      back from the posted document, when that has room. */
  lemma NumberIsReadBack(trace: seq<CrestModel.Event>, k: nat, a: nat, n: int)
    requires Legal(trace) && Known(trace, k) && HasSlack(trace, k) && a < |Outs(Declared(trace[..k])[trace[k].cu].1)|
    requires var d, l := Outs(Declared(trace[..k])[trace[k].cu].1)[a], LatestOf(trace[..k], trace[k].cu, a);
      l.Last? && IsNumber(d, l.v, n) && -TWO63 <= n < TWO63 && |d.name| <= 16 && '%' !in d.name
    ensures ShowsNumber(trace[k].doc, NumberFront(Outs(Declared(trace[..k])[trace[k].cu].1)[a]), n)
  {
    hide Legal, Replay, Document, Supported, LatestOf, Declared, Slack, Shown, HasSlack, SignedDec, NumberFront,
         NumberBack, OutSlot, ShowsNumber, Whole, IsNumber, Outs, Print, ValueText;
    var e, cu := trace[k], UnitAt(trace, k);
    PostedShowsLatest(trace, k);
    var d, l := Outs(Declared(trace[..k])[e.cu].1)[a], LatestOf(trace[..k], e.cu, a);
    NumberSlot(d, l.v, n);
    BackIsQuote(d);
    WholeReads(cu, a, e.register, NumberAt(trace, k), e.reply.start, NumberFront(d), n, NumberBack(d));
  }

  lemma BackIsQuote(d: Descriptor)
    ensures NumberBack(d) != "" ==> NumberBack(d)[0] == '"'
  {
  }

  /** The two numbers of the program's unit. */
  lemma HetNumber(a: nat)
    requires a == STATUS || a == EVENTS
    ensures |HET_CU| == 4 && '%' !in HET_CU[a].name && |HET_CU[a].name| <= 16
    ensures HET_CU[a].ty == if a == STATUS then INT32 else INT64
    ensures NumberFront(HET_CU[a]) == if a == STATUS then STATUS_KEY else EVENTS_KEY
  {
    hide NumberFront;
    Fronts(HET_CU[a]);
  }

  lemma Fronts(d: Descriptor)
    ensures d.name == "STATUS" && d.ty == INT32 ==> NumberFront(d) == STATUS_KEY
    ensures d.name == "EVENTS" && d.ty == INT64 ==> NumberFront(d) == EVENTS_KEY
  {
  }

  /** Base64 decoding from there stops at the closing quote and gives the attribute's bytes. */
  lemma WholeDecodes(cu: Cu, a: nat, register: bool, seqId: nat, ts: nat, bytes: seq<bv8>, front: string, tail: string)
    requires a < |cu.outds| && front == VectorFront(cu.outds[a].name)
    requires cu.outds[a].data == front + Base64.Encode(bytes) + tail && tail != "" && tail[0] == '"'
    ensures var doc, p := Whole(cu, register, seqId, ts), TextStart(cu, a, register, seqId, ts);
      EndsAt(doc, front, p) && Base64.Decode(doc[p..]) == bytes
  {
    hide Header, Joined, VectorFront, Base64.Encode, Base64.Decode, EndsAt;
    var ds, h := cu.outds, Header(cu.name, register, seqId, ts, |cu.outds|);
    var t := JoinedSplit(ds, |ds|, a);
    var lead, rest := h + Joined(ds, a) + front, tail + t + "}";
    assert Whole(cu, register, seqId, ts) == lead + (Base64.Encode(bytes) + rest);
    EndsThere(h + Joined(ds, a), front, Base64.Encode(bytes) + rest);
    assert rest[0] == '"';
    Base64Laws.RoundTrip(bytes, rest);
  }

  /** The last value written to attribute `a` of the unit that posts at `k` is this block. */
  ghost predicate BlockWritten(trace: seq<CrestModel.Event>, k: nat, a: nat, ws: seq<Word>)
    requires Known(trace, k)
  {
    var outs := Outs(Declared(trace[..k])[trace[k].cu].1);
    && a < |outs| && FormatFits(outs[a]) && IsBinary(outs[a].ty) && outs[a].size * ElementSize(outs[a].ty) == 4 * |ws|
    && LatestOf(trace[..k], trace[k].cu, a) == Last(BytesValue(Memory(ws, false)))
  }

  /**
    End to end: in every history, when the last value written to a vector attribute is a
    block in memory order, and slot and buffer are large enough, the posted document holds a
    text at a known place that decodes to the very words of the block.
  */
  lemma BlockIsReadBack(trace: seq<CrestModel.Event>, k: nat, a: nat, ws: seq<Word>)
    requires Legal(trace) && Known(trace, k) && HasSlack(trace, k) && BlockWritten(trace, k, a, ws)
    requires 5 * 4 * |ws| >= 3 * |UnitAt(trace, k).outds[a].format| - 43
    ensures var e := trace[k];
      ShowsWords(e.doc, "\"" + UnitAt(trace, k).outds[a].name + "\":{\"$binary\":{\"base64\":\"", ws)
  {
    hide Possible, Apply, Replay, Header, Joined, VectorFront, Base64.Encode, Base64.Decode, Printf, FormatOf, OutSlot,
         Document, Supported, TypeToFormat, Memory, Reassemble, LatestOf, Declared, TextStart, Slack, Shown, HasSlack,
         ElementSize, IsBinary;
    var e, cu := trace[k], UnitAt(trace, k);
    PostedShowsLatest(trace, k);
    FrontIs(cu.outds[a].name);
    var d, bytes := Outs(Declared(trace[..k])[e.cu].1)[a], Memory(ws, false);
    VectorSlot(d, bytes);
    var tail := VectorText(d, Base64.Encode(bytes));
    WholeDecodes(cu, a, e.register, NumberAt(trace, k), e.reply.start, bytes, VectorFront(d.name), tail);
    ReassembleMemory(ws);
  }

  lemma VectorSlot(d: Descriptor, bytes: seq<bv8>)
    requires TypeToFormat(d.ty).Some? && FormatFits(d) && IsBinary(d.ty)
    requires |bytes| == d.size * ElementSize(d.ty)
    requires 5 * |bytes| >= 3 * |Shown(OutSlot(d), Last(BytesValue(bytes))).format| - 43
    ensures var s := Shown(OutSlot(d), Last(BytesValue(bytes)));
      s.data == AttributeText(d, Base64.Encode(bytes)) && s.name == d.name
  {
    hide Printf, TypeToFormat, FormatOf, Base64.Encode, Both;
    NotTruncated(d, BytesValue(bytes));
    NeverGrows(d, BytesValue(bytes));
  }

  // ------------------------------------------------------------------ the unit of the program

  lemma {:induction false} SlackOfOne(ds: seq<Slot>, a: nat)
    requires DataFits(ds) && a < |ds|
    ensures Slack(ds) >= ds[a].allocSize - 1 - |ds[a].data|
  {
    if a < |ds| - 1 {
      SlackOfOne(ds[..|ds| - 1], a);
    }
  }

  lemma HetOuts()
    ensures Outs(HET_CU) == HET_CU && forall d | d in HET_CU :: Supported(d)
  {
    hide Outs, Supported;
    AllOut(HET_CU);
    forall i | 0 <= i < |HET_CU| ensures Supported(HET_CU[i]) {
      HetDescriptor(i);
    }
  }

  lemma HetDescriptor(i: nat)
    requires i < |HET_CU|
    ensures Supported(HET_CU[i])
  {
  }

  lemma {:induction false} AllOut(ds: seq<Descriptor>)
    requires forall i | 0 <= i < |ds| :: IsOut(ds[i])
    ensures Outs(ds) == ds
  {
    hide Outs;
    OutsLast(ds);
    if ds != [] {
      AllOut(ds[..|ds| - 1]);
    }
  }

  lemma OutsLast(ds: seq<Descriptor>)
    ensures ds == [] ==> Outs(ds) == []
    ensures ds != [] && IsOut(ds[|ds| - 1]) ==> Outs(ds) == Outs(ds[..|ds| - 1]) + [ds[|ds| - 1]]
  {
    hide IsOut, Supported;
  }

  lemma HeaderLength(name: string, register: bool, seqId: nat, ts: nat, ports: nat)
    requires |name| < 64 && seqId < TWO64 && ts < TWO64
    ensures |Header(name, register, seqId, ts, ports)| <= 300
  {
    hide Dec;
    Uint64Digits(seqId);
    Uint64Digits(ts);
  }

  lemma Uint64Digits(n: nat)
    requires n < TWO64
    ensures |Dec(n)| <= 21
  {
    if n >= 10 {
      assert n / 10 < TWO63;
      Int64Digits(n / 10);
    }
  }

  /** The FIFO slot alone leaves room for every header, so every document of the program's
      unit is whole, and the block of the last good read can be read back from it. */
  lemma HetBlockIsReadBack(trace: seq<CrestModel.Event>, k: nat, ws: seq<Word>)
    requires Legal(trace) && Known(trace, k) && |ws| == DMA_WORDS && trace[k].reply.start < TWO64
    requires Declared(trace[..k])[trace[k].cu].1 == HET_CU && |Declared(trace[..k])[trace[k].cu].0| < 64
    requires LatestOf(trace[..k], trace[k].cu, FIFO) == Last(BytesValue(Memory(ws, false)))
    ensures HasSlack(trace, k) && |UnitAt(trace, k).outds| == 4
    ensures var e := trace[k];
      ShowsWords(e.doc, FIFO_KEY, ws)
  {
    hide Apply, Possible, Header, Joined, Base64.Encode, Base64.Decode, Printf, Document, Whole, Supported,
         Memory, Reassemble, LatestOf, Declared, TextStart, Slack, OutSlot, Outs, HET_CU, TypeToFormat, Shown, Dec, Legal;
    var pre, e, cu := trace[..k], trace[k], UnitAt(trace, k);
    PostedShowsLatest(trace, k);
    HetOuts();
    FifoSlot(Memory(ws, false));
    SlackOfOne(cu.outds, FIFO);
    SequenceBound(pre);
    HeaderLength(cu.name, e.register, NumberAt(trace, k), e.reply.start, |cu.outds|);
    BlockIsReadBack(trace, k, FIFO, ws);
    FifoFront(UnitAt(trace, k).outds[FIFO].name);
  }

  lemma FifoFront(name: string)
    requires name == "FIFO"
    ensures "\"" + name + "\":{\"$binary\":{\"base64\":\"" == FIFO_KEY
  {
  }

  lemma SequenceBound(pre: seq<CrestModel.Event>)
    requires Legal(pre)
    ensures Replay(pre).npush < TWO64
  {
    SequenceNumber(pre);
  }

  /** Sizes of the FIFO slot: 65536 bytes of data in a buffer of 196624 characters. */
  lemma FifoSlot(bytes: seq<bv8>)
    requires |bytes| == 4 * DMA_WORDS
    ensures |HET_CU| == 4 && HET_CU[FIFO].name == "FIFO" && IsBinary(HET_CU[FIFO].ty)
    ensures TypeToFormat(HET_CU[FIFO].ty).Some? && FormatFits(HET_CU[FIFO])
    ensures HET_CU[FIFO].size * ElementSize(HET_CU[FIFO].ty) == 4 * DMA_WORDS
    ensures var s := Shown(OutSlot(HET_CU[FIFO]), Last(BytesValue(bytes)));
      && s.size == 4 * DMA_WORDS && 5 * s.size >= 3 * |s.format| - 43 && s.name == "FIFO"
      && s.allocSize - 1 - |s.data| >= 300
  {
    hide Printf, Base64.Encode, FormatOf;
    var d := HET_CU[FIFO];
    PrintfLength(OutSlot(d).format, Base64.Encode(bytes));
    Base64Laws.EncodeLength(bytes);
  }
}
