/** The documents that are posted, and the counters, over every history. */
module CrestDocs {
  import opened CText
  import opened CrestModel
  import opened CrestLaws

  lemma {:induction false} LegalPrefix(trace: seq<Event>, k: nat)
    requires Legal(trace) && k <= |trace|
    ensures Legal(trace[..k])
    decreases |trace|
  {
    hide Possible, Apply;
    if k == |trace| {
      assert trace[..k] == trace;
    } else {
      LegalPrefix(trace[..|trace| - 1], k);
      assert trace[..|trace| - 1][..k] == trace[..k];
    }
  }

  lemma LegalAt(trace: seq<Event>, k: nat)
    requires Legal(trace) && k < |trace|
    ensures Legal(trace[..k]) && Possible(Replay(trace[..k]), trace[k])
  {
    hide Possible, Apply;
    LegalPrefix(trace, k);
    LegalPrefix(trace, k + 1);
    assert trace[..k + 1][..k] == trace[..k] && trace[..k + 1][k] == trace[k];
  }

  // ------------------------------------------------------------------ room in the buffer

  function SumData(ds: seq<Slot>): nat {
    if ds == [] then 0 else SumData(ds[..|ds| - 1]) + |ds[|ds| - 1].data|
  }

  ghost predicate DataFits(ds: seq<Slot>) {
    forall i | 0 <= i < |ds| :: |ds[i].data| < ds[i].allocSize
  }

  /** The unused characters of all slots, each NUL apart. */
  function Slack(ds: seq<Slot>): nat
    requires DataFits(ds)
  {
    if ds == [] then 0
    else Slack(ds[..|ds| - 1]) + (ds[|ds| - 1].allocSize - 1 - |ds[|ds| - 1].data|)
  }

  lemma {:induction false} SlackIsRest(ds: seq<Slot>)
    requires DataFits(ds)
    ensures Slack(ds) == TotalAlloc(ds) - |ds| - SumData(ds)
  {
    if ds != [] {
      SlackIsRest(ds[..|ds| - 1]);
    }
  }

  lemma {:induction false} JoinedLength(ds: seq<Slot>, n: nat)
    requires n <= |ds|
    ensures |Joined(ds, n)| == SumData(ds[..n]) + if n < |ds| || n == 0 then n else n - 1
    decreases n
  {
    if n > 0 {
      JoinedLength(ds, n - 1);
      assert ds[..n][..n - 1] == ds[..n - 1];
    }
  }

  /** The values with their commas and a NUL always fit the summed size. */
  lemma ValuesAlwaysFit(ds: seq<Slot>)
    requires DataFits(ds) && ds != []
    ensures |Joined(ds, |ds|)| + 1 <= TotalAlloc(ds)
  {
    SlackIsRest(ds);
    JoinedLength(ds, |ds|);
    assert ds[..|ds|] == ds;
  }

  /** The whole text that a post is meant to carry. */
  function Whole(cu: Cu, register: bool, seqId: nat, ts: nat): string {
    Header(cu.name, register, seqId, ts, |cu.outds|) + Joined(cu.outds, |cu.outds|) + "}"
  }

  /** The posted text is whole exactly when the slack covers the header, and it fits the
      buffer with its NUL exactly when there is one character more. */
  lemma DocumentFitsExactly(cu: Cu, register: bool, seqId: nat, ts: nat)
    requires DataFits(cu.outds) && cu.outds != [] && TotalAlloc(cu.outds) > 0
    ensures var doc, h := Document(cu, register, seqId, ts), |Header(cu.name, register, seqId, ts, |cu.outds|)|;
      && (doc == Whole(cu, register, seqId, ts) <==> Slack(cu.outds) >= h)
      && (doc == Whole(cu, register, seqId, ts) && |doc| + 1 <= TotalAlloc(cu.outds) <==> Slack(cu.outds) >= h + 1)
  {
    hide Header, TotalAlloc, SumData, Slack, Joined;
    SlackIsRest(cu.outds);
    JoinedLength(cu.outds, |cu.outds|);
    assert cu.outds[..|cu.outds|] == cu.outds;
    var body := Header(cu.name, register, seqId, ts, |cu.outds|) + Joined(cu.outds, |cu.outds|);
    CutIsWhole(body, TotalAlloc(cu.outds) - 1);
  }

  lemma CutIsWhole(body: string, room: nat)
    ensures Cut(body, room) + "}" == body + "}" <==> |body| <= room
  {
    assert |Cut(body, room) + "}"| == |Cut(body, room)| + 1;
  }

  // ------------------------------------------------------------------ what a post carries

  /** The output slots of a unit with its latest values. */
  function LatestSlots(trace: seq<Event>, c: nat, ds: seq<Descriptor>): (slots: seq<Slot>)
    requires forall d | d in ds :: Supported(d)
    ensures |slots| == |Outs(ds)|
  {
    var outs := Outs(ds);
    seq(|outs|, a requires 0 <= a < |outs| => Shown(OutSlot(outs[a]), LatestOf(trace, c, a)))
  }

  lemma LatestSlotsFit(trace: seq<Event>, c: nat, ds: seq<Descriptor>)
    requires forall d | d in ds :: Supported(d)
    ensures DataFits(LatestSlots(trace, c, ds))
  {
    hide OutSlot, Printf, TypeToFormat, LatestOf, ValueText, DefaultText, Supported;
    var outs := Outs(ds);
    forall a | 0 <= a < |outs|
      ensures var s := Shown(OutSlot(outs[a]), LatestOf(trace, c, a));
        |s.data| < s.allocSize
    {
      FreshIsEmpty(outs[a]);
    }
  }

  lemma FreshIsEmpty(d: Descriptor)
    requires TypeToFormat(d.ty).Some?
    ensures OutSlot(d).data == ""
  {
  }

  /** The post at `k` is of a unit that was declared before. */
  ghost predicate Known(trace: seq<Event>, k: nat) {
    && k < |trace| && trace[k].Posted? && Legal(trace[..k])
    && trace[k].cu < |Declared(trace[..k])| && AllSupported(Declared(trace[..k]))
  }

  /** The unit of that post: as declared, with its latest values. */
  ghost function UnitAt(trace: seq<Event>, k: nat): Cu
    requires Known(trace, k)
  {
    var (name, ds) := Declared(trace[..k])[trace[k].cu];
    Cu(name, InSlots(Ins(ds)), LatestSlots(trace[..k], trace[k].cu, ds))
  }

  /** The sequence number that it carries. */
  ghost function NumberAt(trace: seq<Event>, k: nat): nat
    requires Known(trace, k)
  {
    if trace[k].register then 0 else Replay(trace[..k]).npush
  }

  /** The slack of its slots covers the header. */
  ghost predicate HasSlack(trace: seq<Event>, k: nat)
    requires Known(trace, k)
  {
    var cu, e := UnitAt(trace, k), trace[k];
    DataFits(cu.outds) && Slack(cu.outds) >= |Header(cu.name, e.register, NumberAt(trace, k), e.reply.start, |cu.outds|)|
  }

  /** Every document posted in any history is assembled from the unit's declared name, the
      current sequence number and the latest value of each of its outputs, in order. When
      the slack allows, it is all of them, between the header and the closing brace. */
  lemma PostedShowsLatest(trace: seq<Event>, k: nat)
    requires Legal(trace) && k < |trace| && trace[k].Posted?
    ensures Known(trace, k)
    ensures var cu, e, id := UnitAt(trace, k), trace[k], NumberAt(trace, k);
      && DataFits(cu.outds) && TotalAlloc(cu.outds) > 0 && cu.outds != []
      && e.doc == Document(cu, e.register, id, e.reply.start)
      && (e.doc == Whole(cu, e.register, id, e.reply.start) <==> HasSlack(trace, k))
  {
    hide Apply, OutSlot, Document, Whole, Shown, Header, LatestOf, Supported;
    var pre, e := trace[..k], trace[k];
    LegalAt(trace, k);
    StoreRefinesLastWrite(pre);
    var (name, ds) := Declared(pre)[e.cu];
    var cu := UnitAt(trace, k);
    assert Replay(pre).cus[e.cu].outds == cu.outds;
    assert Replay(pre).cus[e.cu] == cu;
    LatestSlotsFit(pre, e.cu, ds);
    DocumentFitsExactly(cu, e.register, NumberAt(trace, k), e.reply.start);
  }

  /** An event of another unit never shows; a write shows in its own attribute only. */
  lemma OthersDoNotShow(pre: seq<Event>, e: Event, c: nat, ds: seq<Descriptor>)
    requires forall d | d in ds :: Supported(d)
    ensures !(e.Wrote? && e.cu == c) && !(e.Reset? && e.cu == c) ==>
              LatestSlots(pre + [e], c, ds) == LatestSlots(pre, c, ds)
    ensures e.Wrote? && e.cu == c && e.attr < |Outs(ds)| ==>
              LatestSlots(pre + [e], c, ds) ==
              LatestSlots(pre, c, ds)[e.attr := Shown(OutSlot(Outs(ds)[e.attr]), Last(e.value))]
  {
    hide OutSlot, Shown, Supported, Outs;
    assert (pre + [e])[..|pre|] == pre;
    forall a | 0 <= a < |Outs(ds)|
      ensures LatestOf(pre + [e], c, a) ==
              if e.Wrote? && e.cu == c && e.attr == a then Last(e.value)
              else if e.Reset? && e.cu == c then Default
              else LatestOf(pre, c, a)
    {
    }
  }

  /** The text of the latest value, or of the default. */
  function LatestText(l: Latest, ty: TypeBits): string
    requires !l.Never?
  {
    if l.Default? then DefaultText(ty) else ValueText(l.v)
  }

  /** In every posted document, each attribute that was written or registered shows the whole
      of its latest value exactly when its text leaves room for a NUL in its slot: 63
      characters for a scalar, with name and wrapping. */
  lemma PostedValueExact(trace: seq<Event>, k: nat, a: nat)
    requires Known(trace, k) && a < |UnitAt(trace, k).outds|
    requires var d := Outs(Declared(trace[..k])[trace[k].cu].1)[a];
      FormatFits(d) && !LatestOf(trace[..k], trace[k].cu, a).Never?
    ensures var d := Outs(Declared(trace[..k])[trace[k].cu].1)[a];
      var text := LatestText(LatestOf(trace[..k], trace[k].cu, a), d.ty);
      && (UnitAt(trace, k).outds[a].data == AttributeText(d, text) <==>
           |d.name| + 3 + |Wrapped(d.ty, text)| < AllocOf(d))
      && AllocOf(d) == if IsBinary(d.ty) then 3 * OutSlot(d).size + MAXDIGITS else 64
  {
    hide OutSlot, Print, LatestOf, Wrapped, TypeToFormat, FormatFits, Replay, Legal, IsBinary, DefaultText, ValueText;
    var d := Outs(Declared(trace[..k])[trace[k].cu].1)[a];
    var text := LatestText(LatestOf(trace[..k], trace[k].cu, a), d.ty);
    SlotHoldsExactly(d, text);
    OutSlotType(d);
    SlotSizes(d);
  }

  lemma SlotSizes(d: Descriptor)
    requires TypeToFormat(d.ty).Some?
    ensures AllocOf(d) == if IsBinary(d.ty) then 3 * OutSlot(d).size + MAXDIGITS else 64
  {
    hide TypeToFormat, FormatOf;
  }

  // ------------------------------------------------------------------ units do not mix

  datatype UnitEvent = Write(attr: nat, value: Value) | Registered

  /** What a history does to one unit: its writes and registrations, in order. */
  function OfUnit(trace: seq<Event>, c: nat): seq<UnitEvent> {
    if trace == [] then []
    else
      var e := trace[|trace| - 1];
      OfUnit(trace[..|trace| - 1], c) +
      if e.Wrote? && e.cu == c then [Write(e.attr, e.value)]
      else if e.Reset? && e.cu == c then [Registered]
      else []
  }

  function LatestIn(es: seq<UnitEvent>, a: nat): Latest {
    if es == [] then Never
    else
      match es[|es| - 1]
      case Write(attr, v) => if attr == a then Last(v) else LatestIn(es[..|es| - 1], a)
      case Registered => Default
  }

  lemma {:induction false} LatestIsOfUnit(trace: seq<Event>, c: nat, a: nat)
    ensures LatestOf(trace, c, a) == LatestIn(OfUnit(trace, c), a)
    decreases |trace|
  {
    if trace != [] {
      LatestIsOfUnit(trace[..|trace| - 1], c, a);
      var es := OfUnit(trace[..|trace| - 1], c);
      forall e: UnitEvent ensures (es + [e])[..|es + [e]| - 1] == es {
      }
      assert es + [] == es;
    }
  }

  /** What a unit posts depends on its declaration and on its own writes and registrations:
      two histories that agree on these, whatever they do to other units and in whatever
      order, post the same text under the same number and clock. */
  lemma SameUnitSamePost(t: seq<Event>, j: nat, u: seq<Event>, k: nat)
    requires Legal(t) && Legal(u) && Known(t, j) && Known(u, k)
    requires Declared(t[..j])[t[j].cu] == Declared(u[..k])[u[k].cu] && OfUnit(t[..j], t[j].cu) == OfUnit(u[..k], u[k].cu)
    requires t[j].register == u[k].register && t[j].reply.start == u[k].reply.start && NumberAt(t, j) == NumberAt(u, k)
    ensures t[j].doc == u[k].doc
  {
    hide Legal, Replay, OutSlot, Document, Shown, LatestOf, LatestIn, OfUnit, Supported, Whole, HasSlack;
    PostedShowsLatest(t, j);
    PostedShowsLatest(u, k);
    var ds := Declared(t[..j])[t[j].cu].1;
    forall a | 0 <= a < |Outs(ds)|
      ensures LatestOf(t[..j], t[j].cu, a) == LatestOf(u[..k], u[k].cu, a)
    {
      LatestIsOfUnit(t[..j], t[j].cu, a);
      LatestIsOfUnit(u[..k], u[k].cu, a);
    }
    assert LatestSlots(t[..j], t[j].cu, ds) == LatestSlots(u[..k], u[k].cu, ds);
  }

  // ------------------------------------------------------------------ sequence numbers

  predicate Succeeded(e: Event) {
    e.Posted? && e.reply.err == 0
  }

  predicate Attempts(e: Event) {
    e.Posted? && e.register
  }

  /** The successful posts from index `r` on. */
  ghost function SuccessesFrom(trace: seq<Event>, r: nat): set<nat> {
    set i: nat | r <= i < |trace| && Succeeded(trace[i])
  }

  /** The last registration attempt, or 0 when there was none. */
  function LastAttempt(trace: seq<Event>): (r: nat)
    ensures r <= |trace|
    ensures r > 0 ==> r < |trace| && Attempts(trace[r])
    ensures forall i | r < i < |trace| :: !Attempts(trace[i])
  {
    if trace == [] then 0
    else if Attempts(trace[|trace| - 1]) then |trace| - 1
    else LastAttempt(trace[..|trace| - 1])
  }

  lemma SuccessesSnoc(trace: seq<Event>, e: Event, r: nat)
    requires r <= |trace|
    ensures |SuccessesFrom(trace + [e], r)| == |SuccessesFrom(trace, r)| + if Succeeded(e) then 1 else 0
  {
    hide Succeeded;
    var all := trace + [e];
    var last: set<nat> := if Succeeded(e) then {|trace|} else {};
    assert SuccessesFrom(all, r) == SuccessesFrom(trace, r) + last by {
      forall i: nat
        ensures i in SuccessesFrom(all, r) <==> i in SuccessesFrom(trace, r) + last
      {
        assert i < |trace| ==> all[i] == trace[i];
      }
    }
  }

  /** Only posts touch the counters. */
  lemma CountersStep(st: State, e: Event)
    requires HasRoom(st) && Possible(st, e)
    ensures var next := Apply(st, e);
      && next.npush == (if Succeeded(e) then ((if Attempts(e) then 0 else st.npush) + 1) % TWO64
                        else if Attempts(e) then 0 else st.npush)
      && next.total == (if Succeeded(e) then (st.total + Duration(e.reply)) % TWO64 else st.total)
      && next.max == (if Succeeded(e) && Duration(e.reply) > st.max then Duration(e.reply) else st.max)
  {
    hide Document, Fits, Update, ResetSlots, NewCu, Duration;
  }

  /** In every history the sequence number is the number of successful posts since the last
      attempt to register, that attempt included. */
  lemma {:induction false} SequenceNumber(trace: seq<Event>)
    requires Legal(trace)
    ensures Replay(trace).npush == |SuccessesFrom(trace, LastAttempt(trace))| % TWO64
    decreases |trace|
  {
    hide Possible, Apply, Succeeded, Attempts, SuccessesFrom;
    if trace != [] {
      var pre, e := trace[..|trace| - 1], trace[|trace| - 1];
      assert trace == pre + [e];
      SequenceNumber(pre);
      CountersStep(Replay(pre), e);
      var from := if Attempts(e) then |pre| else LastAttempt(pre);
      SuccessesSnoc(pre, e, from);
      NoneYet(pre);
      ModAdd(|SuccessesFrom(pre, from)|, 1);
    } else {
      NoneYet(trace);
    }
  }

  lemma NoneYet(trace: seq<Event>)
    ensures |SuccessesFrom(trace, |trace|)| == 0
  {
    assert SuccessesFrom(trace, |trace|) == {};
  }

  lemma ModAdd(a: nat, b: nat)
    ensures (a % TWO64 + b) % TWO64 == (a + b) % TWO64
  {
  }

  /** After a registration that succeeded, and until the next attempt, the sequence number is
      one more than the number of successful pushes: the j-th of them carries j, and one that
      fails leaves its number to the next. */
  lemma JthPushCarriesJ(trace: seq<Event>, r: nat)
    requires Legal(trace) && r < |trace| && Attempts(trace[r]) && Succeeded(trace[r])
    requires forall i | r < i < |trace| :: !Attempts(trace[i])
    ensures Replay(trace).npush == (|SuccessesFrom(trace, r + 1)| + 1) % TWO64
  {
    hide Legal, Replay, Attempts;
    SequenceNumber(trace);
    assert LastAttempt(trace) == r;
    FirstSuccess(trace, r);
  }

  lemma FirstSuccess(trace: seq<Event>, r: nat)
    requires r < |trace| && Succeeded(trace[r])
    ensures |SuccessesFrom(trace, r)| == |SuccessesFrom(trace, r + 1)| + 1
  {
    hide Succeeded;
    var later := SuccessesFrom(trace, r + 1);
    assert SuccessesFrom(trace, r) == later + {r};
    assert r !in later;
  }

  lemma HeaderNumber(name: string, register: bool, seqId: nat, ts: nat, ports: nat, more: string)
    ensures var h, before := Header(name, register, seqId, ts, ports) + more, BeforeSequence(name, register);
      before <= h && ReadDigits(h[|before|..], 10, 0).0 == seqId
  {
    hide Dec, BeforeSequence, AfterSequence;
    var before, rest := BeforeSequence(name, register), AfterSequence(ts, ports) + more;
    assert Header(name, register, seqId, ts, ports) + more == before + (Dec(seqId) + rest);
    assert (before + (Dec(seqId) + rest))[|before|..] == Dec(seqId) + rest;
    ReadDec(seqId, rest);
    assert rest[0] == '"' by { AfterNumber(ts, ports); }
  }

  lemma AfterNumber(ts: nat, ports: nat)
    ensures AfterSequence(ts, ports) != "" && AfterSequence(ts, ports)[0] == '"'
  {
  }

  /** The number that a reader finds in the text of a whole pushed document: one more than
      the successful pushes since the last registration, when that one succeeded. */
  lemma PushedNumber(trace: seq<Event>, r: nat, k: nat)
    requires Legal(trace) && r < k < |trace| && Attempts(trace[r]) && Succeeded(trace[r])
    requires (forall i | r < i <= k :: !Attempts(trace[i])) && Known(trace, k) && HasSlack(trace, k)
    ensures var doc, before := trace[k].doc, BeforeSequence(UnitAt(trace, k).name, false);
      && before <= doc
      && ReadDigits(doc[|before|..], 10, 0).0 == (|SuccessesFrom(trace[..k], r + 1)| + 1) % TWO64
  {
    hide Legal, Possible, Replay, Header, BeforeSequence, Joined, Document, UnitAt, Slack, SuccessesFrom, ReadDigits,
         HasSlack;
    var cu, id, ts := UnitAt(trace, k), NumberAt(trace, k), trace[k].reply.start;
    PostedShowsLatest(trace, k);
    JthPushCarriesJ(trace[..k], r);
    var n := |cu.outds|;
    var values := Joined(cu.outds, n) + "}";
    HeaderNumber(cu.name, false, id, ts, n, values);
    assert Header(cu.name, false, id, ts, n) + Joined(cu.outds, n) + "}" == Header(cu.name, false, id, ts, n) + values;
  }

  // ------------------------------------------------------------------ times

  /** The durations of the successful posts, in order, as the 32-bit counter takes them. */
  function Durations(trace: seq<Event>): seq<nat> {
    if trace == [] then []
    else
      var e := trace[|trace| - 1];
      Durations(trace[..|trace| - 1]) + if Succeeded(e) then [e.reply.elapsed % 0x1_0000_0000] else []
  }

  function Sum(s: seq<nat>): nat {
    if s == [] then 0 else Sum(s[..|s| - 1]) + s[|s| - 1]
  }

  lemma SumSnoc(s: seq<nat>, t: nat)
    ensures Sum(s + [t]) == Sum(s) + t
  {
    assert (s + [t])[..|s + [t]| - 1] == s;
  }

  /** The total time is the sum of the durations of all successful posts, in 64 bits, and the
      maximum is an upper bound that one of them reaches, or 0. */
  lemma {:induction false} PushTimes(trace: seq<Event>)
    requires Legal(trace)
    ensures Replay(trace).total == Sum(Durations(trace)) % TWO64
    ensures forall t | t in Durations(trace) :: t <= Replay(trace).max
    ensures Replay(trace).max in Durations(trace) || Replay(trace).max == 0
    decreases |trace|
  {
    hide Possible, Apply;
    if trace != [] {
      var pre, e := trace[..|trace| - 1], trace[|trace| - 1];
      PushTimes(pre);
      CountersStep(Replay(pre), e);
      if Succeeded(e) {
        var s, t := Durations(pre), Duration(e.reply);
        SumSnoc(s, t);
        ModAdd(Sum(s), t);
      } else {
        assert Durations(trace) == Durations(pre);
      }
    }
  }
}
