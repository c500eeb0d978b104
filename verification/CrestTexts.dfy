/**
  What the store prints, spelled out: formats, slots and documents in the characters that are
  posted, and what a reader finds in them.
*/
module CrestTexts {
  import opened CText
  import opened CrestModel
  import opened CrestStore
  import opened CrestLaws
  import opened CrestDocs
  import Base64
  import Base64Laws

  // ------------------------------------------------------------------ formats and slots

  /** The types by their numbers. */
  lemma Formats()
    ensures TypeToFormat(0x1) == Some("%d") && TypeToFormat(0x2) == Some("{\"$numberLong\":\"%lld\"}")
    ensures TypeToFormat(0x4) == Some("{\"$numberDouble\":\"%lf\"}") && TypeToFormat(0x8) == Some("\"%s\"")
    ensures TypeToFormat(0x10) == Some("{\"$binary\":{\"base64\":\"%s\",\"subType\":\"00\"}}}")
    ensures TypeToFormat(0x1001) == Some("{\"$binary\":{\"base64\":\"%s\",\"subType\":\"84\"}}")
    ensures TypeToFormat(0x1002) == Some("{\"$binary\":{\"base64\":\"%s\",\"subType\":\"85\"}}")
    ensures TypeToFormat(0x1004) == Some("{\"$binary\":{\"base64\":\"%s\",\"subType\":\"86\"}}")
    ensures TypeToFormat(0x1020) == Some("{\"$binary\":{\"base64\":\"%s\",\"subType\":\"83\"}}")
    ensures TypeToFormat(0x20).None? && TypeToFormat(0).None? && TypeToFormat(0x1000).None?
  {
    assert BINARY_FORMAT + "00\"}}}" == "{\"$binary\":{\"base64\":\"%s\",\"subType\":\"00\"}}}";
    assert BINARY_FORMAT + "84\"}}" == "{\"$binary\":{\"base64\":\"%s\",\"subType\":\"84\"}}";
    assert BINARY_FORMAT + "85\"}}" == "{\"$binary\":{\"base64\":\"%s\",\"subType\":\"85\"}}";
    assert BINARY_FORMAT + "86\"}}" == "{\"$binary\":{\"base64\":\"%s\",\"subType\":\"86\"}}";
    assert BINARY_FORMAT + "83\"}}" == "{\"$binary\":{\"base64\":\"%s\",\"subType\":\"83\"}}";
  }

  /** The bytes per element of each vector type. */
  lemma Elements()
    ensures ElementSize(0x10) == 1 && ElementSize(0x1001) == 4 && ElementSize(0x1002) == 8 && ElementSize(0x1004) == 8
    ensures ElementSize(0x1020) == 1
    ensures IsBinary(0x10) && IsBinary(0x1001) && IsBinary(0x1002) && IsBinary(0x1004) && IsBinary(0x1020)
    ensures !IsBinary(0x1) && !IsBinary(0x2) && !IsBinary(0x4) && !IsBinary(0x8)
  {
  }

  /** The slots of a new unit: each descriptor fills one for each of its directions, with its
      name, description and type. */
  lemma UnitOfDescriptors(name: string, ds: seq<Descriptor>, i: nat)
    requires i < |ds| && forall d | d in ds :: Supported(d)
    ensures var cu, d := NewCu(name, ds), ds[i];
      && cu.name == name
      && (d.dir in {0, 2} ==>
           var j := |Ins(ds[..i])|;
           j < |cu.inds| && cu.inds[j] == Slot(d.name, d.desc, d.ty, d.size, "", "", 0))
      && (d.dir in {1, 2} ==>
           var j := |Outs(ds[..i])|;
           && j < |cu.outds| && TypeToFormat(d.ty).Some?
           && var s, whole := cu.outds[j], "\"" + d.name + "\":" + TypeToFormat(d.ty).value;
           && s.name == d.name && s.desc == d.desc && s.ty == d.ty && s.data == ""
           && s.format == (if |whole| < 256 then whole else whole[..255])
           && (IsBinary(d.ty) ==> s.size == d.size * ElementSize(d.ty) && s.allocSize == 3 * s.size + 16)
           && (!IsBinary(d.ty) ==> s.size == |s.format| + 1 + d.size + 16 && s.allocSize == 64))
  {
    hide TypeToFormat, IsBinary, ElementSize, Ins, Outs;
    PartitionKeepsOrder(ds, i);
    assert ds[i] in ds;
    if ds[i].dir in {1, 2} {
      OutSlotIs(ds[i]);
    }
  }

  lemma OutSlotIs(d: Descriptor)
    requires TypeToFormat(d.ty).Some?
    ensures var s, whole := OutSlot(d), "\"" + d.name + "\":" + TypeToFormat(d.ty).value;
      && s.name == d.name && s.desc == d.desc && s.ty == d.ty && s.data == ""
      && s.format == (if |whole| < 256 then whole else whole[..255])
      && (IsBinary(d.ty) ==> s.size == d.size * ElementSize(d.ty) && s.allocSize == 3 * s.size + 16)
      && (!IsBinary(d.ty) ==> s.size == |s.format| + 1 + d.size + 16 && s.allocSize == 64)
  {
    hide TypeToFormat, IsBinary, ElementSize;
    CutFills("\"" + d.name + "\":" + TypeToFormat(d.ty).value, 255);
  }

  // ------------------------------------------------------------------ values

  /** In the text of an attribute the value that was written reads back. */
  lemma WrittenReadsBack(d: Descriptor, v: Value)
    requires TypeToFormat(d.ty).Some? && Fits(d.ty, OutSlot(d).size, v)
    ensures var text, name := AttributeText(d, ValueText(v)), "\"" + d.name + "\":";
      && (d.ty == 0x1 ==> name <= text && ReadSigned(text[|name|..]) == v.n)
      && (d.ty == 0x2 ==>
           var front := name + "{\"$numberLong\":\"";
           front <= text && ReadSigned(text[|front|..]) == v.n && text[|text| - 2..] == "\"}")
      && (d.ty == 0x4 ==> text == name + ("{\"$numberDouble\":\"" + v.text + "\"}"))
      && (d.ty == 0x8 ==> text == name + ("\"" + v.s + "\""))
      && (IsBinary(d.ty) ==>
           var front := name + "{\"$binary\":{\"base64\":\"";
           front <= text && Base64.Decode(text[|front|..]) == v.bytes)
  {
    hide TypeToFormat, SignedDec, Base64.Encode, Base64.Decode, OutSlot, SubType;
    Elements();
    var name := "\"" + d.name + "\":";
    if d.ty == 0x1 || d.ty == 0x2 {
      NumberReadsBack(d, v);
    } else if IsBinary(d.ty) {
      BytesReadBack(name, d.ty, v.bytes);
    }
  }

  lemma NumberReadsBack(d: Descriptor, v: Value)
    requires (d.ty == 0x1 && v.Int32Value?) || (d.ty == 0x2 && v.Int64Value?)
    ensures var text := AttributeText(d, ValueText(v));
      var front := "\"" + d.name + "\":" + if d.ty == 0x1 then "" else "{\"$numberLong\":\"";
      && front <= text && ReadSigned(text[|front|..]) == v.n
      && (d.ty == 0x2 ==> text[|text| - 2..] == "\"}")
  {
    hide SignedDec;
    var front := "\"" + d.name + "\":" + if d.ty == 0x1 then "" else "{\"$numberLong\":\"";
    var back := if d.ty == 0x1 then "" else "\"}";
    assert AttributeText(d, ValueText(v)) == front + (SignedDec(v.n) + back);
    SignedReadsBack(v.n, back);
  }

  lemma BytesReadBack(name: string, ty: TypeBits, bytes: seq<bv8>)
    requires IsBinary(ty)
    ensures var front, text := name + "{\"$binary\":{\"base64\":\"", name + Wrapped(ty, Base64.Encode(bytes));
      front <= text && Base64.Decode(text[|front|..]) == bytes
  {
    hide SubType, Wrapped, IsBinary, Base64.Encode, Base64.Decode;
    var front := name + "{\"$binary\":{\"base64\":\"";
    var tail := "\",\"subType\":\"" + SubType(ty);
    WrappedBinary(ty, Base64.Encode(bytes));
    assert name + Wrapped(ty, Base64.Encode(bytes)) == front + (Base64.Encode(bytes) + tail);
    Base64Laws.RoundTrip(bytes, tail);
  }

  /** What a registration shows, type by type. */
  lemma Defaults(d: Descriptor)
    ensures var text, name := AttributeText(d, DefaultText(d.ty)), "\"" + d.name + "\":";
      && (d.ty == 0x1 ==> text == name + "0") && (d.ty == 0x2 ==> text == name + "{\"$numberLong\":\"0\"}")
      && (d.ty == 0x4 ==> text == name + "{\"$numberDouble\":\"1.200000\"}") && (d.ty == 0x8 ==> text == name + "\"\"")
      && (d.ty == 0x10 ==> text == name + "{\"$binary\":{\"base64\":\"\",\"subType\":\"00\"}}}")
  {
    assert "{\"$binary\":{\"base64\":\"" + "" + "\",\"subType\":\"" + "00\"}}}" ==
           "{\"$binary\":{\"base64\":\"\",\"subType\":\"00\"}}}";
  }

  lemma VectorDefaults(d: Descriptor)
    requires d.ty in {0x1001, 0x1002, 0x1004, 0x1020}
    ensures var sub := if d.ty == 0x1001 then "84" else if d.ty == 0x1002 then "85"
                       else if d.ty == 0x1004 then "86" else "83";
      AttributeText(d, DefaultText(d.ty)) ==
      "\"" + d.name + "\":" + ("{\"$binary\":{\"base64\":\"\",\"subType\":\"" + sub + "\"}}")
  {
    var sub := if d.ty == 0x1001 then "84" else if d.ty == 0x1002 then "85" else if d.ty == 0x1004 then "86" else "83";
    assert SubType(d.ty) == sub + "\"}}";
    assert "{\"$binary\":{\"base64\":\"" + "" + "\",\"subType\":\"" == "{\"$binary\":{\"base64\":\"\",\"subType\":\"";
  }

  // ------------------------------------------------------------------ documents

  /** The texts with commas between them. */
  function Commas(texts: seq<string>): string {
    if texts == [] then ""
    else if |texts| == 1 then texts[0]
    else texts[0] + "," + Commas(texts[1..])
  }

  function Texts(ds: seq<Slot>): (r: seq<string>)
    ensures |r| == |ds| && forall i | 0 <= i < |ds| :: r[i] == ds[i].data
  {
    seq(|ds|, i requires 0 <= i < |ds| => ds[i].data)
  }

  lemma {:induction false} CommasSnoc(texts: seq<string>, t: string)
    requires texts != []
    ensures Commas(texts + [t]) == Commas(texts) + "," + t
    decreases |texts|
  {
    if |texts| > 1 {
      assert (texts + [t])[1..] == texts[1..] + [t];
      CommasSnoc(texts[1..], t);
    }
  }

  lemma {:induction false} JoinedIsCommas(ds: seq<Slot>, n: nat)
    requires 0 < n <= |ds|
    ensures Joined(ds, n) == Commas(Texts(ds)[..n]) + if n < |ds| then "," else ""
    decreases n
  {
    if n > 1 {
      JoinedIsCommas(ds, n - 1);
      assert Texts(ds)[..n] == Texts(ds)[..n - 1] + [ds[n - 1].data];
      CommasSnoc(Texts(ds)[..n - 1], ds[n - 1].data);
    } else {
      assert Texts(ds)[..1] == [ds[0].data];
      assert Joined(ds, 0) == "";
    }
  }

  const SEQUENCE_KEY: string := ",\"dpck_seq_id\":{\"$numberLong\":\""
  const CLOCK_KEY: string := "\"},\"dpck_ats\":{\"$numberLong\":\""
  const DIRECTION: string := ",\"cudk_ds_attr_dir\":1"

  function Opening(name: string): string {
    "{\"ndk_uid\":\"" + name + "\",\"dpck_ds_type\":0"
  }

  function DirectionField(register: bool): string {
    if register then DIRECTION else ""
  }

  function Layout(f: string, d: string, k: string, i: string, m: string, t: string, u: string): string {
    f + (d + (k + (i + (m + (t + u)))))
  }

  /** A whole document without its last brace. */
  function FullText(name: string, register: bool, id: nat, ts: nat, texts: seq<string>): string {
    Layout(Opening(name), DirectionField(register), SEQUENCE_KEY, Dec(id), CLOCK_KEY, Dec(ts), "\"}," + Commas(texts))
  }

  lemma DocumentIs(cu: Cu, register: bool, id: nat, ts: nat)
    requires TotalAlloc(cu.outds) > 0 && cu.outds != []
    ensures var whole, n := FullText(cu.name, register, id, ts, Texts(cu.outds)), TotalAlloc(cu.outds);
      Document(cu, register, id, ts) == (if |whole| < n then whole else whole[..n - 1]) + "}"
  {
    hide Header, FullText, Joined, Cut, TotalAlloc;
    var ds := cu.outds;
    var whole := FullText(cu.name, register, id, ts, Texts(ds));
    HeaderIs(cu.name, register, id, ts, ds);
    CutFills(whole, TotalAlloc(ds) - 1);
    assert Cut(whole, TotalAlloc(ds) - 1) == if |whole| < TotalAlloc(ds) then whole else whole[..TotalAlloc(ds) - 1];
  }

  lemma HeaderIs(name: string, register: bool, id: nat, ts: nat, ds: seq<Slot>)
    requires ds != []
    ensures Header(name, register, id, ts, |ds|) + Joined(ds, |ds|) == FullText(name, register, id, ts, Texts(ds))
  {
    hide Dec, Joined, Commas, Texts, Opening, DirectionField, SEQUENCE_KEY, CLOCK_KEY, BeforeSequence, AfterSequence;
    JoinedIsCommas(ds, |ds|);
    assert Texts(ds)[..|ds|] == Texts(ds);
    HeaderEnds(name, register, ts, |ds|);
    Nested(Opening(name), DirectionField(register), SEQUENCE_KEY, Dec(id), CLOCK_KEY, Dec(ts), Commas(Texts(ds)));
  }

  lemma HeaderEnds(name: string, register: bool, ts: nat, ports: nat)
    requires ports > 0
    ensures BeforeSequence(name, register) == Opening(name) + DirectionField(register) + SEQUENCE_KEY
    ensures AfterSequence(ts, ports) == CLOCK_KEY + Dec(ts) + "\"}" + ","
  {
    hide Dec;
  }

  lemma Nested(f: string, d: string, k: string, i: string, m: string, t: string, u: string)
    ensures f + d + k + i + (m + t + "\"}" + ",") + u == Layout(f, d, k, i, m, t, "\"}," + u)
  {
    var a := m + (t + "\"},");
    assert m + t + "\"}" + "," == a;
    assert a + u == m + (t + ("\"}," + u));
    assert f + d + k + i + a + u == f + d + k + i + (a + u);
    assert f + d + k + i + (a + u) == f + (d + (k + (i + (a + u))));
  }

  /** The text of the unit that posts at `k`: declared name, number, clock and values. */
  ghost function TextAt(trace: seq<Event>, k: nat): string
    requires Known(trace, k)
  {
    FullText(Declared(trace[..k])[trace[k].cu].0, trace[k].register, NumberAt(trace, k), trace[k].reply.start,
             Texts(UnitAt(trace, k).outds))
  }

  /** Every posted document is that text, as far as the buffer holds it, and a brace. */
  lemma PostedText(trace: seq<Event>, k: nat)
    requires Legal(trace) && k < |trace| && trace[k].Posted?
    ensures Known(trace, k)
    ensures var whole, n := TextAt(trace, k), TotalAlloc(UnitAt(trace, k).outds);
      n > 0 && trace[k].doc == (if |whole| < n then whole else whole[..n - 1]) + "}"
  {
    hide Legal, Document, TotalAlloc, Whole, HasSlack, FullText, LatestSlots;
    PostedShowsLatest(trace, k);
    DocumentIs(UnitAt(trace, k), trace[k].register, NumberAt(trace, k), trace[k].reply.start);
  }

  /** `front` stands in `s` and ends at `p`. */
  predicate EndsAt(s: string, front: string, p: nat) {
    |front| <= p <= |s| && s[p - |front|..p] == front
  }

  lemma EndsThere(a: string, front: string, b: string)
    ensures EndsAt(a + front + b, front, |a + front|) && (a + front + b)[|a + front|..] == b
  {
  }

  lemma ReadHeader(name: string, register: bool, id: nat, ts: nat, texts: seq<string>) returns (p: nat, q: nat)
    ensures var doc := FullText(name, register, id, ts, texts) + "}";
      && Opening(name) <= doc && (DIRECTION <= doc[|Opening(name)|..] <==> register)
      && EndsAt(doc, SEQUENCE_KEY, p) && ReadDigits(doc[p..], 10, 0).0 == id
      && EndsAt(doc, CLOCK_KEY, q) && ReadDigits(doc[q..], 10, 0).0 == ts
  {
    hide Dec, EndsAt, Commas, Opening, DirectionField, SEQUENCE_KEY, CLOCK_KEY, DIRECTION, ReadDigits;
    var rest := "\"}," + Commas(texts);
    Keys(register);
    p, q := ReadLayout(Opening(name), DirectionField(register), DIRECTION, SEQUENCE_KEY, id, CLOCK_KEY, ts, rest);
  }

  lemma Keys(register: bool)
    ensures |DIRECTION| > 2 && |SEQUENCE_KEY| > 2 && SEQUENCE_KEY[2] != DIRECTION[2]
    ensures CLOCK_KEY != "" && CLOCK_KEY[0] == '"'
    ensures DirectionField(register) == if register then DIRECTION else ""
  {
  }

  lemma ReadLayout(f: string, d: string, direction: string, k: string, id: nat, m: string, ts: nat, u: string)
    returns (p: nat, q: nat)
    requires |direction| > 2 && |k| > 2 && k[2] != direction[2] && (d == direction || d == "")
    requires m != "" && m[0] == '"' && u != "" && u[0] == '"'
    ensures var doc := Layout(f, d, k, Dec(id), m, Dec(ts), u) + "}";
      && f <= doc && (direction <= doc[|f|..] <==> d == direction)
      && EndsAt(doc, k, p) && ReadDigits(doc[p..], 10, 0).0 == id
      && EndsAt(doc, m, q) && ReadDigits(doc[q..], 10, 0).0 == ts
  {
    hide Dec, EndsAt, ReadDigits;
    var i, t := Dec(id), Dec(ts);
    var last := u + "}";
    var more := m + (t + last);
    Split(f, d, k, i, m, t, u);
    Direction(f, d, k + (i + (m + (t + u))), direction);
    p := Reads(f + d, k, id, more);
    q := Reads(f + d + k + i, m, ts, last);
  }

  lemma Split(f: string, d: string, k: string, i: string, m: string, t: string, u: string)
    ensures var doc := Layout(f, d, k, i, m, t, u) + "}";
      && doc == f + d + k + (i + (m + (t + (u + "}"))))
      && doc == f + d + k + i + m + (t + (u + "}"))
      && doc == f + (d + (k + (i + (m + (t + u))))) + "}"
  {
    var a := t + (u + "}");
    assert Layout(f, d, k, i, m, t, u) + "}" == f + (d + (k + (i + (m + a))));
    assert f + (d + (k + (i + (m + a)))) == f + d + (k + (i + (m + a)));
    assert f + d + (k + (i + (m + a))) == f + d + k + (i + (m + a));
    assert f + d + k + (i + (m + a)) == f + d + k + i + (m + a);
  }

  lemma Reads(lead: string, key: string, n: nat, rest: string) returns (p: nat)
    requires rest != "" && rest[0] == '"'
    ensures var doc := lead + key + (Dec(n) + rest);
      EndsAt(doc, key, p) && ReadDigits(doc[p..], 10, 0).0 == n
  {
    hide Dec, EndsAt;
    EndsThere(lead, key, Dec(n) + rest);
    ReadDec(n, rest);
    p := |lead + key|;
  }

  lemma Direction(front: string, dir: string, more: string, key: string)
    requires |key| > 2 && |more| > 2 && more[2] != key[2] && (dir == key || dir == "")
    ensures var doc := front + (dir + more) + "}";
      front <= doc && (key <= doc[|front|..] <==> dir == key)
  {
    assert (front + (dir + more) + "}")[|front|..] == dir + (more + "}");
  }

  /** What a reader finds in every posted document that has room: it starts with the declared
      name of the unit and the dataset type 0; the direction field follows exactly when the
      post registers; the clock of the post reads back behind its key, and so does the number,
      which is 0 in a registration. */
  lemma PostedHeader(trace: seq<Event>, k: nat) returns (p: nat, q: nat)
    requires Legal(trace) && k < |trace| && trace[k].Posted?
    ensures Known(trace, k)
    ensures |TextAt(trace, k)| < TotalAlloc(UnitAt(trace, k).outds) ==>
      var e, doc := trace[k], trace[k].doc;
      var front := "{\"ndk_uid\":\"" + Declared(trace[..k])[e.cu].0 + "\",\"dpck_ds_type\":0";
      && front <= doc
      && (e.register <==> ",\"cudk_ds_attr_dir\":1" <= doc[|front|..])
      && EndsAt(doc, ",\"dpck_seq_id\":{\"$numberLong\":\"", p)
      && ReadDigits(doc[p..], 10, 0).0 == (if e.register then 0 else Replay(trace[..k]).npush)
      && EndsAt(doc, "\"},\"dpck_ats\":{\"$numberLong\":\"", q)
      && ReadDigits(doc[q..], 10, 0).0 == e.reply.start
  {
    hide Legal, Texts, TotalAlloc, ReadDigits, Replay, EndsAt, FullText, LatestSlots;
    PostedText(trace, k);
    var e := trace[k];
    p, q := ReadHeader(Declared(trace[..k])[e.cu].0, e.register, NumberAt(trace, k), e.reply.start,
                       Texts(UnitAt(trace, k).outds));
  }

  // ------------------------------------------------------------------ registrations

  /** A registration is posted with every attribute back at its default. */
  lemma RegistrationShowsDefaults(trace: seq<Event>, k: nat, a: nat)
    requires Legal(trace) && 0 < k < |trace| && trace[k].Posted? && trace[k - 1] == Reset(trace[k].cu)
    requires Known(trace, k) && a < |UnitAt(trace, k).outds|
    ensures var d := Outs(Declared(trace[..k])[trace[k].cu].1)[a];
      FormatFits(d) && |d.name| + 3 + |Wrapped(d.ty, DefaultText(d.ty))| < AllocOf(d) ==>
      UnitAt(trace, k).outds[a].data == AttributeText(d, DefaultText(d.ty))
  {
    hide Legal, OutSlot, Wrapped, TypeToFormat, FormatFits, AllocOf, DefaultText, Print;
    var d := Outs(Declared(trace[..k])[trace[k].cu].1)[a];
    assert trace[..k][k - 1] == Reset(trace[k].cu);
    assert LatestOf(trace[..k], trace[k].cu, a) == Default;
    if FormatFits(d) {
      SlotHoldsExactly(d, DefaultText(d.ty));
      OutSlotType(d);
    }
  }

  /** The events of one turn, one by one. */
  lemma TurnIs(st: State, was: seq<Event>, st': State, now: seq<Event>, c: nat, register: bool, reply: Reply)
    requires Turned(st, was, st', now, c, register, reply)
    ensures |now| == |was| + (if register then 2 else 1) && was <= now
    ensures register ==> now[|was|] == Reset(c)
    ensures var e := now[|now| - 1];
      e.Posted? && e.cu == c && e.register == register && e.reply == reply
    ensures |st'.cus| == |st.cus|
    ensures forall i | 0 <= i < |st.cus| :: |st'.cus[i].outds| == |st.cus[i].outds| && st'.cus[i].inds == st.cus[i].inds
  {
    hide Document, Print, Update, NewCu;
  }

  // ------------------------------------------------------------------ sweeps

  /** A sweep from `from` on posts `n` units: every post but the last succeeded, each unit
      had outputs, and it ended at the last unit, at a post that failed, or at a unit for
      which C leaves its buffers. */
  ghost predicate SweepsTo(st: State, from: nat, calls: nat, net: nat -> Reply, register: bool, wild: bool, n: nat)
    requires from <= |st.cus|
  {
    var end := from + n;
    && end <= |st.cus|
    && (forall j: nat | calls <= j < calls + n - 1 :: net(j).err == 0)
    && (forall c: nat | from <= c < end :: st.cus[c].outds != [])
    && (register ==> forall c: nat | from <= c < end - 1 :: st.cus[c].inds == [])
    && if n > 0 && register && st.cus[end - 1].inds != [] then wild
       else if n > 0 && net(calls + n - 1).err != 0 then !wild
       else if end < |st.cus| then wild && st.cus[end].outds == []
       else !wild
  }

  /** The events of a push, unit by unit. */
  ghost predicate InOrder(es: seq<Event>, from: nat, calls: nat, net: nat -> Reply) {
    forall i | 0 <= i < |es| ::
      es[i].Posted? && es[i].cu == from + i && !es[i].register && es[i].reply == net(calls + i)
  }

  lemma OneMore(turn: seq<Event>, more: seq<Event>, from: nat, calls: nat, net: nat -> Reply)
    requires |turn| == 1 && InOrder(turn, from, calls, net) && InOrder(more, from + 1, calls + 1, net)
    ensures InOrder(turn + more, from, calls, net)
  {
  }

  /** A push of all units posts them once each, in order. */
  lemma {:induction false} PushOrder(st: State, from: nat, calls: nat, net: nat -> Reply)
    requires HasRoom(st) && from <= |st.cus|
    ensures var all := Sweep(st, from, calls, net, false);
      SweepsTo(st, from, calls, net, false, all.wild, |all.events|) && InOrder(all.events, from, calls, net)
    decreases |st.cus| - from
  {
    hide HasRoom, Turn, AfterTurn, Turned, InOrder;
    NoPosts(from, calls, net);
    if from < |st.cus| && st.cus[from].outds != [] {
      var turn, next := Turn(st, from, false, net(calls)), AfterTurn(st, from, false, net(calls));
      PostOfTurn(st, from, calls, net);
      if net(calls).err == 0 {
        PushOrder(next, from + 1, calls + 1, net);
        var more := Sweep(next, from + 1, calls + 1, net, false);
        SameKinds(st, next, from, calls, net, false, more.wild, |more.events|);
        OneMore(turn, more.events, from, calls, net);
      }
    }
  }

  lemma NoPosts(from: nat, calls: nat, net: nat -> Reply)
    ensures InOrder([], from, calls, net)
  {
  }

  lemma PostOfTurn(st: State, from: nat, calls: nat, net: nat -> Reply)
    requires CanPost(st, from)
    ensures |Turn(st, from, false, net(calls))| == 1 && InOrder(Turn(st, from, false, net(calls)), from, calls, net)
    ensures var next := AfterTurn(st, from, false, net(calls));
      |next.cus| == |st.cus| &&
      forall i | 0 <= i < |st.cus| :: |next.cus[i].outds| == |st.cus[i].outds| && next.cus[i].inds == st.cus[i].inds
  {
    hide Turn, AfterTurn, CanPost;
    var turn, next := Turn(st, from, false, net(calls)), AfterTurn(st, from, false, net(calls));
    TurnIs(st, [], next, [] + turn, from, false, net(calls));
    assert [] + turn == turn;
  }

  /** The events of a registration, unit by unit. */
  ghost predicate InPairs(es: seq<Event>, from: nat, calls: nat, net: nat -> Reply, n: nat) {
    && |es| == 2 * n
    && forall i | 0 <= i < n ::
         && es[2 * i] == Reset(from + i)
         && es[2 * i + 1].Posted? && es[2 * i + 1].cu == from + i && es[2 * i + 1].register
         && es[2 * i + 1].reply == net(calls + i)
  }

  lemma OnePairMore(turn: seq<Event>, more: seq<Event>, from: nat, calls: nat, net: nat -> Reply, n: nat)
    requires InPairs(turn, from, calls, net, 1) && InPairs(more, from + 1, calls + 1, net, n)
    ensures InPairs(turn + more, from, calls, net, n + 1)
  {
    var all := turn + more;
    forall i | 0 <= i < n + 1
      ensures all[2 * i] == Reset(from + i)
      ensures var e := all[2 * i + 1];
        e.Posted? && e.cu == from + i && e.register && e.reply == net(calls + i)
    {
      if i > 0 {
        assert all[2 * i] == more[2 * (i - 1)] && all[2 * i + 1] == more[2 * (i - 1) + 1];
      } else {
        assert all[2 * i] == turn[2 * i] && all[2 * i + 1] == turn[2 * i + 1];
      }
    }
  }

  /** A registration of all units resets and posts them once each, in order. */
  lemma {:induction false} RegisterOrder(st: State, from: nat, calls: nat, net: nat -> Reply) returns (n: nat)
    requires HasRoom(st) && from <= |st.cus|
    ensures var all := Sweep(st, from, calls, net, true);
      SweepsTo(st, from, calls, net, true, all.wild, n) && InPairs(all.events, from, calls, net, n)
    decreases |st.cus| - from
  {
    hide HasRoom, Turn, AfterTurn, Turned, InPairs;
    n := 0;
    NoPairs(from, calls, net);
    if from < |st.cus| && st.cus[from].outds != [] {
      n := 1;
      var turn, next := Turn(st, from, true, net(calls)), AfterTurn(st, from, true, net(calls));
      PairOfTurn(st, from, calls, net);
      if st.cus[from].inds == [] && net(calls).err == 0 {
        var m := RegisterOrder(next, from + 1, calls + 1, net);
        var more := Sweep(next, from + 1, calls + 1, net, true);
        SameKinds(st, next, from, calls, net, true, more.wild, m);
        OnePairMore(turn, more.events, from, calls, net, m);
        n := m + 1;
      }
    }
  }

  lemma NoPairs(from: nat, calls: nat, net: nat -> Reply)
    ensures InPairs([], from, calls, net, 0)
  {
  }

  lemma PairOfTurn(st: State, from: nat, calls: nat, net: nat -> Reply)
    requires CanPost(st, from)
    ensures InPairs(Turn(st, from, true, net(calls)), from, calls, net, 1)
    ensures var next := AfterTurn(st, from, true, net(calls));
      |next.cus| == |st.cus| &&
      forall i | 0 <= i < |st.cus| :: |next.cus[i].outds| == |st.cus[i].outds| && next.cus[i].inds == st.cus[i].inds
  {
    hide Turn, AfterTurn, CanPost;
    var turn, next := Turn(st, from, true, net(calls)), AfterTurn(st, from, true, net(calls));
    TurnIs(st, [], next, [] + turn, from, true, net(calls));
    assert [] + turn == turn;
  }

  /** What ends a sweep is the same in the next state. */
  lemma SameKinds(st: State, next: State, from: nat, calls: nat, net: nat -> Reply, register: bool, wild: bool, n: nat)
    requires |st.cus| == |next.cus| && from < |st.cus|
    requires forall i | 0 <= i < |st.cus| :: |next.cus[i].outds| == |st.cus[i].outds| && next.cus[i].inds == st.cus[i].inds
    requires SweepsTo(next, from + 1, calls + 1, net, register, wild, n) && st.cus[from].outds != []
    requires (register ==> st.cus[from].inds == []) && net(calls).err == 0
    ensures SweepsTo(st, from, calls, net, register, wild, n + 1)
  {
    assert forall i | 0 <= i < |st.cus| :: next.cus[i].outds == [] <==> st.cus[i].outds == [];
  }
}
