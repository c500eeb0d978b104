/**
  The control-unit store of chaos_crest.c as values: attribute slots and their formatted
  texts, the posted document, and the state that a history of events leads to. The methods
  of module CrestStore are proved against these functions.
*/
module CrestModel {
  import opened CText
  import Base64

  // ------------------------------------------------------------------ attribute types

  type TypeBits = bv16

  const INT32: TypeBits := 0x1
  const INT64: TypeBits := 0x2
  const DOUBLE: TypeBits := 0x4
  const STRING: TypeBits := 0x8
  const BINARY: TypeBits := 0x10
  const INT16: TypeBits := 0x20
  const VECTOR: TypeBits := 0x1000

  const DIR_INPUT: int := 0
  const DIR_OUTPUT: int := 1
  const DIR_IO: int := 2

  const MAXDIGITS: nat := 16
  const FORMAT_SIZE: nat := 256

  predicate Both(ty: TypeBits, a: TypeBits, b: TypeBits) {
    ty & a != 0 && ty & b != 0
  }

  /** The part that the formats of binary and vector attributes share. */
  const BINARY_FORMAT: string := "{\"$binary\":{\"base64\":\"%s\",\"subType\":\""

  /** `typeToFormat`; None where the C code asserts. */
  function TypeToFormat(ty: TypeBits): Option<string> {
    if ty == INT32 then Some("%d")
    else if ty == INT64 then Some("{\"$numberLong\":\"%lld\"}")
    else if ty == DOUBLE then Some("{\"$numberDouble\":\"%lf\"}")
    else if ty == STRING then Some("\"%s\"")
    else if ty == BINARY then Some(BINARY_FORMAT + "00\"}}}")
    else if Both(ty, INT32, VECTOR) then Some(BINARY_FORMAT + "84\"}}")
    else if Both(ty, DOUBLE, VECTOR) then Some(BINARY_FORMAT + "86\"}}")
    else if Both(ty, INT64, VECTOR) then Some(BINARY_FORMAT + "85\"}}")
    else if Both(ty, INT16, VECTOR) then Some(BINARY_FORMAT + "83\"}}")
    else None
  }

  /** Binary and vector attributes travel as base64. */
  predicate IsBinary(ty: TypeBits) {
    ty == BINARY || ty & VECTOR != 0
  }

  // ------------------------------------------------------------------ values and their texts

  /** What the `data` pointer of an update points to. A double is given by the text that
      `%lf` prints for it. */
  datatype Value = Int32Value(n: int) | Int64Value(n: int) | DoubleValue(text: string) | StringValue(s: string)
                 | BytesValue(bytes: seq<bv8>)

  /** The value has the C type that the attribute's type asks of the caller. */
  predicate Fits(ty: TypeBits, size: nat, v: Value) {
    if ty == INT32 then v.Int32Value? && -TWO31 <= v.n < TWO31
    else if ty == INT64 then v.Int64Value? && -TWO63 <= v.n < TWO63
    else if ty == DOUBLE then v.DoubleValue? && NUL !in v.text
    else if ty == STRING then v.StringValue? && NUL !in v.s
    else IsBinary(ty) && v.BytesValue? && |v.bytes| == size
  }

  function ValueText(v: Value): string {
    match v
    case Int32Value(n) => SignedDec(n)
    case Int64Value(n) => SignedDec(n)
    case DoubleValue(text) => text
    case StringValue(s) => s
    case BytesValue(bytes) => Base64.Encode(bytes)
  }

  /** What registration prints into a slot. */
  function DefaultText(ty: TypeBits): string {
    if ty == INT32 || ty == INT64 then "0"
    else if ty == DOUBLE then "1.200000"
    else ""
  }

  /** The length of the conversion at the front of `f`. */
  function Conversion(f: string): (n: nat)
    ensures n <= |f|
  {
    if |f| < 2 || f[0] != '%' then 0
    else if f[1] == 'd' || f[1] == 's' then 2
    else if |f| < 3 || f[1] != 'l' then 0
    else if f[2] == 'f' then 3
    else if |f| < 4 || f[2] != 'l' || f[3] != 'd' then 0
    else 4
  }

  /** `printf` with one argument, given by its printed text. */
  function Printf(f: string, text: string): string {
    if f == "" then ""
    else if Conversion(f) > 0 then text + f[Conversion(f)..]
    else [f[0]] + Printf(f[1..], text)
  }

  // ------------------------------------------------------------------ slots

  /** `chaos_ds_t`, as the caller of `chaos_crest_add_cu` fills it in. */
  datatype Descriptor = Descriptor(name: string, desc: string, dir: int, ty: TypeBits, size: nat, allocSize: nat)

  /** `ds_t`. */
  datatype Slot = Slot(name: string, desc: string, ty: TypeBits, size: nat, format: string, data: string, allocSize: nat)

  predicate IsIn(d: Descriptor) { d.dir == DIR_INPUT || d.dir == DIR_IO }

  predicate IsOut(d: Descriptor) { d.dir == DIR_OUTPUT || d.dir == DIR_IO }

  /** An output descriptor of a type that `typeToFormat` knows. */
  predicate Supported(d: Descriptor) {
    IsOut(d) ==> TypeToFormat(d.ty).Some?
  }

  function InSlot(d: Descriptor): Slot {
    Slot(d.name, d.desc, d.ty, d.size, "", "", 0)
  }

  function FormatOf(d: Descriptor): (f: string)
    requires TypeToFormat(d.ty).Some?
    ensures |f| < FORMAT_SIZE
  {
    Cut("\"" + d.name + "\":" + TypeToFormat(d.ty).value, FORMAT_SIZE - 1)
  }

  /** The bytes per element that the sizing code counts; 16-bit elements count as one byte. */
  function ElementSize(ty: TypeBits): nat {
    if Both(ty, INT32, VECTOR) then 4
    else if Both(ty, DOUBLE, VECTOR) || Both(ty, INT64, VECTOR) then 8
    else 1
  }

  function AllocOf(d: Descriptor): (n: nat)
    ensures n > 0
  {
    if IsBinary(d.ty) then d.size * ElementSize(d.ty) * 3 + MAXDIGITS else 64
  }

  function OutSlot(d: Descriptor): (s: Slot)
    requires TypeToFormat(d.ty).Some?
    ensures s.allocSize > 0
  {
    var format := FormatOf(d);
    var size := if IsBinary(d.ty) then d.size * ElementSize(d.ty) else |format| + 1 + d.size + MAXDIGITS;
    Slot(d.name, d.desc, d.ty, size, format, "", AllocOf(d))
  }

  /** `snprintf` into the slot. */
  function Print(s: Slot, text: string): Slot
    requires s.allocSize > 0
  {
    s.(data := Cut(Printf(s.format, text), s.allocSize - 1))
  }

  /** `update_attribute`: a longer base64 text first makes the buffer grow. */
  function Update(s: Slot, v: Value): (t: Slot)
    requires s.allocSize > 0
    ensures t.allocSize > 0
  {
    var text := ValueText(v);
    if IsBinary(s.ty) && |text| > s.allocSize then Print(s.(allocSize := |text| + |s.format|), text)
    else Print(s, text)
  }

  // ------------------------------------------------------------------ control units

  datatype Cu = Cu(name: string, inds: seq<Slot>, outds: seq<Slot>)

  function Ins(ds: seq<Descriptor>): seq<Descriptor> {
    if ds == [] then [] else Ins(ds[..|ds| - 1]) + if IsIn(ds[|ds| - 1]) then [ds[|ds| - 1]] else []
  }

  function Outs(ds: seq<Descriptor>): (r: seq<Descriptor>)
    ensures (forall d | d in ds :: Supported(d)) ==> forall i | 0 <= i < |r| :: TypeToFormat(r[i].ty).Some?
  {
    if ds == [] then [] else
      assert forall d | d in ds[..|ds| - 1] :: d in ds;
      assert ds[|ds| - 1] in ds;
      Outs(ds[..|ds| - 1]) + if IsOut(ds[|ds| - 1]) then [ds[|ds| - 1]] else []
  }

  lemma {:induction false} PartsGrow(ds: seq<Descriptor>, n: nat)
    requires n <= |ds|
    ensures Ins(ds[..n]) <= Ins(ds) && Outs(ds[..n]) <= Outs(ds)
    decreases |ds|
  {
    if n == |ds| {
      assert ds[..n] == ds;
    } else {
      PartsGrow(ds[..|ds| - 1], n);
      assert ds[..|ds| - 1][..n] == ds[..n];
    }
  }

  function InSlots(ds: seq<Descriptor>): (r: seq<Slot>)
    ensures |r| == |ds| && forall i | 0 <= i < |ds| :: r[i] == InSlot(ds[i])
  {
    seq(|ds|, i requires 0 <= i < |ds| => InSlot(ds[i]))
  }

  function OutSlots(ds: seq<Descriptor>): (r: seq<Slot>)
    requires forall i | 0 <= i < |ds| :: TypeToFormat(ds[i].ty).Some?
    ensures |r| == |ds| && forall i | 0 <= i < |ds| :: r[i] == OutSlot(ds[i])
  {
    seq(|ds|, i requires 0 <= i < |ds| => OutSlot(ds[i]))
  }

  function NewCu(name: string, ds: seq<Descriptor>): Cu
    requires forall d | d in ds :: Supported(d)
  {
    Cu(name, InSlots(Ins(ds)), OutSlots(Outs(ds)))
  }

  // ------------------------------------------------------------------ the document

  function TotalAlloc(ds: seq<Slot>): nat {
    if ds == [] then 0 else TotalAlloc(ds[..|ds| - 1]) + ds[|ds| - 1].allocSize
  }

  /** The header up to the sequence number. */
  function BeforeSequence(name: string, register: bool): string {
    "{\"ndk_uid\":\"" + name + "\",\"dpck_ds_type\":0" + (if register then ",\"cudk_ds_attr_dir\":1" else "") +
    ",\"dpck_seq_id\":{\"$numberLong\":\""
  }

  /** The header after the sequence number, with the time stamp. */
  function AfterSequence(ts: nat, ports: nat): string {
    "\"},\"dpck_ats\":{\"$numberLong\":\"" + Dec(ts) + "\"}" + if ports > 0 then "," else ""
  }

  /** The fixed part, with the sequence number and the time stamp, for the output dataset. */
  function Header(name: string, register: bool, seqId: nat, ts: nat, ports: nat): string {
    BeforeSequence(name, register) + Dec(seqId) + AfterSequence(ts, ports)
  }

  /** The values, separated by commas: the first `n` of them. */
  function Joined(ds: seq<Slot>, n: nat): string
    requires n <= |ds|
  {
    if n == 0 then "" else Joined(ds, n - 1) + ds[n - 1].data + if n < |ds| then "," else ""
  }

  /** What `push_cu_int` assembles in a buffer of the summed slot sizes. */
  function Document(cu: Cu, register: bool, seqId: nat, ts: nat): string
    requires TotalAlloc(cu.outds) > 0
  {
    Cut(Header(cu.name, register, seqId, ts, |cu.outds|) + Joined(cu.outds, |cu.outds|), TotalAlloc(cu.outds) - 1) + "}"
  }

  // ------------------------------------------------------------------ histories

  /** The outcome of one post: error code, the clock before it, and its duration. */
  datatype Reply = Reply(err: int, start: nat, elapsed: nat)

  datatype Event =
    | Added(name: string, ds: seq<Descriptor>)
    | Wrote(cu: nat, attr: nat, value: Value)
    | Reset(cu: nat)
    | Posted(cu: nat, register: bool, reply: Reply, doc: string)

  datatype State = State(cus: seq<Cu>, npush: nat, total: nat, max: nat)

  const EMPTY: State := State([], 0, 0, 0)

  function ResetSlots(ds: seq<Slot>): (r: seq<Slot>)
    requires forall i | 0 <= i < |ds| :: ds[i].allocSize > 0
    ensures |r| == |ds| && forall i | 0 <= i < |ds| :: r[i] == Print(ds[i], DefaultText(ds[i].ty))
  {
    seq(|ds|, i requires 0 <= i < |ds| => Print(ds[i], DefaultText(ds[i].ty)))
  }

  /** Every output slot has room for at least its NUL. */
  ghost predicate HasRoom(st: State) {
    forall c, a | 0 <= c < |st.cus| && 0 <= a < |st.cus[c].outds| :: st.cus[c].outds[a].allocSize > 0
  }

  lemma {:induction false} RoomAdds(ds: seq<Slot>)
    requires forall i | 0 <= i < |ds| :: ds[i].allocSize > 0
    ensures TotalAlloc(ds) >= |ds|
  {
    if ds != [] {
      RoomAdds(ds[..|ds| - 1]);
    }
  }

  /** The event can happen in the state, and a posted document is the one assembled there. */
  ghost predicate Possible(st: State, e: Event) {
    match e
    case Added(_, ds) => forall d | d in ds :: Supported(d)
    case Wrote(c, a, v) =>
      c < |st.cus| && a < |st.cus[c].outds| && Fits(st.cus[c].outds[a].ty, st.cus[c].outds[a].size, v)
    case Reset(c) => c < |st.cus|
    case Posted(c, register, reply, doc) =>
      && c < |st.cus| && TotalAlloc(st.cus[c].outds) > 0
      && doc == Document(st.cus[c], register, if register then 0 else st.npush, reply.start)
  }

  function Duration(r: Reply): nat {
    r.elapsed % TWO32
  }

  function Apply(st: State, e: Event): State
    requires HasRoom(st) && Possible(st, e)
  {
    match e
    case Added(name, ds) => st.(cus := st.cus + [NewCu(name, ds)])
    case Wrote(c, a, v) =>
      var cu := st.cus[c];
      st.(cus := st.cus[c := cu.(outds := cu.outds[a := Update(cu.outds[a], v)])])
    case Reset(c) => st.(cus := st.cus[c := st.cus[c].(outds := ResetSlots(st.cus[c].outds))])
    case Posted(c, register, reply, _) =>
      var id := if register then 0 else st.npush;
      if reply.err == 0 then
        var t := Duration(reply);
        State(st.cus, (id + 1) % TWO64, (st.total + t) % TWO64, if t > st.max then t else st.max)
      else st.(npush := id)
  }

  lemma ApplyKeepsRoom(st: State, e: Event)
    requires HasRoom(st) && Possible(st, e)
    ensures HasRoom(Apply(st, e))
  {
    hide TypeToFormat, Both, IsBinary, Printf, Fits, Document;
  }

  /** The history can happen from the start, and this is the state it leads to. */
  ghost predicate Legal(trace: seq<Event>)
    decreases |trace|, 0
  {
    trace == [] ||
    (var pre, e := trace[..|trace| - 1], trace[|trace| - 1];
     Legal(pre) && Possible(Replay(pre), e))
  }

  ghost function Replay(trace: seq<Event>): (st: State)
    requires Legal(trace)
    ensures HasRoom(st)
    decreases |trace|, 1
  {
    if trace == [] then EMPTY
    else
      var pre, e := trace[..|trace| - 1], trace[|trace| - 1];
      ApplyKeepsRoom(Replay(pre), e);
      Apply(Replay(pre), e)
  }

  lemma ReplaySnoc(trace: seq<Event>, e: Event)
    requires Legal(trace) && Possible(Replay(trace), e)
    ensures Legal(trace + [e]) && Replay(trace + [e]) == Apply(Replay(trace), e)
  {
    assert (trace + [e])[..|trace|] == trace;
  }
}
