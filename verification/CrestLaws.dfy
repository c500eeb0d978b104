/** What holds of the store over every history of operations. */
module CrestLaws {
  import opened CText
  import opened CrestModel
  import opened Base64
  import Base64Laws

  // ------------------------------------------------------------------ formatted attributes

  /** The JSON value that a text of each type is wrapped in. */
  function Wrapped(ty: TypeBits, text: string): string {
    if ty == INT32 then text
    else if ty == INT64 then "{\"$numberLong\":\"" + text + "\"}"
    else if ty == DOUBLE then "{\"$numberDouble\":\"" + text + "\"}"
    else if ty == STRING then "\"" + text + "\""
    else "{\"$binary\":{\"base64\":\"" + text + "\",\"subType\":\"" + SubType(ty)
  }

  /** The BSON binary subtype and the closing braces: one too many for plain binary. */
  function SubType(ty: TypeBits): string {
    if ty == BINARY then "00\"}}}"
    else if Both(ty, INT32, VECTOR) then "84\"}}"
    else if Both(ty, DOUBLE, VECTOR) then "86\"}}"
    else if Both(ty, INT64, VECTOR) then "85\"}}"
    else "83\"}}"
  }

  lemma WrappedBinary(ty: TypeBits, text: string)
    requires IsBinary(ty)
    ensures Wrapped(ty, text) == "{\"$binary\":{\"base64\":\"" + text + ("\",\"subType\":\"" + SubType(ty))
  {
    hide SubType;
  }

  /** The name holds no conversion, and the quoted name and the format of the type fit the
      format buffer. */
  predicate FormatFits(d: Descriptor)
    requires TypeToFormat(d.ty).Some?
  {
    '%' !in d.name && |d.name| + 3 + |TypeToFormat(d.ty).value| < FORMAT_SIZE
  }

  /** The text of an attribute: its quoted name and its wrapped value. */
  function AttributeText(d: Descriptor, text: string): string {
    "\"" + d.name + "\":" + Wrapped(d.ty, text)
  }

  /** `%d`, `%s`, `%lf` or `%lld`. */
  predicate IsConversion(s: string) {
    Conversion(s) == |s| > 0
  }

  lemma {:induction false} PrintfSplits(a: string, conversion: string, b: string, text: string)
    requires '%' !in a && IsConversion(conversion)
    ensures Printf(a + conversion + b, text) == a + text + b
    decreases |a|
  {
    var f := a + conversion + b;
    if a == "" {
      assert f == conversion + b && forall i | 0 <= i < |conversion| :: f[i] == conversion[i];
      assert f[|conversion|..] == b;
    } else {
      assert f[1..] == a[1..] + conversion + b;
      PrintfSplits(a[1..], conversion, b, text);
    }
  }

  /** Where the conversion stands in each format. */
  function Front(ty: TypeBits): string {
    if ty == INT32 then ""
    else if ty == INT64 then "{\"$numberLong\":\""
    else if ty == DOUBLE then "{\"$numberDouble\":\""
    else if ty == STRING then "\""
    else "{\"$binary\":{\"base64\":\""
  }

  function Middle(ty: TypeBits): string {
    if ty == INT32 then "%d" else if ty == INT64 then "%lld" else if ty == DOUBLE then "%lf" else "%s"
  }

  function Back(ty: TypeBits): string {
    if ty == INT32 then ""
    else if ty == INT64 || ty == DOUBLE then "\"}"
    else if ty == STRING then "\""
    else "\",\"subType\":\"" + SubType(ty)
  }

  lemma FormatParts(ty: TypeBits)
    requires TypeToFormat(ty).Some?
    ensures TypeToFormat(ty).value == Front(ty) + Middle(ty) + Back(ty)
  {
    if ty == INT32 || ty == INT64 || ty == DOUBLE || ty == STRING {
      assert "{\"$numberLong\":\"%lld\"}" == "{\"$numberLong\":\"" + "%lld" + "\"}";
      assert "{\"$numberDouble\":\"%lf\"}" == "{\"$numberDouble\":\"" + "%lf" + "\"}";
      assert "\"%s\"" == "\"" + "%s" + "\"" && "%d" == "" + "%d" + "";
    } else {
      BinaryFormatParts(SubType(ty));
    }
  }

  lemma BinaryFormatParts(sub: string)
    ensures BINARY_FORMAT + sub == "{\"$binary\":{\"base64\":\"" + "%s" + ("\",\"subType\":\"" + sub)
  {
    assert BINARY_FORMAT == "{\"$binary\":{\"base64\":\"" + "%s" + "\",\"subType\":\"";
  }

  lemma FormatFacts(ty: TypeBits, text: string)
    ensures '%' !in Front(ty) && IsConversion(Middle(ty)) && |Front(ty) + Middle(ty) + Back(ty)| <= 52
    ensures Front(ty) + text + Back(ty) == Wrapped(ty, text)
  {
    hide Both;
  }

  /** Without a whole conversion a format prints as it is. */
  lemma {:induction false} PrintfConstant(a: string, part: string, text: string)
    requires '%' !in a && part in {"", "%", "%l", "%ll"}
    ensures Printf(a + part, text) == a + part
    decreases |a|
  {
    var f := a + part;
    if a == "" {
      assert f == part;
      assert Printf("", text) == "" && Printf("l", text) == "l";
      assert "%l"[1..] == "l" && "%ll"[1..] == "ll" && "ll"[1..] == "l";
      assert Printf("ll", text) == "ll";
    } else {
      assert f[1..] == a[1..] + part;
      PrintfConstant(a[1..], part, text);
      assert f == [f[0]] + f[1..];
    }
  }

  lemma FormatSplits(d: Descriptor)
    requires TypeToFormat(d.ty).Some? && '%' !in d.name
    ensures var front := "\"" + d.name + "\":" + Front(d.ty);
      && '%' !in front
      && FormatOf(d) == Cut(front + Middle(d.ty) + Back(d.ty), FORMAT_SIZE - 1)
      && |front + Middle(d.ty) + Back(d.ty)| == |d.name| + 3 + |TypeToFormat(d.ty).value|
      && forall text :: front + text + Back(d.ty) == AttributeText(d, text)
  {
    hide Wrapped, TypeToFormat, Front, Middle, Back, IsConversion;
    var name := "\"" + d.name + "\":";
    FormatParts(d.ty);
    FormatFacts(d.ty, "");
    assert name + (Front(d.ty) + Middle(d.ty) + Back(d.ty)) == name + Front(d.ty) + Middle(d.ty) + Back(d.ty);
    forall text
      ensures name + Front(d.ty) + text + Back(d.ty) == AttributeText(d, text)
    {
      FormatFacts(d.ty, text);
      assert name + Front(d.ty) + text + Back(d.ty) == name + (Front(d.ty) + text + Back(d.ty));
    }
  }

  /** Formatting an attribute prints its quoted name and its wrapped value, for every value,
      exactly when its format fits the format buffer. */
  lemma PrintedAttribute(d: Descriptor)
    requires TypeToFormat(d.ty).Some? && '%' !in d.name
    ensures FormatFits(d) <==> forall text :: Printf(FormatOf(d), text) == AttributeText(d, text)
  {
    hide Wrapped, TypeToFormat, Printf, Front, Middle, Back, IsConversion, FormatOf, AttributeText;
    var a, conversion, b := "\"" + d.name + "\":" + Front(d.ty), Middle(d.ty), Back(d.ty);
    FormatSplits(d);
    FormatFacts(d.ty, "");
    if FormatFits(d) {
      forall text
        ensures Printf(FormatOf(d), text) == AttributeText(d, text)
      {
        PrintfSplits(a, conversion, b, text);
      }
    } else if |a + conversion| < FORMAT_SIZE {
      var rest := b[..FORMAT_SIZE - 1 - |a + conversion|];
      assert FormatOf(d) == a + conversion + rest;
      PrintfSplits(a, conversion, rest, "");
      assert Printf(FormatOf(d), "") != AttributeText(d, "");
    } else {
      CutConversion(d.ty, a, FORMAT_SIZE - 1);
      var part := if |a| < FORMAT_SIZE - 1 then conversion[..FORMAT_SIZE - 1 - |a|] else "";
      var front := a[..|FormatOf(d)| - |part|];
      assert FormatOf(d) == front + part;
      PrintfConstant(front, part, "");
      PrintfConstant(front, part, "x");
      DifferentTexts(a, b);
    }
  }

  lemma DifferentTexts(a: string, b: string)
    ensures a + "" + b != a + "x" + b
  {
    assert |a + "" + b| != |a + "x" + b|;
  }

  lemma CutConversion(ty: TypeBits, a: string, room: nat)
    requires |a + Middle(ty)| > room
    ensures |a| < room ==> Middle(ty)[..room - |a|] in {"", "%", "%l", "%ll"}
  {
    var k, m := room - |a|, Middle(ty);
    if k > 0 {
      assert k == 1 ==> m[..k] == "%";
      assert k == 2 ==> m[..k] == "%l";
      assert k == 3 ==> m[..k] == "%ll";
    }
  }

  /** In a slot that starts empty, the text of an attribute is whole exactly when it leaves
      room for a NUL: in the 64 characters of a scalar as in the slot of a vector. */
  lemma SlotHoldsExactly(d: Descriptor, text: string)
    requires TypeToFormat(d.ty).Some? && FormatFits(d)
    ensures Print(OutSlot(d), text).data == AttributeText(d, text) <==>
            |d.name| + 3 + |Wrapped(d.ty, text)| < AllocOf(d)
    ensures |d.name| + 3 + |Wrapped(d.ty, text)| >= AllocOf(d) ==>
      Print(OutSlot(d), text).data == AttributeText(d, text)[..AllocOf(d) - 1]
    ensures !IsBinary(d.ty) ==> AllocOf(d) == 64
  {
    hide Wrapped, TypeToFormat, Printf, FormatOf;
    PrintedAttribute(d);
    assert |AttributeText(d, text)| == |d.name| + 3 + |Wrapped(d.ty, text)|;
  }

  // ------------------------------------------------------------------ sizes

  /** The base64 text of an attribute's bytes is never longer than its buffer, so the branch
      of `update_attribute` that lets the buffer grow is never taken. */
  lemma NeverGrows(d: Descriptor, v: Value)
    requires TypeToFormat(d.ty).Some? && Fits(d.ty, OutSlot(d).size, v)
    ensures IsBinary(d.ty) ==> OutSlot(d).allocSize == 3 * OutSlot(d).size + MAXDIGITS
    ensures IsBinary(d.ty) ==> |ValueText(v)| == 4 * ((OutSlot(d).size + 2) / 3) <= OutSlot(d).allocSize
    ensures Update(OutSlot(d), v) == Print(OutSlot(d), ValueText(v))
  {
    hide TypeToFormat, Both, Printf, Encode;
    if IsBinary(d.ty) {
      Base64Laws.EncodeLength(v.bytes);
    }
  }

  lemma {:induction false} PrintfLength(f: string, text: string)
    ensures |Printf(f, text)| <= |f| + |text|
  {
    if f != "" && Conversion(f) == 0 {
      PrintfLength(f[1..], text);
    }
  }

  /** A binary or vector value is published whole exactly when the wrapped text fits; a
      buffer of n bytes does as soon as 5n >= 3f - 43, f being the length of the format. */
  lemma NotTruncated(d: Descriptor, v: Value)
    requires TypeToFormat(d.ty).Some? && IsBinary(d.ty) && Fits(d.ty, OutSlot(d).size, v) && FormatFits(d)
    ensures var s := OutSlot(d);
      var whole := AttributeText(d, ValueText(v));
      && |whole| == |s.format| - 2 + 4 * ((s.size + 2) / 3)
      && (Update(s, v).data == whole <==> |s.format| - 2 + 4 * ((s.size + 2) / 3) <= 3 * s.size + 15)
      && (5 * s.size >= 3 * |s.format| - 43 ==> Update(s, v).data == whole)
  {
    hide Printf, Encode, FormatOf, Both;
    NeverGrows(d, v);
    PrintedAttribute(d);
    BinaryFormatLength(d, ValueText(v));
  }

  lemma BinaryFormatLength(d: Descriptor, text: string)
    requires TypeToFormat(d.ty).Some? && FormatFits(d) && IsBinary(d.ty)
    ensures |AttributeText(d, text)| == |FormatOf(d)| - 2 + |text|
  {
    hide Both;
  }

  /** The width of one element of a vector, as the consumer of its subtype reads it. */
  function Width(ty: TypeBits): nat {
    if Both(ty, INT32, VECTOR) then 4
    else if Both(ty, DOUBLE, VECTOR) || Both(ty, INT64, VECTOR) then 8
    else if Both(ty, INT16, VECTOR) then 2
    else 1
  }

  /** An attribute publishes all bytes of its elements unless they are 16 bits wide: of such
      a vector only the first half is encoded. */
  lemma WholeVectors(d: Descriptor)
    requires TypeToFormat(d.ty).Some? && IsBinary(d.ty)
    ensures OutSlot(d).size == d.size * Width(d.ty) <==> d.size == 0 || Width(d.ty) != 2
    ensures Width(d.ty) == 2 ==> 2 * OutSlot(d).size == d.size * Width(d.ty)
  {
    hide TypeToFormat, FormatOf;
    assert Width(d.ty) == if ElementSize(d.ty) == 1 && Both(d.ty, INT16, VECTOR) then 2 else ElementSize(d.ty);
  }

  // ------------------------------------------------------------------ the dataset partition

  /** Each descriptor stands in the array of its direction, input, output or both, behind
      those that came before it in the dataset, and in no other place. */
  lemma PartitionKeepsOrder(ds: seq<Descriptor>, i: nat)
    requires i < |ds|
    ensures ds[i].dir in {1, 2} ==> |Outs(ds[..i])| < |Outs(ds)| && Outs(ds)[|Outs(ds[..i])|] == ds[i]
    ensures ds[i].dir in {0, 2} ==> |Ins(ds[..i])| < |Ins(ds)| && Ins(ds)[|Ins(ds[..i])|] == ds[i]
    ensures |Outs(ds[..i + 1])| == |Outs(ds[..i])| + if ds[i].dir in {1, 2} then 1 else 0
    ensures |Ins(ds[..i + 1])| == |Ins(ds[..i])| + if ds[i].dir in {0, 2} then 1 else 0
  {
    PartsGrow(ds, i + 1);
    assert ds[..i + 1][..i] == ds[..i];
  }

  // ------------------------------------------------------------------ the last-write map

  /** The control units declared so far: their names and descriptors. */
  function Declared(trace: seq<Event>): seq<(string, seq<Descriptor>)> {
    if trace == [] then []
    else
      var e := trace[|trace| - 1];
      Declared(trace[..|trace| - 1]) + if e.Added? then [(e.name, e.ds)] else []
  }

  datatype Latest = Never | Default | Last(v: Value)

  /** The last thing that happened to an attribute, looking back from the end. */
  function LatestOf(trace: seq<Event>, c: nat, a: nat): Latest {
    if trace == [] then Never
    else
      match trace[|trace| - 1]
      case Wrote(c', a', v) => if c' == c && a' == a then Last(v) else LatestOf(trace[..|trace| - 1], c, a)
      case Reset(c') => if c' == c then Default else LatestOf(trace[..|trace| - 1], c, a)
      case _ => LatestOf(trace[..|trace| - 1], c, a)
  }

  function Shown(s: Slot, l: Latest): (t: Slot)
    requires s.allocSize > 0
  {
    match l
    case Never => s
    case Default => Print(s, DefaultText(s.ty))
    case Last(v) => Print(s, ValueText(v))
  }

  /** The slots that descriptors and latest values determine. */
  ghost predicate ShowsLatest(trace: seq<Event>, c: nat, ds: seq<Descriptor>, cu: Cu)
    requires forall d | d in ds :: Supported(d)
  {
    && cu.inds == InSlots(Ins(ds)) && |cu.outds| == |Outs(ds)|
    && forall a | 0 <= a < |cu.outds| :: cu.outds[a] == Shown(OutSlot(Outs(ds)[a]), LatestOf(trace, c, a))
  }

  ghost predicate AllSupported(declared: seq<(string, seq<Descriptor>)>) {
    forall c | 0 <= c < |declared| :: forall d | d in declared[c].1 :: Supported(d)
  }

  /** In every reachable state, each attribute shows the last value written to it, or its
      default if its unit was registered since, and units are as they were declared. */
  ghost predicate Refines(trace: seq<Event>, st: State) {
    var declared := Declared(trace);
    && AllSupported(declared) && |st.cus| == |declared|
    && forall c | 0 <= c < |st.cus| ::
        st.cus[c].name == declared[c].0 && ShowsLatest(trace, c, declared[c].1, st.cus[c])
  }

  lemma ShownKeeps(s: Slot, l: Latest)
    requires s.allocSize > 0
    ensures Shown(s, l).(data := s.data) == s
  {
    hide Printf;
  }

  lemma PrintAgain(s: Slot, l: Latest, text: string)
    requires s.allocSize > 0
    ensures Shown(s, l).allocSize > 0 && Print(Shown(s, l), text) == Print(s, text)
  {
    hide Printf;
  }

  lemma UpdateShown(d: Descriptor, l: Latest, v: Value)
    requires TypeToFormat(d.ty).Some? && Fits(d.ty, OutSlot(d).size, v)
    ensures Shown(OutSlot(d), l).allocSize > 0
    ensures Update(Shown(OutSlot(d), l), v) == Shown(OutSlot(d), Last(v))
  {
    hide OutSlot, Printf, TypeToFormat, Fits, ValueText, DefaultText;
    NeverGrows(d, v);
    ShownKeeps(OutSlot(d), l);
    PrintAgain(OutSlot(d), l, ValueText(v));
    SameGrowth(OutSlot(d), Shown(OutSlot(d), l), v);
    OutSlotType(d);
  }

  lemma OutSlotType(d: Descriptor)
    requires TypeToFormat(d.ty).Some?
    ensures OutSlot(d).ty == d.ty
  {
  }

  lemma SameGrowth(s: Slot, t: Slot, v: Value)
    requires s.allocSize > 0 && t.(data := s.data) == s
    ensures Update(t, v) == Update(s, v)
  {
    hide Printf, ValueText;
  }

  /** Every unit in the state was declared, and events name only units that exist. */
  lemma {:induction false} UnitsAreDeclared(trace: seq<Event>)
    requires Legal(trace)
    ensures |Replay(trace).cus| == |Declared(trace)|
    ensures forall c: nat, a: nat | c >= |Declared(trace)| :: LatestOf(trace, c, a) == Never
    decreases |trace|
  {
    hide NewCu, Document, Fits, Update, ResetSlots;
    if trace != [] {
      UnitsAreDeclared(trace[..|trace| - 1]);
    }
  }

  /** The store refines the last-write map, over every history. */
  lemma {:induction false} StoreRefinesLastWrite(trace: seq<Event>)
    requires Legal(trace)
    ensures Refines(trace, Replay(trace))
    decreases |trace|
  {
    hide Possible, Apply, Refines;
    if trace == [] {
      NothingDeclared();
    } else {
      var pre, e := trace[..|trace| - 1], trace[|trace| - 1];
      StoreRefinesLastWrite(pre);
      UnitsAreDeclared(pre);
      assert trace == pre + [e];
      RefineStep(pre, Replay(pre), e);
    }
  }

  lemma NothingDeclared()
    ensures Refines([], EMPTY)
  {
  }

  lemma RefineStep(pre: seq<Event>, st: State, e: Event)
    requires HasRoom(st) && Possible(st, e) && Refines(pre, st)
    requires forall c: nat, a: nat | c >= |Declared(pre)| :: LatestOf(pre, c, a) == Never
    ensures Refines(pre + [e], Apply(st, e))
  {
    hide ShowsLatest, Update, ResetSlots, NewCu, Document, Fits, Supported;
    var trace, next := pre + [e], Apply(st, e);
    assert trace[..|pre|] == pre;
    var declared := Declared(trace);
    forall c | 0 <= c < |declared|
      ensures forall d | d in declared[c].1 :: Supported(d)
    {
      if c < |Declared(pre)| {
        assert declared[c] == Declared(pre)[c];
      }
    }
    forall c | 0 <= c < |next.cus|
      ensures next.cus[c].name == declared[c].0 && ShowsLatest(trace, c, declared[c].1, next.cus[c])
    {
      if c < |st.cus| {
        assert declared[c] == Declared(pre)[c];
        UnitStep(pre, st, e, c, declared[c].1);
      } else {
        FreshUnit(pre, e.name, e.ds, c);
      }
    }
  }

  /** A unit that was just declared has not been written or registered. */
  lemma FreshUnit(pre: seq<Event>, name: string, ds: seq<Descriptor>, c: nat)
    requires forall d | d in ds :: Supported(d)
    requires forall a: nat :: LatestOf(pre, c, a) == Never
    ensures NewCu(name, ds).name == name && ShowsLatest(pre + [Added(name, ds)], c, ds, NewCu(name, ds))
  {
    hide OutSlot, Printf, TypeToFormat, Supported;
    var trace, cu := pre + [Added(name, ds)], NewCu(name, ds);
    assert trace[..|pre|] == pre;
    forall a: nat | a < |cu.outds|
      ensures cu.outds[a] == Shown(OutSlot(Outs(ds)[a]), LatestOf(trace, c, a))
    {
      assert LatestOf(trace, c, a) == LatestOf(pre, c, a) == Never;
    }
  }

  /** One event changes what a unit shows just as it changes what is latest. */
  lemma UnitStep(pre: seq<Event>, st: State, e: Event, c: nat, ds: seq<Descriptor>)
    requires HasRoom(st) && Possible(st, e) && c < |st.cus|
    requires (forall d | d in ds :: Supported(d)) && ShowsLatest(pre, c, ds, st.cus[c])
    ensures var cu := Apply(st, e).cus[c];
      cu.name == st.cus[c].name && ShowsLatest(pre + [e], c, ds, cu)
  {
    hide OutSlot, Print, Update, TypeToFormat, Fits, Document, NewCu, Supported, InSlots, Ins;
    var trace := pre + [e];
    assert trace[..|pre|] == pre && trace[|pre|] == e;
    var was, cu, outs := st.cus[c], Apply(st, e).cus[c], Outs(ds);
    forall a | 0 <= a < |cu.outds|
      ensures cu.outds[a] == Shown(OutSlot(outs[a]), LatestOf(trace, c, a))
    {
      var l := LatestOf(pre, c, a);
      assert was.outds[a] == Shown(OutSlot(outs[a]), l);
      if e.Wrote? && e.cu == c && e.attr == a {
        FitsShown(outs[a], l, e.value);
        UpdateShown(outs[a], l, e.value);
      } else if e.Reset? && e.cu == c {
        ShownType(OutSlot(outs[a]), l);
        PrintAgain(OutSlot(outs[a]), l, DefaultText(OutSlot(outs[a]).ty));
      }
    }
  }

  lemma ShownType(s: Slot, l: Latest)
    requires s.allocSize > 0
    ensures Shown(s, l).ty == s.ty && Shown(s, l).size == s.size
  {
    hide Printf;
  }

  lemma FitsShown(d: Descriptor, l: Latest, v: Value)
    requires TypeToFormat(d.ty).Some?
    requires Fits(Shown(OutSlot(d), l).ty, Shown(OutSlot(d), l).size, v)
    ensures Fits(d.ty, OutSlot(d).size, v)
  {
    hide OutSlot, Fits;
    ShownType(OutSlot(d), l);
    OutSlotType(d);
  }
}
