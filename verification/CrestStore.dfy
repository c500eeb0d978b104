/** The handle of chaos_crest.c, with the operations that change it. */
module CrestStore {
  import opened CText
  import opened CrestModel
  import Base64Codec

  const BAD_ID: int := -8
  const BAD_ATTRIBUTE: int := -7
  const NOT_FOUND: int := -9
  const POST_FAILED: int := -9

  /** The unit has outputs, so that there is a buffer to print its document into. */
  ghost predicate CanPost(st: State, c: nat) {
    c < |st.cus| && HasRoom(st) && st.cus[c].outds != []
  }

  /** The post of one CU: what it sends in this state, given how it ends. */
  ghost function PostOf(st: State, c: nat, register: bool, reply: Reply): (e: Event)
    requires CanPost(st, c)
    ensures Possible(st, e) && e.Posted? && e.cu == c && e.register == register && e.reply == reply
  {
    RoomAdds(st.cus[c].outds);
    Posted(c, register, reply, Document(st.cus[c], register, if register then 0 else st.npush, reply.start))
  }

  /** The state in which a registration posts. */
  ghost function AfterReset(st: State, c: nat): (mid: State)
    requires CanPost(st, c)
    ensures CanPost(mid, c) && |mid.cus| == |st.cus|
  {
    hide Document, Print, Update, NewCu;
    ApplyKeepsRoom(st, Reset(c));
    Apply(st, Reset(c))
  }

  /** A post changes the counters only. */
  ghost function AfterPost(st: State, c: nat, register: bool, reply: Reply): (r: State)
    requires CanPost(st, c)
    ensures HasRoom(r) && r.cus == st.cus
  {
    hide Document, Print, Update, NewCu;
    Apply(st, PostOf(st, c, register, reply))
  }

  /** The history has grown by one post, and the state with it. */
  ghost predicate Posts(st: State, was: seq<Event>, st': State, now: seq<Event>,
                         c: nat, register: bool, reply: Reply) {
    && CanPost(st, c)
    && now == was + [PostOf(st, c, register, reply)]
    && st' == AfterPost(st, c, register, reply)
  }

  /** The events of one CU's registration or push. */
  ghost function Turn(st: State, c: nat, register: bool, reply: Reply): (es: seq<Event>)
    requires CanPost(st, c)
  {
    if register then [Reset(c), PostOf(AfterReset(st, c), c, true, reply)]
    else [PostOf(st, c, false, reply)]
  }

  ghost function AfterTurn(st: State, c: nat, register: bool, reply: Reply): (r: State)
    requires CanPost(st, c)
    ensures HasRoom(r) && |r.cus| == |st.cus|
  {
    hide AfterReset, AfterPost;
    if register then AfterPost(AfterReset(st, c), c, true, reply) else AfterPost(st, c, false, reply)
  }

  /** The history has grown by one turn, and the state with it. */
  ghost predicate Turned(st: State, was: seq<Event>, st': State, now: seq<Event>,
                         c: nat, register: bool, reply: Reply) {
    && CanPost(st, c)
    && now == was + Turn(st, c, register, reply)
    && st' == AfterTurn(st, c, register, reply)
  }

  /** What a sweep over the CUs from `from` on adds to the history. It ends at the first post
      that fails; `wild` when it comes to a unit for which C leaves its buffers: one without
      outputs, or, in a registration, one with inputs. */
  datatype Swept = Swept(events: seq<Event>, wild: bool)

  ghost function Sweep(st: State, from: nat, calls: nat, net: nat -> Reply, register: bool): Swept
    requires HasRoom(st) && from <= |st.cus|
    decreases |st.cus| - from
  {
    if from == |st.cus| then Swept([], false)
    else if st.cus[from].outds == [] then Swept([], true)
    else
      var turn := Turn(st, from, register, net(calls));
      if register && st.cus[from].inds != [] then Swept(turn, true)
      else if net(calls).err != 0 then Swept(turn, false)
      else
        var more := Sweep(AfterTurn(st, from, register, net(calls)), from + 1, calls + 1, net, register);
        Swept(turn + more.events, more.wild)
  }

  /** The first slot of that name, or the number of slots. */
  function FirstNamed(ds: seq<Slot>, name: string): (a: nat)
    ensures a <= |ds| && (a < |ds| ==> ds[a].name == name) && forall b | 0 <= b < a :: ds[b].name != name
  {
    if ds == [] || ds[0].name == name then 0 else FirstNamed(ds[1..], name) + 1
  }

  class Handle {
    const net: nat -> Reply   // how the posts of this handle will end
    var cus: seq<Cu>
    var npush: nat
    var totPushTime: nat
    var maxPush: nat
    var minPush: int
    var calls: nat
    ghost var trace: seq<Event>

    ghost function View(): State
      reads this
    {
      State(cus, npush, totPushTime, maxPush)
    }

    /** The handle is in the state that its history leads to. */
    ghost predicate Valid()
      reads this
    {
      Legal(trace) && View() == Replay(trace) && minPush == 0
    }

    constructor (net: nat -> Reply)
      ensures Valid() && trace == [] && this.net == net && calls == 0
    {
      this.net := net;
      cus, npush, totPushTime, maxPush, minPush, calls, trace := [], 0, 0, 0, 0, 0, [];
    }

    /** `chaos_crest_add_cu`; the sizes it works out are left in the caller's descriptors too. */
    method AddCu(name: string, dsin: array<Descriptor>) returns (uid: nat)
      requires Valid() && forall d | d in dsin[..] :: Supported(d)
      modifies this`cus, this`trace, dsin
      ensures Valid() && trace == old(trace) + [Added(name, old(dsin[..]))]
      ensures cus == old(cus) + [NewCu(name, old(dsin[..]))] && uid == |cus|
      ensures forall i | 0 <= i < dsin.Length ::
        dsin[i] == if IsOut(old(dsin[i])) then old(dsin[i]).(allocSize := AllocOf(old(dsin[i]))) else old(dsin[i])
    {
      ghost var ds, before := dsin[..], Replay(trace);
      var ndsin, ndsout := CountDirections(dsin);
      var inds, outds := Partition(dsin, ndsin, ndsout);
      cus := cus + [Cu(name, inds, outds)];
      trace := trace + [Added(name, ds)];
      ReplaySnoc(old(trace), Added(name, ds));
      uid := |cus|;
    }

    /** `update_attribute` on the CU at index `c`. */
    method UpdateAttribute(c: nat, attr: int, v: Value) returns (ret: int)
      requires Valid() && c < |cus|
      requires 0 <= attr < |cus[c].outds| ==> Fits(cus[c].outds[attr].ty, cus[c].outds[attr].size, v)
      modifies this`cus, this`trace
      ensures Valid() && |cus| == |old(cus)|
      ensures 0 <= attr < |old(cus)[c].outds| ==> ret == 0 && trace == old(trace) + [Wrote(c, attr, v)]
      ensures !(0 <= attr < |old(cus)[c].outds|) ==> ret == -7 && trace == old(trace) && cus == old(cus)
    {
      hide Fits, Legal, Replay;
      var cu := cus[c];
      if attr >= |cu.outds| || attr < 0 {
        return BAD_ATTRIBUTE;
      }
      var slot := cu.outds[attr];
      slot := UpdateSlot(slot, v);
      cus := cus[c := cu.(outds := cu.outds[attr := slot])];
      trace := trace + [Wrote(c, attr, v)];
      ReplaySnoc(old(trace), Wrote(c, attr, v));
      return 0;
    }

    /** `chaos_crest_update`. */
    method UpdateAt(cuUid: nat, attrPos: int, v: Value) returns (ret: int)
      requires Valid()
      requires 0 < cuUid <= |cus| && 0 <= attrPos < |cus[cuUid - 1].outds| ==>
        Fits(cus[cuUid - 1].outds[attrPos].ty, cus[cuUid - 1].outds[attrPos].size, v)
      modifies this`cus, this`trace
      ensures Valid()
      ensures !(0 < cuUid <= |old(cus)|) ==> ret == -8 && trace == old(trace) && cus == old(cus)
      ensures 0 < cuUid <= |old(cus)| ==>
        if 0 <= attrPos < |old(cus)[cuUid - 1].outds|
        then ret == 0 && trace == old(trace) + [Wrote(cuUid - 1, attrPos, v)]
        else ret == -7 && trace == old(trace) && cus == old(cus)
    {
      hide Fits, Legal, Replay;
      if cuUid > |cus| || cuUid <= 0 {
        return BAD_ID;
      }
      ret := UpdateAttribute(cuUid - 1, attrPos, v);
    }

    /** `chaos_crest_update_by_name`: the first output of that name. */
    method UpdateByName(cuUid: nat, attrName: string, v: Value) returns (ret: int)
      requires Valid()
      requires 0 < cuUid <= |cus| ==>
        var outs := cus[cuUid - 1].outds;
        var a := FirstNamed(outs, attrName);
        a < |outs| ==> Fits(outs[a].ty, outs[a].size, v)
      modifies this`cus, this`trace
      ensures Valid()
      ensures !(0 < cuUid <= |old(cus)|) ==> ret == -8 && trace == old(trace) && cus == old(cus)
      ensures 0 < cuUid <= |old(cus)| ==>
        var outs := old(cus)[cuUid - 1].outds;
        var a := FirstNamed(outs, attrName);
        if a < |outs| then ret == 0 && trace == old(trace) + [Wrote(cuUid - 1, a, v)]
        else ret == -9 && trace == old(trace) && cus == old(cus)
    {
      hide Fits, Legal, Replay;
      if cuUid > |cus| || cuUid <= 0 {
        return BAD_ID;
      }
      var outds := cus[cuUid - 1].outds;
      for a := 0 to |outds|
        invariant a <= FirstNamed(outds, attrName)
      {
        if outds[a].name == attrName {
          ret := UpdateAttribute(cuUid - 1, a, v);
          return;
        }
      }
      return NOT_FOUND;
    }

    /**
      `push_cu_int`. Input slots have no buffer, so only an output dataset that is not empty
      gives the document one; `wild` reports that C would append behind a buffer of no bytes.
    */
    method PushCuInt(cuUid: nat, mode: int, datasetType: int) returns (ret: int, wild: bool)
      requires Valid()
      modifies this`npush, this`totPushTime, this`maxPush, this`minPush, this`calls, this`trace
      ensures Valid()
      ensures wild <==> 0 < cuUid <= |cus| && (datasetType != 0 || cus[cuUid - 1].outds == [])
      ensures wild || !(0 < cuUid <= |cus|) ==> trace == old(trace) && calls == old(calls) && View() == old(View())
      ensures !(0 < cuUid <= |cus|) ==> ret == -8
      ensures 0 < cuUid <= |cus| && !wild ==>
        && calls == old(calls) + 1 && ret == (if net(old(calls)).err == 0 then 0 else -9)
        && Posts(old(View()), old(trace), View(), trace, cuUid - 1, mode <= 0, net(old(calls)))
    {
      hide Legal, Replay, Document, NewCu, Update, ResetSlots, HasRoom, TotalAlloc;
      if cuUid > |cus| || cuUid <= 0 {
        return BAD_ID, false;
      }
      var cu, reply := cus[cuUid - 1], net(calls);
      if datasetType != 0 || |cu.outds| == 0 {
        return POST_FAILED, true;
      }
      calls := calls + 1;
      ghost var e := PostOf(old(View()), cuUid - 1, mode <= 0, reply);
      if mode <= 0 {
        npush := 0;
      }
      var doc := Assemble(cu, mode <= 0, npush, reply.start);
      trace := trace + [e];
      ReplaySnoc(old(trace), e);
      if reply.err == 0 {
        var t := reply.elapsed % TWO32;
        totPushTime := (totPushTime + t) % TWO64;
        maxPush := if t > maxPush then t else maxPush;
        minPush := if t < minPush && t > 0 then t else minPush;
        npush := (npush + 1) % TWO64;
        assert e.doc == doc;
        return 0, false;
      }
      return POST_FAILED, false;
    }

    /** `push_cu`. */
    method PushCu(cuUid: nat, datasetType: int) returns (ret: int, wild: bool)
      requires Valid()
      modifies this`npush, this`totPushTime, this`maxPush, this`minPush, this`calls, this`trace
      ensures Valid()
      ensures wild <==> 0 < cuUid <= |cus| && (datasetType != 0 || cus[cuUid - 1].outds == [])
      ensures wild || !(0 < cuUid <= |cus|) ==> trace == old(trace) && calls == old(calls) && View() == old(View())
      ensures !(0 < cuUid <= |cus|) ==> ret == -8
      ensures 0 < cuUid <= |cus| && !wild ==>
        && calls == old(calls) + 1 && ret == (if net(old(calls)).err == 0 then 0 else -9)
        && Turned(old(View()), old(trace), View(), trace, cuUid - 1, false, net(old(calls)))
    {
      hide Legal, Replay, Document, AfterPost, HasRoom;
      ret, wild := PushCuInt(cuUid, 1, datasetType);
    }

    /** `register_cu`: the outputs go back to their defaults, and are posted. `wild` when the
        unit has no outputs to post, or inputs, which have no format to print them with. */
    method RegisterCu(cuUid: nat) returns (ret: int, wild: bool)
      requires Valid()
      modifies this
      ensures Valid() && |cus| == |old(cus)|
      ensures wild <==> 0 < cuUid <= |old(cus)| && (old(cus)[cuUid - 1].outds == [] || old(cus)[cuUid - 1].inds != [])
      ensures !(0 < cuUid <= |old(cus)|) ==> ret == -8
      ensures !(0 < cuUid <= |old(cus)|) || old(cus)[cuUid - 1].outds == [] ==>
        trace == old(trace) && calls == old(calls) && View() == old(View())
      ensures 0 < cuUid <= |old(cus)| && old(cus)[cuUid - 1].outds != [] ==>
        && calls == old(calls) + 1 && ret == (if net(old(calls)).err == 0 then 0 else -9)
        && Turned(old(View()), old(trace), View(), trace, cuUid - 1, true, net(old(calls)))
    {
      hide Legal, Replay, Document, Print, Apply, HasRoom, TotalAlloc, AfterPost;
      if cuUid > |cus| || cuUid <= 0 {
        return BAD_ID, false;
      }
      if |cus[cuUid - 1].outds| == 0 {
        return POST_FAILED, true;
      }
      ResetOutputs(cuUid - 1);
      ghost var mid := View();
      ret, wild := PushCuInt(cuUid, 0, 0);
      ghost var e := PostOf(mid, cuUid - 1, true, net(old(calls)));
      assert trace == old(trace) + [Reset(cuUid - 1)] + [e] == old(trace) + [Reset(cuUid - 1), e];
      wild := |cus[cuUid - 1].inds| != 0;
    }

    /** The first loop of `register_cu`. */
    method ResetOutputs(c: nat)
      requires Valid() && c < |cus| && cus[c].outds != []
      modifies this`cus, this`trace
      ensures Valid() && HasRoom(old(View())) && trace == old(trace) + [Reset(c)]
      ensures View() == AfterReset(old(View()), c)
      ensures |cus| == |old(cus)| && cus[c].inds == old(cus)[c].inds
    {
      hide Legal, Replay, Print;
      var outds := RegisterSlots(cus[c].outds);
      cus := cus[c := cus[c].(outds := outds)];
      trace := trace + [Reset(c)];
      ReplaySnoc(old(trace), Reset(c));
    }

    /** `chaos_crest_register`. */
    method Register(cuUid: nat) returns (ret: int, wild: bool)
      requires Valid()
      modifies this
      ensures Valid() && |cus| == |old(cus)|
      ensures cuUid > |old(cus)| ==> ret == -8 && !wild && trace == old(trace) && cus == old(cus)
      ensures 0 < cuUid <= |old(cus)| ==>
        && (wild <==> old(cus)[cuUid - 1].outds == [] || old(cus)[cuUid - 1].inds != [])
        && (old(cus)[cuUid - 1].outds != [] ==>
             && ret == (if net(old(calls)).err == 0 then 0 else -9)
             && Turned(old(View()), old(trace), View(), trace, cuUid - 1, true, net(old(calls))))
      ensures cuUid == 0 ==> HasRoom(old(View()))
      ensures cuUid == 0 ==>
        var swept := Sweep(old(View()), 0, old(calls), net, true);
        trace == old(trace) + swept.events && wild == swept.wild
      ensures cuUid == 0 && !wild ==>
        && (ret == 0 ==> calls == old(calls) + |cus| && forall i | old(calls) <= i < calls :: net(i).err == 0)
        && (ret != 0 ==> ret == -9 && old(calls) < calls && net(calls - 1).err != 0)
        && (ret != 0 ==> forall i | old(calls) <= i < calls - 1 :: net(i).err == 0)
    {
      hide Legal, Replay, Turned, Sweep, HasRoom, TotalAlloc;
      if cuUid != 0 {
        ret, wild := RegisterCu(cuUid);
        return;
      }
      ghost var all := Sweep(View(), 0, calls, net, true);
      for cnt := 0 to |cus|
        invariant calls == old(calls) + cnt && forall i | old(calls) <= i < calls :: net(i).err == 0
        invariant Valid() && |cus| == |old(cus)| && HasRoom(View())
        invariant var more := Sweep(View(), cnt, calls, net, true);
          trace + more.events == old(trace) + all.events && more.wild == all.wild
      {
        ghost var st, was, n := View(), trace, calls;
        ret, wild := RegisterCu(cnt + 1);
        SweepStep(st, cnt, n, net, true, was, trace, View());
        if wild || ret != 0 {
          return;
        }
      }
      SweepEnd(View(), calls, net, true, trace);
      return 0, false;
    }

    /** `chaos_crest_push`. */
    method Push(cuUid: nat, datasetType: int) returns (ret: int, wild: bool)
      requires Valid()
      modifies this`npush, this`totPushTime, this`maxPush, this`minPush, this`calls, this`trace
      ensures Valid()
      ensures cuUid > |cus| ==> ret == -8 && !wild && trace == old(trace)
      ensures 0 < cuUid <= |cus| ==>
        && (wild <==> datasetType != 0 || cus[cuUid - 1].outds == [])
        && (!wild ==>
             && ret == (if net(old(calls)).err == 0 then 0 else -9)
             && Turned(old(View()), old(trace), View(), trace, cuUid - 1, false, net(old(calls))))
      ensures cuUid == 0 ==> HasRoom(old(View()))
      ensures cuUid == 0 && datasetType != 0 ==> trace == old(trace) && (wild <==> cus != [])
      ensures cuUid == 0 && datasetType == 0 ==>
        var swept := Sweep(old(View()), 0, old(calls), net, false);
        trace == old(trace) + swept.events && wild == swept.wild
      ensures cuUid == 0 && !wild ==>
        && (ret == 0 ==> calls == old(calls) + |cus| && forall i | old(calls) <= i < calls :: net(i).err == 0)
        && (ret != 0 ==> ret == -9 && old(calls) < calls && net(calls - 1).err != 0)
        && (ret != 0 ==> forall i | old(calls) <= i < calls - 1 :: net(i).err == 0)
    {
      hide Legal, Replay, Turned, Sweep, HasRoom, TotalAlloc;
      if cuUid != 0 {
        ret, wild := PushCu(cuUid, datasetType);
        return;
      }
      ghost var all := Sweep(View(), 0, calls, net, false);
      for cnt := 0 to |cus|
        invariant calls == old(calls) + cnt && forall i | old(calls) <= i < calls :: net(i).err == 0
        invariant Valid() && HasRoom(View()) && (cnt > 0 ==> datasetType == 0) && (cnt == 0 ==> trace == old(trace))
        invariant var more := Sweep(View(), cnt, calls, net, false);
          trace + more.events == old(trace) + all.events && more.wild == all.wild
      {
        ghost var st, was, n := View(), trace, calls;
        ret, wild := PushCu(cnt + 1, datasetType);
        if datasetType == 0 {
          SweepStep(st, cnt, n, net, false, was, trace, View());
        }
        if wild || ret != 0 {
          return;
        }
      }
      SweepEnd(View(), calls, net, false, trace);
      return 0, false;
    }
  }

  /** One turn is the first step of a sweep. */
  lemma SweepStep(st: State, from: nat, calls: nat, net: nat -> Reply, register: bool,
                  was: seq<Event>, now: seq<Event>, next: State)
    requires HasRoom(st) && from < |st.cus|
    requires if st.cus[from].outds == [] then now == was && next == st
             else Turned(st, was, next, now, from, register, net(calls))
    ensures HasRoom(next) && |next.cus| == |st.cus|
    ensures var all := Sweep(st, from, calls, net, register);
      if st.cus[from].outds == [] || (register && st.cus[from].inds != []) then was + all.events == now && all.wild
      else if net(calls).err != 0 then was + all.events == now && !all.wild
      else
        var more := Sweep(next, from + 1, calls + 1, net, register);
        was + all.events == now + more.events && all.wild == more.wild
  {
    hide Turn, AfterTurn, HasRoom;
    if st.cus[from].outds != [] {
      var turn := Turn(st, from, register, net(calls));
      if !(register && st.cus[from].inds != []) && net(calls).err == 0 {
        var more := Sweep(next, from + 1, calls + 1, net, register);
        assert was + (turn + more.events) == was + turn + more.events;
      }
    }
  }

  lemma SweepEnd(st: State, calls: nat, net: nat -> Reply, register: bool, now: seq<Event>)
    requires HasRoom(st)
    ensures var all := Sweep(st, |st.cus|, calls, net, register);
      now + all.events == now && !all.wild
  {
  }

  // ------------------------------------------------------------------ the loops of add_cu

  /** The first pass: how many slots each direction needs. */
  method CountDirections(dsin: array<Descriptor>) returns (ndsin: nat, ndsout: nat)
    ensures ndsin == |Ins(dsin[..])| && ndsout == |Outs(dsin[..])|
  {
    ndsin, ndsout := 0, 0;
    for cnt := 0 to dsin.Length
      invariant ndsin == |Ins(dsin[..cnt])| && ndsout == |Outs(dsin[..cnt])|
    {
      assert dsin[..cnt + 1][..cnt] == dsin[..cnt];
      ndsin := ndsin + if IsIn(dsin[cnt]) then 1 else 0;
      ndsout := ndsout + if IsOut(dsin[cnt]) then 1 else 0;
    }
    assert dsin[..dsin.Length] == dsin[..];
  }

  /** The second pass: the cursors stay inside the arrays of the first pass and end at their
      lengths. */
  method Partition(dsin: array<Descriptor>, ndsin: nat, ndsout: nat) returns (inds: seq<Slot>, outds: seq<Slot>)
    requires ndsin == |Ins(dsin[..])| && ndsout == |Outs(dsin[..])| && forall d | d in dsin[..] :: Supported(d)
    modifies dsin
    ensures inds == InSlots(Ins(old(dsin[..]))) && outds == OutSlots(Outs(old(dsin[..])))
    ensures forall i | 0 <= i < dsin.Length ::
      dsin[i] == if IsOut(old(dsin[i])) then old(dsin[i]).(allocSize := AllocOf(old(dsin[i]))) else old(dsin[i])
  {
    hide FormatOf, TypeToFormat, AllocOf, IsBinary, OutSlot, InSlot, Ins, Outs, InSlots, OutSlots, Supported;
    ghost var ds := dsin[..];
    PartitionStart();
    var zero := Slot("", "", 0, 0, "", "", 0);
    var ins, outs := new Slot[ndsin](_ => zero), new Slot[ndsout](_ => zero);
    var cntIn: nat, cntOut: nat := 0, 0;
    for cnt := 0 to dsin.Length
      invariant cntIn == |Ins(ds[..cnt])| <= ndsin && cntOut == |Outs(ds[..cnt])| <= ndsout
      invariant forall d | d in ds[..cnt] :: Supported(d)
      invariant ins[..cntIn] == InSlots(Ins(ds[..cnt]))
      invariant outs[..cntOut] == OutSlots(Outs(ds[..cnt]))
      invariant forall i | 0 <= i < dsin.Length ::
        dsin[i] == if i < cnt && IsOut(ds[i]) then ds[i].(allocSize := AllocOf(ds[i])) else ds[i]
    {
      PartitionStep(ds, cnt);
      var d := dsin[cnt];
      if IsIn(d) {
        cntIn := Place(ins, cntIn, InSlot(d));
      }
      if IsOut(d) {
        var slot := MakeOutSlot(d);
        dsin[cnt] := d.(allocSize := slot.allocSize);
        cntOut := Place(outs, cntOut, slot);
      }
    }
    assert ds[..dsin.Length] == ds;
    assert ins[..] == ins[..cntIn] && outs[..] == outs[..cntOut];
    inds, outds := ins[..], outs[..];
  }

  method Place(slots: array<Slot>, cnt: nat, slot: Slot) returns (next: nat)
    requires cnt < slots.Length
    modifies slots
    ensures next == cnt + 1 && slots[..next] == old(slots[..cnt]) + [slot]
  {
    slots[cnt] := slot;
    next := cnt + 1;
  }

  lemma PartitionStart()
    ensures Ins([]) == [] && Outs([]) == [] && InSlots([]) == [] && OutSlots([]) == []
  {
  }

  lemma PartitionStep(ds: seq<Descriptor>, n: nat)
    requires n < |ds| && forall d | d in ds :: Supported(d)
    ensures forall d | d in ds[..n] :: Supported(d)
    ensures forall d | d in ds[..n + 1] :: Supported(d)
    ensures IsOut(ds[n]) ==> TypeToFormat(ds[n].ty).Some?
    ensures InSlots(Ins(ds[..n + 1])) == InSlots(Ins(ds[..n])) + if IsIn(ds[n]) then [InSlot(ds[n])] else []
    ensures OutSlots(Outs(ds[..n + 1])) == OutSlots(Outs(ds[..n])) + if IsOut(ds[n]) then [OutSlot(ds[n])] else []
    ensures |Ins(ds[..n + 1])| <= |Ins(ds)| && |Outs(ds[..n + 1])| <= |Outs(ds)|
  {
    hide InSlot, OutSlot, TypeToFormat;
    assert ds[..n + 1][..n] == ds[..n] && ds[..n + 1][n] == ds[n];
    assert ds[n] in ds && forall d | d in ds[..n + 1] :: d in ds;
    assert forall d | d in ds[..n] :: d in ds;
    PartsGrow(ds, n + 1);
  }

  /** The sizes and the format of an output slot, in the order of the C code. */
  method MakeOutSlot(d: Descriptor) returns (slot: Slot)
    requires TypeToFormat(d.ty).Some?
    ensures slot == OutSlot(d) && slot.allocSize == AllocOf(d)
  {
    var sformat := TypeToFormat(d.ty).value;
    var stringa := Cut("\"" + d.name + "\":" + sformat, FORMAT_SIZE - 1);
    var size, alloc := |stringa| + 1 + d.size + MAXDIGITS, 64;
    if d.ty == BINARY || d.ty & VECTOR != 0 {
      size, alloc := d.size, d.size * 3 + MAXDIGITS;
      if Both(d.ty, INT32, VECTOR) {
        size, alloc := d.size * 4, d.size * 4 * 3 + MAXDIGITS;
      } else if Both(d.ty, DOUBLE, VECTOR) {
        size, alloc := d.size * 8, d.size * 8 * 3 + MAXDIGITS;
      } else if Both(d.ty, INT64, VECTOR) {
        size, alloc := d.size * 8, d.size * 8 * 3 + MAXDIGITS;
      }
    }
    slot := Slot(d.name, d.desc, d.ty, size, stringa, "", alloc);
  }

  // ------------------------------------------------------------------ the slot operations

  /** The branches of `update_attribute`. */
  method UpdateSlot(slot: Slot, v: Value) returns (t: Slot)
    requires slot.allocSize > 0 && Fits(slot.ty, slot.size, v)
    ensures t == Update(slot, v)
  {
    hide Printf;
    t := slot;
    if slot.ty == INT32 || slot.ty == INT64 {
      t := Print(t, SignedDec(v.n));
    } else if slot.ty == DOUBLE {
      t := Print(t, v.text);
    } else if slot.ty == STRING {
      t := Print(t, v.s);
    } else {
      var bsa := Base64Codec.B64Encode(v.bytes);
      var length := |bsa| - 1;
      var diff := length - t.allocSize;
      if diff > 0 {
        diff := diff + |t.format|;
        t := t.(allocSize := t.allocSize + diff);
      }
      t := Print(t, bsa[..length]);
    }
  }

  /** The loop of `register_cu` over the outputs. */
  method RegisterSlots(ds: seq<Slot>) returns (outds: seq<Slot>)
    requires forall i | 0 <= i < |ds| :: ds[i].allocSize > 0
    ensures outds == ResetSlots(ds)
  {
    hide Print, DefaultText;
    outds := ds;
    for cnt := 0 to |ds|
      invariant |outds| == |ds|
      invariant forall i | 0 <= i < |ds| :: outds[i] == if i < cnt then Print(ds[i], DefaultText(ds[i].ty)) else ds[i]
    {
      var slot := RegisterSlot(outds[cnt]);
      outds := outds[cnt := slot];
    }
  }

  /** The branches of `register_cu` for one slot. */
  method RegisterSlot(slot: Slot) returns (t: Slot)
    requires slot.allocSize > 0
    ensures t == Print(slot, DefaultText(slot.ty))
  {
    if slot.ty == INT32 || slot.ty == INT64 {
      t := Print(slot, Dec(0));
    } else if slot.ty == DOUBLE {
      t := Print(slot, "1.200000");
    } else {
      t := Print(slot, "");
    }
  }

  /** The buffer of `push_cu_int`: header, values and closing brace, each appended within the
      summed size of the slots. */
  method Assemble(cu: Cu, register: bool, seqId: nat, ts: nat) returns (buffer: string)
    requires TotalAlloc(cu.outds) > 0
    ensures buffer == Document(cu, register, seqId, ts)
  {
    hide Header, Cut;
    var ds, n := cu.outds, |cu.outds|;
    var size: nat := 0;
    for cnt := 0 to n
      invariant size == TotalAlloc(ds[..cnt])
    {
      assert ds[..cnt + 1][..cnt] == ds[..cnt];
      size := size + ds[cnt].allocSize;
    }
    assert ds[..n] == ds;
    ghost var head := Header(cu.name, register, seqId, ts, n);
    buffer := Cut(Header(cu.name, register, seqId, ts, n), size - 1);
    assert head + "" == head;
    for cnt := 0 to n
      invariant buffer == Cut(head + Joined(ds, cnt), size - 1)
    {
      var item := ds[cnt].data + if cnt + 1 == n then "" else ",";
      CutTwice(head + Joined(ds, cnt), item, size - 1);
      assert head + Joined(ds, cnt) + item == head + Joined(ds, cnt + 1);
      buffer := buffer + Cut(item, size - 1 - |buffer|);
    }
    buffer := buffer + "}";
  }
}
