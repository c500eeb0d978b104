/** Blocks and byte order: what is lost between two blocks, and what reaches the encoder. */
module HetBlocks {
  import opened HetScanner
  import opened HetEvents

  // ------------------------------------------------------------------ block boundaries

  /** An event that begins in `a` and is only complete in `b`. */
  ghost predicate Straddles(a: seq<Word>, b: seq<Word>) {
    exists p: nat :: p < |a| && EventAt(a + b, p) && !EventAt(a, p)
  }

  /** The words of a block before its first marker. */
  function Leading(b: seq<Word>): seq<Word> {
    b[..SegmentEnd(b, 0)]
  }

  /** From any state, the machine gains at most one event until the first marker. */
  lemma {:induction false} OneBeforeMarker(s: Scanner, b: seq<Word>)
    requires forall i | 0 <= i < |b| :: !IsMarker(b[i])
    ensures s.events <= Run(s, b).events <= s.events + 1
    ensures Run(s, b).events == s.events + 1 || s.state.SearchHeader? ==> Run(s, b).state.SearchHeader?
    ensures s.state.SearchHeader? ==> Run(s, b) == s
    decreases |b|
  {
    if b != [] {
      hide Is, IsMarker;
      OneBeforeMarker(s, b[..|b| - 1]);
    }
  }

  /** Two runs over a block that starts with a marker, or is empty, gain the same. */
  lemma SameFromMarker(s: Scanner, t: Scanner, b: seq<Word>)
    requires b == [] || IsMarker(b[0])
    ensures Run(s, b).events - s.events == Run(t, b).events - t.events
  {
    hide Is, IsMarker, Run;
    if b == [] {
      StartRun(s);
      StartRun(t);
    } else {
      var first, rest := b[..1], b[1..];
      assert b == first + rest && first == [] + [b[0]];
      RunAppend(s, first, rest);
      RunAppend(t, first, rest);
      RunSnoc(s, [], b[0]);
      RunSnoc(t, [], b[0]);
      StartRun(s);
      StartRun(t);
      RunShift(Header1Found, s.events, s.t2, t.events, t.t2, rest);
    }
  }

  /** What a block gains when the scanner enters it in some other state. */
  lemma GainSplits(s: Scanner, b: seq<Word>)
    ensures Run(s, b).events == Run(s, Leading(b)).events + Count(b)
  {
    hide Run, SegmentEnd;
    var lead, rest := Leading(b), b[SegmentEnd(b, 0)..];
    assert b == lead + rest;
    var idle := Scanner(SearchHeader, 0, 0);
    RunAppend(s, lead, rest);
    RunAppend(idle, lead, rest);
    OneBeforeMarker(idle, lead);
    SameFromMarker(Run(s, lead), idle, rest);
    StartRun(idle);
  }

  lemma LeadingEvents(a: seq<Word>, b: seq<Word>, p: nat)
    requires p < |a|
    ensures EventAt(a + b, p) <==> EventAt(a + Leading(b), p)
  {
    hide IsMarker, Contains;
    var c := a + Leading(b);
    if IsMarker(a[p]) {
      SameEnd(a, b, p + 1);
      assert Segment(a + b, p) == Segment(c, p);
    }
  }

  lemma {:induction false} SameEnd(a: seq<Word>, b: seq<Word>, k: nat)
    requires k <= |a|
    ensures SegmentEnd(a + b, k) == SegmentEnd(a + Leading(b), k)
    decreases |a| - k
  {
    hide IsMarker;
    if k < |a| {
      if !IsMarker(a[k]) {
        SameEnd(a, b, k + 1);
      }
    } else {
      EndFrom(a, b);
      EndFrom(a, Leading(b));
      LeadingEnd(b);
    }
  }

  /** SegmentEnd finds the only place with its properties. */
  lemma EndIs(ws: seq<Word>, k: nat, e: nat)
    requires k <= e <= |ws| && (e < |ws| ==> IsMarker(ws[e])) && forall i | k <= i < e :: !IsMarker(ws[i])
    ensures SegmentEnd(ws, k) == e
  {
    hide IsMarker;
  }

  lemma EndFrom(a: seq<Word>, b: seq<Word>)
    ensures SegmentEnd(a + b, |a|) == |a| + SegmentEnd(b, 0)
  {
    hide IsMarker, SegmentEnd;
    var e := SegmentEnd(b, 0);
    assert forall i | |a| <= i < |a| + e :: (a + b)[i] == b[i - |a|];
    EndIs(a + b, |a|, |a| + e);
  }

  lemma LeadingEnd(b: seq<Word>)
    ensures SegmentEnd(Leading(b), 0) == SegmentEnd(b, 0)
  {
    hide IsMarker, SegmentEnd;
    EndIs(Leading(b), 0, |Leading(b)|);
  }

  /** Events of a block stay events when more words follow. */
  lemma {:induction false} EventsGrow(a: seq<Word>, b: seq<Word>)
    ensures Events(a) <= Events(a + b)
    decreases |b|
  {
    hide Events;
    if b == [] {
      assert a + b == a;
    } else {
      var c, w := b[..|b| - 1], b[|b| - 1];
      EventsGrow(a, c);
      assert a + b == a + c + [w];
      EventsSnoc(a + c, w);
    }
  }

  /** Reading a stream in two blocks loses exactly the event that straddles the boundary:
      one if there is one, none otherwise. */
  lemma BlocksLoseStraddler(a: seq<Word>, b: seq<Word>)
    ensures Count(a + b) == Count(a) + Count(b) + if Straddles(a, b) then 1 else 0
  {
    hide Run, Events, EventAt, SegmentEnd;
    var idle := Scanner(SearchHeader, 0, 0);
    var s, lead := Run(idle, a), Leading(b);
    RunAppend(idle, a, b);
    RunAppend(idle, a, lead);
    GainSplits(s, b);
    OneBeforeMarker(s, lead);
    ScannerCountsEvents(a);
    ScannerCountsEvents(a + lead);
    EventsGrow(a, lead);
    StraddlerIsNew(a, b);
    NewIsOne(Events(a), Events(a + lead));
  }

  lemma StraddlerIsNew(a: seq<Word>, b: seq<Word>)
    ensures Straddles(a, b) <==> Events(a + Leading(b)) - Events(a) != {}
  {
    hide Segment, Contains, IsMarker;
    var c := a + Leading(b);
    forall p: nat
      ensures p in Events(c) - Events(a) <==> p < |a| && EventAt(a + b, p) && !EventAt(a, p)
    {
      if p < |a| {
        LeadingEvents(a, b, p);
      } else if p < |c| {
        assert c[p] == b[p - |a|];
      }
    }
    if Straddles(a, b) {
      var p: nat :| p < |a| && EventAt(a + b, p) && !EventAt(a, p);
      assert p in Events(c) - Events(a);
    }
    if Events(c) - Events(a) != {} {
      var p :| p in Events(c) - Events(a);
      assert p < |a| && EventAt(a + b, p) && !EventAt(a, p);
    }
  }

  lemma NewIsOne(a: set<nat>, b: set<nat>)
    requires a <= b && |b| <= |a| + 1
    ensures |b| == |a| + if b - a != {} then 1 else 0
  {
    assert b == a + (b - a);
  }

  // ------------------------------------------------------------------ byte order

  /** A word in memory on a little-endian, and on a big-endian, machine. */
  function LittleEndian(w: Word): seq<bv8> {
    [(w & 0xff) as bv8, ((w >> 8) & 0xff) as bv8, ((w >> 16) & 0xff) as bv8, (w >> 24) as bv8]
  }

  function BigEndian(w: Word): seq<bv8> {
    [(w >> 24) as bv8, ((w >> 16) & 0xff) as bv8, ((w >> 8) & 0xff) as bv8, (w & 0xff) as bv8]
  }

  /** The bytes of a word array in memory. */
  function Memory(ws: seq<Word>, big: bool): (m: seq<bv8>)
    ensures |m| == 4 * |ws|
  {
    if ws == [] then [] else (if big then BigEndian(ws[0]) else LittleEndian(ws[0])) + Memory(ws[1..], big)
  }

  /** The word that four bytes make up, lowest first. */
  function JoinWord(a: bv8, b: bv8, c: bv8, d: bv8): Word {
    a as bv32 | (b as bv32 << 8) | (c as bv32 << 16) | (d as bv32 << 24)
  }

  /** What a reader on the other end makes of the bytes. */
  function Reassemble(m: seq<bv8>): seq<Word> {
    if |m| < 4 then [] else [JoinWord(m[0], m[1], m[2], m[3])] + Reassemble(m[4..])
  }

  /** The order of the bytes, on one word. */
  lemma ByteOrder()
    ensures LittleEndian(0x01020304) == [4, 3, 2, 1] && BigEndian(0x01020304) == [1, 2, 3, 4]
    ensures EndianSwap(0x01020304) == 0x04030201 && JoinWord(4, 3, 2, 1) == 0x01020304
  {
  }

  lemma SwapBytes(w: Word)
    ensures BigEndian(EndianSwap(w)) == LittleEndian(w)
  {
  }

  lemma JoinBytes(w: Word)
    ensures |LittleEndian(w)| == 4
    ensures var m := LittleEndian(w);
      JoinWord(m[0], m[1], m[2], m[3]) == w
  {
  }

  /** The big-endian build, which swaps, and the little-endian one, which copies, leave the
      same bytes in memory. */
  lemma {:induction false} BuildsAgree(ws: seq<Word>)
    ensures Memory(Swapped(ws), true) == Memory(ws, false)
  {
    if ws != [] {
      hide EndianSwap, BigEndian, LittleEndian;
      SwapBytes(ws[0]);
      assert Swapped(ws)[1..] == Swapped(ws[1..]);
      BuildsAgree(ws[1..]);
    }
  }

  /** Reading the bytes as little-endian words gives the block back. */
  lemma {:induction false} ReassembleMemory(ws: seq<Word>)
    ensures Reassemble(Memory(ws, false)) == ws
  {
    hide JoinWord, LittleEndian, BigEndian;
    if ws != [] {
      var first, rest := LittleEndian(ws[0]), Memory(ws[1..], false);
      JoinBytes(ws[0]);
      FirstFour(first, rest);
      ReassembleMemory(ws[1..]);
    }
  }

  lemma FirstFour(first: seq<bv8>, rest: seq<bv8>)
    requires |first| == 4
    ensures Reassemble(first + rest) == [JoinWord(first[0], first[1], first[2], first[3])] + Reassemble(rest)
  {
    hide JoinWord;
    assert (first + rest)[4..] == rest;
  }
}
