/** What the scanner counts, said without the machine. */
module HetEvents {
  import opened HetScanner

  /** `idx` picks words of `ws`, left to right, that are of the kinds in `pat`. */
  ghost predicate Picks(pat: seq<Kind>, ws: seq<Word>, idx: seq<int>) {
    && |idx| == |pat|
    && (forall i | 0 <= i < |idx| :: 0 <= idx[i] < |ws| && Is(pat[i], ws[idx[i]]))
    && (forall i, j | 0 <= i < j < |idx| :: idx[i] < idx[j])
  }

  /** `pat` is a subsequence of `ws`. */
  ghost predicate Contains(pat: seq<Kind>, ws: seq<Word>) {
    exists idx :: Picks(pat, ws, idx)
  }

  /** The first marker at or after `k`, or the end. */
  function SegmentEnd(ws: seq<Word>, k: nat): (e: nat)
    requires k <= |ws|
    ensures k <= e <= |ws| && (e < |ws| ==> IsMarker(ws[e])) && forall i | k <= i < e :: !IsMarker(ws[i])
    decreases |ws| - k
  {
    if k == |ws| || IsMarker(ws[k]) then k else SegmentEnd(ws, k + 1)
  }

  /** The words between the marker at `p` and the next marker. */
  function Segment(ws: seq<Word>, p: nat): seq<Word>
    requires p < |ws|
  {
    ws[p + 1..SegmentEnd(ws, p + 1)]
  }

  /** The segment that starts with a marker at `p` contains an event. */
  ghost predicate EventAt(ws: seq<Word>, p: nat) {
    p < |ws| && IsMarker(ws[p]) && Contains(PATTERN, Segment(ws, p))
  }

  ghost function Events(ws: seq<Word>): set<nat> {
    set p: nat | p < |ws| && EventAt(ws, p)
  }

  // ------------------------------------------------------------------ subsequences

  lemma ContainsNothing(ws: seq<Word>)
    ensures Contains([], ws)
  {
    assert Picks([], ws, []);
  }

  /** The last word either takes the last place of the pattern or is not needed. */
  lemma ContainsSnoc(pat: seq<Kind>, ws: seq<Word>, w: Word)
    requires pat != []
    ensures Contains(pat, ws + [w]) <==>
            Contains(pat, ws) || (Is(pat[|pat| - 1], w) && Contains(pat[..|pat| - 1], ws))
  {
    hide Is;
    var n := |pat| - 1;
    if Contains(pat, ws) {
      var idx :| Picks(pat, ws, idx);
      assert Picks(pat, ws + [w], idx);
    }
    if Is(pat[n], w) && Contains(pat[..n], ws) {
      var idx :| Picks(pat[..n], ws, idx);
      assert Picks(pat, ws + [w], idx + [|ws|]);
    }
    if Contains(pat, ws + [w]) {
      var idx :| Picks(pat, ws + [w], idx);
      assert forall i | 0 <= i < n :: idx[i] < idx[n];
      if idx[n] < |ws| {
        assert Picks(pat, ws, idx);
      } else {
        assert Picks(pat[..n], ws, idx[..n]);
      }
    }
  }

  lemma ContainsFewer(pat: seq<Kind>, ws: seq<Word>, n: nat)
    requires Contains(pat, ws) && n <= |pat|
    ensures Contains(pat[..n], ws)
  {
    hide Is;
    var idx :| Picks(pat, ws, idx);
    assert Picks(pat[..n], ws, idx[..n]);
  }

  lemma ContainsNeedsWords(pat: seq<Kind>)
    requires pat != []
    ensures !Contains(pat, [])
  {
    var none: seq<Word> := [];
    forall idx ensures !Picks(pat, none, idx) {
      if |idx| == |pat| {
        assert !(0 <= idx[0] < |none|);
      }
    }
  }

  // ------------------------------------------------------------------ segments

  lemma {:induction false} SegmentEndSnoc(ws: seq<Word>, w: Word, k: nat)
    requires k <= |ws|
    ensures SegmentEnd(ws + [w], k) ==
            if SegmentEnd(ws, k) < |ws| || IsMarker(w) then SegmentEnd(ws, k) else |ws| + 1
    decreases |ws| - k
  {
    hide IsMarker;
    if k < |ws| && !IsMarker(ws[k]) {
      SegmentEndSnoc(ws, w, k + 1);
    }
  }

  lemma SegmentSnoc(ws: seq<Word>, w: Word, q: nat)
    requires q < |ws|
    ensures Segment(ws + [w], q) ==
            if SegmentEnd(ws, q + 1) < |ws| || IsMarker(w) then Segment(ws, q) else ws[q + 1..] + [w]
    ensures SegmentEnd(ws, q + 1) == |ws| ==> Segment(ws, q) == ws[q + 1..]
  {
    hide IsMarker, SegmentEnd;
    SegmentEndSnoc(ws, w, q + 1);
  }

  lemma EmptySegment(ws: seq<Word>, w: Word)
    ensures Segment(ws + [w], |ws|) == []
  {
  }

  /** The last marker, if there is one. */
  function LastMarker(ws: seq<Word>): (r: int)
    ensures -1 <= r < |ws| && (r >= 0 ==> IsMarker(ws[r])) && forall i | r < i < |ws| :: !IsMarker(ws[i])
  {
    if ws == [] then -1
    else if IsMarker(ws[|ws| - 1]) then |ws| - 1
    else LastMarker(ws[..|ws| - 1])
  }

  /** A further word that is no marker can only complete the last segment. */
  lemma EventsSnoc(ws: seq<Word>, w: Word)
    ensures var p := LastMarker(ws);
      Events(ws + [w]) == Events(ws) +
        (if p >= 0 && !IsMarker(w) && Contains(PATTERN, ws[p + 1..] + [w]) then {p as nat} else {})
  {
    hide IsMarker, Is, Contains, SegmentEnd, Segment;
    var all, p := ws + [w], LastMarker(ws);
    forall q: nat
      ensures EventAt(all, q) <==> EventAt(ws, q) || (q == p && !IsMarker(w) && Contains(PATTERN, ws[p + 1..] + [w]))
    {
      if q < |ws| {
        SegmentSnoc(ws, w, q);
        if q == p {
          ContainsSnoc(PATTERN, ws[p + 1..], w);
        }
      } else if q == |ws| {
        EmptySegment(ws, w);
        ContainsNeedsWords(PATTERN);
      }
    }
  }

  // ------------------------------------------------------------------ the machine

  /** The machine has matched, in the last segment, the longest prefix of the pattern that is
      a subsequence of it. */
  ghost predicate Greedy(state: ShmState, ws: seq<Word>) {
    var p := LastMarker(ws);
    if p < 0 then state.SearchHeader?
    else
      && Contains(PATTERN[..Stage(state)], ws[p + 1..])
      && (!state.SearchHeader? ==> !Contains(PATTERN[..Stage(state) + 1], ws[p + 1..]))
  }

  lemma GreedyStep(s: Scanner, ws: seq<Word>, w: Word)
    requires Greedy(s.state, ws) && !IsMarker(w) && LastMarker(ws) >= 0
    ensures Greedy(Step(s, w).state, ws + [w])
    ensures Step(s, w).events == s.events +
            var seg := ws[LastMarker(ws) + 1..];
            if Contains(PATTERN, seg + [w]) && !Contains(PATTERN, seg) then 1 else 0
  {
    hide IsMarker, Is, Contains, Step;
    var seg := ws[LastMarker(ws) + 1..];
    assert (ws + [w])[..|ws|] == ws && LastMarker(ws + [w]) == LastMarker(ws);
    assert (ws + [w])[LastMarker(ws) + 1..] == seg + [w];
    var k := Stage(s.state);
    StageStep(s, w);
    assert PATTERN[..5] == PATTERN;
    if k == 5 {
      ContainsSnoc(PATTERN, seg, w);
    } else {
      NextStage(seg, w, k);
      NotYet(seg, w, k);
    }
  }

  lemma StageStep(s: Scanner, w: Word)
    requires !IsMarker(w)
    ensures var k, next := Stage(s.state), Step(s, w);
      && (k == 5 ==> next.state == s.state)
      && (k < 5 ==> Stage(next.state) == if Is(PATTERN[k], w) then k + 1 else k)
      && next.events == if k == 4 && Is(PATTERN[k], w) then s.events + 1 else s.events
  {
    hide IsMarker, Is;
    var next := Step(s, w);
    KindOrder(s, w, next.state, next.events != s.events);
  }

  lemma NextStage(seg: seq<Word>, w: Word, k: nat)
    requires k < 5 && Contains(PATTERN[..k], seg) && !Contains(PATTERN[..k + 1], seg)
    ensures Contains(PATTERN[..k], seg + [w])
    ensures Contains(PATTERN[..k + 1], seg + [w]) <==> Is(PATTERN[k], w)
  {
    hide Is, Contains;
    assert PATTERN[..k + 1][..k] == PATTERN[..k] && PATTERN[..k + 1][k] == PATTERN[k];
    ContainsSnoc(PATTERN[..k + 1], seg, w);
    if k > 0 {
      ContainsSnoc(PATTERN[..k], seg, w);
    } else {
      assert PATTERN[..0] == [];
      ContainsNothing(seg + [w]);
    }
  }

  /** One word takes the match at most one place further. */
  lemma NotYet(seg: seq<Word>, w: Word, k: nat)
    requires k < 5 && !Contains(PATTERN[..k + 1], seg)
    ensures k < 4 ==> !Contains(PATTERN[..k + 2], seg + [w])
    ensures k < 4 ==> !Contains(PATTERN, seg + [w])
    ensures !Contains(PATTERN, seg)
  {
    hide Is;
    assert PATTERN[..5] == PATTERN && PATTERN[..5][..k + 1] == PATTERN[..k + 1];
    if Contains(PATTERN, seg) {
      ContainsFewer(PATTERN, seg, k + 1);
    }
    if k < 4 {
      var two := PATTERN[..k + 2];
      assert two[..k + 1] == PATTERN[..k + 1] == PATTERN[..k + 2][..k + 1];
      ContainsSnoc(two, seg, w);
      if Contains(two, seg) {
        ContainsFewer(two, seg, k + 1);
      }
      if Contains(PATTERN, seg + [w]) {
        ContainsFewer(PATTERN, seg + [w], k + 2);
      }
    }
  }

  /** One further word keeps the machine in step with the events. */
  lemma CountStep(s: Scanner, ws: seq<Word>, w: Word)
    requires Greedy(s.state, ws) && s.events == |Events(ws)|
    ensures Greedy(Step(s, w).state, ws + [w]) && Step(s, w).events == |Events(ws + [w])|
  {
    hide Is, Contains, Events, Segment, SegmentEnd, Step;
    var p := LastMarker(ws);
    EventsSnoc(ws, w);
    assert (ws + [w])[..|ws|] == ws;
    if IsMarker(w) {
      MarkerStep(s, ws, w);
      assert Events(ws) + {} == Events(ws);
    } else if p < 0 {
      StageStep(s, w);
      assert Events(ws) + {} == Events(ws);
    } else {
      var done := Contains(PATTERN, ws[p + 1..]);
      GreedyStep(s, ws, w);
      LastEvent(ws, p);
      ContainsSnoc(PATTERN, ws[p + 1..], w);
      var added: set<nat> := if Contains(PATTERN, ws[p + 1..] + [w]) then {p} else {};
      assert Events(ws + [w]) == Events(ws) + added;
      AddOne(Events(ws), p);
      assert done ==> p in Events(ws);
      assert added == {} ==> Events(ws) + added == Events(ws);
    }
  }

  lemma AddOne(s: set<nat>, p: nat)
    ensures |s + {p}| == |s| + if p in s then 0 else 1
  {
    if p in s {
      assert s + {p} == s;
    }
  }

  lemma MarkerStep(s: Scanner, ws: seq<Word>, w: Word)
    requires IsMarker(w)
    ensures Step(s, w) == s.(state := Header1Found) && Greedy(Header1Found, ws + [w])
  {
    hide Contains, Is, IsMarker;
    assert (ws + [w])[..|ws|] == ws && LastMarker(ws + [w]) == |ws|;
    assert (ws + [w])[|ws| + 1..] == [] && PATTERN[..0] == [];
    ContainsNothing([]);
    ContainsNeedsWords(PATTERN[..1]);
  }

  /** The scanner counts the segments that contain an event, each once, and nothing else. */
  lemma {:induction false} ScannerCountsEvents(ws: seq<Word>)
    ensures Count(ws) == |Events(ws)|
    ensures Greedy(Run(Scanner(SearchHeader, 0, 0), ws).state, ws)
    decreases |ws|
  {
    hide Step, Greedy;
    if ws == [] {
      assert Events(ws) == {};
      NothingMatched();
    } else {
      var a, w := ws[..|ws| - 1], ws[|ws| - 1];
      assert ws == a + [w];
      ScannerCountsEvents(a);
      CountStep(Run(Scanner(SearchHeader, 0, 0), a), a, w);
    }
  }

  lemma NothingMatched()
    ensures Greedy(SearchHeader, [])
  {
  }

  lemma LastEvent(ws: seq<Word>, p: nat)
    requires p == LastMarker(ws)
    ensures p in Events(ws) <==> Contains(PATTERN, ws[p + 1..])
  {
    hide IsMarker;
    assert Segment(ws, p) == ws[p + 1..];
  }
}
