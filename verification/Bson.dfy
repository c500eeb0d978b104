/**
  The BSON value extractor of chaos_crest.c: a scan that strips blanks, quotes and the outer
  braces, and that is run a second time on its own output buffer.
*/
module Bson {
  import opened CText

  const MATCH_SIZE: nat := 256

  // ------------------------------------------------------------------ what is extracted

  /** Where the value of `key` starts: after the quoted key, or else after the bare one. */
  function ValueStart(s: string, key: string): (r: Option<nat>)
    ensures r.Some? ==> 0 < r.value <= |s|
  {
    var quoted := QuotedKey(key);
    var at := Find(s, quoted);
    if at.Some? then Some(at.value + |quoted|)
    else
      var bare := BareKey(key);
      var at := Find(s, bare);
      if at.Some? then Some(at.value + |bare|) else None
  }

  /** Where the scan stops; `brace` counts the open braces. */
  predicate Ends(c: char, brace: int) {
    c == ',' || (c == '}' && brace == 1)
  }

  /** Blanks and quotes are left out, and the outermost open brace. */
  predicate LeftOut(c: char, brace: int) {
    c == ' ' || c == '"' || (c == '{' && brace == 0)
  }

  function NextBrace(c: char, brace: int): int {
    if c == '{' then brace + 1 else if c == '}' then brace - 1 else brace
  }

  /** The scan from the start of a value, with room for `room` more characters. */
  function Scan(s: string, brace: int, room: nat): (v: string)
    ensures |v| <= |s| && |v| <= room
    ensures forall i | 0 <= i < |v| :: v[i] in s
    decreases |s|
  {
    if s == "" || room == 0 || Ends(s[0], brace) then ""
    else if LeftOut(s[0], brace) then Scan(s[1..], NextBrace(s[0], brace), room)
    else [s[0]] + Scan(s[1..], NextBrace(s[0], brace), room - 1)
  }

  function BsonValue(s: string, key: string, maxsize: nat): string {
    var at := ValueStart(s, key);
    if at.None? then "" else Scan(s[at.value..], 0, maxsize)
  }

  /** A bound on the value cuts it and changes nothing else. */
  lemma {:induction false} ScanCut(s: string, brace: int, n: nat, m: nat)
    requires n <= m
    ensures Scan(s, brace, n) == Cut(Scan(s, brace, m), n)
    decreases |s|
  {
    hide Scan, Cut, Ends, LeftOut, NextBrace;
    ScanStep(s, brace, n);
    ScanStep(s, brace, m);
    if s != "" && n > 0 && !Ends(s[0], brace) {
      var next := NextBrace(s[0], brace);
      if LeftOut(s[0], brace) {
        ScanCut(s[1..], next, n, m);
      } else {
        ScanCut(s[1..], next, n - 1, m - 1);
        CutMore([s[0]], Scan(s[1..], next, m - 1), n);
      }
    }
  }

  lemma ScanStep(s: string, brace: int, room: nat)
    ensures Scan(s, brace, room) ==
            if s == "" || room == 0 || Ends(s[0], brace) then ""
            else if LeftOut(s[0], brace) then Scan(s[1..], NextBrace(s[0], brace), room)
            else [s[0]] + Scan(s[1..], NextBrace(s[0], brace), room - 1)
  {
  }

  lemma CutMore(c: string, v: string, n: nat)
    requires |c| == 1 <= n
    ensures Cut(c + v, n) == c + Cut(v, n - 1)
  {
  }

  /** The value without a bound. */
  function FullValue(s: string, key: string): string {
    BsonValue(s, key, |s|)
  }

  /** The extracted value is the whole value cut to `maxsize` characters, and it leaves no
      room for a NUL exactly when the whole value has that many. */
  lemma ValueIsCut(s: string, key: string, maxsize: nat)
    ensures BsonValue(s, key, maxsize) == Cut(FullValue(s, key), maxsize)
    ensures |BsonValue(s, key, maxsize)| == maxsize <==> |FullValue(s, key)| >= maxsize
  {
    hide Scan, ValueStart;
    var at := ValueStart(s, key);
    if at.Some? {
      var v := s[at.value..];
      if maxsize <= |s| {
        ScanCut(v, 0, maxsize, |s|);
      } else {
        ScanCut(v, 0, |s|, maxsize);
      }
    }
  }

  // ------------------------------------------------------------------ the C functions

  lemma {:induction false} CStrShape(b: string)
    requires NUL in b
    ensures var s := CStr(b);
      |s| < |b| && s == b[..|s|] && b[|s|] == NUL
  {
    if b[0] != NUL {
      CStrShape(b[1..]);
    }
  }

  /**
    `getBsonValue_r`. `input` and `buffer` may be the same array: the write index stays
    behind the read index, so no character is overwritten before it has been read. When the
    value fills the buffer, `overrun` reports that C would write the NUL behind it.
  */
  method GetBsonValueR(input: array<char>, key: string, buffer: array<char>, maxsize: nat) returns (overrun: bool)
    requires NUL in input[..] && maxsize <= buffer.Length
    modifies buffer
    ensures overrun <==> maxsize == buffer.Length <= |FullValue(old(CStr(input[..])), key)|
    ensures var v := Cut(FullValue(old(CStr(input[..])), key), maxsize);
      buffer[..|v|] == v && (!overrun ==> buffer[|v|] == NUL && CStr(buffer[..]) == v)
  {
    hide Scan, ValueStart, StartsValue, FullValue;
    CStrShape(input[..]);
    ghost var text := CStr(input[..]);
    ghost var value := BsonValue(text, key, maxsize);
    ValueIsCut(text, key, maxsize);
    assert NUL !in value by { NoNul(text, key, maxsize); }
    var start := FindStart(input, key);
    StartIsUnique(text, key, start);
    var cnt: nat := 0;
    if start.Some? {
      cnt := ScanValue(input, start.value, buffer, maxsize, text);
    }
    assert buffer[..cnt] == value;
    if cnt == buffer.Length {
      return true;
    }
    ghost var before := buffer[..cnt];
    buffer[cnt] := NUL;
    assert buffer[..cnt] == before;
    Terminated(buffer[..], value);
    return false;
  }

  /** The loop of `getBsonValue_r`: the characters written to the front of `buffer`. */
  method ScanValue(input: array<char>, start: nat, buffer: array<char>, maxsize: nat, ghost text: string)
    returns (cnt: nat)
    requires NUL in input[..] && text == CStr(input[..]) && 0 < start <= |text| && maxsize <= buffer.Length
    modifies buffer
    ensures cnt <= maxsize && buffer[..cnt] == Scan(text[start..], 0, maxsize)
  {
    hide Scan;
    CStrShape(input[..]);
    ghost var was, value := input[..], Scan(text[start..], 0, maxsize);
    var brace, pnt: nat := 0, start;
    cnt := 0;
    assert buffer[..0] + value == value;
    while input[pnt] != NUL && input[pnt] != ',' && cnt < maxsize
      invariant cnt < pnt <= |text| && cnt <= maxsize
      invariant forall i | pnt <= i < input.Length :: input[i] == was[i]
      invariant value == buffer[..cnt] + Scan(text[pnt..], brace, maxsize - cnt)
      decreases |text| - pnt
    {
      var c := input[pnt];
      ScanAt(text, pnt, brace, maxsize - cnt);
      pnt := pnt + 1;
      if c == ' ' || c == '"' {
        continue;
      }
      if c == '{' {
        brace := brace + 1;
        if brace == 1 {
          continue;
        }
      }
      if c == '}' {
        if brace == 1 {
          assert value == buffer[..cnt] + "" == buffer[..cnt];
          return;
        }
        brace := brace - 1;
      }
      ghost var before, rest := buffer[..cnt], Scan(text[pnt..], brace, maxsize - (cnt + 1));
      assert before + ([c] + rest) == before + [c] + rest;
      buffer[cnt] := c;
      cnt := cnt + 1;
      assert buffer[..cnt] == before + [c];
    }
    ScanEnd(text, pnt, brace, maxsize - cnt);
    assert buffer[..cnt] + "" == buffer[..cnt];
  }

  lemma Terminated(buffer: string, value: string)
    requires |value| < |buffer| && buffer[..|value|] == value && buffer[|value|] == NUL && NUL !in value
    ensures CStr(buffer) == value
  {
    assert buffer == value + [NUL] + buffer[|value| + 1..];
    CStrOfTerminated(value, buffer[|value| + 1..]);
  }

  lemma NoNul(text: string, key: string, maxsize: nat)
    requires NUL !in text
    ensures NUL !in BsonValue(text, key, maxsize)
  {
  }

  lemma ScanAt(text: string, pnt: nat, brace: int, room: nat)
    requires pnt < |text| && text[pnt] != ',' && room > 0
    ensures var c, rest := text[pnt], text[pnt + 1..];
      Scan(text[pnt..], brace, room) ==
        if Ends(c, brace) then ""
        else if LeftOut(c, brace) then Scan(rest, NextBrace(c, brace), room)
        else [c] + Scan(rest, NextBrace(c, brace), room - 1)
  {
    assert text[pnt..][1..] == text[pnt + 1..];
  }

  lemma ScanEnd(text: string, pnt: nat, brace: int, room: nat)
    requires pnt <= |text| && (pnt < |text| ==> text[pnt] == ',' || room == 0)
    ensures Scan(text[pnt..], brace, room) == ""
  {
  }

  /** `needle` occurs in `s` at `k` and nowhere before. */
  predicate FirstAt(s: string, needle: string, k: nat) {
    k <= |s| && needle <= s[k..] && forall j | 0 <= j < k :: !(needle <= s[j..])
  }

  predicate Nowhere(s: string, needle: string) {
    forall j | 0 <= j <= |s| :: !(needle <= s[j..])
  }

  function QuotedKey(key: string): string {
    Cut("\"" + key + "\" :", MATCH_SIZE - 1)
  }

  function BareKey(key: string): string {
    Cut(key + ":", MATCH_SIZE - 1)
  }

  /** The value starts right behind the first quoted key, or, when there is none, behind the
      first bare one; without either there is no value. */
  predicate StartsValue(s: string, key: string, start: Option<nat>) {
    var quoted, bare := QuotedKey(key), BareKey(key);
    match start
    case None => Nowhere(s, quoted) && Nowhere(s, bare)
    case Some(p) =>
      || (p >= |quoted| && FirstAt(s, quoted, p - |quoted|))
      || (Nowhere(s, quoted) && p >= |bare| && FirstAt(s, bare, p - |bare|))
  }

  lemma StartIsUnique(s: string, key: string, start: Option<nat>)
    requires StartsValue(s, key, start)
    ensures start == ValueStart(s, key)
  {
    hide Find, FirstAt, Nowhere, QuotedKey, BareKey;
    var quoted, bare := QuotedKey(key), BareKey(key);
    if start.Some? && start.value >= |quoted| {
      FirstIsUnique(s, quoted, start.value - |quoted|);
    }
    if start.Some? && start.value >= |bare| {
      FirstIsUnique(s, bare, start.value - |bare|);
    }
    if Nowhere(s, quoted) {
      NowhereIsNone(s, quoted);
    }
    if Nowhere(s, bare) {
      NowhereIsNone(s, bare);
    }
  }

  lemma FoundIsFirst(s: string, needle: string)
    ensures match Find(s, needle) case None => Nowhere(s, needle) case Some(k) => FirstAt(s, needle, k)
  {
    var r := Find(s, needle);
    if r.Some? {
      assert s[r.value..][..|needle|] == s[r.value..r.value + |needle|];
    }
  }

  lemma FirstIsUnique(s: string, needle: string, k: nat)
    ensures FirstAt(s, needle, k) ==> Find(s, needle) == Some(k)
  {
    hide Find;
    if FirstAt(s, needle, k) {
      FindAt(s, needle, k);
    }
  }

  lemma NowhereIsNone(s: string, needle: string)
    requires Nowhere(s, needle)
    ensures Find(s, needle).None?
  {
    hide Find;
    FoundIsFirst(s, needle);
  }

  /** The two `strstr` calls. */
  method FindStart(input: array<char>, key: string) returns (start: Option<nat>)
    ensures StartsValue(CStr(input[..]), key, start)
  {
    hide Find, FirstAt, Nowhere, CStr;
    var s := CStr(input[..]);
    FoundIsFirst(s, QuotedKey(key));
    FoundIsFirst(s, BareKey(key));
    var match1 := Cut("\"" + key + "\" :", MATCH_SIZE - 1);
    var at := Find(s, match1);
    if at.None? {
      var match2 := Cut(key + ":", MATCH_SIZE - 1);
      at := Find(s, match2);
      return if at.Some? then Some(at.value + |match2|) else None;
    }
    return Some(at.value + |match1|);
  }

  function Unquoted(s: string): (t: string)
    ensures |t| <= |s| && forall i | 0 <= i < |t| :: t[i] in s && t[i] != '"'
  {
    if s == "" then ""
    else if s[0] == '"' then Unquoted(s[1..])
    else [s[0]] + Unquoted(s[1..])
  }

  lemma {:induction false} UnquotedAppend(a: string, b: string)
    ensures Unquoted(a + b) == Unquoted(a) + Unquoted(b)
    decreases |a|
  {
    if a == "" {
      assert a + b == b;
    } else {
      assert (a + b)[1..] == a[1..] + b;
      UnquotedAppend(a[1..], b);
    }
  }

  /** `clean_bson`: removes the quotes in place. */
  method CleanBson(buf: array<char>)
    requires NUL in buf[..]
    modifies buf
    ensures CStr(buf[..]) == Unquoted(old(CStr(buf[..])))
  {
    hide Unquoted;
    CStrShape(buf[..]);
    ghost var text, was := CStr(buf[..]), buf[..];
    var dst: nat, src: nat := 0, 0;
    UnquotedAt(text, 0);
    while buf[src] != NUL
      invariant dst <= src <= |text|
      invariant forall i | src <= i < buf.Length :: buf[i] == was[i]
      invariant buf[..dst] == Unquoted(text[..src])
      decreases |text| - src
    {
      UnquotedAt(text, src);
      if buf[src] == '"' {
        src := src + 1;
        continue;
      }
      ghost var before := buf[..dst];
      buf[dst] := buf[src];
      dst, src := dst + 1, src + 1;
      assert buf[..dst] == before + [text[src - 1]];
    }
    assert text[..src] == text;
    ghost var before := buf[..dst];
    buf[dst] := NUL;
    assert buf[..dst] == before == Unquoted(text);
    Terminated(buf[..], before);
  }

  lemma UnquotedAt(text: string, k: nat)
    requires k <= |text|
    ensures k == 0 ==> Unquoted(text[..k]) == ""
    ensures k < |text| ==>
              Unquoted(text[..k + 1]) == Unquoted(text[..k]) + if text[k] == '"' then "" else [text[k]]
  {
    if k < |text| {
      assert text[..k + 1] == text[..k] + [text[k]];
      UnquotedAppend(text[..k], [text[k]]);
    }
  }

  /** `atoll`, and the conversion of its result to an unsigned 64-bit number. */
  function Atoll(s: string): nat {
    var t := SkipSpace(s);
    var signed := t != "" && (t[0] == '-' || t[0] == '+');
    var n: int := ReadDigits(if signed then t[1..] else t, 10, 0).0;
    Clamp(if signed && t[0] == '-' then -n else n, -TWO63, TWO63 - 1) % TWO64
  }

  const VALUE_SIZE: nat := 1024

  /** What `chaos_crest_cu_get` makes of an answer: two extractions, one on top of the other. */
  function Timestamp(ret: int, doc: string): nat {
    var digits := BsonValue(BsonValue(doc, "dpck_ts", VALUE_SIZE), "$numberLong", VALUE_SIZE);
    if ret == 200 && digits != "" then Atoll(digits) else 0
  }

  /** `chaos_crest_cu_get` after the request has come back with `ret`; `tmp` is the static
      buffer of `getBsonValue`, read and written at once by the second extraction. */
  method CuGet(ret: int, output: array<char>, tmp: array<char>) returns (ts: nat, overrun: bool)
    requires NUL in output[..] && tmp.Length == VALUE_SIZE && output != tmp
    modifies tmp
    ensures overrun <==> ret == 200 && |FullValue(CStr(output[..]), "dpck_ts")| >= VALUE_SIZE
    ensures !overrun ==> ts == Timestamp(ret, CStr(output[..]))
    ensures ret != 200 ==> ts == 0
  {
    hide BsonValue, FullValue;
    ts, overrun := 0, false;
    if ret == 200 {
      ghost var text := CStr(output[..]);
      overrun := GetBsonValueR(output, "dpck_ts", tmp, VALUE_SIZE);
      if overrun {
        return;
      }
      ValueIsCut(text, "dpck_ts", VALUE_SIZE);
      ghost var sub := CStr(tmp[..]);
      ValueIsCut(sub, "$numberLong", VALUE_SIZE);
      FullIsShorter(sub, "$numberLong");
      overrun := GetBsonValueR(tmp, "$numberLong", tmp, VALUE_SIZE);
      if tmp[0] != NUL {
        ts := Atoll(CStr(tmp[..]));
      }
    }
  }

  lemma FullIsShorter(s: string, key: string)
    ensures |FullValue(s, key)| <= |s|
  {
  }
}
