/** What the extractor returns for the values that occur in a document. */
module BsonLaws {
  import opened CText
  import opened Bson

  /** The text without blanks and quotes. */
  function Strip(a: string): (t: string)
    ensures |t| <= |a|
  {
    if a == "" then ""
    else if a[0] == ' ' || a[0] == '"' then Strip(a[1..])
    else [a[0]] + Strip(a[1..])
  }

  /** No separator and no brace. */
  predicate Flat(a: string) {
    forall i | 0 <= i < |a| :: a[i] != ',' && a[i] != '{' && a[i] != '}' && a[i] != NUL
  }

  lemma {:induction false} StripAppend(a: string, b: string)
    ensures Strip(a + b) == Strip(a) + Strip(b)
    decreases |a|
  {
    if a == "" {
      assert a + b == b;
    } else {
      assert (a + b)[1..] == a[1..] + b;
      StripAppend(a[1..], b);
    }
  }

  lemma {:induction false} StripClean(a: string)
    requires forall i | 0 <= i < |a| :: a[i] != ' ' && a[i] != '"'
    ensures Strip(a) == a
    decreases |a|
  {
    if a != "" {
      StripClean(a[1..]);
    }
  }

  // ------------------------------------------------------------------ every value

  function Occurrences(s: string, c: char): nat {
    if s == "" then 0 else Occurrences(s[..|s| - 1], c) + if s[|s| - 1] == c then 1 else 0
  }

  /** How many braces are open before the character at `k`. */
  function Depth(s: string, k: nat): int
    requires k <= |s|
  {
    Occurrences(s[..k], '{') - Occurrences(s[..k], '}')
  }

  /** Where a value ends: at the first comma, or at the brace that closes its outermost one. */
  function EndOf(s: string, k: nat): (e: nat)
    requires k <= |s|
    ensures k <= e <= |s| && (e < |s| ==> s[e] == ',' || (s[e] == '}' && Depth(s, e) == 1))
    ensures forall i | k <= i < e :: s[i] != ',' && !(s[i] == '}' && Depth(s, i) == 1)
    decreases |s| - k
  {
    if k == |s| || s[k] == ',' || (s[k] == '}' && Depth(s, k) == 1) then k else EndOf(s, k + 1)
  }

  /** The first `k` characters without blanks, quotes and the open braces that no other one
      encloses. */
  function Kept(s: string, k: nat): string
    requires k <= |s|
  {
    if k == 0 then ""
    else
      var c := s[k - 1];
      Kept(s, k - 1) + if c == ' ' || c == '"' || (c == '{' && Depth(s, k - 1) == 0) then "" else [c]
  }

  /** On every text the scan returns what is kept up to the end of the value. */
  lemma ScanExact(s: string)
    ensures Scan(s, 0, |s|) == Kept(s, EndOf(s, 0))
  {
    assert s[0..] == s && Depth(s, 0) == 0;
    KeptFrom(s, 0, |s|);
    assert "" + Scan(s, 0, |s|) == Scan(s, 0, |s|);
  }

  lemma {:induction false} KeptFrom(s: string, k: nat, room: nat)
    requires k <= |s| && room >= |s| - k
    ensures Kept(s, EndOf(s, k)) == Kept(s, k) + Scan(s[k..], Depth(s, k), room)
    decreases |s| - k
  {
    hide Scan, Depth;
    ScanStep(s[k..], Depth(s, k), room);
    if k < |s| {
      assert s[k..][0] == s[k] && s[k..][1..] == s[k + 1..];
      NextDepth(s, k);
      if !Ends(s[k], Depth(s, k)) {
        KeptFrom(s, k + 1, if LeftOut(s[k], Depth(s, k)) then room else room - 1);
      }
    }
  }

  lemma NextDepth(s: string, k: nat)
    requires k < |s|
    ensures Depth(s, k + 1) == NextBrace(s[k], Depth(s, k))
  {
    assert s[..k + 1][..k] == s[..k];
  }

  /** What is extracted for a key, on every document that holds it. */
  lemma ValueExact(pre: string, key: string, tail: string)
    requires KeyAt(pre, key, tail)
    ensures FullValue(Doc(pre, key, tail), key) == Kept(tail, EndOf(tail, 0))
  {
    hide Scan, KeyAt;
    var n := |Doc(pre, key, tail)|;
    ValueAfter(pre, key, tail, n);
    ScanCut(tail, 0, |tail|, n);
    ScanExact(tail);
  }

  // ------------------------------------------------------------------ sub-documents

  /** No comma, and no brace is closed that was not opened, with `depth` of them open. */
  predicate Open(a: string, depth: nat) {
    a == "" ||
    (a[0] != ',' && a[0] != NUL && (a[0] == '}' ==> depth > 0) &&
     Open(a[1..], if a[0] == '{' then depth + 1 else if a[0] == '}' then depth - 1 else depth))
  }

  /** The braces that are open at the end. */
  function OpenAfter(a: string, depth: int): int {
    if a == "" then depth
    else OpenAfter(a[1..], if a[0] == '{' then depth + 1 else if a[0] == '}' then depth - 1 else depth)
  }

  /** Inside a sub-document the scan strips blanks and quotes, and keeps every brace. */
  lemma {:induction false} ScanOpen(a: string, rest: string, depth: nat, room: nat)
    requires Open(a, depth) && |Strip(a)| < room
    ensures Scan(a + rest, 1 + depth, room) == Strip(a) + Scan(rest, 1 + OpenAfter(a, depth), room - |Strip(a)|)
    decreases |a|
  {
    hide Scan, Open, OpenAfter, Strip;
    InsideSplit(a, depth);
    StripStep(a);
    if a == "" {
      assert a + rest == rest;
      assert Strip(a) + Scan(rest, 1 + depth, room) == Scan(rest, 1 + depth, room);
    } else {
      var next := if a[0] == '{' then depth + 1 else if a[0] == '}' then depth - 1 else depth;
      OpenStep(a[0], a[1..] + rest, depth, room);
      assert a + rest == [a[0]] + (a[1..] + rest);
      if a[0] == ' ' || a[0] == '"' {
        ScanOpen(a[1..], rest, next, room);
      } else {
        ScanOpen(a[1..], rest, next, room - 1);
        Regroup(a[0], Strip(a[1..]), Scan(rest, 1 + OpenAfter(a, depth), room - |Strip(a)|));
      }
    }
  }

  lemma Regroup(c: char, a: string, b: string)
    ensures [c] + (a + b) == [c] + a + b
  {
  }

  lemma OpenStep(c: char, s: string, depth: nat, room: nat)
    requires c != ',' && (c == '}' ==> depth > 0) && room > 0
    ensures var next := if c == '{' then depth + 1 else if c == '}' then depth - 1 else depth;
      Scan([c] + s, 1 + depth, room) ==
      if c == ' ' || c == '"' then Scan(s, 1 + next, room) else [c] + Scan(s, 1 + next, room - 1)
  {
    hide Scan, Ends, LeftOut, NextBrace;
    assert ([c] + s)[1..] == s;
    ScanStep([c] + s, 1 + depth, room);
    InsideSteps(c, depth);
  }

  lemma StripStep(a: string)
    ensures a == "" ==> Strip(a) == ""
    ensures a != "" && (a[0] == ' ' || a[0] == '"') ==> Strip(a) == Strip(a[1..])
    ensures a != "" && !(a[0] == ' ' || a[0] == '"') ==> Strip(a) == [a[0]] + Strip(a[1..])
  {
  }

  lemma InsideSplit(a: string, depth: nat)
    requires Open(a, depth)
    ensures a == "" ==> OpenAfter(a, depth) == depth
    ensures a != "" ==>
      var next := if a[0] == '{' then depth + 1 else if a[0] == '}' then depth - 1 else depth;
      a[0] != ',' && next >= 0 && (a[0] == '}' ==> depth > 0) && Open(a[1..], next) &&
      OpenAfter(a, depth) == OpenAfter(a[1..], next)
  {
  }

  lemma InsideSteps(c: char, depth: nat)
    requires c != ',' && (c == '}' ==> depth > 0)
    ensures !Ends(c, 1 + depth) && (LeftOut(c, 1 + depth) <==> c == ' ' || c == '"')
    ensures NextBrace(c, 1 + depth) == 1 + if c == '{' then depth + 1 else if c == '}' then depth - 1 else depth
  {
  }

  lemma {:induction false} FlatIsOpen(a: string)
    requires Flat(a)
    ensures Open(a, 0) && OpenAfter(a, 0) == 0
    decreases |a|
  {
    if a != "" {
      FlatIsOpen(a[1..]);
    }
  }

  /** Inside flat text the scan strips, and then goes on. */
  lemma {:induction false} ScanFlat(a: string, rest: string, brace: int, room: nat)
    requires Flat(a) && |Strip(a)| < room
    ensures Scan(a + rest, brace, room) == Strip(a) + Scan(rest, brace, room - |Strip(a)|)
    decreases |a|
  {
    if a == "" {
      assert a + rest == rest;
    } else {
      assert (a + rest)[1..] == a[1..] + rest;
      assert !Ends(a[0], brace) && NextBrace(a[0], brace) == brace;
      assert LeftOut(a[0], brace) <==> a[0] == ' ' || a[0] == '"';
      ScanFlat(a[1..], rest, brace, if a[0] == ' ' || a[0] == '"' then room else room - 1);
    }
  }

  function Quoted(key: string): string {
    "\"" + key + "\" :"
  }

  /** A document in which `tail` follows the key. */
  function Doc(pre: string, key: string, tail: string): string {
    pre + Quoted(key) + tail
  }

  /** A sub-document with text `a` inside, and what comes next. */
  function SubText(blank: string, a: string, tail: string): string {
    blank + ("{" + (a + tail))
  }

  /** One that is closed. */
  function Sub(blank: string, a: string, post: string): string {
    SubText(blank, a, "}" + post)
  }

  /** `a` is the whole inside: its braces match and the closing one follows, or a comma or
      the end of the text cuts it off. */
  predicate InsideEnds(a: string, tail: string) {
    Open(a, 0) && (tail == "" || tail[0] == ',' || (tail[0] == '}' && OpenAfter(a, 0) == 0))
  }

  /** `key` is short, and its first quoted occurrence is at the end of `pre`. */
  ghost predicate KeyAt(pre: string, key: string, tail: string) {
    |key| <= 250 && Find(Doc(pre, key, tail), Quoted(key)) == Some(|pre|)
  }

  predicate Blank(a: string) {
    Flat(a) && Strip(a) == ""
  }

  /** What is looked for, in the 256 characters that it has room in. */
  lemma KeysAreCut(key: string)
    ensures QuotedKey(key) == if |key| <= 251 then "\"" + key + "\" :" else ("\"" + key + "\" :")[..255]
    ensures BareKey(key) == if |key| <= 254 then key + ":" else key[..255]
  {
    CutFills("\"" + key + "\" :", 255);
    CutFills(key + ":", 255);
    assert |key| > 254 ==> (key + ":")[..255] == key[..255];
  }

  lemma ValueAfter(pre: string, key: string, tail: string, maxsize: nat)
    requires KeyAt(pre, key, tail)
    ensures BsonValue(Doc(pre, key, tail), key, maxsize) == Scan(tail, 0, maxsize)
  {
    hide Find, Scan;
    assert Doc(pre, key, tail)[|pre| + |Quoted(key)|..] == tail;
  }

  lemma ScanFirstBrace(inside: string, room: nat)
    requires room > 0
    ensures Scan("{" + inside, 0, room) == Scan(inside, 1, room)
  {
    assert ("{" + inside)[1..] == inside;
  }

  lemma ScanLast(a: string, tail: string, room: nat)
    requires InsideEnds(a, tail)
    ensures Scan(tail, 1 + OpenAfter(a, 0), room) == ""
  {
  }

  lemma ScanSub(blank: string, a: string, tail: string, room: nat)
    requires Blank(blank) && InsideEnds(a, tail) && |Strip(a)| < room
    ensures Scan(SubText(blank, a, tail), 0, room) == Strip(a)
  {
    hide Scan, Flat, Strip;
    var inside := a + tail;
    ScanFlat(blank, "{" + inside, 0, room);
    ScanFirstBrace(inside, room);
    ScanOpen(a, tail, 0, room);
    ScanLast(a, tail, room - |Strip(a)|);
    assert Strip(a) + "" == Strip(a) && "" + Strip(a) == Strip(a);
  }

  /** The value of a key that holds a sub-document is its inside without blanks and quotes,
      with every inner brace, up to the matching brace or the first comma. It is cut to
      `maxsize` characters, and overruns a buffer of that size exactly when it has as many. */
  lemma NestedValue(pre: string, key: string, blank: string, a: string, tail: string, maxsize: nat)
    requires KeyAt(pre, key, SubText(blank, a, tail)) && Blank(blank) && InsideEnds(a, tail)
    ensures var doc := Doc(pre, key, SubText(blank, a, tail));
      && FullValue(doc, key) == Strip(a)
      && BsonValue(doc, key, maxsize) == Cut(Strip(a), maxsize)
      && (|BsonValue(doc, key, maxsize)| == maxsize <==> |Strip(a)| >= maxsize)
  {
    hide BsonValue, Scan, SubText, KeyAt, Strip, InsideEnds;
    var doc := Doc(pre, key, SubText(blank, a, tail));
    ValueAfter(pre, key, SubText(blank, a, tail), |doc|);
    InsideIsShorter(blank, a, tail);
    ScanSub(blank, a, tail, |doc|);
    ValueIsCut(doc, key, maxsize);
  }

  lemma InsideIsShorter(blank: string, a: string, tail: string)
    ensures |Strip(a)| < |SubText(blank, a, tail)|
  {
  }

  /** A document on which the extractor writes behind its buffer: 1024 plain characters. */
  lemma OverrunHappens(a: string)
    requires a == seq(1024, _ => 'x')
    ensures |FullValue(Doc("", "dpck_ts", a), "dpck_ts")| == 1024 == VALUE_SIZE
  {
    hide Scan, Strip, Find;
    var doc := Doc("", "dpck_ts", a);
    assert doc[0..] == doc && Quoted("dpck_ts") <= doc;
    FindAt(doc, Quoted("dpck_ts"), 0);
    ValueAfter("", "dpck_ts", a, |doc|);
    ScanWhole(a, |doc|);
  }

  /** In text without quotes the bare key is looked for; here it stands in front. */
  lemma BareValue(key: string, v: string, maxsize: nat)
    requires |key| <= 250 && '"' !in key && Flat(v) && '"' !in v && ' ' !in v && |v| < maxsize
    ensures BsonValue(key + ":" + v, key, maxsize) == v
  {
    hide Find, Scan, Strip;
    var s, bare := key + ":" + v, key + ":";
    QuoteNotFound(s, Quoted(key));
    assert s[0..] == s && bare <= s && s[|bare|..] == v;
    FindAt(s, bare, 0);
    ScanWhole(v, maxsize);
  }

  lemma ScanWhole(v: string, maxsize: nat)
    requires Flat(v) && '"' !in v && ' ' !in v && |v| < maxsize
    ensures Scan(v, 0, maxsize) == v
  {
    StripClean(v);
    ScanFlat(v, "", 0, maxsize);
    assert v + "" == v;
  }

  lemma QuoteNotFound(s: string, needle: string)
    requires '"' !in s && needle != "" && needle[0] == '"'
    ensures Find(s, needle).None?
  {
    assert forall k | 0 <= k < |s| :: s[k..][0] == s[k] != '"';
  }

  /**
    The second extraction reads the buffer that it writes, and still gets the inner value:
    for a key whose value is a sub-document with one quoted field, in any spacing.
  */
  lemma NestedExtraction(pre: string, key: string, blank: string, a: string, post: string, inner: string, v: string,
                         maxsize: nat)
    requires KeyAt(pre, key, Sub(blank, a, post)) && Blank(blank) && Flat(a) && Strip(a) == inner + ":" + v
    requires |inner| + 1 + |v| < maxsize && |inner| <= 250 && '"' !in inner && Flat(v) && '"' !in v && ' ' !in v
    ensures var doc := Doc(pre, key, Sub(blank, a, post));
      BsonValue(BsonValue(doc, key, maxsize), inner, maxsize) == v
  {
    hide BsonValue;
    FlatIsOpen(a);
    NestedValue(pre, key, blank, a, "}" + post, maxsize);
    BareValue(inner, v, maxsize);
  }

  /** A plain value is returned alone exactly when a comma follows, or nothing: before a
      closing brace the brace is returned with it. */
  lemma ScalarExact(pre: string, key: string, a: string, tail: string, maxsize: nat)
    requires KeyAt(pre, key, a + tail) && Flat(a) && |Strip(a)| < maxsize
    requires tail == "" || tail[0] == ',' || tail[0] == '}'
    ensures BsonValue(Doc(pre, key, a + tail), key, maxsize) == Strip(a) <==> tail == "" || tail[0] == ','
  {
    hide BsonValue, Doc, KeyAt, Strip, Flat, Scan;
    ValueAfter(pre, key, a + tail, maxsize);
    ScanFlat(a, tail, 0, maxsize);
    ScanSeparator(tail, maxsize - |Strip(a)|);
  }

  lemma ScanSeparator(tail: string, room: nat)
    requires room > 0 && (tail == "" || tail[0] == ',' || tail[0] == '}')
    ensures Scan(tail, 0, room) == "" <==> tail == "" || tail[0] == ','
  {
  }

  // ------------------------------------------------------------------ the time stamp

  /** `{ "$numberLong" : "N" }`, as the server prints a 64-bit value. */
  function NumberLong(n: nat): string {
    " \"$numberLong\" : \"" + Dec(n) + "\" "
  }

  lemma NumberLongStrips(n: nat)
    ensures Flat(NumberLong(n)) && Strip(NumberLong(n)) == "$numberLong:" + Dec(n)
  {
    hide Dec, Strip;
    var name := " \"$numberLong\" : \"";
    assert Flat(name) && Flat(Dec(n));
    StripAppend(name + Dec(n), "\" ");
    StripAppend(name, Dec(n));
    StripClean(Dec(n));
    StripPieces();
  }

  lemma StripPieces()
    ensures Strip(" \"$numberLong\" : \"") == "$numberLong:" && Strip("\" ") == ""
  {
    hide Strip;
    var a, b, c, d := " \"", "$numberLong", "\" : \"", "\" ";
    assert " \"$numberLong\" : \"" == a + b + c;
    StripAppend(a + b, c);
    StripAppend(a, b);
    StripClean(b);
    StripMarks();
  }

  lemma StripMarks()
    ensures Strip(" \"") == "" && Strip("\" : \"") == ":" && Strip("\" ") == ""
  {
    assert " \""[1..] == "\"" && "\" "[1..] == " ";
    var c := "\" : \"";
    assert c[1..] == " : \"" && " : \""[1..] == ": \"" && ": \""[1..] == " \"";
  }

  /** `chaos_crest_cu_get` returns the time stamp that the server printed. */
  lemma TimestampReadBack(pre: string, blank: string, n: nat, post: string)
    requires n < TWO63 && Blank(blank) && KeyAt(pre, "dpck_ts", Sub(blank, NumberLong(n), post))
    ensures Timestamp(200, Doc(pre, "dpck_ts", Sub(blank, NumberLong(n), post))) == n
  {
    hide BsonValue, NumberLong, Dec, Quoted, KeyAt, Doc, Sub, Blank, Strip;
    NumberLongStrips(n);
    Int64Digits(n);
    var inner := "$numberLong";
    NestedExtraction(pre, "dpck_ts", blank, NumberLong(n), post, inner, Dec(n), VALUE_SIZE);
    AtollOfDec(n);
  }

  lemma AtollOfDec(n: nat)
    requires n < TWO63
    ensures Atoll(Dec(n)) == n
  {
    var d := Dec(n);
    assert '0' <= d[0] <= '9' && !IsSpace(d[0]) && d + "" == d;
    ReadDec(n, "");
  }

  /** A printed 64-bit number is taken with its sign; larger ones become the nearest of 64
      bits, and the result is unsigned. */
  lemma AtollPrinted(blank: string, n: int, rest: string)
    requires (forall i | 0 <= i < |blank| :: IsSpace(blank[i])) && (rest == "" || !IsDigit(rest[0], 10))
    ensures Atoll(blank + (SignedDec(n) + rest)) ==
            if n >= 0x8000_0000_0000_0000 then 0x7FFF_FFFF_FFFF_FFFF
            else if n < -0x8000_0000_0000_0000 then 0x8000_0000_0000_0000
            else if n < 0 then n + 0x1_0000_0000_0000_0000
            else n
  {
    hide Dec, IsSpace, IsDigit, SkipSpace;
    var m: nat := if n < 0 then -n else n;
    var s := SignedDec(n) + rest;
    DecFront(m, rest);
    SignsAreNotSpace();
    assert s == if n < 0 then "-" + (Dec(m) + rest) else Dec(m) + rest;
    SkipBlanks(blank, s);
    ReadDec(m, rest);
    assert n < 0 ==> s[1..] == Dec(m) + rest;
  }

  // ------------------------------------------------------------------ quotes

  /** Removing the quotes keeps everything else in place. */
  lemma {:induction false} UnquotedExact(s: string)
    ensures Occurrences(s, '"') == 0 ==> Unquoted(s) == s
    ensures |Unquoted(s)| == |s| - Occurrences(s, '"')
    ensures forall a, b :: s == a + "\"" + b ==> Unquoted(s) == Unquoted(a + b)
    decreases |s|
  {
    forall a, b | s == a + "\"" + b
      ensures Unquoted(s) == Unquoted(a + b)
    {
      UnquotedAppend(a + "\"", b);
      UnquotedAppend(a, "\"");
      UnquotedAppend(a, b);
      assert Unquoted("\"") == "";
      assert Unquoted(a) + "" == Unquoted(a);
    }
    if s != "" {
      var a, c := s[..|s| - 1], s[|s| - 1];
      assert s == a + [c];
      UnquotedExact(a);
      UnquotedAppend(a, [c]);
      assert Unquoted([c]) == if c == '"' then "" else [c];
    }
  }
}
