/**
  Base64 as section 4 of RFC 4648 defines it: 24-bit groups of three bytes read as four
  six-bit numbers. The codec of encode.c and decode.c is proved against these functions.
*/
module Base64 {
  const UPPER: string := "ABCDEFGHIJKLMNOPQRSTUVWXYZ"
  const LOWER: string := "abcdefghijklmnopqrstuvwxyz"
  const DIGITS: string := "0123456789"
  const TABLE: string := UPPER + LOWER + DIGITS + "+/"
  const PAD: char := '='

  /** `isalnum(c) || c == '+' || c == '/'`. */
  predicate InAlphabet(c: char) {
    'A' <= c <= 'Z' || 'a' <= c <= 'z' || '0' <= c <= '9' || c == '+' || c == '/'
  }

  /** The place of an alphabet character in the table. */
  function Rank(c: char): (r: nat)
    ensures r < 64
  {
    if 'A' <= c <= 'Z' then c as int - 'A' as int
    else if 'a' <= c <= 'z' then c as int - 'a' as int + 26
    else if '0' <= c <= '9' then c as int - '0' as int + 52
    else if c == '+' then 62
    else 63
  }

  function Symbol(v: bv8): (c: char)
    requires v < 64
  {
    TABLE[v as int]
  }

  lemma UpperRow(l: nat)
    requires l < 26
    ensures UPPER[l] == (l + 'A' as int) as char
  {
  }

  lemma LowerRow(l: nat)
    requires l < 26
    ensures LOWER[l] == (l + 'a' as int) as char
  {
  }

  lemma DigitRow(l: nat)
    requires l < 10
    ensures DIGITS[l] == (l + '0' as int) as char
  {
  }

  lemma TableHoldsAlphabet(l: nat)
    requires l < 64
    ensures InAlphabet(TABLE[l]) && Rank(TABLE[l]) == l
  {
    if l < 26 {
      UpperRow(l);
    } else if l < 52 {
      LowerRow(l - 26);
    } else if l < 62 {
      DigitRow(l - 52);
    }
  }

  lemma AlphabetIsInTable(c: char)
    requires InAlphabet(c)
    ensures TABLE[Rank(c)] == c
  {
    TableHoldsAlphabet(Rank(c));
  }

  function Sextet(c: char): (v: bv8)
    ensures v < 64
  {
    ByteOfNat(Rank(c));
    Rank(c) as bv8
  }

  lemma ByteOfNat(n: nat)
    requires n < 64
    ensures n as bv8 < 64 && n as bv8 as int == n
  {
  }

  lemma SextetOfSymbol(v: bv8)
    requires v < 64
    ensures InAlphabet(Symbol(v)) && Sextet(Symbol(v)) == v
  {
    TableHoldsAlphabet(v as int);
  }

  lemma SymbolOfSextet(c: char)
    requires InAlphabet(c)
    ensures Symbol(Sextet(c)) == c
  {
    ByteOfNat(Rank(c));
    AlphabetIsInTable(c);
  }

  // ------------------------------------------------------------------ groups

  function Group(a: bv8, b: bv8, c: bv8): bv24 {
    (a as bv24 << 16) | (b as bv24 << 8) | c as bv24
  }

  datatype Four = Four(p: bv8, q: bv8, r: bv8, s: bv8)

  datatype Three = Three(a: bv8, b: bv8, c: bv8)

  /** The 24 bits of three bytes as four six-bit numbers. */
  function Sextets(t: Three): (f: Four)
    ensures f.p < 64 && f.q < 64 && f.r < 64 && f.s < 64
  {
    var g := Group(t.a, t.b, t.c);
    Four(((g >> 18) & 0x3f) as bv8, ((g >> 12) & 0x3f) as bv8, ((g >> 6) & 0x3f) as bv8, (g & 0x3f) as bv8)
  }

  /** The 24 bits of four six-bit numbers as three bytes. */
  function Octets(f: Four): Three {
    var g := (f.p as bv24 << 18) | (f.q as bv24 << 12) | (f.r as bv24 << 6) | f.s as bv24;
    Three(((g >> 16) & 0xff) as bv8, ((g >> 8) & 0xff) as bv8, (g & 0xff) as bv8)
  }

  lemma OctetsOfSextets(t: Three)
    ensures Octets(Sextets(t)) == t
    ensures t.c == 0 ==> Sextets(t).s == 0
    ensures t.b == 0 && t.c == 0 ==> Sextets(t).r == 0 && Sextets(t).q & 0xf == 0
    ensures t.c == 0 ==> Sextets(t).r & 0x3 == 0
  {
  }

  lemma SextetsOfOctets(f: Four)
    requires f.p < 64 && f.q < 64 && f.r < 64 && f.s < 64
    ensures Sextets(Octets(f)) == f
  {
  }

  lemma ShortOctets(f: Four)
    requires f.p < 64 && f.q < 64 && f.r < 64 && f.s == 0
    ensures f.r & 0x3 == 0 ==> Octets(f).c == 0
    ensures f.r == 0 && f.q & 0xf == 0 ==> Octets(f).b == 0 && Octets(f).c == 0
  {
  }

  // ------------------------------------------------------------------ encoding

  /** The first `n` symbols of a group, filled up with pad characters. */
  function Quad(f: Four, n: nat): (t: string)
    requires f.p < 64 && f.q < 64 && f.r < 64 && f.s < 64
    ensures |t| == 4
  {
    [Symbol(f.p), Symbol(f.q), if n > 2 then Symbol(f.r) else PAD, if n > 3 then Symbol(f.s) else PAD]
  }

  function Encode(s: seq<bv8>): string
    decreases |s|
  {
    if |s| == 0 then ""
    else if |s| == 1 then Quad(Sextets(Three(s[0], 0, 0)), 2)
    else if |s| == 2 then Quad(Sextets(Three(s[0], s[1], 0)), 3)
    else Quad(Sextets(Three(s[0], s[1], s[2])), 4) + Encode(s[3..])
  }

  // ------------------------------------------------------------------ decoding

  /** The longest prefix of alphabet characters. */
  function Alphabetic(t: string): (p: string)
    ensures p <= t && AllAlphabet(p)
    ensures p == t || !InAlphabet(t[|p|])
  {
    if t == "" || !InAlphabet(t[0]) then "" else [t[0]] + Alphabetic(t[1..])
  }

  predicate AllAlphabet(t: string) {
    forall i | 0 <= i < |t| :: InAlphabet(t[i])
  }

  function FourOf(t: string): (f: Four)
    requires |t| == 4
    ensures f.p < 64 && f.q < 64 && f.r < 64 && f.s < 64
  {
    Four(Sextet(t[0]), Sextet(t[1]), Sextet(t[2]), Sextet(t[3]))
  }

  /** Four characters give three bytes; a rest of two or three gives one or two. */
  function DecodeChars(t: string): seq<bv8>
    decreases |t|
  {
    if |t| < 2 then []
    else if |t| == 2 then [Octets(Four(Sextet(t[0]), Sextet(t[1]), 0, 0)).a]
    else if |t| == 3 then
      var o := Octets(Four(Sextet(t[0]), Sextet(t[1]), Sextet(t[2]), 0));
      [o.a, o.b]
    else
      var o := Octets(FourOf(t[..4]));
      [o.a, o.b, o.c] + DecodeChars(t[4..])
  }

  function Decode(t: string): seq<bv8> {
    DecodeChars(Alphabetic(t))
  }
}
