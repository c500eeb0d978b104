/** What the codec is for: decoding undoes encoding, and the other way on canonical text. */
module Base64Laws {
  import opened Base64

  lemma {:induction false} EncodeLength(s: seq<bv8>)
    ensures |Encode(s)| == 4 * ((|s| + 2) / 3)
    decreases |s|
  {
    if |s| >= 3 {
      EncodeLength(s[3..]);
    }
  }

  /** Encoding may be cut after any multiple of three bytes. */
  lemma {:induction false} EncodeAppend(a: seq<bv8>, b: seq<bv8>)
    requires |a| % 3 == 0
    ensures Encode(a + b) == Encode(a) + Encode(b)
    decreases |a|
  {
    if a == [] {
      assert a + b == b;
    } else {
      assert (a + b)[3..] == a[3..] + b;
      EncodeAppend(a[3..], b);
    }
  }

  function Pads(n: nat): nat {
    (3 - n % 3) % 3
  }

  lemma QuadAlphabet(f: Four, n: nat)
    requires f.p < 64 && f.q < 64 && f.r < 64 && f.s < 64 && 2 <= n <= 4
    ensures AllAlphabet(Quad(f, n)[..n]) && forall i | n <= i < 4 :: Quad(f, n)[i] == PAD
    ensures forall i | 0 <= i < n :: Sextet(Quad(f, n)[i]) == [f.p, f.q, f.r, f.s][i]
  {
    SextetOfSymbol(f.p);
    SextetOfSymbol(f.q);
    SextetOfSymbol(f.r);
    SextetOfSymbol(f.s);
  }

  lemma {:induction false} AlphabeticAppend(a: string, b: string)
    requires AllAlphabet(a)
    ensures Alphabetic(a + b) == a + Alphabetic(b)
    decreases |a|
  {
    if a == "" {
      assert a + b == b;
    } else {
      assert (a + b)[1..] == a[1..] + b;
      AlphabeticAppend(a[1..], b);
    }
  }

  lemma AlphabeticStops(a: string, b: string)
    requires AllAlphabet(a) && (b == "" || !InAlphabet(b[0]))
    ensures Alphabetic(a + b) == a
  {
    AlphabeticAppend(a, b);
    assert Alphabetic(b) == "";
  }

  /** The text ends in the pad characters that the length asks for, and in no others. */
  lemma {:induction false} EncodePads(s: seq<bv8>)
    ensures var t := Encode(s);
      var k := |t| - Pads(|s|);
      0 <= k && AllAlphabet(t[..k]) && (forall i | k <= i < |t| :: t[i] == PAD)
    decreases |s|
  {
    hide Sextets, Quad, Sextet;
    EncodeLength(s);
    if |s| == 1 {
      QuadAlphabet(Sextets(Three(s[0], 0, 0)), 2);
    } else if |s| == 2 {
      QuadAlphabet(Sextets(Three(s[0], s[1], 0)), 3);
    } else if |s| >= 3 {
      var q := Quad(Sextets(Three(s[0], s[1], s[2])), 4);
      QuadAlphabet(Sextets(Three(s[0], s[1], s[2])), 4);
      EncodePads(s[3..]);
      EncodeLength(s[3..]);
      assert q[..4] == q && Pads(|s|) == Pads(|s[3..]|);
      PadsAppend(q, Encode(s[3..]), |Encode(s[3..])| - Pads(|s|));
    }
  }

  lemma PadsAppend(q: string, u: string, k: nat)
    requires AllAlphabet(q) && k <= |u| && AllAlphabet(u[..k]) && forall i | k <= i < |u| :: u[i] == PAD
    ensures AllAlphabet((q + u)[..|q| + k]) && forall i | |q| + k <= i < |q + u| :: (q + u)[i] == PAD
  {
    assert (q + u)[..|q| + k] == q + u[..k];
  }

  /** Decoding the text of any bytes gives the bytes back, whatever non-alphabet character
      and further text may follow. */
  lemma {:induction false} RoundTrip(s: seq<bv8>, rest: string)
    requires rest == "" || !InAlphabet(rest[0])
    ensures Decode(Encode(s) + rest) == s
    decreases |s|
  {
    hide Sextets, Octets, Quad, Sextet, InAlphabet;
    if s == [] {
      assert Encode(s) + rest == rest;
    } else if |s| == 1 {
      ShortGroup(Three(s[0], 0, 0), 2, rest);
    } else if |s| == 2 {
      ShortGroup(Three(s[0], s[1], 0), 3, rest);
    } else {
      var t := Three(s[0], s[1], s[2]);
      var q := Quad(Sextets(t), 4);
      QuadAlphabet(Sextets(t), 4);
      OctetsOfSextets(t);
      assert q[..4] == q;
      assert Encode(s) + rest == q + (Encode(s[3..]) + rest);
      DecodeQuad(q, Encode(s[3..]) + rest);
      RoundTrip(s[3..], rest);
      assert s == [s[0], s[1], s[2]] + s[3..];
    }
  }

  lemma DecodeQuad(q: string, t: string)
    requires |q| == 4 && AllAlphabet(q)
    ensures var o := Octets(FourOf(q));
      Decode(q + t) == [o.a, o.b, o.c] + Decode(t)
  {
    hide Octets, Sextet;
    AlphabeticAppend(q, t);
    var p := q + Alphabetic(t);
    assert p[..4] == q && p[4..] == Alphabetic(t);
  }

  lemma ShortGroup(t: Three, n: nat, rest: string)
    requires n == 2 || n == 3
    requires t.c == 0 && (n == 2 ==> t.b == 0)
    ensures Decode(Quad(Sextets(t), n) + rest) == [t.a, t.b][..n - 1]
  {
    hide Sextets, Octets, Sextet;
    var f := Sextets(t);
    var q := Quad(f, n);
    QuadAlphabet(f, n);
    OctetsOfSextets(t);
    assert q + rest == q[..n] + (q[n..] + rest);
    AlphabeticStops(q[..n], q[n..] + rest);
  }

  // ------------------------------------------------------------------ arbitrary text

  /** With k leading alphabet characters, floor(3k/4) bytes come out. */
  lemma {:induction false} DecodeLength(t: string)
    ensures |DecodeChars(t)| == 3 * |t| / 4
    decreases |t|
  {
    hide Octets;
    if |t| >= 4 {
      DecodeLength(t[4..]);
    }
  }

  lemma DecodedLength(t: string)
    ensures |Decode(t)| == 3 * |Alphabetic(t)| / 4
  {
    DecodeLength(Alphabetic(t));
  }

  lemma {:induction false} DecodeCharsPrefix(p: string, t: string)
    requires p <= t
    ensures DecodeChars(p) <= DecodeChars(t)
    decreases |p|
  {
    if |p| >= 4 {
      hide Octets;
      assert p[..4] == t[..4];
      DecodeCharsPrefix(p[4..], t[4..]);
    } else if 2 <= |p| {
      ShortPrefix(p, t);
    }
  }

  lemma ShortPrefix(p: string, t: string)
    requires p <= t && 2 <= |p| < 4
    ensures DecodeChars(p) <= DecodeChars(t)
  {
    var f := Four(Sextet(p[0]), Sextet(p[1]), if |t| > 2 then Sextet(t[2]) else 0, if |t| > 3 then Sextet(t[3]) else 0);
    EarlyBytes(f);
  }

  /** The first byte depends on two sextets only, the second on three. */
  lemma EarlyBytes(f: Four)
    requires f.p < 64 && f.q < 64 && f.r < 64 && f.s < 64
    ensures Octets(Four(f.p, f.q, 0, 0)).a == Octets(f).a == Octets(Four(f.p, f.q, f.r, 0)).a
    ensures Octets(Four(f.p, f.q, f.r, 0)).b == Octets(f).b
  {
  }

  lemma {:induction false} AlphabeticPrefix(p: string, t: string)
    requires p <= t
    ensures Alphabetic(p) <= Alphabetic(t)
  {
    if p != "" && InAlphabet(p[0]) {
      AlphabeticPrefix(p[1..], t[1..]);
    }
  }

  /** Decoding a prefix of a text gives a prefix of its decoding. */
  lemma DecodePrefix(p: string, t: string)
    requires p <= t
    ensures Decode(p) <= Decode(t)
  {
    AlphabeticPrefix(p, t);
    DecodeCharsPrefix(Alphabetic(p), Alphabetic(t));
  }

  // ------------------------------------------------------------------ canonical text

  /** Whole groups, correct padding, and zero in the bits that decoding drops. */
  predicate Canonical(t: string)
    decreases |t|
  {
    t == "" ||
    (|t| >= 4 && InAlphabet(t[0]) && InAlphabet(t[1]) &&
     if t[2] == PAD then |t| == 4 && t[3] == PAD && Sextet(t[1]) & 0xf == 0
     else InAlphabet(t[2]) &&
          if t[3] == PAD then |t| == 4 && Sextet(t[2]) & 0x3 == 0
          else InAlphabet(t[3]) && Canonical(t[4..]))
  }

  lemma {:induction false} EncodingIsCanonical(s: seq<bv8>)
    ensures Canonical(Encode(s))
    decreases |s|
  {
    hide Sextets, Quad, Sextet, InAlphabet;
    assert !InAlphabet(PAD) by { PadIsNotAlphabet(); }
    if |s| == 1 {
      CanonicalGroup(Three(s[0], 0, 0), 2);
    } else if |s| == 2 {
      CanonicalGroup(Three(s[0], s[1], 0), 3);
    } else if |s| >= 3 {
      var f := Sextets(Three(s[0], s[1], s[2]));
      QuadAlphabet(f, 4);
      var q := Quad(f, 4);
      assert q[..4] == q && Encode(s)[4..] == Encode(s[3..]);
      EncodingIsCanonical(s[3..]);
    }
  }

  lemma PadIsNotAlphabet()
    ensures !InAlphabet(PAD)
  {
  }

  lemma CanonicalGroup(t: Three, n: nat)
    requires n == 2 || n == 3
    requires t.c == 0 && (n == 2 ==> t.b == 0)
    ensures Canonical(Quad(Sextets(t), n))
  {
    hide Sextets, Sextet, Quad;
    var f := Sextets(t);
    OctetsOfSextets(t);
    QuadAlphabet(f, n);
    var q := Quad(f, n);
    assert InAlphabet(q[..n][0]) && InAlphabet(q[..n][1]) && (n == 3 ==> InAlphabet(q[..n][2]));
  }

  /** Re-encoding what a text decodes to gives the text back exactly when it is canonical. */
  lemma {:induction false} CanonicalExact(t: string)
    ensures Encode(Decode(t)) == t <==> Canonical(t)
  {
    if Canonical(t) {
      ReEncode(t);
    } else {
      EncodingIsCanonical(Decode(t));
    }
  }

  lemma {:induction false} ReEncode(t: string)
    requires Canonical(t)
    ensures Encode(Decode(t)) == t
    decreases |t|
  {
    hide Sextets, Octets, Sextet, InAlphabet;
    if t == "" {
    } else if t[2] == PAD || t[3] == PAD {
      ReEncodeShort(t);
    } else {
      var q := t[..4];
      assert t == q + t[4..];
      DecodeQuad(q, t[4..]);
      var f := FourOf(q);
      SextetsOfOctets(f);
      SymbolOfSextet(t[0]);
      SymbolOfSextet(t[1]);
      SymbolOfSextet(t[2]);
      SymbolOfSextet(t[3]);
      assert Quad(f, 4) == q;
      var o := Octets(f);
      assert ([o.a, o.b, o.c] + Decode(t[4..]))[3..] == Decode(t[4..]);
      ReEncode(t[4..]);
    }
  }

  lemma ReEncodeShort(t: string)
    requires Canonical(t) && t != "" && (t[2] == PAD || t[3] == PAD)
    ensures Encode(Decode(t)) == t
  {
    hide Sextets, Octets, Sextet, InAlphabet;
    PadIsNotAlphabet();
    var n := if t[2] == PAD then 2 else 3;
    var a := t[..n];
    assert t == a + t[n..];
    AlphabeticStops(a, t[n..]);
    var f := Four(Sextet(t[0]), Sextet(t[1]), if n == 3 then Sextet(t[2]) else 0, 0);
    ShortOctets(f);
    SextetsOfOctets(f);
    SymbolOfSextet(t[0]);
    SymbolOfSextet(t[1]);
    if n == 3 {
      SymbolOfSextet(t[2]);
    }
  }

  // ------------------------------------------------------------------ the test vectors

  /** The whole alphabet in order. */
  lemma WholeAlphabet()
    ensures TABLE == "ABCDEFGHIJKLMNOPQRSTUVWXYZabcdefghijklmnopqrstuvwxyz0123456789+/"
  {
    assert UPPER + LOWER == "ABCDEFGHIJKLMNOPQRSTUVWXYZabcdefghijklmnopqrstuvwxyz";
  }

  /** The groups of "foobar", whole and cut. */
  lemma VectorGroups()
    ensures Sextets(Three(0x66, 0, 0)) == Four(25, 32, 0, 0) && Sextets(Three(0x66, 0x6f, 0)) == Four(25, 38, 60, 0)
    ensures Sextets(Three(0x66, 0x6f, 0x6f)) == Four(25, 38, 61, 47)
    ensures Sextets(Three(0x62, 0, 0)) == Four(24, 32, 0, 0) && Sextets(Three(0x62, 0x61, 0)) == Four(24, 38, 4, 0)
    ensures Sextets(Three(0x62, 0x61, 0x72)) == Four(24, 38, 5, 50)
  {
  }

  lemma VectorSymbols()
    ensures [Symbol(25), Symbol(32), Symbol(38), Symbol(60), Symbol(61), Symbol(47)] == "Zgm89v"
    ensures [Symbol(24), Symbol(4), Symbol(5), Symbol(50)] == "YEFy"
  {
    assert TABLE[25] == UPPER[25] && TABLE[24] == UPPER[24] && TABLE[4] == UPPER[4] && TABLE[5] == UPPER[5];
    assert TABLE[32] == LOWER[6] && TABLE[38] == LOWER[12] && TABLE[47] == LOWER[21] && TABLE[50] == LOWER[24];
    assert TABLE[60] == DIGITS[8] && TABLE[61] == DIGITS[9];
  }

  /** The test vectors of section 10 of RFC 4648. */
  lemma TestVectors()
    ensures Encode([]) == "" && Encode([0x66]) == "Zg==" && Encode([0x66, 0x6f]) == "Zm8="
    ensures Encode([0x66, 0x6f, 0x6f]) == "Zm9v" && Encode([0x66, 0x6f, 0x6f, 0x62]) == "Zm9vYg=="
    ensures Encode([0x66, 0x6f, 0x6f, 0x62, 0x61]) == "Zm9vYmE="
    ensures Encode([0x66, 0x6f, 0x6f, 0x62, 0x61, 0x72]) == "Zm9vYmFy"
  {
    hide Sextets, Symbol;
    VectorGroups();
    VectorSymbols();
    var foo: seq<bv8> := [0x66, 0x6f, 0x6f];
    assert foo + [] == foo;
    EncodeAppend(foo, [0x62]);
    EncodeAppend(foo, [0x62, 0x61]);
    EncodeAppend(foo, [0x62, 0x61, 0x72]);
    assert foo + [0x62] == [0x66, 0x6f, 0x6f, 0x62];
    assert foo + [0x62, 0x61] == [0x66, 0x6f, 0x6f, 0x62, 0x61];
    assert foo + [0x62, 0x61, 0x72] == [0x66, 0x6f, 0x6f, 0x62, 0x61, 0x72];
  }
}
