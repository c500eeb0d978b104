/**
  C strings and the libc scanners that the sources lean on. A `char *` is modelled by
  the sequence of characters before its terminating NUL, a character buffer by the
  sequence of characters it holds.
*/
module CText {
  datatype Option<+T> = None | Some(value: T)

  const NUL: char := '\0'
  const CR: char := '\r'
  const LF: char := '\n'

  /** The string that a C function sees in a buffer: everything before the first NUL. */
  function CStr(b: string): (s: string)
    ensures NUL !in s && |s| <= |b|
  {
    if b == "" || b[0] == NUL then "" else [b[0]] + CStr(b[1..])
  }

  /** What stands behind a NUL does not matter. */
  lemma {:induction false} CStrOfTerminated(s: string, junk: string)
    ensures CStr(s + [NUL] + junk) == CStr(s)
    ensures NUL !in s ==> CStr(s) == s
  {
    if s == "" {
      assert (s + [NUL] + junk)[0] == NUL;
    } else {
      CStrOfTerminated(s[1..], junk);
      assert (s + [NUL] + junk)[1..] == s[1..] + [NUL] + junk;
    }
  }

  /** What `snprintf` leaves in a buffer of `size` characters, `size` not zero. */
  function Cut(s: string, room: nat): (t: string)
    ensures |t| <= room && t <= s
    ensures |s| <= room ==> t == s
  {
    if |s| <= room then s else s[..room]
  }

  /** Nothing is cut that there is room for. */
  lemma CutFills(s: string, room: nat)
    ensures |Cut(s, room)| == if |s| <= room then |s| else room
  {
  }

  /** Cutting after each of two appends is cutting once at the end. */
  lemma CutTwice(a: string, b: string, room: nat)
    ensures Cut(Cut(a, room) + b, room) == Cut(a + b, room)
    ensures Cut(a, room) + Cut(b, room - |Cut(a, room)|) == Cut(a + b, room)
  {
    if |a| <= room {
      assert |a + b| > room ==> (a + b)[..room] == a + b[..room - |a|];
    } else {
      assert (a + b)[..room] == a[..room];
      assert (a[..room] + b)[..room] == a[..room];
    }
  }

  /** `isspace` in the C locale. */
  predicate IsSpace(c: char) {
    c == ' ' || '\t' <= c <= '\r'
  }

  /** Blank, tabulators, line feed, form feed and carriage return. */
  lemma Spaces(c: char)
    ensures IsSpace(c) <==> c in {' ', '\t', '\n', '\U{B}', '\U{C}', '\r'}
  {
  }

  function SkipSpace(s: string): (t: string)
    ensures |t| <= |s| && (t == "" || !IsSpace(t[0]))
    ensures (s == "" || !IsSpace(s[0])) ==> t == s
  {
    if s != "" && IsSpace(s[0]) then SkipSpace(s[1..]) else s
  }

  /** The characters before the first blank: what `%s` stores. */
  function FirstWord(s: string): string {
    if s == "" || IsSpace(s[0]) then "" else [s[0]] + FirstWord(s[1..])
  }

  /** A word ends where a blank or the end follows. */
  lemma {:induction false} FirstWordIs(word: string, rest: string)
    requires (forall i | 0 <= i < |word| :: !IsSpace(word[i])) && (rest == "" || IsSpace(rest[0]))
    ensures FirstWord(word + rest) == word
    decreases |word|
  {
    if word == "" {
      assert word + rest == rest;
    } else {
      FirstWordIs(word[1..], rest);
      assert (word + rest)[1..] == word[1..] + rest;
    }
  }

  /** The value of a digit, in either case, or 99 for any other character. */
  function DigitValue(c: char): (d: nat) {
    if '0' <= c <= '9' then c as int - '0' as int
    else if 'a' <= c <= 'f' then c as int - 'a' as int + 10
    else if 'A' <= c <= 'F' then c as int - 'A' as int + 10
    else 99
  }

  predicate IsDigit(c: char, base: nat) {
    DigitValue(c) < base
  }

  predicate AllDigits(s: string, base: nat) {
    forall i | 0 <= i < |s| :: IsDigit(s[i], base)
  }

  /** Reads the longest run of digits, most significant first, onto `acc`. */
  function ReadDigits(s: string, base: nat, acc: nat): (r: (nat, string))
    ensures |r.1| <= |s|
  {
    if s != "" && IsDigit(s[0], base) then ReadDigits(s[1..], base, acc * base + DigitValue(s[0]))
    else (acc, s)
  }

  /** The value of a whole string of digits. */
  function Value(s: string, base: nat): nat {
    ReadDigits(s, base, 0).0
  }

  lemma {:induction false} ReadDigitsRun(s: string, rest: string, base: nat, acc: nat)
    requires AllDigits(s, base)
    requires rest == "" || !IsDigit(rest[0], base)
    ensures ReadDigits(s + rest, base, acc) == (ReadDigits(s, base, acc).0, rest)
  {
    if s == "" {
      assert s + rest == rest;
    } else {
      ReadDigitsRun(s[1..], rest, base, acc * base + DigitValue(s[0]));
      assert (s + rest)[1..] == s[1..] + rest;
    }
  }

  /** Decimal digits of a natural number, as `%d`, `%lld` and `%llu` print them. */
  function Dec(n: nat): (s: string)
    ensures s != "" && AllDigits(s, 10)
    ensures forall i | 0 <= i < |s| :: '0' <= s[i] <= '9'
  {
    if n < 10 then [('0' as int + n) as char]
    else Dec(n / 10) + [('0' as int + n % 10) as char]
  }

  /** A signed number in decimal. */
  function SignedDec(n: int): (s: string)
    ensures s != "" && forall i | 0 <= i < |s| :: s[i] == '-' || '0' <= s[i] <= '9'
  {
    if n < 0 then "-" + Dec(-n) else Dec(n)
  }

  lemma {:induction false} ReadDec(n: nat, rest: string)
    ensures ReadDigits(Dec(n) + rest, 10, 0) == ReadDigits(rest, 10, n)
  {
    if n < 10 {
      assert (Dec(n) + rest)[1..] == rest;
    } else {
      var last := [('0' as int + n % 10) as char];
      assert Dec(n) + rest == Dec(n / 10) + (last + rest);
      ReadDec(n / 10, last + rest);
      assert (last + rest)[1..] == rest;
    }
  }

  const TWO31: int := 0x8000_0000
  const TWO32: int := 0x1_0000_0000
  const TWO63: int := 0x8000_0000_0000_0000
  const TWO64: int := 0x1_0000_0000_0000_0000

  function Pow10(k: nat): nat {
    if k == 0 then 1 else 10 * Pow10(k - 1)
  }

  lemma {:induction false} DecLength(n: nat, k: nat)
    requires 0 < k && n < Pow10(k)
    ensures |Dec(n)| <= k
    decreases k
  {
    if n >= 10 {
      DecLength(n / 10, k - 1);
    }
  }

  lemma Int32Digits(n: nat)
    requires n < TWO31
    ensures |Dec(n)| <= 10
  {
    assert Pow10(6) == 1000000;
    assert Pow10(10) == 10000 * Pow10(6);
    DecLength(n, 10);
  }

  lemma Int64Digits(n: nat)
    requires n < TWO63
    ensures |Dec(n)| <= 19
  {
    assert Pow10(6) == 1000000;
    assert Pow10(12) == 1000000 * Pow10(6) by {
      assert Pow10(9) == 1000 * Pow10(6);
    }
    assert Pow10(15) == 1000 * Pow10(12);
    assert Pow10(19) == 10000 * Pow10(15) by {
      assert Pow10(17) == 100 * Pow10(15);
    }
    DecLength(n, 19);
  }

  /** Conversion of a wider integer to a 32-bit `int`. */
  function ToInt32(v: int): (r: int)
    ensures -TWO31 <= r < TWO31
    ensures -TWO31 <= v < TWO31 ==> r == v
    ensures (v - r) % TWO32 == 0
  {
    var w := v % TWO32;
    if w < TWO31 then w else w - TWO32
  }

  function Clamp(v: int, lo: int, hi: int): int {
    if v < lo then lo else if v > hi then hi else v
  }

  /** `%d` of sscanf: the number and the text after it. */
  function ScanInt(s: string): Option<(int, string)> {
    var t := SkipSpace(s);
    var signed := t != "" && (t[0] == '-' || t[0] == '+');
    var digits := if signed then t[1..] else t;
    if digits == "" || !IsDigit(digits[0], 10) then None
    else
      var r := ReadDigits(digits, 10, 0);
      var n: int := r.0;
      var v := if signed && t[0] == '-' then -n else n;
      Some((ToInt32(Clamp(v, -TWO63, TWO63 - 1)), r.1))
  }

  /** A hexadecimal number may start with "0x". */
  function Unprefixed(u: string): string {
    if |u| >= 3 && u[0] == '0' && (u[1] == 'x' || u[1] == 'X') && IsDigit(u[2], 16) then u[2..] else u
  }

  /** A number in 64 bits, and its negative; too large a number becomes the largest one. */
  function Unsigned64(v: nat, negative: bool): (r: nat)
    ensures r < TWO64
  {
    if v >= TWO64 then TWO64 - 1 else if negative then (TWO64 - v) % TWO64 else v
  }

  /** `strtoul(s, 0, 16)`. */
  function Strtoul16(s: string): (v: nat)
    ensures v < TWO64
  {
    var t := SkipSpace(s);
    var signed := t != "" && (t[0] == '-' || t[0] == '+');
    var u := if signed then t[1..] else t;
    Unsigned64(ReadDigits(Unprefixed(u), 16, 0).0, signed && t[0] == '-')
  }

  lemma {:induction false} SkipBlanks(blank: string, s: string)
    requires forall i | 0 <= i < |blank| :: IsSpace(blank[i])
    requires s == "" || !IsSpace(s[0])
    ensures SkipSpace(blank + s) == s
  {
    if blank == "" {
      assert blank + s == s;
    } else {
      SkipBlanks(blank[1..], s);
      assert (blank + s)[1..] == blank[1..] + s;
    }
  }

  /** Digits after blanks and before a stop character are read whole by strtoul. */
  lemma StrtoulDigits(blank: string, digits: string, rest: string)
    requires forall i | 0 <= i < |blank| :: IsSpace(blank[i])
    requires digits != "" && AllDigits(digits, 16) && Value(digits, 16) < TWO64
    requires rest == "" || (!IsDigit(rest[0], 16) && rest[0] != 'x' && rest[0] != 'X')
    ensures Strtoul16(blank + digits + rest) == Value(digits, 16)
  {
    var s := digits + rest;
    assert IsDigit(s[0], 16);
    SkipBlanks(blank, s);
    assert blank + digits + rest == blank + s;
    ReadDigitsRun(digits, rest, 16, 0);
    assert |s| >= 2 ==> s[1] != 'x' && s[1] != 'X' by {
      assert |digits| >= 2 ==> IsDigit(digits[1], 16);
    }
  }

  // ------------------------------------------------------------------ what is printed reads back

  /** A signed number as a reader takes it. */
  function ReadSigned(s: string): int {
    if s != "" && s[0] == '-' then 0 - ReadDigits(s[1..], 10, 0).0 else ReadDigits(s, 10, 0).0
  }

  /** A signed number reads back from its text, and the text starts with a minus sign exactly
      when the number is negative. */
  lemma SignedReadsBack(n: int, rest: string)
    requires rest == "" || !IsDigit(rest[0], 10)
    ensures ReadSigned(SignedDec(n) + rest) == n
    ensures SignedDec(n)[0] == '-' <==> n < 0
  {
    hide Dec;
    var d := Dec(if n < 0 then -n else n);
    ReadDec(if n < 0 then -n else n, rest);
    assert n < 0 ==> (SignedDec(n) + rest)[1..] == d + rest;
    assert d[0] != '-';
  }

  lemma DecFront(n: nat, rest: string)
    ensures Dec(n) + rest != "" && IsDigit((Dec(n) + rest)[0], 10)
    ensures var c := (Dec(n) + rest)[0];
      !IsSpace(c) && c != '-' && c != '+'
  {
    hide Dec;
    assert (Dec(n) + rest)[0] == Dec(n)[0];
  }

  /** `%d` takes a sign and all the digits behind it. */
  lemma ScanDigits(blank: string, sign: string, n: nat, rest: string)
    requires (forall i | 0 <= i < |blank| :: IsSpace(blank[i])) && sign in {"", "-", "+"}
    requires rest == "" || !IsDigit(rest[0], 10)
    ensures ScanInt(blank + (sign + (Dec(n) + rest))) ==
            Some((ToInt32(Clamp(if sign == "-" then 0 - n else n, -TWO63, TWO63 - 1)), rest))
  {
    hide Dec, IsSpace, IsDigit, ToInt32, Clamp;
    var digits := Dec(n) + rest;
    DecFront(n, rest);
    SignsAreNotSpace();
    SkipBlanks(blank, sign + digits);
    ReadDec(n, rest);
    assert sign == "" ==> sign + digits == digits;
    assert sign != "" ==> (sign + digits)[1..] == digits;
  }

  /** A printed number reads back, whatever blanks stand before it. */
  lemma ScanPrinted(blank: string, n: nat, rest: string)
    requires forall i | 0 <= i < |blank| :: IsSpace(blank[i])
    requires n < TWO31
    requires rest == "" || !IsDigit(rest[0], 10)
    ensures ScanInt(blank + Dec(n) + rest) == Some((n, rest))
  {
    hide Dec, ScanInt;
    ScanDigits(blank, "", n, rest);
    assert blank + ("" + (Dec(n) + rest)) == blank + Dec(n) + rest;
  }

  lemma SignsAreNotSpace()
    ensures !IsSpace('-') && !IsSpace('+')
  {
  }

  /** `%d` reads a printed number back with its sign, behind any blanks. */
  lemma ScanSigned(blank: string, n: int, rest: string)
    requires forall i | 0 <= i < |blank| :: IsSpace(blank[i])
    requires -TWO31 <= n < TWO31 && (rest == "" || !IsDigit(rest[0], 10))
    ensures ScanInt(blank + (SignedDec(n) + rest)) == Some((n, rest))
  {
    hide Dec, ScanInt, IsSpace, IsDigit;
    if n < 0 {
      ScanDigits(blank, "-", -n, rest);
      assert SignedDec(n) + rest == "-" + (Dec(-n) + rest);
    } else {
      ScanDigits(blank, "", n, rest);
      assert "" + (Dec(n) + rest) == Dec(n) + rest;
    }
  }

  /** A number too large for 64 bits scans as the largest one, of which 32 bits are kept. */
  lemma ScanLarge(n: nat, rest: string)
    requires n >= 0x8000_0000_0000_0000 && (rest == "" || !IsDigit(rest[0], 10))
    ensures ScanInt("" + ("" + (Dec(n) + rest))) == Some((-1, rest))
    ensures ScanInt("" + ("-" + (Dec(n) + rest))) == Some((0, rest))
  {
    hide Dec, ScanInt;
    ScanDigits("", "", n, rest);
    ScanDigits("", "-", n, rest);
  }

  /** Without a digit behind the blanks and the sign there is no number. */
  lemma NoNumber(blank: string, sign: string, rest: string)
    requires (forall i | 0 <= i < |blank| :: IsSpace(blank[i])) && sign in {"", "-", "+"}
    requires rest == "" || (!IsDigit(rest[0], 10) && !IsSpace(rest[0]) && rest[0] != '-' && rest[0] != '+')
    ensures ScanInt(blank + (sign + rest)).None?
  {
    hide IsSpace, IsDigit;
    SignsAreNotSpace();
    SkipBlanks(blank, sign + rest);
    assert sign == "" ==> sign + rest == rest;
    assert sign != "" ==> (sign + rest)[1..] == rest;
  }

  const LOWER_HEX: string := "0123456789abcdef"
  const UPPER_HEX: string := "0123456789ABCDEF"

  /** Hexadecimal digits of a natural number, in either case. */
  function Hex(n: nat, upper: bool): (s: string)
    ensures s != ""
  {
    var d := [if upper then UPPER_HEX[n % 16] else LOWER_HEX[n % 16]];
    if n < 16 then d else Hex(n / 16, upper) + d
  }

  lemma HexDigit(d: nat)
    requires d < 16
    ensures DigitValue(UPPER_HEX[d]) == d && DigitValue(LOWER_HEX[d]) == d
  {
  }

  lemma {:induction false} HexReadsBack(n: nat, upper: bool, rest: string)
    ensures ReadDigits(Hex(n, upper) + rest, 16, 0) == ReadDigits(rest, 16, n)
  {
    hide DigitValue;
    var last := [if upper then UPPER_HEX[n % 16] else LOWER_HEX[n % 16]];
    HexDigit(n % 16);
    if n < 16 {
      assert (last + rest)[1..] == rest;
    } else {
      assert Hex(n, upper) + rest == Hex(n / 16, upper) + (last + rest);
      HexReadsBack(n / 16, upper, last + rest);
      assert (last + rest)[1..] == rest;
    }
  }

  lemma {:induction false} HexIsDigits(n: nat, upper: bool)
    ensures AllDigits(Hex(n, upper), 16)
  {
    hide DigitValue;
    HexDigit(n % 16);
    if n >= 16 {
      HexIsDigits(n / 16, upper);
    }
  }

  function Pow16(k: nat): nat {
    if k == 0 then 1 else 16 * Pow16(k - 1)
  }

  lemma {:induction false} HexLength(n: nat, upper: bool, k: nat)
    requires 0 < k && n < Pow16(k)
    ensures |Hex(n, upper)| <= k
    decreases k
  {
    if n >= 16 {
      HexLength(n / 16, upper, k - 1);
    }
  }

  /** `strtoul` with base 16: a printed number reads back behind blanks, also with "0x" in
      front; a minus sign negates it in 64 bits; a larger number is cut to 64 one bits. */
  lemma StrtoulPrinted(blank: string, front: string, n: nat, upper: bool, rest: string)
    requires (forall i | 0 <= i < |blank| :: IsSpace(blank[i])) && front in {"", "+", "-", "0x"}
    requires rest == "" || (!IsDigit(rest[0], 16) && rest[0] != 'x' && rest[0] != 'X')
    ensures Strtoul16(blank + (front + (Hex(n, upper) + rest))) ==
            if n >= 0x1_0000_0000_0000_0000 then 0xFFFF_FFFF_FFFF_FFFF
            else if front == "-" && n > 0 then 0x1_0000_0000_0000_0000 - n
            else n
  {
    hide Hex, Strtoul16, IsSpace, DigitValue;
    var h := Hex(n, upper) + rest;
    HexReadsBack(n, upper, rest);
    HexFront(n, upper, rest);
    StrtoulOf(blank, front, h);
  }

  lemma StrtoulOf(blank: string, front: string, h: string)
    requires (forall i | 0 <= i < |blank| :: IsSpace(blank[i])) && front in {"", "+", "-", "0x"}
    requires h != "" && IsDigit(h[0], 16) && !IsSpace(h[0]) && h[0] != '-' && h[0] != '+'
    requires |h| > 1 ==> h[1] != 'x' && h[1] != 'X'
    ensures var n := ReadDigits(h, 16, 0).0;
      Strtoul16(blank + (front + h)) ==
      if n >= 0x1_0000_0000_0000_0000 then 0xFFFF_FFFF_FFFF_FFFF
      else if front == "-" && n > 0 then 0x1_0000_0000_0000_0000 - n
      else n
  {
    hide IsSpace, ReadDigits, Unprefixed, Unsigned64;
    SignsAreNotSpace();
    assert !IsSpace('0') by { DecFront(0, ""); }
    SkipBlanks(blank, front + h);
    NoPrefix(h);
    Unsigned64Is(ReadDigits(h, 16, 0).0);
    if front == "" {
      assert front + h == h;
    } else if front != "0x" {
      assert (front + h)[1..] == h;
    }
  }

  lemma NoPrefix(h: string)
    requires h != "" && IsDigit(h[0], 16) && (|h| > 1 ==> h[1] != 'x' && h[1] != 'X')
    ensures Unprefixed(h) == h && Unprefixed("0x" + h) == h
  {
    assert ("0x" + h)[2..] == h;
  }

  lemma Unsigned64Is(v: nat)
    ensures Unsigned64(v, false) == if v >= 0x1_0000_0000_0000_0000 then 0xFFFF_FFFF_FFFF_FFFF else v
    ensures Unsigned64(v, true) ==
            if v >= 0x1_0000_0000_0000_0000 then 0xFFFF_FFFF_FFFF_FFFF
            else if v > 0 then 0x1_0000_0000_0000_0000 - v else 0
  {
  }

  lemma HexFront(n: nat, upper: bool, rest: string)
    requires rest == "" || (rest[0] != 'x' && rest[0] != 'X')
    ensures var h := Hex(n, upper) + rest;
      && IsDigit(h[0], 16) && !IsSpace(h[0]) && h[0] != '-' && h[0] != '+'
      && (|h| > 1 ==> h[1] != 'x' && h[1] != 'X')
  {
    hide Hex;
    HexIsDigits(n, upper);
    var d := Hex(n, upper);
    assert IsDigit(d[0], 16) && (|d| > 1 ==> IsDigit(d[1], 16));
  }

  /** `strstr`: the offset of the first occurrence. */
  function Find(hay: string, needle: string): (r: Option<nat>)
    ensures r.Some? ==> r.value + |needle| <= |hay| && hay[r.value..r.value + |needle|] == needle
    ensures r.Some? ==> forall k | 0 <= k < r.value :: !(needle <= hay[k..])
    ensures r.None? ==> forall k | 0 <= k <= |hay| :: !(needle <= hay[k..])
  {
    if needle <= hay then Some(0)
    else if hay == "" then None
    else
      var r := Find(hay[1..], needle);
      assert forall k | 1 <= k <= |hay| :: hay[k..] == hay[1..][k - 1..];
      if r.None? then None
      else
        assert hay[1..][r.value..r.value + |needle|] == hay[r.value + 1..r.value + 1 + |needle|];
        Some(r.value + 1)
  }

  lemma FindAt(hay: string, needle: string, at: nat)
    requires at <= |hay| && needle <= hay[at..]
    requires forall k | 0 <= k < at :: !(needle <= hay[k..])
    ensures Find(hay, needle) == Some(at)
  {
    var r := Find(hay, needle);
    assert r.Some?;
    assert needle <= hay[r.value..];
  }
}
