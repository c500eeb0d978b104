/** The codec of encode.c and decode.c: one loop each, with staging buffers and a remainder. */
module Base64Codec {
  import opened Base64
  import opened Base64Laws
  import opened CText

  /** `b64_encode`: the text with its terminating NUL. */
  method B64Encode(src: seq<bv8>) returns (enc: string)
    ensures enc == Encode(src) + [NUL]
  {
    hide Encode;
    var tmp, buf := new bv8[3], new bv8[4];
    enc := "";
    var i: nat := 0;
    EmptyEncoding();
    for at := 0 to |src|
      invariant i <= at && i < 3 && (at - i) % 3 == 0
      invariant enc == Encode(src[..at - i]) && tmp[..i] == src[at - i..at]
    {
      ghost var done, before := at - i, tmp[..i];
      tmp[i] := src[at];
      i := i + 1;
      assert tmp[..i] == before + [src[at]] == src[done..at + 1];
      if i == 3 {
        enc := EncodeThree(tmp, buf, enc);
        EncodeMore(src, done, at + 1);
        i := 0;
      }
    }
    EncodeMore(src, |src| - i, |src|);
    assert src[..|src|] == src;
    if i > 0 {
      enc := EncodeRest(tmp, buf, i, enc);
    }
    enc := enc + [NUL];
  }

  lemma EncodeMore(src: seq<bv8>, done: nat, end: nat)
    requires done <= end <= |src| && done % 3 == 0
    ensures Encode(src[..end]) == Encode(src[..done]) + Encode(src[done..end])
    ensures done == end ==> Encode(src[done..end]) == ""
  {
    hide Encode;
    EncodeAppend(src[..done], src[done..end]);
    EmptyEncoding();
    assert src[..done] + src[done..end] == src[..end];
  }

  /** A full staging buffer. */
  method EncodeThree(tmp: array<bv8>, buf: array<bv8>, enc: string) returns (out: string)
    requires tmp.Length == 3 && buf.Length == 4 && tmp != buf
    modifies buf
    ensures out == enc + Encode(tmp[..3])
  {
    hide Sextets, Quad;
    EncodeGroup(tmp, buf);
    out := Translate(buf, 4, enc);
    ThreeBytes(tmp[..3]);
  }

  lemma ThreeBytes(t: seq<bv8>)
    requires |t| == 3
    ensures Encode(t) == Quad(Sextets(Three(t[0], t[1], t[2])), 4)
  {
    assert t[3..] == [];
  }

  lemma EmptyEncoding()
    ensures Encode([]) == ""
  {
  }

  /** The remainder: one or two bytes, filled up with zeros, and the pad characters. */
  method EncodeRest(tmp: array<bv8>, buf: array<bv8>, n: nat, enc: string) returns (out: string)
    requires tmp.Length == 3 && buf.Length == 4 && tmp != buf && 0 < n < 3
    modifies tmp, buf
    ensures out == enc + Encode(old(tmp[..n]))
  {
    hide Sextets, Symbol;
    for j := n to 3
      invariant forall k | 0 <= k < n :: tmp[k] == old(tmp[k])
      invariant forall k | n <= k < j :: tmp[k] == 0
    {
      tmp[j] := 0;
    }
    EncodeGroup(tmp, buf);
    out := Translate(buf, n + 1, enc);
    ghost var symbols := out;
    var i := n;
    while i < 3
      invariant n <= i <= 3 && out == symbols + [PAD, PAD][..i - n]
    {
      assert [PAD, PAD][..i - n] + [PAD] == [PAD, PAD][..i + 1 - n];
      out := out + [PAD];
      i := i + 1;
    }
    ghost var q := Quad(Sextets(Three(tmp[0], tmp[1], tmp[2])), n + 1);
    assert q[..n + 1] + [PAD, PAD][..3 - n] == q;
  }

  /** The shifts and masks of the C code cut the 24 bits of a group in four. */
  method EncodeGroup(tmp: array<bv8>, buf: array<bv8>)
    requires tmp.Length == 3 && buf.Length == 4 && tmp != buf
    modifies buf
    ensures Four(buf[0], buf[1], buf[2], buf[3]) == Sextets(Three(tmp[0], tmp[1], tmp[2]))
  {
    buf[0] := (tmp[0] & 0xfc) >> 2;
    buf[1] := ((tmp[0] & 0x03) << 4) + ((tmp[1] & 0xf0) >> 4);
    buf[2] := ((tmp[1] & 0x0f) << 2) + ((tmp[2] & 0xc0) >> 6);
    buf[3] := tmp[2] & 0x3f;
    EncodeBits(tmp[0], tmp[1], tmp[2]);
  }

  lemma EncodeBits(a: bv8, b: bv8, c: bv8)
    ensures Four((a & 0xfc) >> 2, ((a & 0x03) << 4) + ((b & 0xf0) >> 4),
                 ((b & 0x0f) << 2) + ((c & 0xc0) >> 6), c & 0x3f) == Sextets(Three(a, b, c))
  {
  }

  /** Appends the table entries of the first `n` numbers. */
  method Translate(buf: array<bv8>, n: nat, enc: string) returns (out: string)
    requires buf.Length == 4 && 2 <= n <= 4
    requires forall k | 0 <= k < 4 :: buf[k] < 64
    ensures out == enc + Quad(Four(buf[0], buf[1], buf[2], buf[3]), n)[..n]
  {
    hide Symbol;
    out := enc;
    ghost var q := Quad(Four(buf[0], buf[1], buf[2], buf[3]), n);
    for i := 0 to n
      invariant out == enc + q[..i]
    {
      assert Symbol(buf[i]) == q[i];
      out := out + [Symbol(buf[i])];
    }
  }

  // ------------------------------------------------------------------ decoding

  /** `b64_decode_ex`: the bytes with a NUL behind them, and their number. */
  method B64DecodeEx(src: string) returns (dec: seq<bv8>, decsize: nat)
    ensures dec == Decode(src) + [0] && decsize == |Decode(src)|
  {
    hide InAlphabet, AllAlphabet, DecodeChars, Decode;
    var tmp, buf := new int[4], new bv8[3];
    dec := [];
    var i: nat, j: nat := 0, 0;
    ghost var whole, part := "", "";
    PadIsNotAlphabet();
    EmptyDecoding();
    while j < |src|
      invariant j <= |src| && i < 4 && i == |part| && |whole| % 4 == 0
      invariant whole + part == src[..j] && AllAlphabet(whole) && AllAlphabet(part)
      invariant dec == DecodeChars(whole)
      invariant forall k | 0 <= k < i :: tmp[k] == part[k] as int
    {
      if src[j] == PAD || !InAlphabet(src[j]) {
        break;
      }
      TextGrows(src, j, whole, part);
      tmp[i] := src[j] as int;
      part := part + [src[j]];
      i, j := i + 1, j + 1;
      if i == 4 {
        dec := DecodeWhole(tmp, buf, part, dec);
        i := 0;
        DecodeGroups(whole, part);
        whole, part := whole + part, "";
      }
    }
    PrefixDecodes(src, j, whole, part);
    if i > 0 {
      dec := DecodeRest(tmp, buf, i, part, dec);
    } else {
      assert whole + part == whole;
    }
    decsize := |dec|;
    dec := dec + [0];
  }

  lemma PrefixDecodes(src: string, j: nat, whole: string, part: string)
    requires j <= |src| && whole + part == src[..j] && AllAlphabet(whole) && AllAlphabet(part) && |whole| % 4 == 0
    requires j < |src| ==> !InAlphabet(src[j])
    ensures Decode(src) == DecodeChars(whole + part) == DecodeChars(whole) + DecodeChars(part)
  {
    hide DecodeChars, InAlphabet;
    assert src == (whole + part) + src[j..];
    AlphabeticStops(whole + part, src[j..]);
    DecodeGroups(whole, part);
  }

  lemma EmptyDecoding()
    ensures DecodeChars("") == [] && AllAlphabet("")
  {
  }

  lemma TextGrows(src: string, j: nat, whole: string, part: string)
    requires j < |src| && whole + part == src[..j] && AllAlphabet(whole) && AllAlphabet(part) && InAlphabet(src[j])
    ensures whole + (part + [src[j]]) == src[..j + 1] == whole + (part + [src[j]]) + ""
    ensures AllAlphabet(part + [src[j]]) && AllAlphabet(whole + (part + [src[j]]))
  {
    hide InAlphabet;
    assert whole + (part + [src[j]]) == whole + part + [src[j]];
  }

  lemma OneGroup(q: string)
    requires |q| == 4
    ensures DecodeChars(q) == [Octets(FourOf(q)).a, Octets(FourOf(q)).b, Octets(FourOf(q)).c]
  {
    assert q[..4] == q && q[4..] == "";
  }

  /** Four characters give three bytes. */
  method DecodeWhole(tmp: array<int>, buf: array<bv8>, ghost q: string, dec: seq<bv8>) returns (out: seq<bv8>)
    requires tmp.Length == 4 && buf.Length == 3 && |q| == 4 && AllAlphabet(q)
    requires forall k | 0 <= k < 4 :: tmp[k] == q[k] as int
    modifies tmp, buf
    ensures out == dec + DecodeChars(q)
  {
    hide Octets, InAlphabet, DecodeChars;
    LookUp(tmp, q, 4);
    DecodeGroup(tmp, buf, FourOf(q));
    OneGroup(q);
    out := dec;
    for l := 0 to 3
      invariant out == dec + buf[..l]
    {
      out := out + [buf[l]];
    }
    assert buf[..3] == [buf[0], buf[1], buf[2]];
  }

  /** The remainder: up to three characters, filled up with zeros, give one byte less. */
  method DecodeRest(tmp: array<int>, buf: array<bv8>, n: nat, ghost rest: string, dec: seq<bv8>) returns (out: seq<bv8>)
    requires tmp.Length == 4 && buf.Length == 3 && 0 < n < 4 && n == |rest| && AllAlphabet(rest)
    requires forall k | 0 <= k < n :: tmp[k] == rest[k] as int
    modifies tmp, buf
    ensures out == dec + DecodeChars(rest)
  {
    hide Octets, InAlphabet;
    for l := n to 4
      invariant forall k | 0 <= k < n :: tmp[k] == rest[k] as int
      invariant forall k | n <= k < l :: tmp[k] == 0
    {
      tmp[l] := 0;
    }
    LookUp(tmp, rest, n);
    ghost var f := Four(Sextet(rest[0]), if n > 1 then Sextet(rest[1]) else 0, if n > 2 then Sextet(rest[2]) else 0, 0);
    DecodeGroup(tmp, buf, f);
    out := dec;
    for l := 0 to n - 1
      invariant out == dec + buf[..l]
    {
      out := out + [buf[l]];
    }
    assert buf[..n - 1] == DecodeChars(rest);
  }

  /** Overwrites the first `n` characters by their table indices; a NUL is in no entry. */
  method LookUp(tmp: array<int>, ghost q: string, n: nat)
    requires tmp.Length == 4 && n == |q| <= 4 && AllAlphabet(q)
    requires forall k | 0 <= k < n :: tmp[k] == q[k] as int
    requires forall k | n <= k < 4 :: tmp[k] == 0
    modifies tmp
    ensures forall k | 0 <= k < n :: tmp[k] == Rank(q[k])
    ensures forall k | n <= k < 4 :: tmp[k] == 0
  {
    for i := 0 to 4
      invariant forall k | 0 <= k < i && k < n :: tmp[k] == Rank(q[k])
      invariant forall k | i <= k < n :: tmp[k] == q[k] as int
      invariant forall k | n <= k < 4 :: tmp[k] == 0
    {
      tmp[i] := FindInTable(tmp[i]);
      if i < n {
        AlphabetIsInTable(q[i]);
      }
    }
  }

  /** The linear search in the table: the index of `code`, or `code` itself. */
  method FindInTable(code: int) returns (l: int)
    ensures forall k | 0 <= k < 64 && TABLE[k] as int == code :: l == k
    ensures (forall k | 0 <= k < 64 :: TABLE[k] as int != code) ==> l == code
    ensures code == 0 ==> l == 0
  {
    hide InAlphabet, TABLE;
    TableSize();
    l := code;
    for at := 0 to 64
      invariant l == code && forall k | 0 <= k < at :: TABLE[k] as int != code
    {
      if TABLE[at] as int == code {
        l := at;
        TableIsInjective(at);
        return;
      }
    }
  }

  lemma TableSize()
    ensures |TABLE| == 64
  {
  }

  lemma TableIsInjective(l: nat)
    requires l < 64
    ensures TABLE[l] != NUL
    ensures forall k | 0 <= k < 64 && TABLE[k] == TABLE[l] :: k == l
  {
    TableHoldsAlphabet(l);
    forall k | 0 <= k < 64 && TABLE[k] == TABLE[l] ensures k == l {
      TableHoldsAlphabet(k);
    }
  }

  /** The shifts and masks of the C code put the 24 bits together again. */
  method DecodeGroup(tmp: array<int>, buf: array<bv8>, ghost f: Four)
    requires tmp.Length == 4 && buf.Length == 3
    requires forall k | 0 <= k < 4 :: 0 <= tmp[k] < 64
    requires f == Four(tmp[0] as bv8, tmp[1] as bv8, tmp[2] as bv8, tmp[3] as bv8)
    modifies buf
    ensures Three(buf[0], buf[1], buf[2]) == Octets(f)
  {
    hide Octets;
    var t0, t1, t2, t3 := tmp[0] as bv8, tmp[1] as bv8, tmp[2] as bv8, tmp[3] as bv8;
    ByteOfNat(tmp[0]);
    ByteOfNat(tmp[1]);
    ByteOfNat(tmp[2]);
    ByteOfNat(tmp[3]);
    buf[0] := (t0 << 2) + ((t1 & 0x30) >> 4);
    buf[1] := ((t1 & 0xf) << 4) + ((t2 & 0x3c) >> 2);
    buf[2] := ((t2 & 0x3) << 6) + t3;
    DecodeBits(t0, t1, t2, t3);
  }

  lemma DecodeBits(p: bv8, q: bv8, r: bv8, s: bv8)
    requires p < 64 && q < 64 && r < 64 && s < 64
    ensures Three((p << 2) + ((q & 0x30) >> 4), ((q & 0xf) << 4) + ((r & 0x3c) >> 2), ((r & 0x3) << 6) + s) ==
            Octets(Four(p, q, r, s))
  {
  }

  lemma {:induction false} DecodeGroups(a: string, b: string)
    requires |a| % 4 == 0
    ensures DecodeChars(a + b) == DecodeChars(a) + DecodeChars(b)
    decreases |a|
  {
    hide Octets;
    if a == "" {
      assert a + b == b;
    } else {
      assert (a + b)[..4] == a[..4] && (a + b)[4..] == a[4..] + b;
      DecodeGroups(a[4..], b);
    }
  }
}
