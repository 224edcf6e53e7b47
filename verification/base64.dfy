/** Standard padded base64 (section 4 of RFC 4648), as produced by Go's
    `base64.StdEncoding.EncodeToString`, together with a strict decoder
    that accepts exactly the canonical encodings. */
module Base64 {
  import opened Results

  type byte = b: int | 0 <= b < 256
  type sextet = v: int | 0 <= v < 64

  const Pad: char := '='

  /** The 64-character alphabet "A-Z a-z 0-9 + /", indexed by sextet value. */
  function SextetChar(v: sextet): (c: char)
    ensures IsAlphabetChar(c) && c != Pad
  {
    if v < 26 then ('A' as int + v) as char
    else if v < 52 then ('a' as int + (v - 26)) as char
    else if v < 62 then ('0' as int + (v - 52)) as char
    else if v == 62 then '+'
    else '/'
  }

  predicate IsAlphabetChar(c: char)
  {
    'A' <= c <= 'Z' || 'a' <= c <= 'z' || '0' <= c <= '9' || c == '+' || c == '/'
  }

  /** The position of an alphabet character in the alphabet. */
  function SextetValue(c: char): (v: sextet)
    requires IsAlphabetChar(c)
    ensures SextetChar(v) == c
  {
    if 'A' <= c <= 'Z' then c as int - 'A' as int
    else if 'a' <= c <= 'z' then c as int - 'a' as int + 26
    else if '0' <= c <= '9' then c as int - '0' as int + 52
    else if c == '+' then 62
    else 63
  }

  lemma SextetCharInverse(v: sextet)
    ensures SextetValue(SextetChar(v)) == v
  {
  }

  /** Three bytes as four characters: the 24-bit value
      b0<<16 | b1<<8 | b2 cut into four sextets, most significant first. */
  function EncodeGroup(b0: byte, b1: byte, b2: byte): (s: string)
    ensures |s| == 4 && forall i | 0 <= i < 4 :: IsAlphabetChar(s[i]) && s[i] != Pad
  {
    var val := b0 * 65536 + b1 * 256 + b2;
    [SextetChar(val / 262144), SextetChar(val / 4096 % 64),
     SextetChar(val / 64 % 64), SextetChar(val % 64)]
  }

  /** A final single byte: two characters and two pad characters. */
  function EncodeLastOne(b0: byte): (s: string)
    ensures |s| == 4 && IsAlphabetChar(s[0]) && IsAlphabetChar(s[1])
    ensures s[0] != Pad && s[1] != Pad && s[2] == Pad && s[3] == Pad
  {
    var val := b0 * 65536;
    [SextetChar(val / 262144), SextetChar(val / 4096 % 64), Pad, Pad]
  }

  /** A final pair of bytes: three characters and one pad character. */
  function EncodeLastTwo(b0: byte, b1: byte): (s: string)
    ensures |s| == 4 && IsAlphabetChar(s[0]) && IsAlphabetChar(s[1]) && IsAlphabetChar(s[2])
    ensures s[0] != Pad && s[1] != Pad && s[2] != Pad && s[3] == Pad
  {
    var val := b0 * 65536 + b1 * 256;
    [SextetChar(val / 262144), SextetChar(val / 4096 % 64),
     SextetChar(val / 64 % 64), Pad]
  }

  /** The number of pad characters that end the encoding of n bytes. */
  function PadCount(n: nat): nat
  {
    (3 - n % 3) % 3
  }

  /** The encoding of `b`: whole three-byte groups, then the padded rest. */
  function Encode(b: seq<byte>): (s: string)
    ensures |s| == 4 * ((|b| + 2) / 3)
    decreases |b|
  {
    if |b| == 0 then []
    else if |b| == 1 then EncodeLastOne(b[0])
    else if |b| == 2 then EncodeLastTwo(b[0], b[1])
    else
      GroupCountStep(|b|);
      EncodeGroup(b[0], b[1], b[2]) + Encode(b[3..])
  }

  lemma GroupCountStep(n: int)
    requires n >= 3
    ensures (n + 2) / 3 == (n - 1) / 3 + 1
  {
    Quotient(n + 2, 3, (n - 1) / 3 + 1, (n - 1) % 3);
  }

  lemma PadCountStep(n: int)
    requires n >= 3
    ensures PadCount(n) == PadCount(n - 3)
  {
    Quotient(n, 3, (n - 3) / 3 + 1, (n - 3) % 3);
  }

  /** A longer input encodes its first three bytes as a whole group. */
  lemma EncodeStep(b: seq<byte>)
    requires |b| >= 3
    ensures Encode(b) == EncodeGroup(b[0], b[1], b[2]) + Encode(b[3..])
  {
  }

  /** `s` is alphabet characters followed by exactly `pads` pad characters. */
  predicate Padded(s: string, pads: nat)
  {
    && pads <= |s|
    && (forall i | 0 <= i < |s| - pads :: IsAlphabetChar(s[i]) && s[i] != Pad)
    && (forall i | |s| - pads <= i < |s| :: s[i] == Pad)
  }

  lemma PaddedConcat(g: string, rest: string, pads: nat)
    requires Padded(g, 0) && Padded(rest, pads)
    ensures Padded(g + rest, pads)
  {
    var s := g + rest;
    forall i | 0 <= i < |s| - pads
      ensures IsAlphabetChar(s[i]) && s[i] != Pad
    {
      if i < |g| {
        assert s[i] == g[i];
      } else {
        assert s[i] == rest[i - |g|];
      }
    }
    forall i | |s| - pads <= i < |s|
      ensures s[i] == Pad
    {
      assert s[i] == rest[i - |g|];
    }
  }

  /** Every character of an encoding is in the alphabet except the
      PadCount(|b|) pad characters that end it. */
  lemma {:induction false} EncodedChars(b: seq<byte>)
    ensures Padded(Encode(b), PadCount(|b|))
    decreases |b|
  {
    if |b| >= 3 {
      EncodedChars(b[3..]);
      PadCountStep(|b|);
      EncodeStep(b);
      PaddedConcat(EncodeGroup(b[0], b[1], b[2]), Encode(b[3..]), PadCount(|b|));
    }
  }

  /** The bytes of the 24-bit value v0<<18 | v1<<12 | v2<<6 | v3. */
  function GroupBytes(v0: sextet, v1: sextet, v2: sextet, v3: sextet): seq<byte>
  {
    var val := v0 * 262144 + v1 * 4096 + v2 * 64 + v3;
    [val / 65536, val / 256 % 256, val % 256]
  }

  /** Four alphabet characters as three bytes. */
  function DecodeGroup(q: string): Option<seq<byte>>
    requires |q| == 4
  {
    if IsAlphabetChar(q[0]) && IsAlphabetChar(q[1]) && IsAlphabetChar(q[2]) && IsAlphabetChar(q[3])
    then Some(GroupBytes(SextetValue(q[0]), SextetValue(q[1]), SextetValue(q[2]), SextetValue(q[3])))
    else None
  }

  /** The last quantum, which may end in one or two pad characters; the bits
      that padding discards must be zero (the canonical form of section 3.5
      of RFC 4648). */
  function DecodeLast(q: string): Option<seq<byte>>
    requires |q| == 4
  {
    if q[2] == Pad && q[3] == Pad then
      if IsAlphabetChar(q[0]) && IsAlphabetChar(q[1]) && SextetValue(q[1]) % 16 == 0
      then Some(GroupBytes(SextetValue(q[0]), SextetValue(q[1]), 0, 0)[..1])
      else None
    else if q[3] == Pad then
      if IsAlphabetChar(q[0]) && IsAlphabetChar(q[1]) && IsAlphabetChar(q[2]) && SextetValue(q[2]) % 4 == 0
      then Some(GroupBytes(SextetValue(q[0]), SextetValue(q[1]), SextetValue(q[2]), 0)[..2])
      else None
    else DecodeGroup(q)
  }

  /** Strict decoding: the length is a multiple of four, padding only ends
      the last quantum, and no character lies outside the alphabet. */
  function Decode(s: string): Option<seq<byte>>
    decreases |s|
  {
    if |s| % 4 != 0 then None
    else if |s| == 0 then Some([])
    else if |s| == 4 then DecodeLast(s)
    else
      var g, rest := DecodeGroup(s[..4]), Decode(s[4..]);
      if g.Some? && rest.Some? then Some(g.value + rest.value) else None
  }

  /** Division by a positive constant is determined by quotient and remainder. */
  lemma Quotient(x: int, d: int, q: int, r: int)
    requires d > 0 && 0 <= r < d && x == q * d + r
    ensures x / d == q && x % d == r
  {
    var q0 := x / d;
    assert x == q0 * d + x % d;
    if q > q0 {
      assert (q - q0) * d >= d by { AtLeastOnce(q - q0, d); }
      assert false;
    } else if q < q0 {
      assert (q0 - q) * d >= d by { AtLeastOnce(q0 - q, d); }
      assert false;
    }
  }

  lemma AtLeastOnce(k: int, d: int)
    requires k >= 1 && d > 0
    ensures k * d >= d
  {
    assert k * d == (k - 1) * d + d;
  }

  /** A 24-bit value written in base 64 has those four digits. */
  lemma SextetFields(val: int, v0: sextet, v1: sextet, v2: sextet, v3: sextet)
    requires val == v0 * 262144 + v1 * 4096 + v2 * 64 + v3
    ensures val / 262144 == v0 && val / 4096 % 64 == v1 && val / 64 % 64 == v2 && val % 64 == v3
  {
    Quotient(val, 262144, v0, v1 * 4096 + v2 * 64 + v3);
    Quotient(val, 4096, v0 * 64 + v1, v2 * 64 + v3);
    Quotient(val / 4096, 64, v0, v1);
    Quotient(val, 64, v0 * 4096 + v1 * 64 + v2, v3);
    Quotient(val / 64, 64, v0 * 64 + v1, v2);
  }

  /** A 24-bit value written in base 256 has those three digits. */
  lemma ByteFields(val: int, b0: byte, b1: byte, b2: byte)
    requires val == b0 * 65536 + b1 * 256 + b2
    ensures val / 65536 == b0 && val / 256 % 256 == b1 && val % 256 == b2
  {
    Quotient(val, 65536, b0, b1 * 256 + b2);
    Quotient(val, 256, b0 * 256 + b1, b2);
    Quotient(val / 256, 256, b0, b1);
  }

  /** The bit fields shared by three bytes and four sextets:
      b0 = v0:a, v1 = a:c, b1 = c:d, v2 = d:e, b2 = e:v3. */
  predicate SharedFields(b0: int, b1: int, b2: int, v0: int, v1: int, v2: int, v3: int,
                         a: int, c: int, d: int, e: int)
  {
    && 0 <= a < 4 && 0 <= c < 16 && 0 <= d < 16 && 0 <= e < 4
    && b0 == v0 * 4 + a && v1 == a * 16 + c && b1 == c * 16 + d
    && v2 == d * 4 + e && b2 == e * 64 + v3
  }

  /** Both readings of shared bit fields denote the same 24-bit value. */
  lemma SameValue(b0: int, b1: int, b2: int, v0: int, v1: int, v2: int, v3: int,
                  a: int, c: int, d: int, e: int)
    requires SharedFields(b0, b1, b2, v0, v1, v2, v3, a, c, d, e)
    ensures b0 * 65536 + b1 * 256 + b2 == v0 * 262144 + v1 * 4096 + v2 * 64 + v3
  {
  }

  /** Three bytes and four sextets that share their bit fields encode to
      and decode from each other. */
  lemma GroupOfFields(b0: byte, b1: byte, b2: byte, v0: sextet, v1: sextet, v2: sextet, v3: sextet,
                      a: int, c: int, d: int, e: int)
    requires SharedFields(b0, b1, b2, v0, v1, v2, v3, a, c, d, e)
    ensures EncodeGroup(b0, b1, b2) == [SextetChar(v0), SextetChar(v1), SextetChar(v2), SextetChar(v3)]
    ensures GroupBytes(v0, v1, v2, v3) == [b0, b1, b2]
  {
    SameValue(b0, b1, b2, v0, v1, v2, v3, a, c, d, e);
    SextetFields(b0 * 65536 + b1 * 256 + b2, v0, v1, v2, v3);
    ByteFields(v0 * 262144 + v1 * 4096 + v2 * 64 + v3, b0, b1, b2);
  }

  /** The final quanta are the first characters of a whole group whose
      missing bytes are zero, followed by padding. */
  lemma LastOfGroup(b0: byte, b1: byte)
    ensures EncodeLastOne(b0) == EncodeGroup(b0, 0, 0)[..2] + [Pad, Pad]
    ensures EncodeLastTwo(b0, b1) == EncodeGroup(b0, b1, 0)[..3] + [Pad]
  {
  }

  /** Decoding undoes the character mapping of four sextets. */
  lemma DecodeSextetChars(v0: sextet, v1: sextet, v2: sextet, v3: sextet)
    ensures DecodeGroup([SextetChar(v0), SextetChar(v1), SextetChar(v2), SextetChar(v3)])
      == Some(GroupBytes(v0, v1, v2, v3))
  {
    SextetCharInverse(v0);
    SextetCharInverse(v1);
    SextetCharInverse(v2);
    SextetCharInverse(v3);
  }

  lemma DecodeGroupOfEncode(b0: byte, b1: byte, b2: byte)
    ensures DecodeGroup(EncodeGroup(b0, b1, b2)) == Some([b0, b1, b2])
    ensures DecodeLast(EncodeGroup(b0, b1, b2)) == Some([b0, b1, b2])
  {
    var a, c, d, e := b0 % 4, b1 / 16, b1 % 16, b2 / 64;
    var v0, v1, v2, v3 := b0 / 4, a * 16 + c, d * 4 + e, b2 % 64;
    GroupOfFields(b0, b1, b2, v0, v1, v2, v3, a, c, d, e);
    var q := EncodeGroup(b0, b1, b2);
    DecodeSextetChars(v0, v1, v2, v3);
    assert q[3] != Pad;
  }

  lemma DecodeLastOfEncodeOne(b0: byte)
    ensures DecodeLast(EncodeLastOne(b0)) == Some([b0])
  {
    var a := b0 % 4;
    var v0, v1 := b0 / 4, a * 16;
    GroupOfFields(b0, 0, 0, v0, v1, 0, 0, a, 0, 0, 0);
    LastOfGroup(b0, 0);
    var q := EncodeLastOne(b0);
    assert q == [SextetChar(v0), SextetChar(v1), Pad, Pad];
    SextetCharInverse(v0);
    SextetCharInverse(v1);
    Quotient(v1, 16, a, 0);
    assert GroupBytes(v0, v1, 0, 0)[..1] == [b0];
  }

  lemma DecodeLastOfEncodeTwo(b0: byte, b1: byte)
    ensures DecodeLast(EncodeLastTwo(b0, b1)) == Some([b0, b1])
  {
    var a, c, d := b0 % 4, b1 / 16, b1 % 16;
    var v0, v1, v2 := b0 / 4, a * 16 + c, d * 4;
    GroupOfFields(b0, b1, 0, v0, v1, v2, 0, a, c, d, 0);
    LastOfGroup(b0, b1);
    var q := EncodeLastTwo(b0, b1);
    assert q == [SextetChar(v0), SextetChar(v1), SextetChar(v2), Pad];
    SextetCharInverse(v0);
    SextetCharInverse(v1);
    SextetCharInverse(v2);
    Quotient(v2, 4, d, 0);
    assert q[2] != Pad;
    assert GroupBytes(v0, v1, v2, 0)[..2] == [b0, b1];
  }

  /** A string longer than one quantum decodes group by group. */
  lemma DecodeCons(q: string, rest: string)
    requires |q| == 4 && |rest| > 0 && |rest| % 4 == 0
    ensures DecodeGroup(q).Some? && Decode(rest).Some? ==>
      Decode(q + rest) == Some(DecodeGroup(q).value + Decode(rest).value)
    ensures DecodeGroup(q).None? || Decode(rest).None? ==> Decode(q + rest).None?
  {
    var s := q + rest;
    assert |s| == |rest| + 4 && |s| % 4 == 0 && |s| > 4;
    assert s[..4] == q && s[4..] == rest;
  }

  lemma DecodeJoin(q: string, rest: string, x: seq<byte>, y: seq<byte>)
    requires |q| == 4 && |rest| > 0 && |rest| % 4 == 0
    requires DecodeGroup(q) == Some(x) && Decode(rest) == Some(y)
    ensures Decode(q + rest) == Some(x + y)
  {
    DecodeCons(q, rest);
  }

  /** Encodings of up to three bytes are one quantum. */
  lemma EncodeShort(b: seq<byte>)
    requires 1 <= |b| <= 3
    ensures |b| == 1 ==> Encode(b) == EncodeLastOne(b[0])
    ensures |b| == 2 ==> Encode(b) == EncodeLastTwo(b[0], b[1])
    ensures |b| == 3 ==> Encode(b) == EncodeGroup(b[0], b[1], b[2])
  {
    if |b| == 3 {
      assert Encode(b[3..]) == [];
    }
  }

  lemma DecodeEncodeOne(b: seq<byte>)
    requires |b| == 1
    ensures Decode(Encode(b)) == Some(b)
  {
    var s := EncodeLastOne(b[0]);
    EncodeShort(b);
    assert Decode(s) == DecodeLast(s);
    DecodeLastOfEncodeOne(b[0]);
    assert [b[0]] == b;
  }

  lemma DecodeEncodeTwo(b: seq<byte>)
    requires |b| == 2
    ensures Decode(Encode(b)) == Some(b)
  {
    var s := EncodeLastTwo(b[0], b[1]);
    EncodeShort(b);
    assert Decode(s) == DecodeLast(s);
    DecodeLastOfEncodeTwo(b[0], b[1]);
    assert [b[0], b[1]] == b;
  }

  lemma DecodeEncodeThree(b: seq<byte>)
    requires |b| == 3
    ensures Decode(Encode(b)) == Some(b)
  {
    var s := EncodeGroup(b[0], b[1], b[2]);
    EncodeShort(b);
    assert Decode(s) == DecodeLast(s);
    DecodeGroupOfEncode(b[0], b[1], b[2]);
    assert [b[0], b[1], b[2]] == b;
  }

  /** One more group in front of an encoding that decodes correctly. */
  lemma DecodeEncodeStep(b: seq<byte>)
    requires |b| > 3 && Decode(Encode(b[3..])) == Some(b[3..])
    ensures Decode(Encode(b)) == Some(b)
  {
    var g, rest := EncodeGroup(b[0], b[1], b[2]), Encode(b[3..]);
    assert Encode(b) == g + rest;
    DecodeGroupOfEncode(b[0], b[1], b[2]);
    var k := (|b| - 3 + 2) / 3;
    assert |rest| == 4 * k;
    assert k >= 1;
    Quotient(|rest|, 4, k, 0);
    DecodeJoin(g, rest, [b[0], b[1], b[2]], b[3..]);
    FirstThree(b);
  }

  lemma FirstThree(b: seq<byte>)
    requires |b| >= 3
    ensures [b[0], b[1], b[2]] + b[3..] == b
  {
  }

  /** Decoding the encoding of any byte sequence gives back that sequence. */
  lemma {:induction false} DecodeEncode(b: seq<byte>)
    ensures Decode(Encode(b)) == Some(b)
    decreases |b|
  {
    if |b| == 1 {
      DecodeEncodeOne(b);
    } else if |b| == 2 {
      DecodeEncodeTwo(b);
    } else if |b| == 3 {
      DecodeEncodeThree(b);
    } else if |b| > 3 {
      DecodeEncode(b[3..]);
      DecodeEncodeStep(b);
    }
  }

  /** Mapping four sextets to characters undoes their decoding. */
  lemma EncodeSextetBytes(v0: sextet, v1: sextet, v2: sextet, v3: sextet)
    ensures var g := GroupBytes(v0, v1, v2, v3);
      EncodeGroup(g[0], g[1], g[2]) == [SextetChar(v0), SextetChar(v1), SextetChar(v2), SextetChar(v3)]
  {
    var a: int, c: int, d: int, e: int := v1 / 16, v1 % 16, v2 / 4, v2 % 4;
    var b0: int, b1: int, b2: int := v0 * 4 + a, c * 16 + d, e * 64 + v3;
    GroupOfFields(b0, b1, b2, v0, v1, v2, v3, a, c, d, e);
  }

  lemma EncodeGroupOfDecode(q: string)
    requires |q| == 4
    ensures DecodeGroup(q).Some? ==> var g := DecodeGroup(q).value;
      |g| == 3 && EncodeGroup(g[0], g[1], g[2]) == q
  {
    if DecodeGroup(q).Some? {
      var v0, v1, v2, v3 := SextetValue(q[0]), SextetValue(q[1]), SextetValue(q[2]), SextetValue(q[3]);
      EncodeSextetBytes(v0, v1, v2, v3);
      assert q == [SextetChar(v0), SextetChar(v1), SextetChar(v2), SextetChar(v3)];
    }
  }

  lemma EncodeOfDecodeLastOne(q: string)
    requires |q| == 4 && q[2] == Pad && q[3] == Pad && DecodeLast(q).Some?
    ensures |DecodeLast(q).value| == 1 && Encode(DecodeLast(q).value) == q
  {
    var v0, v1 := SextetValue(q[0]), SextetValue(q[1]);
    var a: int := v1 / 16;
    var b0: int := v0 * 4 + a;
    GroupOfFields(b0, 0, 0, v0, v1, 0, 0, a, 0, 0, 0);
    LastOfGroup(b0, 0);
    assert DecodeLast(q).value == [b0];
    EncodeShort([b0]);
    assert q == [SextetChar(v0), SextetChar(v1), Pad, Pad];
  }

  lemma EncodeOfDecodeLastTwo(q: string)
    requires |q| == 4 && q[2] != Pad && q[3] == Pad && DecodeLast(q).Some?
    ensures |DecodeLast(q).value| == 2 && Encode(DecodeLast(q).value) == q
  {
    var v0, v1, v2 := SextetValue(q[0]), SextetValue(q[1]), SextetValue(q[2]);
    var a: int, c: int, d: int := v1 / 16, v1 % 16, v2 / 4;
    var b0: int, b1: int := v0 * 4 + a, c * 16 + d;
    GroupOfFields(b0, b1, 0, v0, v1, v2, 0, a, c, d, 0);
    LastOfGroup(b0, b1);
    assert DecodeLast(q).value == [b0, b1];
    EncodeShort([b0, b1]);
    assert q == [SextetChar(v0), SextetChar(v1), SextetChar(v2), Pad];
  }


  lemma EncodeOfDecodeLast(q: string)
    requires |q| == 4
    ensures DecodeLast(q).Some? ==> var g := DecodeLast(q).value;
      1 <= |g| <= 3 && Encode(g) == q
  {
    if DecodeLast(q).Some? {
      if q[2] == Pad && q[3] == Pad {
        EncodeOfDecodeLastOne(q);
      } else if q[3] == Pad {
        EncodeOfDecodeLastTwo(q);
      } else {
        EncodeGroupOfDecode(q);
        var g := DecodeLast(q).value;
        assert g == DecodeGroup(q).value && |g| == 3;
        assert Encode(g) == EncodeGroup(g[0], g[1], g[2]) + Encode(g[3..]);
        assert g[3..] == [];
      }
    }
  }

  /** Whatever the strict decoder accepts is the encoding of what it returns. */
  lemma {:induction false} EncodeDecoded(s: string)
    ensures Decode(s).Some? ==> Encode(Decode(s).value) == s
    decreases |s|
  {
    if Decode(s).Some? && |s| > 0 {
      if |s| == 4 {
        EncodeOfDecodeLast(s);
      } else {
        var g, rest := DecodeGroup(s[..4]).value, Decode(s[4..]).value;
        EncodeGroupOfDecode(s[..4]);
        EncodeDecoded(s[4..]);
        var b := g + rest;
        assert b[3..] == rest;
        assert s == s[..4] + s[4..];
      }
    }
  }

  /** The encoding is a bijection between byte sequences and the strings the
      strict decoder accepts. */
  lemma DecodeIsInverse(s: string, b: seq<byte>)
    ensures Decode(s) == Some(b) <==> Encode(b) == s
  {
    DecodeEncode(b);
    EncodeDecoded(s);
  }
}
