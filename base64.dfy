/**
 * Base64 as `Buffer.prototype.toString('base64')` writes it (the standard
 * alphabet with `=` padding, section 4 of RFC 4648), a strict decoder that is
 * its exact inverse, and the URL-safe unpadded variant the controller derives
 * from it with `.replace(/\+/g, '-').replace(/\//g, '_').replace(/=+$/, '')`
 * (section 5 of RFC 4648).
 */
module Base64 {
  import opened Wrappers
  import opened Bytes

  type sextet = x: int | 0 <= x < 64

  /** The character of a 6-bit group: `A`-`Z`, `a`-`z`, `0`-`9`, `+`, `/`. */
  function Char(i: sextet): char {
    if i < 26 then (65 + i) as char
    else if i < 52 then (97 + i - 26) as char
    else if i < 62 then (48 + i - 52) as char
    else if i == 62 then '+'
    else '/'
  }

  /** The 6-bit group a character stands for, if it is in the alphabet. */
  function Value(c: char): (v: Option<sextet>)
    ensures v.Some? ==> Char(v.value) == c
  {
    var n := c as int;
    if 65 <= n <= 90 then Some(n - 65)
    else if 97 <= n <= 122 then Some(n - 71)
    else if 48 <= n <= 57 then Some(n + 4)
    else if c == '+' then Some(62)
    else if c == '/' then Some(63)
    else None
  }

  lemma ValueOfChar(i: sextet)
    ensures Value(Char(i)) == Some(i)
  {
  }

  predicate IsAlphabetChar(c: char) {
    ('A' <= c <= 'Z') || ('a' <= c <= 'z') || ('0' <= c <= '9') || c == '+' || c == '/'
  }

  /** Every base64 character is in the alphabet, and `=` is not. */
  lemma CharInAlphabet(i: sextet)
    ensures IsAlphabetChar(Char(i)) && Char(i) != '='
  {
  }

  /** Three bytes as four characters. */
  function Quad(b0: byte, b1: byte, b2: byte): string {
    [Char(b0 / 4), Char((b0 % 4) * 16 + b1 / 16), Char((b1 % 16) * 4 + b2 / 64), Char(b2 % 64)]
  }

  /**
   * The characters of the encoding without its padding: four per full group of
   * three bytes, then two for one leftover byte or three for two.
   */
  function Digits(b: seq<byte>): (s: string)
    ensures |s| == 4 * (|b| / 3) + (if |b| % 3 == 0 then 0 else |b| % 3 + 1)
    ensures forall k :: 0 <= k < |s| ==> Value(s[k]).Some?
    decreases |b|
  {
    if |b| >= 3 then Quad(b[0], b[1], b[2]) + Digits(b[3..])
    else if |b| == 2 then [Char(b[0] / 4), Char((b[0] % 4) * 16 + b[1] / 16), Char((b[1] % 16) * 4)]
    else if |b| == 1 then [Char(b[0] / 4), Char((b[0] % 4) * 16)]
    else ""
  }

  /** The `=` characters that fill the last group up to four characters. */
  function Padding(n: nat): string {
    if n % 3 == 1 then "==" else if n % 3 == 2 then "=" else ""
  }

  /** Standard base64 with padding. */
  function Encode(b: seq<byte>): string {
    Digits(b) + Padding(|b|)
  }

  lemma EncodeLength(b: seq<byte>)
    ensures |Encode(b)| == 4 * ((|b| + 2) / 3)
  {
  }

  /** The bytes packed into four, three or two 6-bit groups. */
  function Bytes3(v0: sextet, v1: sextet, v2: sextet, v3: sextet): seq<byte> {
    var b0: byte := v0 * 4 + v1 / 16;
    var b1: byte := (v1 % 16) * 16 + v2 / 4;
    var b2: byte := (v2 % 4) * 64 + v3;
    [b0, b1, b2]
  }

  function Bytes2(v0: sextet, v1: sextet, v2: sextet): seq<byte> {
    var b0: byte := v0 * 4 + v1 / 16;
    var b1: byte := (v1 % 16) * 16 + v2 / 4;
    [b0, b1]
  }

  function Bytes1(v0: sextet, v1: sextet): seq<byte> {
    var b0: byte := v0 * 4 + v1 / 16;
    [b0]
  }

  /** Splitting bytes into groups and packing the groups again is the identity. */
  lemma SextetsOfBytes(b0: byte, b1: byte, b2: byte)
    ensures (b0 / 4) * 4 + ((b0 % 4) * 16 + b1 / 16) / 16 == b0
    ensures (((b0 % 4) * 16 + b1 / 16) % 16) * 16 + ((b1 % 16) * 4 + b2 / 64) / 4 == b1
    ensures ((((b1 % 16) * 4 + b2 / 64)) % 4) * 64 + b2 % 64 == b2
  {
  }

  /** Packing groups into bytes and splitting the bytes again is the identity. */
  lemma BytesOfSextets(v0: sextet, v1: sextet, v2: sextet, v3: sextet)
    ensures (v0 * 4 + v1 / 16) / 4 == v0
    ensures ((v0 * 4 + v1 / 16) % 4) * 16 + ((v1 % 16) * 16 + v2 / 4) / 16 == v1
    ensures (((v1 % 16) * 16 + v2 / 4) % 16) * 4 + ((v2 % 4) * 64 + v3) / 64 == v2
    ensures ((v2 % 4) * 64 + v3) % 64 == v3
  {
  }

  /** Four characters without padding as three bytes. */
  function DecodeFull(q: string): Option<seq<byte>>
    requires |q| == 4
  {
    if Value(q[0]).Some? && Value(q[1]).Some? && Value(q[2]).Some? && Value(q[3]).Some? then
      Some(Bytes3(Value(q[0]).value, Value(q[1]).value, Value(q[2]).value, Value(q[3]).value))
    else None
  }

  /**
   * The last group, which may end in one or two `=`; the bits the padding
   * leaves unused must be zero, so that only canonical encodings decode.
   */
  function DecodeLast(q: string): Option<seq<byte>>
    requires |q| == 4
  {
    if q[2] == '=' && q[3] == '=' then
      if Value(q[0]).Some? && Value(q[1]).Some? && Value(q[1]).value % 16 == 0 then
        Some(Bytes1(Value(q[0]).value, Value(q[1]).value))
      else None
    else if q[3] == '=' then
      if Value(q[0]).Some? && Value(q[1]).Some? && Value(q[2]).Some? && Value(q[2]).value % 4 == 0 then
        Some(Bytes2(Value(q[0]).value, Value(q[1]).value, Value(q[2]).value))
      else None
    else DecodeFull(q)
  }

  /** Strict decoding of standard, padded base64. */
  function Decode(s: string): Option<seq<byte>>
    decreases |s|
  {
    if |s| == 0 then Some([])
    else if |s| < 4 then None
    else if |s| == 4 then DecodeLast(s)
    else
      match DecodeFull(s[..4])
      case None => None
      case Some(head) =>
        match Decode(s[4..])
        case None => None
        case Some(tail) => Some(head + tail)
  }

  lemma QuadRoundTrip(b0: byte, b1: byte, b2: byte)
    ensures DecodeFull(Quad(b0, b1, b2)) == Some([b0, b1, b2])
    ensures DecodeLast(Quad(b0, b1, b2)) == Some([b0, b1, b2])
  {
    var v0, v1, v2, v3 := b0 / 4, (b0 % 4) * 16 + b1 / 16, (b1 % 16) * 4 + b2 / 64, b2 % 64;
    ValueOfChar(v0);
    ValueOfChar(v1);
    ValueOfChar(v2);
    ValueOfChar(v3);
    SextetsOfBytes(b0, b1, b2);
    assert Bytes3(v0, v1, v2, v3) == [b0, b1, b2];
  }

  lemma PairRoundTrip(b0: byte, b1: byte)
    ensures DecodeLast(Encode([b0, b1])) == Some([b0, b1])
  {
    var v0, v1, v2 := b0 / 4, (b0 % 4) * 16 + b1 / 16, (b1 % 16) * 4;
    ValueOfChar(v0);
    ValueOfChar(v1);
    ValueOfChar(v2);
    SextetsOfBytes(b0, b1, 0);
    var q := Encode([b0, b1]);
    assert q == [Char(v0), Char(v1), Char(v2), '='];
    assert Bytes2(v0, v1, v2) == [b0, b1];
  }

  lemma SingleRoundTrip(b0: byte)
    ensures DecodeLast(Encode([b0])) == Some([b0])
  {
    var v0, v1 := b0 / 4, (b0 % 4) * 16;
    ValueOfChar(v0);
    ValueOfChar(v1);
    SextetsOfBytes(b0, 0, 0);
    var q := Encode([b0]);
    assert q == [Char(v0), Char(v1), '=', '='];
    assert Bytes1(v0, v1) == [b0];
  }

  /** The encoding of three or more bytes starts with the characters of the first three. */
  lemma EncodeCons(b: seq<byte>)
    requires |b| >= 3
    ensures Encode(b) == Quad(b[0], b[1], b[2]) + Encode(b[3..])
  {
    assert Padding(|b|) == Padding(|b[3..]|);
  }

  /** A full group followed by a decodable rest decodes to the group's bytes and the rest's. */
  lemma DecodeStep(s: string, q: string, r: string, h: seq<byte>, t: seq<byte>)
    requires s == q + r && |q| == 4 && |r| > 0
    requires DecodeFull(q) == Some(h) && Decode(r) == Some(t)
    ensures Decode(s) == Some(h + t)
  {
    assert s[..4] == q;
    assert s[4..] == r;
  }

  /** Decoding the encoding gives back the bytes. */
  lemma {:induction false} DecodeEncode(b: seq<byte>)
    ensures Decode(Encode(b)) == Some(b)
    decreases |b|
  {
    if |b| >= 3 {
      var q := Quad(b[0], b[1], b[2]);
      var rest := b[3..];
      EncodeCons(b);
      QuadRoundTrip(b[0], b[1], b[2]);
      if |rest| == 0 {
        assert Encode(b) == q;
        assert b == [b[0], b[1], b[2]];
      } else {
        DecodeEncode(rest);
        EncodeLength(rest);
        DecodeStep(Encode(b), q, Encode(rest), [b[0], b[1], b[2]], rest);
        assert b == [b[0], b[1], b[2]] + rest;
      }
    } else if |b| == 2 {
      PairRoundTrip(b[0], b[1]);
      assert b == [b[0], b[1]];
    } else if |b| == 1 {
      SingleRoundTrip(b[0]);
      assert b == [b[0]];
    }
  }

  lemma DecodeFullCanonical(q: string, t: seq<byte>)
    requires |q| == 4 && DecodeFull(q) == Some(t)
    ensures |t| == 3 && Quad(t[0], t[1], t[2]) == q
  {
    var v0, v1, v2, v3 := Value(q[0]).value, Value(q[1]).value, Value(q[2]).value, Value(q[3]).value;
    assert t == Bytes3(v0, v1, v2, v3);
    BytesOfSextets(v0, v1, v2, v3);
    assert Quad(t[0], t[1], t[2]) == [Char(v0), Char(v1), Char(v2), Char(v3)];
  }

  lemma DecodeOneCanonical(q: string, t: seq<byte>)
    requires |q| == 4 && q[2] == '=' && q[3] == '=' && DecodeLast(q) == Some(t)
    ensures |t| == 1 && Encode(t) == q
  {
    var v0: sextet, v1: sextet := Value(q[0]).value, Value(q[1]).value;
    assert v1 % 16 == 0;
    var t0: byte := v0 as int * 4 + v1 as int / 16;
    assert t == [t0];
    BytesOfSextets(v0, v1, 0, 0);
    assert t0 / 4 == v0 && (t0 % 4) * 16 == v1;
    assert Digits(t) == [Char(v0), Char(v1)];
    assert q == [Char(v0), Char(v1)] + "==";
  }

  lemma DecodeTwoCanonical(q: string, t: seq<byte>)
    requires |q| == 4 && q[2] != '=' && q[3] == '=' && DecodeLast(q) == Some(t)
    ensures |t| == 2 && Encode(t) == q
  {
    var v0, v1, v2 := Value(q[0]).value, Value(q[1]).value, Value(q[2]).value;
    assert v2 % 4 == 0;
    var t0: byte := v0 as int * 4 + v1 as int / 16;
    var t1: byte := (v1 as int % 16) * 16 + v2 as int / 4;
    assert t == [t0, t1];
    BytesOfSextets(v0, v1, v2, 0);
    assert t0 / 4 == v0 && (t0 % 4) * 16 + t1 / 16 == v1 && (t1 % 16) * 4 == v2;
    assert Digits(t) == [Char(v0), Char(v1), Char(v2)];
    assert q == [Char(v0), Char(v1), Char(v2)] + "=";
  }

  lemma DecodeLastCanonical(q: string, t: seq<byte>)
    requires |q| == 4 && DecodeLast(q) == Some(t)
    ensures 1 <= |t| <= 3 && Encode(t) == q
  {
    if q[2] == '=' && q[3] == '=' {
      DecodeOneCanonical(q, t);
    } else if q[3] == '=' {
      DecodeTwoCanonical(q, t);
    } else {
      assert DecodeFull(q) == Some(t);
      DecodeFullCanonical(q, t);
      assert t[3..] == [];
      assert Encode(t) == Quad(t[0], t[1], t[2]) + Digits([]) + Padding(3);
    }
  }

  /** The decoder accepts only what the encoder writes: a decoded string is the encoding of its bytes. */
  lemma {:induction false} EncodeDecode(s: string, b: seq<byte>)
    requires Decode(s) == Some(b)
    ensures Encode(b) == s
    decreases |s|
  {
    if |s| == 4 {
      DecodeLastCanonical(s, b);
    } else if |s| > 4 {
      var head := DecodeFull(s[..4]).value;
      var tail := Decode(s[4..]).value;
      DecodeFullCanonical(s[..4], head);
      EncodeDecode(s[4..], tail);
      assert b == head + tail;
      assert b[3..] == tail;
      assert Encode(b) == Quad(head[0], head[1], head[2]) + Encode(tail);
      assert s == s[..4] + s[4..];
    }
  }

  // ---- URL-safe, unpadded form ----

  /** `+` becomes `-` and `/` becomes `_`; every other character is kept. */
  function UrlSafeChar(c: char): char {
    if c == '+' then '-' else if c == '/' then '_' else c
  }

  function ToUrlSafe(s: string): (r: string)
    ensures |r| == |s| && forall k :: 0 <= k < |s| ==> r[k] == UrlSafeChar(s[k])
  {
    seq(|s|, k requires 0 <= k < |s| => UrlSafeChar(s[k]))
  }

  /** `.replace(/=+$/, '')`: removes the whole run of `=` at the end. */
  function StripTrailingPadding(s: string): (r: string)
    ensures |r| <= |s| && r == s[..|r|]
    ensures forall k :: |r| <= k < |s| ==> s[k] == '='
    ensures |r| > 0 ==> r[|r| - 1] != '='
    decreases |s|
  {
    if |s| > 0 && s[|s| - 1] == '=' then StripTrailingPadding(s[..|s| - 1]) else s
  }

  /** What the controller sends: standard base64, made URL-safe, with its padding stripped. */
  function EncodeUrl(b: seq<byte>): string {
    StripTrailingPadding(ToUrlSafe(Encode(b)))
  }

  predicate IsUrlAlphabetChar(c: char) {
    ('A' <= c <= 'Z') || ('a' <= c <= 'z') || ('0' <= c <= '9') || c == '-' || c == '_'
  }

  /** The inverse character map, `-` back to `+` and `_` back to `/`. */
  function FromUrlSafe(s: string): (r: string)
    ensures |r| == |s|
  {
    seq(|s|, k requires 0 <= k < |s| => if s[k] == '-' then '+' else if s[k] == '_' then '/' else s[k])
  }

  /** Restores the padding of an unpadded encoding; a length of 1 modulo 4 cannot occur and is refused. */
  function Repad(s: string): Option<string> {
    if |s| % 4 == 1 then None
    else if |s| % 4 == 2 then Some(s + "==")
    else if |s| % 4 == 3 then Some(s + "=")
    else Some(s)
  }

  /** The decoder for the URL-safe form: re-pad, map the two characters back, decode. */
  function DecodeUrl(u: string): Option<seq<byte>> {
    match Repad(FromUrlSafe(u))
    case None => None
    case Some(s) => Decode(s)
  }

  lemma {:induction false} StripDigitsPadding(d: string, p: string)
    requires |d| > 0 ==> d[|d| - 1] != '='
    requires forall k :: 0 <= k < |p| ==> p[k] == '='
    ensures StripTrailingPadding(d + p) == d
    decreases |p|
  {
    if |p| == 0 {
      assert d + p == d;
    } else {
      var s := d + p;
      assert s[|s| - 1] == '=';
      assert s[..|s| - 1] == d + p[..|p| - 1];
      StripDigitsPadding(d, p[..|p| - 1]);
    }
  }

  /** The URL-safe encoding is the digits alone, with `+` and `/` replaced. */
  lemma EncodeUrlIsDigits(b: seq<byte>)
    ensures EncodeUrl(b) == ToUrlSafe(Digits(b))
  {
    var d := Digits(b);
    var p := Padding(|b|);
    var u := ToUrlSafe(d + p);
    assert u == ToUrlSafe(d) + p;
    if |d| > 0 {
      CharInAlphabet(Value(d[|d| - 1]).value);
    }
    StripDigitsPadding(ToUrlSafe(d), p);
  }

  /** The URL-safe output uses only `A`-`Z`, `a`-`z`, `0`-`9`, `-` and `_`, hence never `=`. */
  lemma EncodeUrlAlphabet(b: seq<byte>)
    ensures forall k :: 0 <= k < |EncodeUrl(b)| ==> IsUrlAlphabetChar(EncodeUrl(b)[k])
  {
    EncodeUrlIsDigits(b);
    var d := Digits(b);
    forall k | 0 <= k < |d| ensures IsUrlAlphabetChar(ToUrlSafe(d)[k]) {
      CharInAlphabet(Value(d[k]).value);
    }
  }

  /** Four characters per full group of three bytes, then two or three for a partial group. */
  lemma EncodeUrlLength(b: seq<byte>)
    ensures |EncodeUrl(b)| == 4 * (|b| / 3) + (if |b| % 3 == 0 then 0 else if |b| % 3 == 1 then 2 else 3)
  {
    EncodeUrlIsDigits(b);
  }

  lemma FromToUrlSafe(d: string)
    requires forall k :: 0 <= k < |d| ==> Value(d[k]).Some?
    ensures FromUrlSafe(ToUrlSafe(d)) == d
  {
    forall k | 0 <= k < |d| ensures FromUrlSafe(ToUrlSafe(d))[k] == d[k] {
      CharInAlphabet(Value(d[k]).value);
    }
  }

  /** A string of the length of `n` bytes' digits re-pads with `n`'s padding. */
  lemma RepadLength(d: string, n: nat)
    requires |d| == 4 * (n / 3) + (if n % 3 == 0 then 0 else n % 3 + 1)
    ensures Repad(d) == Some(d + Padding(n))
  {
    var g := n / 3;
    if n % 3 == 1 {
      assert |d| == 4 * g + 2;
      assert |d| % 4 == 2;
    } else if n % 3 == 2 {
      assert |d| == 4 * g + 3;
      assert |d| % 4 == 3;
    } else {
      assert |d| == 4 * g;
      assert |d| % 4 == 0;
      assert d + "" == d;
    }
  }

  /** The length of the digits alone tells how much padding the encoding had. */
  lemma RepadDigits(b: seq<byte>)
    ensures Repad(Digits(b)) == Some(Encode(b))
  {
    var d := Digits(b);
    assert Encode(b) == d + Padding(|b|);
    RepadLength(d, |b|);
  }

  /** Re-padding, mapping `-` and `_` back and decoding recovers the bytes. */
  lemma DecodeUrlEncodeUrl(b: seq<byte>)
    ensures DecodeUrl(EncodeUrl(b)) == Some(b)
  {
    EncodeUrlIsDigits(b);
    FromToUrlSafe(Digits(b));
    RepadDigits(b);
    DecodeEncode(b);
  }
}
