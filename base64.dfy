/**
  The base64 alphabet and encoding of section 4 of RFC 4648, and `atob`, which decodes it with
  the "forgiving-base64 decode" of the HTML Living Standard: ASCII whitespace is removed, one or
  two trailing `=` are dropped when the length is a multiple of four, a length of 1 modulo 4 or a
  character outside the alphabet fails (`atob` then throws an `InvalidCharacterError`), and the
  bits left over after the last whole byte are discarded.
 */
module Base64 {
  import opened Common

  /** ASCII whitespace: TAB, LF, FF, CR and SPACE. */
  predicate IsAsciiWhitespace(c: char) {
    c == '\t' || c == '\n' || c as int == 0x0C || c == '\r' || c == ' '
  }

  function StripAsciiWhitespace(s: string): (r: string)
    ensures (forall k | 0 <= k < |s| :: !IsAsciiWhitespace(s[k])) ==> r == s
  {
    if s == [] then []
    else (if IsAsciiWhitespace(s[0]) then [] else [s[0]]) + StripAsciiWhitespace(s[1..])
  }

  /** A character of the base64 alphabet (Table 1 of RFC 4648). */
  predicate IsAlphabetChar(c: char) {
    'A' <= c <= 'Z' || 'a' <= c <= 'z' || '0' <= c <= '9' || c == '+' || c == '/'
  }

  predicate AllAlphabet(u: string) {
    forall k | 0 <= k < |u| :: IsAlphabetChar(u[k])
  }

  /** The 6-bit value an alphabet character encodes. */
  function SextetOf(c: char): (v: int)
    requires IsAlphabetChar(c)
    ensures 0 <= v < 64
  {
    if 'A' <= c <= 'Z' then c as int - 'A' as int
    else if 'a' <= c <= 'z' then c as int - 'a' as int + 26
    else if '0' <= c <= '9' then c as int - '0' as int + 52
    else if c == '+' then 62
    else 63
  }

  /** The alphabet character that encodes a 6-bit value; `SextetOf` reads it back. */
  function AlphabetChar(v: int): (c: char)
    requires 0 <= v < 64
    ensures IsAlphabetChar(c) && SextetOf(c) == v
  {
    if v < 26 then ('A' as int + v) as char
    else if v < 52 then ('a' as int + v - 26) as char
    else if v < 62 then ('0' as int + v - 52) as char
    else if v == 62 then '+'
    else '/'
  }

  predicate AreSextets(v: seq<int>) {
    forall k | 0 <= k < |v| :: 0 <= v[k] < 64
  }

  /** The 6-bit values of a string of alphabet characters. */
  function SextetsOf(u: string): (v: seq<int>)
    requires AllAlphabet(u)
    ensures |v| == |u| && AreSextets(v)
  {
    seq(|u|, k requires 0 <= k < |u| => SextetOf(u[k]))
  }

  /** The alphabet characters spelling a sequence of 6-bit values. */
  function CharsOf(v: seq<int>): (u: string)
    requires AreSextets(v)
    ensures |u| == |v| && AllAlphabet(u)
  {
    seq(|v|, k requires 0 <= k < |v| => AlphabetChar(v[k]))
  }

  /** Spelling 6-bit values with the alphabet and reading them back loses nothing. */
  lemma SextetsOfChars(v: seq<int>)
    requires AreSextets(v)
    ensures SextetsOf(CharsOf(v)) == v
  {
    var u := CharsOf(v);
    forall k | 0 <= k < |v| ensures SextetsOf(u)[k] == v[k] {
      assert u[k] == AlphabetChar(v[k]);
    }
  }

  /** The three bytes a quantum of four sextets carries (the first, second and third). */
  function Byte0(a: int, b: int): byte
    requires 0 <= a < 64 && 0 <= b < 64
  {
    a * 4 + b / 16
  }

  function Byte1(b: int, c: int): byte
    requires 0 <= b < 64 && 0 <= c < 64
  {
    (b % 16) * 16 + c / 4
  }

  function Byte2(c: int, d: int): byte
    requires 0 <= c < 64 && 0 <= d < 64
  {
    (c % 4) * 64 + d
  }

  /**
    Packs sextets into bytes; a final group of 2 or 3 sextets gives 1 or 2 bytes, and the bits
    left over are discarded (a lone final sextet, which `atob` rejects first, would give none).
   */
  function DecodeSextets(v: seq<int>): (r: seq<byte>)
    requires AreSextets(v)
    decreases |v|
  {
    if |v| <= 1 then []
    else if |v| == 2 then [Byte0(v[0], v[1])]
    else if |v| == 3 then [Byte0(v[0], v[1]), Byte1(v[1], v[2])]
    else
      assert forall k | 0 <= k < |v| - 4 :: v[4..][k] == v[k + 4];
      [Byte0(v[0], v[1]), Byte1(v[1], v[2]), Byte2(v[2], v[3])] + DecodeSextets(v[4..])
  }

  /** Removes the padding: two trailing `=` if there are two, else one if there is one. */
  function DropPadding(t: string): string {
    if |t| >= 2 && t[|t| - 2] == '=' && t[|t| - 1] == '=' then t[..|t| - 2]
    else if |t| >= 1 && t[|t| - 1] == '=' then t[..|t| - 1]
    else t
  }

  /** The forgiving-base64 decode; `None` is the failure on which `atob` throws. */
  function ForgivingDecode(s: string): Option<seq<byte>> {
    var t := StripAsciiWhitespace(s);
    var u := if |t| % 4 == 0 then DropPadding(t) else t;
    if |u| % 4 == 1 || !AllAlphabet(u) then None else Some(DecodeSextets(SextetsOf(u)))
  }

  /** `atob(s)`: the decoded bytes as a "binary string", one character per byte. */
  function Atob(s: string): (r: Option<string>)
    ensures r.Some? ==> forall k | 0 <= k < |r.value| :: r.value[k] as int < 256
    ensures r.Some? <==> ForgivingDecode(s).Some?
  {
    match ForgivingDecode(s)
    case None => None
    case Some(bytes) => Some(seq(|bytes|, k requires 0 <= k < |bytes| => bytes[k] as char))
  }

  /** The second sextet of a quantum: the low 2 bits of `x` and the high 4 bits of `y`. */
  function Sextet1(x: byte, y: byte): (v: int)
    ensures 0 <= v < 64
  {
    (x % 4) * 16 + y / 16
  }

  /** The third sextet of a quantum: the low 4 bits of `y` and the high 2 bits of `z`. */
  function Sextet2(y: byte, z: byte): (v: int)
    ensures 0 <= v < 64
  {
    (y % 16) * 4 + z / 64
  }

  /** The four sextets of three bytes. */
  function QuantumSextets(x: byte, y: byte, z: byte): (q: seq<int>)
    ensures |q| == 4 && AreSextets(q)
  {
    [x / 4, Sextet1(x, y), Sextet2(y, z), z % 64]
  }

  /** The sextets of `b` without padding: 4 per whole 3 bytes, then 2 or 3 more for a partial group. */
  function EncodeSextets(b: seq<byte>): (v: seq<int>)
    ensures AreSextets(v)
    decreases |b|
  {
    if |b| == 0 then []
    else if |b| == 1 then [b[0] / 4, Sextet1(b[0], 0)]
    else if |b| == 2 then [b[0] / 4, Sextet1(b[0], b[1]), Sextet2(b[1], 0)]
    else
      var q := QuantumSextets(b[0], b[1], b[2]);
      var rest := EncodeSextets(b[3..]);
      assert forall k | 4 <= k < 4 + |rest| :: (q + rest)[k] == rest[k - 4];
      q + rest
  }

  /** The base64 characters of `b` without padding. */
  function EncodeUnpadded(b: seq<byte>): (r: string)
    ensures AllAlphabet(r) && |r| == |EncodeSextets(b)|
  {
    CharsOf(EncodeSextets(b))
  }

  /** The padded base64 encoding of section 4 of RFC 4648. */
  function Encode(b: seq<byte>): string {
    EncodeUnpadded(b) + (if |b| % 3 == 1 then "==" else if |b| % 3 == 2 then "=" else "")
  }

  /** Four sextets per whole three bytes, then two or three more for a partial group. */
  lemma {:induction false} EncodedLength(b: seq<byte>)
    ensures |EncodeSextets(b)| == 4 * (|b| / 3) + (if |b| % 3 == 0 then 0 else |b| % 3 + 1)
    decreases |b|
  {
    if |b| >= 3 {
      EncodedLength(b[3..]);
    }
  }

  /** The bit shuffling of one quantum: splitting three bytes into four sextets and back is the identity. */
  lemma Quantum(x: byte, y: byte, z: byte)
    ensures Byte0(x / 4, Sextet1(x, y)) == x
    ensures Byte1(Sextet1(x, y), Sextet2(y, z)) == y
    ensures Byte2(Sextet2(y, z), z % 64) == z
  {
    var s1, s2 := Sextet1(x, y), Sextet2(y, z);
    assert s1 / 16 == x % 4 && s1 % 16 == y / 16;
    assert s2 / 4 == y % 16 && s2 % 4 == z / 64;
  }

  lemma DecodeEncodeOne(x: byte)
    ensures DecodeSextets(EncodeSextets([x])) == [x]
  {
    Quantum(x, 0, 0);
  }

  lemma DecodeEncodeTwo(x: byte, y: byte)
    ensures DecodeSextets(EncodeSextets([x, y])) == [x, y]
  {
    Quantum(x, y, 0);
  }

  /** One whole quantum: the four sextets of three bytes pack back into them, ahead of what follows. */
  lemma DecodeEncodeQuantum(x: byte, y: byte, z: byte, rest: seq<byte>)
    ensures DecodeSextets(EncodeSextets([x, y, z] + rest)) == [x, y, z] + DecodeSextets(EncodeSextets(rest))
  {
    var b := [x, y, z] + rest;
    assert b[3..] == rest;
    assert EncodeSextets(b)[4..] == EncodeSextets(rest);
    Quantum(x, y, z);
  }

  /** Packing the sextets of `b` back into bytes gives `b`. */
  lemma {:induction false} DecodeEncodeSextets(b: seq<byte>)
    ensures DecodeSextets(EncodeSextets(b)) == b
    decreases |b|
  {
    if |b| == 1 {
      assert b == [b[0]];
      DecodeEncodeOne(b[0]);
    } else if |b| == 2 {
      assert b == [b[0], b[1]];
      DecodeEncodeTwo(b[0], b[1]);
    } else if |b| >= 3 {
      assert b == [b[0], b[1], b[2]] + b[3..];
      DecodeEncodeQuantum(b[0], b[1], b[2], b[3..]);
      DecodeEncodeSextets(b[3..]);
    }
  }

  /** Decoding the unpadded characters of `b` gives back `b`. */
  lemma DecodeEncodeUnpadded(b: seq<byte>)
    ensures DecodeSextets(SextetsOf(EncodeUnpadded(b))) == b
  {
    SextetsOfChars(EncodeSextets(b));
    DecodeEncodeSextets(b);
  }

  /** The padded encoding holds alphabet characters and `=` only, so no ASCII whitespace. */
  lemma EncodingHasNoWhitespace(b: seq<byte>)
    ensures forall k | 0 <= k < |Encode(b)| :: Encode(b)[k] == '=' || IsAlphabetChar(Encode(b)[k])
    ensures StripAsciiWhitespace(Encode(b)) == Encode(b)
  {
    var u := EncodeUnpadded(b);
    var e := Encode(b);
    forall k | 0 <= k < |e| ensures e[k] == '=' || IsAlphabetChar(e[k]) {
      if k < |u| { assert e[k] == u[k]; }
    }
  }

  /** `atob`'s padding rule removes exactly the padding the encoder added. */
  lemma DropPaddingOfEncode(b: seq<byte>)
    ensures |Encode(b)| % 4 == 0
    ensures |EncodeUnpadded(b)| % 4 != 1
    ensures DropPadding(Encode(b)) == EncodeUnpadded(b)
  {
    var u := EncodeUnpadded(b);
    EncodedLength(b);
    var q := |b| / 3;
    if |b| % 3 == 1 {
      assert |u| == 4 * q + 2 && |Encode(b)| == 4 * (q + 1);
      DropAppendedPadding(u, "==");
    } else if |b| % 3 == 2 {
      assert |u| == 4 * q + 3 && |Encode(b)| == 4 * (q + 1);
      DropAppendedPadding(u, "=");
    } else {
      assert |u| == 4 * q;
      DropAppendedPadding(u, "");
    }
  }

  /** Padding appended to alphabet text is exactly what `DropPadding` removes. */
  lemma DropAppendedPadding(u: string, pad: string)
    requires AllAlphabet(u)
    requires pad == "" || pad == "=" || (pad == "==" && |u| > 0)
    ensures DropPadding(u + pad) == u
  {
    var e := u + pad;
    if pad == "==" {
      assert e[..|e| - 2] == u;
    } else if pad == "=" {
      assert |u| > 0 ==> e[|e| - 2] == u[|u| - 1];
      assert e[..|e| - 1] == u;
    } else {
      assert e == u;
      assert |u| > 0 ==> IsAlphabetChar(u[|u| - 1]);
    }
  }

  /** `atob` inverts the encoding: the padded encoding of any byte string decodes to it. */
  lemma DecodeEncode(b: seq<byte>)
    ensures ForgivingDecode(Encode(b)) == Some(b)
  {
    var e, u := Encode(b), EncodeUnpadded(b);
    EncodingHasNoWhitespace(b);
    DropPaddingOfEncode(b);
    assert |u| % 4 != 1 && AllAlphabet(u);
    DecodeEncodeUnpadded(b);
    assert ForgivingDecode(e) == Some(DecodeSextets(SextetsOf(u)));
  }
}
