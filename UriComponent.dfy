/**
 * `encodeURIComponent` and `decodeURIComponent` of ECMAScript (sections 19.2.6.4/19.2.6.2 of ECMA-262),
 * the percent-encoding of section 2.1 of RFC 3986 over UTF-8 octets.
 *
 * A Dafny `string` holds Unicode scalar values, so it stands for a well-formed JavaScript string
 * (no lone surrogates); on such strings `encodeURIComponent` never throws.
 */
module UriComponent {
  import opened Wrappers

  /** The characters `encodeURIComponent` leaves alone: ASCII letters, digits and `-_.!~*'()`. */
  predicate Unescaped(c: char) {
    ('A' <= c <= 'Z') || ('a' <= c <= 'z') || ('0' <= c <= '9')
    || c == '-' || c == '_' || c == '.' || c == '!' || c == '~' || c == '*' || c == '\'' || c == '(' || c == ')'
  }

  /** The upper-case hexadecimal digit for `d`. */
  function HexDigit(d: nat): (c: char)
    requires d < 16
    ensures Unescaped(c)
  {
    if d < 10 then ('0' as int + d) as char else ('A' as int + d - 10) as char
  }

  /** The value of a hexadecimal digit of either case, or None for any other character. */
  function HexValue(c: char): (v: Option<nat>)
    ensures v.Some? ==> v.value < 16
  {
    if '0' <= c <= '9' then Some(c as int - '0' as int)
    else if 'A' <= c <= 'F' then Some(c as int - 'A' as int + 10)
    else if 'a' <= c <= 'f' then Some(c as int - 'a' as int + 10)
    else None
  }

  lemma {:induction false} HexRoundTrip(d: nat)
    requires d < 16
    ensures HexValue(HexDigit(d)) == Some(d)
  {
  }

  /** A Unicode scalar value (what a Dafny `char` holds). */
  predicate IsScalar(cp: int) {
    (0 <= cp < 0xD800) || (0xE000 <= cp < 0x110000)
  }

  /** The UTF-8 octets of a code point (section 3 of RFC 3629). */
  function Utf8(cp: nat): (bytes: seq<nat>)
    requires cp < 0x110000
    ensures 1 <= |bytes| <= 4
    ensures forall i :: 0 <= i < |bytes| ==> bytes[i] < 256
  {
    if cp < 0x80 then [cp]
    else if cp < 0x800 then [0xC0 + cp / 64, 0x80 + cp % 64]
    else if cp < 0x10000 then [0xE0 + cp / 4096, 0x80 + (cp / 64) % 64, 0x80 + cp % 64]
    else [0xF0 + cp / 262144, 0x80 + (cp / 4096) % 64, 0x80 + (cp / 64) % 64, 0x80 + cp % 64]
  }

  /** One octet as `%XY`. */
  function Escape(b: nat): (e: string)
    requires b < 256
    ensures |e| == 3 && e[0] == '%'
  {
    ['%', HexDigit(b / 16), HexDigit(b % 16)]
  }

  /** The `%XY` escapes of a run of octets. */
  function EscapeAll(bytes: seq<nat>): (e: string)
    requires forall i :: 0 <= i < |bytes| ==> bytes[i] < 256
    ensures |e| == 3 * |bytes|
  {
    if bytes == [] then [] else Escape(bytes[0]) + EscapeAll(bytes[1..])
  }

  /** `encodeURIComponent` of one character. */
  function EncodeChar(c: char): (e: string)
    ensures Unescaped(c) ==> e == [c]
    ensures !Unescaped(c) ==> 3 <= |e| <= 12 && e[0] == '%'
  {
    if Unescaped(c) then [c] else EscapeAll(Utf8(c as int))
  }

  /** `encodeURIComponent(s)`. */
  function Encode(s: string): (e: string)
    ensures |s| <= |e| <= 12 * |s|
  {
    if s == [] then [] else EncodeChar(s[0]) + Encode(s[1..])
  }

  /** The octet written as `%XY` at position `k` of `s`, if there is one. */
  function OctetAt(s: string, k: nat): (b: Option<nat>)
    ensures b.Some? ==> k + 3 <= |s| && b.value < 256
  {
    if k + 3 <= |s| && s[k] == '%' && HexValue(s[k + 1]).Some? && HexValue(s[k + 2]).Some?
    then Some(16 * HexValue(s[k + 1]).value + HexValue(s[k + 2]).value)
    else None
  }

  /** The six payload bits of a continuation octet (`10xxxxxx`) written at position `k`. */
  function ContinuationAt(s: string, k: nat): (bits: Option<nat>)
    ensures bits.Some? ==> k + 3 <= |s| && bits.value < 64
  {
    match OctetAt(s, k)
    case Some(b) => if 0x80 <= b < 0xC0 then Some(b - 0x80) else None
    case None => None
  }

  /**
   * The character encoded by the escapes at the start of `s`, with the number of characters they
   * take, or None where `decodeURIComponent` throws a URIError: a malformed escape, a stray
   * continuation octet, a lead octet announcing more than four octets, a missing continuation,
   * an overlong form, a surrogate or a value above U+10FFFF.
   */
  function DecodeEscape(s: string): (r: Option<(char, nat)>)
    requires |s| > 0 && s[0] == '%'
    ensures r.Some? ==> 3 <= r.value.1 <= |s|
  {
    match OctetAt(s, 0)
    case None => None
    case Some(b) =>
      if b < 0x80 then Some((b as char, 3))
      else if b < 0xC0 then None
      else if b < 0xE0 then
        match ContinuationAt(s, 3)
        case None => None
        case Some(c1) =>
          var cp := (b - 0xC0) * 64 + c1;
          if cp < 0x80 then None else Some((cp as char, 6))
      else if b < 0xF0 then
        match (ContinuationAt(s, 3), ContinuationAt(s, 6))
        case (Some(c1), Some(c2)) =>
          var cp := (b - 0xE0) * 4096 + c1 * 64 + c2;
          if cp < 0x800 || (0xD800 <= cp < 0xE000) then None else Some((cp as char, 9))
        case _ => None
      else if b < 0xF8 then
        match (ContinuationAt(s, 3), ContinuationAt(s, 6), ContinuationAt(s, 9))
        case (Some(c1), Some(c2), Some(c3)) =>
          var cp := (b - 0xF0) * 262144 + c1 * 4096 + c2 * 64 + c3;
          if cp < 0x10000 || cp >= 0x110000 then None else Some((cp as char, 12))
        case _ => None
      else None
  }

  /** `c` in front of a decoded string; an error stays an error. */
  function Prepend(c: char, rest: Option<string>): Option<string>
  {
    match rest
    case Some(t) => Some([c] + t)
    case None => None
  }

  /** `decodeURIComponent(s)`; None where it throws a URIError. */
  function Decode(s: string): (r: Option<string>)
    ensures r.Some? ==> |r.value| <= |s|
    ensures '%' !in s ==> r == Some(s)
    decreases |s|
  {
    if s == [] then Some([])
    else if s[0] != '%' then
      assert s == [s[0]] + s[1..];
      Prepend(s[0], Decode(s[1..]))
    else
      match DecodeEscape(s)
      case None => None
      case Some((c, n)) => Prepend(c, Decode(s[n..]))
  }

  // ---- Proof of the round trip ----

  lemma {:induction false} EscapeReads(s: string, k: nat, b: nat)
    requires b < 256 && k + 3 <= |s| && s[k..k + 3] == Escape(b)
    ensures OctetAt(s, k) == Some(b)
  {
    assert s[k] == '%' && s[k + 1] == HexDigit(b / 16) && s[k + 2] == HexDigit(b % 16);
    HexRoundTrip(b / 16);
    HexRoundTrip(b % 16);
  }

  lemma {:induction false} EscapeSingle(b: nat)
    requires b < 256
    ensures EscapeAll([b]) == Escape(b)
  {
    assert [b][1..] == [];
  }

  lemma {:induction false} EscapeCons(b: nat, rest: seq<nat>)
    requires b < 256 && forall i :: 0 <= i < |rest| ==> rest[i] < 256
    ensures EscapeAll([b] + rest) == Escape(b) + EscapeAll(rest)
  {
    assert ([b] + rest)[1..] == rest;
  }

  /** Arithmetic behind the two-, three- and four-octet forms. */
  lemma {:induction false} Split64(cp: nat)
    ensures cp == (cp / 64) * 64 + cp % 64
    ensures cp / 4096 == (cp / 64) / 64
    ensures cp / 262144 == (cp / 4096) / 64
    ensures cp / 4096 == (cp / 4096 / 64) * 64 + (cp / 4096) % 64
    ensures cp / 64 == (cp / 4096) * 64 + (cp / 64) % 64
  {
  }

  lemma {:induction false} ThreeOctets(cp: nat)
    ensures (cp / 4096) * 4096 + ((cp / 64) % 64) * 64 + cp % 64 == cp
  {
    Split64(cp);
    var q := cp / 64;
    assert q == (cp / 4096) * 64 + q % 64;
    assert cp == q * 64 + cp % 64;
    calc {
      (cp / 4096) * 4096 + (q % 64) * 64 + cp % 64;
      ((cp / 4096) * 64 + q % 64) * 64 + cp % 64;
      q * 64 + cp % 64;
    }
  }

  lemma {:induction false} FourOctets(cp: nat)
    ensures (cp / 262144) * 262144 + ((cp / 4096) % 64) * 4096 + ((cp / 64) % 64) * 64 + cp % 64 == cp
  {
    Split64(cp);
    ThreeOctets(cp);
    var h := cp / 4096;
    assert h == (cp / 262144) * 64 + h % 64;
    calc {
      (cp / 262144) * 262144 + (h % 64) * 4096;
      ((cp / 262144) * 64 + h % 64) * 4096;
      h * 4096;
    }
  }

  /** The escapes of one character decode to that character and nothing more. */
  lemma {:induction false} DecodeEncodedChar(c: char, t: string)
    ensures Decode(EncodeChar(c) + t) == Prepend(c, Decode(t))
  {
    var s := EncodeChar(c) + t;
    var cp := c as int;
    if Unescaped(c) {
      assert s[0] == c && s[1..] == t;
    } else if cp < 0x80 {
      DecodeOneOctet(c, t);
    } else if cp < 0x800 {
      DecodeTwoOctets(c, t);
    } else if cp < 0x10000 {
      DecodeThreeOctets(c, t);
    } else {
      DecodeFourOctets(c, t);
    }
  }

  lemma {:induction false} DecodeOneOctet(c: char, t: string)
    requires !Unescaped(c) && c as int < 0x80
    ensures Decode(EncodeChar(c) + t) == Prepend(c, Decode(t))
  {
    var cp := c as int;
    var s := EncodeChar(c) + t;
    assert Utf8(cp) == [cp];
    EscapeSingle(cp);
    assert EncodeChar(c) == Escape(cp);
    EscapeReads(s, 0, cp);
    assert DecodeEscape(s) == Some((c, 3));
    assert s[3..] == t;
  }

  lemma {:induction false} DecodeTwoOctets(c: char, t: string)
    requires !Unescaped(c) && 0x80 <= c as int < 0x800
    ensures Decode(EncodeChar(c) + t) == Prepend(c, Decode(t))
  {
    var cp := c as int;
    var s := EncodeChar(c) + t;
    var b0, b1 := 0xC0 + cp / 64, 0x80 + cp % 64;
    assert Utf8(cp) == [b0] + [b1];
    EscapeSingle(b1);
    EscapeCons(b0, [b1]);
    assert EncodeChar(c) == Escape(b0) + Escape(b1);
    EscapeReads(s, 0, b0);
    EscapeReads(s, 3, b1);
    Split64(cp);
    assert (b0 - 0xC0) * 64 + (b1 - 0x80) == cp;
    assert DecodeEscape(s) == Some((c, 6));
    assert s[6..] == t;
  }

  lemma {:induction false} DecodeThreeOctets(c: char, t: string)
    requires !Unescaped(c) && 0x800 <= c as int < 0x10000
    ensures Decode(EncodeChar(c) + t) == Prepend(c, Decode(t))
  {
    var cp := c as int;
    var b0, b1, b2 := 0xE0 + cp / 4096, 0x80 + (cp / 64) % 64, 0x80 + cp % 64;
    ThreeOctetFields(cp);
    assert EncodeChar(c) == Escape(b0) + Escape(b1) + Escape(b2) by {
      assert Utf8(cp) == [b0, b1, b2];
      EscapeThree(b0, b1, b2);
    }
    DecodeThreeEscapes(b0, b1, b2, c, t);
  }

  /** Three escaped octets of a three-octet sequence decode to their character. */
  lemma {:induction false} DecodeThreeEscapes(b0: nat, b1: nat, b2: nat, c: char, t: string)
    requires 0xE0 <= b0 < 0xF0 && 0x80 <= b1 < 0xC0 && 0x80 <= b2 < 0xC0
    requires (b0 - 0xE0) * 4096 + (b1 - 0x80) * 64 + (b2 - 0x80) == c as int
    requires 0x800 <= c as int
    ensures Decode(Escape(b0) + Escape(b1) + Escape(b2) + t) == Prepend(c, Decode(t))
  {
    var s := Escape(b0) + Escape(b1) + Escape(b2) + t;
    assert OctetAt(s, 0) == Some(b0) by {
      assert s[0..3] == Escape(b0);
      EscapeReads(s, 0, b0);
    }
    assert OctetAt(s, 3) == Some(b1) by {
      assert s[3..6] == Escape(b1);
      EscapeReads(s, 3, b1);
    }
    assert OctetAt(s, 6) == Some(b2) by {
      assert s[6..9] == Escape(b2);
      EscapeReads(s, 6, b2);
    }
    DecodeThreeOctetEscape(s, b0, b1, b2, c);
    assert s[9..] == t;
  }

  lemma {:induction false} DecodeThreeOctetEscape(s: string, b0: nat, b1: nat, b2: nat, c: char)
    requires |s| > 0 && s[0] == '%'
    requires OctetAt(s, 0) == Some(b0) && OctetAt(s, 3) == Some(b1) && OctetAt(s, 6) == Some(b2)
    requires 0xE0 <= b0 < 0xF0 && 0x80 <= b1 < 0xC0 && 0x80 <= b2 < 0xC0
    requires (b0 - 0xE0) * 4096 + (b1 - 0x80) * 64 + (b2 - 0x80) == c as int
    requires 0x800 <= c as int
    ensures DecodeEscape(s) == Some((c, 9))
  {
  }

  lemma {:induction false} DecodeFourOctets(c: char, t: string)
    requires !Unescaped(c) && 0x10000 <= c as int
    ensures Decode(EncodeChar(c) + t) == Prepend(c, Decode(t))
  {
    var cp := c as int;
    var b0, b1, b2, b3 := 0xF0 + cp / 262144, 0x80 + (cp / 4096) % 64, 0x80 + (cp / 64) % 64, 0x80 + cp % 64;
    FourOctetFields(cp);
    assert EncodeChar(c) == Escape(b0) + Escape(b1) + Escape(b2) + Escape(b3) by {
      assert Utf8(cp) == [b0, b1, b2, b3];
      EscapeFour(b0, b1, b2, b3);
    }
    DecodeFourEscapes(b0, b1, b2, b3, c, t);
  }

  /** Four escaped octets of a four-octet sequence decode to their character. */
  lemma {:induction false} DecodeFourEscapes(b0: nat, b1: nat, b2: nat, b3: nat, c: char, t: string)
    requires 0xF0 <= b0 < 0xF5 && 0x80 <= b1 < 0xC0 && 0x80 <= b2 < 0xC0 && 0x80 <= b3 < 0xC0
    requires (b0 - 0xF0) * 262144 + (b1 - 0x80) * 4096 + (b2 - 0x80) * 64 + (b3 - 0x80) == c as int
    requires 0x10000 <= c as int
    ensures Decode(Escape(b0) + Escape(b1) + Escape(b2) + Escape(b3) + t) == Prepend(c, Decode(t))
  {
    var s := Escape(b0) + Escape(b1) + Escape(b2) + Escape(b3) + t;
    assert OctetAt(s, 0) == Some(b0) by {
      assert s[0..3] == Escape(b0);
      EscapeReads(s, 0, b0);
    }
    assert OctetAt(s, 3) == Some(b1) by {
      assert s[3..6] == Escape(b1);
      EscapeReads(s, 3, b1);
    }
    assert OctetAt(s, 6) == Some(b2) by {
      assert s[6..9] == Escape(b2);
      EscapeReads(s, 6, b2);
    }
    assert OctetAt(s, 9) == Some(b3) by {
      assert s[9..12] == Escape(b3);
      EscapeReads(s, 9, b3);
    }
    DecodeFourOctetEscape(s, b0, b1, b2, b3, c);
    assert s[12..] == t;
  }

  lemma {:induction false} DecodeFourOctetEscape(s: string, b0: nat, b1: nat, b2: nat, b3: nat, c: char)
    requires |s| > 0 && s[0] == '%'
    requires OctetAt(s, 0) == Some(b0) && OctetAt(s, 3) == Some(b1)
    requires OctetAt(s, 6) == Some(b2) && OctetAt(s, 9) == Some(b3)
    requires 0xF0 <= b0 < 0xF8 && 0x80 <= b1 < 0xC0 && 0x80 <= b2 < 0xC0 && 0x80 <= b3 < 0xC0
    requires (b0 - 0xF0) * 262144 + (b1 - 0x80) * 4096 + (b2 - 0x80) * 64 + (b3 - 0x80) == c as int
    requires 0x10000 <= c as int
    ensures DecodeEscape(s) == Some((c, 12))
  {
  }

  lemma {:induction false} EscapeThree(b0: nat, b1: nat, b2: nat)
    requires b0 < 256 && b1 < 256 && b2 < 256
    ensures EscapeAll([b0, b1, b2]) == Escape(b0) + Escape(b1) + Escape(b2)
  {
    EscapeSingle(b2);
    assert EscapeAll([b1, b2]) == Escape(b1) + Escape(b2) by {
      assert [b1, b2][1..] == [b2];
    }
    assert [b0, b1, b2][1..] == [b1, b2];
  }

  lemma {:induction false} EscapeFour(b0: nat, b1: nat, b2: nat, b3: nat)
    requires b0 < 256 && b1 < 256 && b2 < 256 && b3 < 256
    ensures EscapeAll([b0, b1, b2, b3]) == Escape(b0) + Escape(b1) + Escape(b2) + Escape(b3)
  {
    assert [b0, b1, b2, b3][1..] == [b1, b2, b3];
    EscapeThree(b1, b2, b3);
  }

  /** The octets of the three-octet form of `cp` lie in their ranges and give `cp` back. */
  lemma {:induction false} ThreeOctetFields(cp: nat)
    requires 0x800 <= cp < 0x10000
    ensures var b0, b1, b2 := 0xE0 + cp / 4096, 0x80 + (cp / 64) % 64, 0x80 + cp % 64;
            0xE0 <= b0 < 0xF0 && 0x80 <= b1 < 0xC0 && 0x80 <= b2 < 0xC0
            && (b0 - 0xE0) * 4096 + (b1 - 0x80) * 64 + (b2 - 0x80) == cp
  {
    ThreeOctets(cp);
  }

  /** The octets of the four-octet form of `cp` lie in their ranges and give `cp` back. */
  lemma {:induction false} FourOctetFields(cp: nat)
    requires 0x10000 <= cp < 0x110000
    ensures var b0, b1, b2, b3 := 0xF0 + cp / 262144, 0x80 + (cp / 4096) % 64, 0x80 + (cp / 64) % 64, 0x80 + cp % 64;
            0xF0 <= b0 < 0xF5 && 0x80 <= b1 < 0xC0 && 0x80 <= b2 < 0xC0 && 0x80 <= b3 < 0xC0
            && (b0 - 0xF0) * 262144 + (b1 - 0x80) * 4096 + (b2 - 0x80) * 64 + (b3 - 0x80) == cp
  {
    FourOctets(cp);
  }

  /** `decodeURIComponent(encodeURIComponent(s)) === s` for every well-formed string. */
  lemma {:induction false} DecodeEncode(s: string)
    ensures Decode(Encode(s)) == Some(s)
    decreases |s|
  {
    if s != [] {
      DecodeEncode(s[1..]);
      DecodeEncodedChar(s[0], Encode(s[1..]));
      assert [s[0]] + s[1..] == s;
    }
  }

  /** Every character of an encoding is unescaped or `%`: no `=`, `;`, space or other separator. */
  lemma {:induction false} EncodeAlphabet(s: string)
    ensures forall c :: c in Encode(s) ==> Unescaped(c) || c == '%'
    decreases |s|
  {
    if s != [] {
      EncodeAlphabet(s[1..]);
      var e := EncodeChar(s[0]);
      if !Unescaped(s[0]) {
        EscapeAllAlphabet(Utf8(s[0] as int));
      }
      assert Encode(s) == e + Encode(s[1..]);
    }
  }

  lemma {:induction false} EscapeAllAlphabet(bytes: seq<nat>)
    requires forall i :: 0 <= i < |bytes| ==> bytes[i] < 256
    ensures forall c :: c in EscapeAll(bytes) ==> Unescaped(c) || c == '%'
    decreases |bytes|
  {
    if bytes != [] {
      EscapeAllAlphabet(bytes[1..]);
    }
  }

  /** The encoding is empty exactly when the input is. */
  lemma {:induction false} EncodeEmpty(s: string)
    ensures Encode(s) == [] <==> s == []
  {
    if s != [] {
      assert |EncodeChar(s[0])| >= 1;
    }
  }

  /**
   * Reserved characters are escaped: a space becomes `%20` (the example of section 2.1 of
   * RFC 3986), and `/`, `?` and `&` become `%2F`, `%3F` and `%26`.
   */
  lemma {:induction false} EncodeExamples()
    ensures Encode(" ") == "%20"
    ensures Encode("a/b") == "a%2Fb"
    ensures Encode("?&") == "%3F%26"
  {
    EscapeSingle(32);
    EscapeSingle(47);
    EscapeSingle(63);
    EscapeSingle(38);
    assert EncodeChar(' ') == "%20";
    assert EncodeChar('/') == "%2F";
    assert EncodeChar('?') == "%3F";
    assert EncodeChar('&') == "%26";
    assert Encode("b") == "b";
    assert Encode("/b") == "%2F" + Encode("b");
    assert Encode("&") == "%26";
  }
}
