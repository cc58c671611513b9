/**
 * Percent coding of URL paths: Go's decoding, which both net/http (when it
 * fills `r.URL.Path` from the request target) and `url.PathUnescape` apply,
 * and the browser's `encodeURIComponent` for ASCII text.
 */
module UrlEscape {
  import opened Wrappers

  predicate IsHex(c: char)
  {
    '0' <= c <= '9' || 'A' <= c <= 'F' || 'a' <= c <= 'f'
  }

  function HexValue(c: char): (v: nat)
    requires IsHex(c)
    ensures v < 16
  {
    if c <= '9' then c as int - '0' as int
    else if c <= 'F' then c as int - 'A' as int + 10
    else c as int - 'a' as int + 10
  }

  /** The upper-case hex digit that `encodeURIComponent` writes for `v`. */
  function HexDigit(v: nat): (c: char)
    requires v < 16
    ensures '0' <= c <= '9' || 'A' <= c <= 'F'
    ensures IsHex(c) && HexValue(c) == v
  {
    if v < 10 then ('0' as int + v) as char else ('A' as int + v - 10) as char
  }

  /**
   * Go's `unescape` in its path modes: each `%` followed by two hex digits
   * stands for the character with that code, and a `%` without two hex
   * digits after it is an error (`None`); every other character is kept.
   */
  function PercentDecode(s: string): (r: Option<string>)
    decreases |s|
  {
    if s == [] then Some([])
    else if s[0] != '%' then
      match PercentDecode(s[1..])
      case None => None
      case Some(t) => Some([s[0]] + t)
    else if |s| >= 3 && IsHex(s[1]) && IsHex(s[2]) then
      match PercentDecode(s[3..])
      case None => None
      case Some(t) => Some([(HexValue(s[1]) * 16 + HexValue(s[2])) as char] + t)
    else None
  }

  /** An escape decodes to its character, in front of whatever the rest decodes to. */
  lemma DecodeEscape(hi: char, lo: char, t: string)
    requires IsHex(hi) && IsHex(lo)
    ensures PercentDecode(['%', hi, lo] + t) ==
      if PercentDecode(t).Some? then Some([(HexValue(hi) * 16 + HexValue(lo)) as char] + PercentDecode(t).value) else None
  {
    var s := ['%', hi, lo] + t;
    assert s[0] == '%' && s[1] == hi && s[2] == lo && s[3..] == t;
  }

  /** Text without `%` decodes to itself, in front of whatever the rest decodes to. */
  lemma {:induction false} DecodePlain(a: string, b: string)
    requires '%' !in a
    ensures PercentDecode(a + b) == if PercentDecode(b).Some? then Some(a + PercentDecode(b).value) else None
  {
    if a != [] {
      assert a[0] in a && (a + b)[0] == a[0];
      assert (a + b)[1..] == a[1..] + b;
      assert a == [a[0]] + a[1..];
      assert forall c :: c in a[1..] ==> c in a;
      DecodePlain(a[1..], b);
      if PercentDecode(b).Some? {
        var t := PercentDecode(b).value;
        assert [a[0]] + (a[1..] + t) == a + t;
      }
    } else {
      assert a + b == b;
      if PercentDecode(b).Some? {
        assert a + PercentDecode(b).value == PercentDecode(b).value;
      }
    }
  }

  /** A path without `%` is its own decoding. */
  lemma DecodeVerbatim(a: string)
    requires '%' !in a
    ensures PercentDecode(a) == Some(a)
  {
    DecodePlain(a, []);
    assert a + [] == a;
  }

  predicate IsAscii(s: string)
  {
    forall i :: 0 <= i < |s| ==> s[i] < '\U{80}'
  }

  /** The characters `encodeURIComponent` leaves alone. */
  predicate Unreserved(c: char)
  {
    || 'A' <= c <= 'Z' || 'a' <= c <= 'z' || '0' <= c <= '9'
    || c == '-' || c == '_' || c == '.' || c == '!' || c == '~'
    || c == '*' || c == '\'' || c == '(' || c == ')'
  }

  /** The UTF-8 bytes of a character. */
  function Utf8(c: char): (bytes: seq<nat>)
    ensures 1 <= |bytes| <= 4
    ensures forall i :: 0 <= i < |bytes| ==> bytes[i] < 256
    ensures c < '\U{80}' ==> bytes == [c as nat]
    ensures c >= '\U{80}' ==> bytes[0] >= 0xC0
  {
    var n := c as int;
    if n < 0x80 then [n]
    else if n < 0x800 then [0xC0 + n / 0x40, 0x80 + n % 0x40]
    else if n < 0x1_0000 then [0xE0 + n / 0x1000, 0x80 + n / 0x40 % 0x40, 0x80 + n % 0x40]
    else [0xF0 + n / 0x4_0000, 0x80 + n / 0x1000 % 0x40, 0x80 + n / 0x40 % 0x40, 0x80 + n % 0x40]
  }

  /** Each byte written as `%` and two upper-case hex digits. */
  function PercentBytes(bytes: seq<nat>): (e: string)
    requires forall i :: 0 <= i < |bytes| ==> bytes[i] < 256
    ensures |e| == 3 * |bytes|
    ensures bytes != [] ==> e[0] == '%' && IsHex(e[1]) && IsHex(e[2]) && HexValue(e[1]) * 16 + HexValue(e[2]) == bytes[0]
    ensures IsAscii(e) && '.' !in e
  {
    if bytes == [] then []
    else ['%', HexDigit(bytes[0] / 16), HexDigit(bytes[0] % 16)] + PercentBytes(bytes[1..])
  }

  /** One character as `encodeURIComponent` writes it: unreserved ones as they are, others as their escaped UTF-8 bytes. */
  function EncodeChar(c: char): (e: string)
    ensures Unreserved(c) ==> e == [c]
    ensures !Unreserved(c) && c < '\U{80}' ==> e == ['%', HexDigit(c as int / 16), HexDigit(c as int % 16)]
    ensures !Unreserved(c) ==> |e| >= 3 && e[0] == '%' && IsHex(e[1]) && IsHex(e[2]) && HexValue(e[1]) * 16 + HexValue(e[2]) == Utf8(c)[0]
    ensures c != '.' ==> '.' !in e
    ensures c < '\U{80}' ==> IsAscii(e)
  {
    if Unreserved(c) then [c] else PercentBytes(Utf8(c))
  }

  /** `encodeURIComponent`, character by character. */
  function EncodeComponent(s: string): string
  {
    if s == [] then [] else EncodeChar(s[0]) + EncodeComponent(s[1..])
  }

  /** Decoding an encoded character gives the character back, in front of the rest. */
  lemma DecodeEncodedChar(c: char, t: string)
    requires c < '\U{80}'
    ensures PercentDecode(EncodeChar(c) + t) == if PercentDecode(t).Some? then Some([c] + PercentDecode(t).value) else None
  {
    var s := EncodeChar(c) + t;
    if Unreserved(c) {
      assert s[0] == c && s[1..] == t;
    } else {
      var hi, lo := HexDigit(c as int / 16), HexDigit(c as int % 16);
      assert s[0] == '%' && s[1] == hi && s[2] == lo && s[3..] == t;
      assert (HexValue(hi) * 16 + HexValue(lo)) as char == c;
    }
  }

  /** Go's decoding undoes `encodeURIComponent` on every ASCII text. */
  lemma {:induction false} DecodeOfEncode(s: string)
    requires IsAscii(s)
    ensures PercentDecode(EncodeComponent(s)) == Some(s)
  {
    if s != [] {
      DecodeOfEncode(s[1..]);
      DecodeEncodedChar(s[0], EncodeComponent(s[1..]));
      assert s == [s[0]] + s[1..];
    }
  }

  /** `encodeURIComponent` writes nothing only for the empty text. */
  lemma EncodeEmpty(s: string)
    ensures EncodeComponent(s) == [] <==> s == []
  {
  }

  /**
   * How an encoding starts: with `.` exactly when the text does (followed by
   * the encoding of the rest), and never with an escape of `.`.
   */
  lemma FirstEncoded(s: string)
    requires s != []
    ensures var e := EncodeComponent(s);
      && e != []
      && (e[0] == '.' <==> s[0] == '.')
      && (e[0] == '.' ==> e[1..] == EncodeComponent(s[1..]))
      && (e[0] == '%' ==> |e| >= 3 && !(e[1] == '2' && (e[2] == 'e' || e[2] == 'E')))
  {
    var head := EncodeChar(s[0]);
    var e := head + EncodeComponent(s[1..]);
    assert e[0] == head[0];
    if Unreserved(s[0]) {
      assert e[1..] == EncodeComponent(s[1..]);
    } else {
      assert e[1] == head[1] && e[2] == head[2];
    }
  }

  /** A path segment the URL parser reads as `.` (the URL Standard's single-dot segment). */
  predicate SingleDotSegment(seg: string)
  {
    seg == "." || seg == "%2e" || seg == "%2E"
  }

  /** A path segment the URL parser reads as `..` (the URL Standard's double-dot segment). */
  predicate DoubleDotSegment(seg: string)
  {
    seg in {"..", ".%2e", ".%2E", "%2e.", "%2E.", "%2e%2e", "%2e%2E", "%2E%2e", "%2E%2E"}
  }

  /**
   * The path the URL parser makes of `parent + dir + seg`, where `dir` is one
   * segment with its `/` and only the last segment `seg` may be a dot segment:
   * a single dot is removed, a double dot removes `dir` as well, and the
   * trailing `/` stays.
   */
  function ResolveLastSegment(parent: string, dir: string, seg: string): (path: string)
    ensures !SingleDotSegment(seg) && !DoubleDotSegment(seg) ==> path == parent + dir + seg
    ensures SingleDotSegment(seg) ==> path == parent + dir
    ensures DoubleDotSegment(seg) ==> path == parent
  {
    if SingleDotSegment(seg) then parent + dir
    else if DoubleDotSegment(seg) then parent
    else parent + dir + seg
  }

  /** Every dot segment starts with `.` or an escaped `.`; after a leading `.` a single dot has nothing, a double dot a single dot. */
  lemma DotSegmentStart(seg: string)
    ensures SingleDotSegment(seg) || DoubleDotSegment(seg) ==>
      seg != [] && (seg[0] == '.' || (|seg| >= 3 && seg[0] == '%' && seg[1] == '2' && (seg[2] == 'e' || seg[2] == 'E')))
    ensures seg != [] && seg[0] == '.' ==>
      (SingleDotSegment(seg) <==> seg[1..] == []) && (DoubleDotSegment(seg) <==> SingleDotSegment(seg[1..]))
  {
    if seg != [] && seg[0] == '.' {
      var rest := seg[1..];
      assert seg == ['.'] + rest;
      assert rest == "." ==> seg == "..";
      assert rest == "%2e" ==> seg == ".%2e";
      assert rest == "%2E" ==> seg == ".%2E";
    }
  }

  /** `encodeURIComponent` writes a dot segment only for the texts `.` and `..`, and writes those unchanged. */
  lemma {:induction false} EncodedDotSegment(s: string)
    ensures SingleDotSegment(EncodeComponent(s)) <==> s == "."
    ensures DoubleDotSegment(EncodeComponent(s)) <==> s == ".."
  {
    DotSegmentStart(EncodeComponent(s));
    if s != [] {
      FirstEncoded(s);
      if s[0] == '.' {
        EncodedDotSegment(s[1..]);
        EncodeEmpty(s[1..]);
        assert s == [s[0]] + s[1..];
      }
    }
  }

  /** A character for a path segment no URL parser resolves: `.` as `%2E`, the others as `encodeURIComponent` writes them. */
  function EncodeDotChar(c: char): (e: string)
    ensures '.' !in e
    ensures c < '\U{80}' ==> IsAscii(e)
  {
    if c == '.' then "%2E" else EncodeChar(c)
  }

  /** `encodeURIComponent` with every `.` escaped as well: a text without `.`. */
  function EncodeDots(s: string): (r: string)
    ensures '.' !in r
  {
    if s == [] then [] else EncodeDotChar(s[0]) + EncodeDots(s[1..])
  }

  /** Escaping dots too keeps an ASCII text ASCII. */
  lemma {:induction false} EncodeDotsAscii(s: string)
    requires IsAscii(s)
    ensures IsAscii(EncodeDots(s))
  {
    if s != [] {
      EncodeDotsAscii(s[1..]);
      var head, tail := EncodeDotChar(s[0]), EncodeDots(s[1..]);
      assert forall i :: 0 <= i < |head + tail| ==> (head + tail)[i] == if i < |head| then head[i] else tail[i - |head|];
    }
  }

  /** Go's decoding undoes `EncodeDots` on every ASCII text. */
  lemma {:induction false} DecodeOfEncodeDots(s: string)
    requires IsAscii(s)
    ensures PercentDecode(EncodeDots(s)) == Some(s)
  {
    if s != [] {
      DecodeOfEncodeDots(s[1..]);
      var t := EncodeDots(s[1..]);
      if s[0] == '.' {
        DecodeEscape('2', 'E', t);
        assert ['%', '2', 'E'] + t == EncodeDotChar(s[0]) + t;
        assert (HexValue('2') * 16 + HexValue('E')) as char == '.';
      } else {
        DecodeEncodedChar(s[0], t);
      }
      assert s == [s[0]] + s[1..];
    }
  }
}
