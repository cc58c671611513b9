/**
 * The HTML the client writes into its templates and what the browser reads
 * back from it: `escapeHTML` (a text node's serialisation) and the value of
 * a double-quoted attribute as the parser sees it.
 */
module Markup {
  import opened GoStrings

  /**
   * One character as a serialiser writes it: `&`, `<`, `>` and the
   * no-break space always escaped, `"` only when `quote` is set.
   */
  function EscapeChar(c: char, quote: bool): string
  {
    if c == '&' then "&amp;"
    else if c == '<' then "&lt;"
    else if c == '>' then "&gt;"
    else if c == '\U{A0}' then "&nbsp;"
    else if quote && c == '"' then "&quot;"
    else [c]
  }

  /** The text with every character escaped by `EscapeChar`; a `"` survives only when `quote` is off. */
  function Escape(s: string, quote: bool): (r: string)
    ensures '"' in r <==> !quote && '"' in s
  {
    if s == [] then []
    else
      var head, tail := EscapeChar(s[0], quote), Escape(s[1..], quote);
      assert s == [s[0]] + s[1..];
      assert '"' in head <==> !quote && s[0] == '"';
      head + tail
  }

  /** `escapeHTML`: a text node's `innerHTML`, which leaves `"` as it is. */
  function EscapeText(s: string): string
  {
    Escape(s, false)
  }

  /** Escaping for a double-quoted attribute, which also writes `"` as `&quot;`. */
  function EscapeAttr(s: string): string
  {
    Escape(s, true)
  }

  predicate StartsWith(s: string, p: string)
  {
    |p| <= |s| && s[..|p|] == p
  }

  /** The character references a serialiser writes, decoded; every other character is kept. */
  function DecodeRefs(s: string): string
    decreases |s|
  {
    if s == [] then []
    else if StartsWith(s, "&amp;") then ['&'] + DecodeRefs(s[5..])
    else if StartsWith(s, "&lt;") then ['<'] + DecodeRefs(s[4..])
    else if StartsWith(s, "&gt;") then ['>'] + DecodeRefs(s[4..])
    else if StartsWith(s, "&nbsp;") then ['\U{A0}'] + DecodeRefs(s[6..])
    else if StartsWith(s, "&quot;") then ['"'] + DecodeRefs(s[6..])
    else [s[0]] + DecodeRefs(s[1..])
  }

  /**
   * What the browser reads from `attr="raw…"` (`dataset.key`, an input's
   * `value`): `raw` up to its first `"`, with its character references decoded.
   */
  function AttrValue(raw: string): string
  {
    DecodeRefs(raw[..IndexOf(raw, '"')])
  }

  /** A text does not start with `p` when they differ at position `k`. */
  lemma DiffersAt(s: string, p: string, k: nat)
    requires k < |p| && k < |s| && s[k] != p[k]
    ensures !StartsWith(s, p)
  {
    if |p| <= |s| {
      assert s[..|p|][k] == s[k];
    }
  }

  /** Decoding an escaped character gives it back, in front of the decoding of the rest. */
  lemma DecodeEscapedChar(c: char, quote: bool, t: string)
    requires quote || c != '"'
    ensures DecodeRefs(EscapeChar(c, quote) + t) == [c] + DecodeRefs(t)
  {
    var e := EscapeChar(c, quote);
    var s := e + t;
    assert s[..|e|] == e && s[|e|..] == t;
    if e == [c] {
      assert s[0] == c && c != '&';
      DiffersAt(s, "&amp;", 0);
      DiffersAt(s, "&lt;", 0);
      DiffersAt(s, "&gt;", 0);
      DiffersAt(s, "&nbsp;", 0);
      DiffersAt(s, "&quot;", 0);
    } else if e == "&lt;" {
      DiffersAt(s, "&amp;", 1);
    } else if e == "&gt;" {
      DiffersAt(s, "&amp;", 1);
      DiffersAt(s, "&lt;", 1);
    } else if e == "&nbsp;" {
      DiffersAt(s, "&amp;", 1);
      DiffersAt(s, "&lt;", 1);
      DiffersAt(s, "&gt;", 1);
    } else if e == "&quot;" {
      DiffersAt(s, "&amp;", 1);
      DiffersAt(s, "&lt;", 1);
      DiffersAt(s, "&gt;", 1);
      DiffersAt(s, "&nbsp;", 1);
    }
  }

  /** Decoding undoes escaping whenever escaping kept no `"`. */
  lemma {:induction false} DecodeOfEscape(s: string, quote: bool)
    requires quote || '"' !in s
    ensures DecodeRefs(Escape(s, quote)) == s
  {
    if s != [] {
      assert s == [s[0]] + s[1..];
      DecodeOfEscape(s[1..], quote);
      DecodeEscapedChar(s[0], quote, Escape(s[1..], quote));
    }
  }

  /** Escaping a concatenation is concatenating the escapes. */
  lemma {:induction false} EscapeAppend(a: string, b: string, quote: bool)
    ensures Escape(a + b, quote) == Escape(a, quote) + Escape(b, quote)
  {
    if a == [] {
      assert a + b == b;
    } else {
      assert (a + b)[1..] == a[1..] + b && (a + b)[0] == a[0];
      EscapeAppend(a[1..], b, quote);
    }
  }

  /** The first `"` of `x + y` is where `y` starts, when `x` has none and `y` is empty or starts with one. */
  lemma QuoteAtJoin(x: string, y: string)
    requires '"' !in x && (y == [] || y[0] == '"')
    ensures IndexOf(x + y, '"') == |x|
  {
    assert forall j :: 0 <= j < |x| ==> (x + y)[j] == x[j];
    if y != [] {
      assert (x + y)[|x|] == '"';
    }
  }

  /** Escaping text that starts with `"`, with quotes left alone, starts with `"`. */
  lemma EscapeKeepsLeadingQuote(rest: string)
    requires rest != [] && rest[0] == '"'
    ensures Escape(rest, false) != [] && Escape(rest, false)[0] == '"'
  {
    assert EscapeChar(rest[0], false) == ['"'];
  }

  /** An attribute written with `escapeHTML` holds the text only up to its first `"`. */
  lemma AttrOfEscapedText(s: string)
    ensures AttrValue(EscapeText(s)) == s[..IndexOf(s, '"')]
  {
    var i := IndexOf(s, '"');
    var head, rest := s[..i], s[i..];
    assert s == head + rest;
    assert '"' !in head by {
      assert forall j :: 0 <= j < |head| ==> head[j] == s[j];
    }
    EscapeAppend(head, rest, false);
    var eh, er := Escape(head, false), Escape(rest, false);
    if rest != [] {
      EscapeKeepsLeadingQuote(rest);
    }
    QuoteAtJoin(eh, er);
    assert (eh + er)[..|eh|] == eh;
    DecodeOfEscape(head, false);
  }

  /** A key holding `"`: its `data-key` attribute holds only the text before it. */
  lemma QuoteCutsKey()
    ensures AttrValue(EscapeText("a\"b")) == "a"
  {
    AttrOfEscapedText("a\"b");
    assert IndexOf("a\"b", '"') == 1;
  }

  /** An attribute written with `EscapeAttr` holds the whole text. */
  lemma AttrOfEscapedAttr(s: string)
    ensures AttrValue(EscapeAttr(s)) == s
  {
    var raw := EscapeAttr(s);
    assert '"' !in raw;
    assert raw[..IndexOf(raw, '"')] == raw;
    DecodeOfEscape(s, true);
  }
}
