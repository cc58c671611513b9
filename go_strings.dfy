/**
 * The few functions of Go's `strings` and `strconv` packages that the server
 * and its command line use, over Dafny strings. A Go string is a byte
 * sequence; the model takes it to hold valid UTF-8 and sees its Unicode
 * characters.
 */
module GoStrings {
  import opened Wrappers

  /** Position of the first occurrence of `c` in `s`, or `|s|` when it does not occur. */
  function IndexOf(s: string, c: char): (i: nat)
    ensures i <= |s|
    ensures forall j :: 0 <= j < i ==> s[j] != c
    ensures i < |s| ==> s[i] == c
    ensures i == |s| <==> c !in s
  {
    if |s| == 0 then 0
    else if s[0] == c then 0
    else 1 + IndexOf(s[1..], c)
  }

  /**
   * `strings.SplitN(s, string(sep), 2)`: the whole of `s` when `sep` does not
   * occur in it, otherwise the text before and the text after its first
   * occurrence.
   */
  function SplitTwo(s: string, sep: char): (parts: seq<string>)
    ensures 1 <= |parts| <= 2
    ensures |parts| == 1 <==> sep !in s
    ensures |parts| == 1 ==> parts[0] == s
    ensures |parts| == 2 ==> s == parts[0] + [sep] + parts[1] && sep !in parts[0]
  {
    var i := IndexOf(s, sep);
    if i == |s| then [s] else [s[..i], s[i + 1..]]
  }

  /** Splitting at the first separator undoes gluing two parts whose first has no separator. */
  lemma SplitTwoOfJoined(a: string, sep: char, b: string)
    requires sep !in a
    ensures SplitTwo(a + [sep] + b, sep) == [a, b]
  {
    var s := a + [sep] + b;
    assert s[|a|] == sep;
    var parts := SplitTwo(s, sep);
    var i := IndexOf(s, sep);
    assert forall j :: 0 <= j < |a| ==> s[j] == a[j];
    assert i == |a|;
    assert s[..i] == a;
    assert s[i + 1..] == b;
  }

  /** `strings.Join(pieces, string(sep))` for a non-empty list of pieces. */
  function Join(pieces: seq<string>, sep: char): string
    requires |pieces| >= 1
  {
    if |pieces| == 1 then pieces[0] else pieces[0] + [sep] + Join(pieces[1..], sep)
  }

  /** `strings.Split(s, string(sep))`: the pieces between every occurrence of `sep`. */
  function Split(s: string, sep: char): (pieces: seq<string>)
    ensures |pieces| >= 1
    ensures forall k :: 0 <= k < |pieces| ==> sep !in pieces[k]
    ensures Join(pieces, sep) == s
    decreases |s|
  {
    var i := IndexOf(s, sep);
    if i == |s| then [s]
    else
      var rest := Split(s[i + 1..], sep);
      assert s == s[..i] + [sep] + s[i + 1..];
      [s[..i]] + rest
  }

  /** Splitting the join of separator-free pieces gives the pieces back. */
  lemma {:induction false} SplitOfJoin(pieces: seq<string>, sep: char)
    requires |pieces| >= 1
    requires forall k :: 0 <= k < |pieces| ==> sep !in pieces[k]
    ensures Split(Join(pieces, sep), sep) == pieces
    decreases |pieces|
  {
    if |pieces| == 1 {
      assert IndexOf(pieces[0], sep) == |pieces[0]|;
    } else {
      var rest := Join(pieces[1..], sep);
      var s := pieces[0] + [sep] + rest;
      SplitTwoOfJoined(pieces[0], sep, rest);
      var i := IndexOf(s, sep);
      assert SplitTwo(s, sep) == [s[..i], s[i + 1..]];
      assert s[..i] == pieces[0] && s[i + 1..] == rest;
      SplitOfJoin(pieces[1..], sep);
      assert Split(s, sep) == [pieces[0]] + pieces[1..];
    }
  }

  /** `strings.TrimPrefix`: `s` without a leading `prefix`, or `s` itself when it does not start so. */
  function TrimPrefix(s: string, prefix: string): (t: string)
    ensures prefix <= s ==> s == prefix + t
    ensures !(prefix <= s) ==> t == s
  {
    if prefix <= s then s[|prefix|..] else s
  }

  /** `unicode.IsSpace`: the Latin-1 spaces and the other Unicode White_Space characters. */
  predicate IsSpace(c: char)
  {
    || c == '\t' || c == '\n' || c == '\U{000B}' || c == '\U{000C}' || c == '\r' || c == ' '
    || c == '\U{0085}' || c == '\U{00A0}' || c == '\U{1680}'
    || ('\U{2000}' <= c <= '\U{200A}')
    || c == '\U{2028}' || c == '\U{2029}' || c == '\U{202F}' || c == '\U{205F}' || c == '\U{3000}'
  }

  /** How many space characters `s` starts with. */
  function LeadingSpace(s: string): (n: nat)
    ensures n <= |s|
    ensures forall j :: 0 <= j < n ==> IsSpace(s[j])
    ensures n < |s| ==> !IsSpace(s[n])
  {
    if |s| == 0 || !IsSpace(s[0]) then 0 else 1 + LeadingSpace(s[1..])
  }

  /** How many space characters `s` ends with. */
  function TrailingSpace(s: string): (n: nat)
    ensures n <= |s|
    ensures forall j :: |s| - n <= j < |s| ==> IsSpace(s[j])
    ensures n < |s| ==> !IsSpace(s[|s| - n - 1])
  {
    if |s| == 0 || !IsSpace(s[|s| - 1]) then 0 else 1 + TrailingSpace(s[..|s| - 1])
  }

  /**
   * `strings.TrimSpace`: `s` without its leading and trailing white space.
   * The result is the one slice of `s` that has only spaces around it and
   * neither starts nor ends with a space.
   */
  function TrimSpace(s: string): (t: string)
    ensures var i := LeadingSpace(s);
      && i + |t| <= |s| && s[i..i + |t|] == t
      && (forall j :: i + |t| <= j < |s| ==> IsSpace(s[j]))
    ensures |t| > 0 ==> !IsSpace(t[0]) && !IsSpace(t[|t| - 1])
  {
    var i := LeadingSpace(s);
    if i == |s| then ""
    else
      var n := TrailingSpace(s);
      assert !IsSpace(s[i]);
      s[i..|s| - n]
  }

  /** A string that neither starts nor ends with a space is its own trimming. */
  lemma TrimSpaceOfTrimmed(s: string)
    requires |s| > 0 ==> !IsSpace(s[0]) && !IsSpace(s[|s| - 1])
    ensures TrimSpace(s) == s
  {
    if |s| > 0 {
      assert LeadingSpace(s) == 0;
      assert TrailingSpace(s) == 0;
    }
  }

  /** Trimming twice is trimming once. */
  lemma TrimSpaceIdempotent(s: string)
    ensures TrimSpace(TrimSpace(s)) == TrimSpace(s)
  {
    TrimSpaceOfTrimmed(TrimSpace(s));
  }

  /** An ASCII decimal digit, the only digits `strconv` accepts. */
  predicate IsDigit(c: char)
  {
    '0' <= c <= '9'
  }

  predicate AllDigits(s: string)
  {
    forall j :: 0 <= j < |s| ==> IsDigit(s[j])
  }

  /** The value of a run of decimal digits, most significant first. */
  function DigitsValue(s: string): nat
    requires AllDigits(s)
  {
    if |s| == 0 then 0
    else DigitsValue(s[..|s| - 1]) * 10 + ((s[|s| - 1] as int) - ('0' as int))
  }

  /** The range of Go's `int` on the 64-bit platforms the server is built for. */
  const MinInt: int := -0x8000_0000_0000_0000
  const MaxInt: int := 0x7FFF_FFFF_FFFF_FFFF

  /**
   * `strconv.Atoi`: an optional `+` or `-` followed by at least one decimal
   * digit, whose value fits a 64-bit `int`; anything else is an error (`None`).
   */
  function Atoi(s: string): (r: Option<int>)
    ensures r.Some? ==> MinInt <= r.value <= MaxInt
    ensures r.Some? ==> |s| > 0
  {
    var signed := |s| > 0 && (s[0] == '+' || s[0] == '-');
    var digits := if signed then s[1..] else s;
    if |digits| == 0 || !AllDigits(digits) then None
    else
      var magnitude: int := DigitsValue(digits);
      var v := if s[0] == '-' then -magnitude else magnitude;
      if MinInt <= v <= MaxInt then Some(v) else None
  }

  /** `strconv.Itoa` for non-negative numbers: the shortest decimal spelling. */
  function Itoa(n: nat): (s: string)
    ensures |s| > 0 && AllDigits(s)
    ensures DigitsValue(s) == n
    ensures |s| == 1 || s[0] != '0'
  {
    var last := [('0' as int + n % 10) as char];
    if n < 10 then last
    else
      var init := Itoa(n / 10);
      var s := init + last;
      assert s[..|s| - 1] == init;
      s
  }

  /** `strconv.Atoi` reads back every non-negative `int` that `strconv.Itoa` writes. */
  lemma AtoiOfItoa(n: nat)
    requires n <= MaxInt
    ensures Atoi(Itoa(n)) == Some(n)
  {
  }

  /** A character other than an ASCII digit after the optional sign makes `strconv.Atoi` fail. */
  lemma AtoiRejectsNonDigit(s: string, i: nat)
    requires i < |s| && !IsDigit(s[i])
    requires i > 0 || (s[0] != '+' && s[0] != '-')
    ensures Atoi(s) == None
  {
  }

  /** `strconv.Atoi` reads a minus sign and the decimal of `n` back as `-n`, down to the smallest `int`. */
  lemma AtoiOfNegatedItoa(n: nat)
    requires n <= -MinInt
    ensures Atoi("-" + Itoa(n)) == Some(-(n as int))
  {
  }
}
