/**
 * The JavaScript string primitives the form and the server rely on:
 * the `\s` and `\d` character classes, `String.prototype.trim`,
 * `s.replace(/\s/g, '')` and the part of `String.prototype.toUpperCase`
 * that can produce ASCII capitals and digits.
 */
module JsText {
  import opened Wrappers

  /** `\s` in a regular expression, which is also the set `trim` removes:
      ECMAScript's WhiteSpace and LineTerminator code points. */
  predicate IsWhitespace(c: char) {
    c == '\t' || c == '\n' || c == '\U{000B}' || c == '\U{000C}' || c == '\r' || c == ' '
    || c == '\U{00A0}' || c == '\U{1680}' || ('\U{2000}' <= c <= '\U{200A}')
    || c == '\U{2028}' || c == '\U{2029}' || c == '\U{202F}' || c == '\U{205F}'
    || c == '\U{3000}' || c == '\U{FEFF}'
  }

  /** `\d`: the ASCII digits only. */
  predicate IsDigit(c: char) {
    '0' <= c <= '9'
  }

  /** `[A-Z0-9]` */
  predicate IsUpperAlnum(c: char) {
    'A' <= c <= 'Z' || IsDigit(c)
  }

  /** An ASCII letter of either case or an ASCII digit. */
  predicate IsAsciiAlnum(c: char) {
    'a' <= c <= 'z' || IsUpperAlnum(c)
  }

  predicate NoWhitespace(s: string) {
    forall k :: 0 <= k < |s| ==> !IsWhitespace(s[k])
  }

  predicate AllWhitespace(s: string) {
    forall k :: 0 <= k < |s| ==> IsWhitespace(s[k])
  }

  predicate AllDigits(s: string) {
    forall k :: 0 <= k < |s| ==> IsDigit(s[k])
  }

  predicate AllUpperAlnum(s: string) {
    forall k :: 0 <= k < |s| ==> IsUpperAlnum(s[k])
  }

  predicate AllAsciiAlnum(s: string) {
    forall k :: 0 <= k < |s| ==> IsAsciiAlnum(s[k])
  }

  /** `s.replace(/\s/g, '')`: s with every whitespace character removed,
      the others kept in order. */
  function StripWhitespace(s: string): (r: string)
    ensures NoWhitespace(r)
    ensures |r| <= |s|
    ensures NoWhitespace(s) ==> r == s
  {
    if s == [] then []
    else if IsWhitespace(s[0]) then StripWhitespace(s[1..])
    else [s[0]] + StripWhitespace(s[1..])
  }

  /** Removing whitespace distributes over concatenation. */
  lemma {:induction false} StripConcat(a: string, b: string)
    ensures StripWhitespace(a + b) == StripWhitespace(a) + StripWhitespace(b)
  {
    if a == [] {
      assert a + b == b;
    } else {
      assert (a + b)[0] == a[0];
      assert (a + b)[1..] == a[1..] + b;
      StripConcat(a[1..], b);
    }
  }

  /** A run of whitespace strips to nothing. */
  lemma {:induction false} StripWhitespaceOnly(w: string)
    requires AllWhitespace(w)
    ensures StripWhitespace(w) == []
  {
    if w != [] {
      StripWhitespaceOnly(w[1..]);
    }
  }

  /** Inserting (or, read backwards, removing) whitespace anywhere does not
      change what `replace(/\s/g, '')` yields. */
  lemma StripIgnoresWhitespace(a: string, w: string, b: string)
    requires AllWhitespace(w)
    ensures StripWhitespace(a + w + b) == StripWhitespace(a + b)
  {
    StripConcat(a + w, b);
    StripConcat(a, w);
    StripWhitespaceOnly(w);
    StripConcat(a, b);
  }

  /** The number of whitespace characters that open s. */
  function LeadingWhitespace(s: string): (n: nat)
    ensures n <= |s|
    ensures forall k :: 0 <= k < n ==> IsWhitespace(s[k])
    ensures n < |s| ==> !IsWhitespace(s[n])
  {
    if s == [] || !IsWhitespace(s[0]) then 0 else 1 + LeadingWhitespace(s[1..])
  }

  /** The number of whitespace characters that close s. */
  function TrailingWhitespace(s: string): (n: nat)
    ensures n <= |s|
    ensures forall k :: |s| - n <= k < |s| ==> IsWhitespace(s[k])
    ensures n < |s| ==> !IsWhitespace(s[|s| - 1 - n])
  {
    if s == [] || !IsWhitespace(s[|s| - 1]) then 0
    else 1 + TrailingWhitespace(s[..|s| - 1])
  }

  /** Where the trimmed part of s ends. */
  function TrimEnd(s: string): (j: nat)
    ensures LeadingWhitespace(s) <= j <= |s|
  {
    |s| - TrailingWhitespace(s[LeadingWhitespace(s)..])
  }

  /** `String.prototype.trim`: s without its leading and trailing whitespace. */
  function Trim(s: string): (r: string)
    ensures r == [] || (!IsWhitespace(r[0]) && !IsWhitespace(r[|r| - 1]))
    ensures |r| <= |s|
  {
    s[LeadingWhitespace(s)..TrimEnd(s)]
  }

  /** Trim only cuts whitespace off the two ends: s is some whitespace, then
      Trim(s), then some more whitespace. */
  lemma TrimShape(s: string)
    ensures AllWhitespace(s[..LeadingWhitespace(s)])
    ensures AllWhitespace(s[TrimEnd(s)..])
    ensures s == s[..LeadingWhitespace(s)] + Trim(s) + s[TrimEnd(s)..]
  {
    var i := LeadingWhitespace(s);
    var t := s[i..];
    var n := TrailingWhitespace(t);
    var j := |s| - n;
    assert j == TrimEnd(s);
    assert AllWhitespace(s[..i]) by {
      forall k | 0 <= k < i ensures IsWhitespace(s[..i][k]) {
        assert s[..i][k] == s[k];
      }
    }
    assert AllWhitespace(s[j..]) by {
      forall k | 0 <= k < n ensures IsWhitespace(s[j..][k]) {
        assert s[j..][k] == t[|t| - n + k];
      }
    }
    assert s == s[..i] + s[i..j] + s[j..];
  }

  /** A string that neither starts nor ends with whitespace is its own trim. */
  lemma TrimUntrimmed(s: string)
    requires s == [] || (!IsWhitespace(s[0]) && !IsWhitespace(s[|s| - 1]))
    ensures Trim(s) == s
  {
  }

  /** Trimming first does not change what removing all whitespace yields. */
  lemma StripTrim(s: string)
    ensures StripWhitespace(Trim(s)) == StripWhitespace(s)
  {
    TrimShape(s);
    var a, m, b := s[..LeadingWhitespace(s)], Trim(s), s[TrimEnd(s)..];
    assert s == a + (m + b);
    StripConcat(a, m + b);
    StripConcat(m, b);
    StripWhitespaceOnly(a);
    StripWhitespaceOnly(b);
  }

  /** The upper-case form `toUpperCase` gives c when that form consists of
      ASCII capitals and digits only, and None when it holds any other
      character. Besides the ASCII letters and digits these are dotless i,
      long s, sharp s (which becomes two letters) and the Latin ligatures
      U+FB00 to U+FB06, per Unicode's SpecialCasing. */
  function UpperAlnumOf(c: char): (r: Option<string>)
    ensures r.Some? ==> 1 <= |r.value| <= 3 && AllUpperAlnum(r.value)
    ensures IsAsciiAlnum(c) ==> r.Some? && |r.value| == 1
    ensures IsUpperAlnum(c) ==> r == Some([c])
  {
    if 'a' <= c <= 'z' then Some([(c as int - 32) as char])
    else if IsUpperAlnum(c) then Some([c])
    else if c == '\U{0131}' then Some("I")   // dotless i
    else if c == '\U{017F}' then Some("S")   // long s
    else if c == '\U{00DF}' then Some("SS")  // sharp s
    else if c == '\U{FB00}' then Some("FF")
    else if c == '\U{FB01}' then Some("FI")
    else if c == '\U{FB02}' then Some("FL")
    else if c == '\U{FB03}' then Some("FFI")
    else if c == '\U{FB04}' then Some("FFL")
    else if c == '\U{FB05}' then Some("ST")
    else if c == '\U{FB06}' then Some("ST")
    else None
  }

  /** `s.toUpperCase()` when it consists of `[A-Z0-9]` characters only;
      None exactly when it contains some other character. */
  function UpperAlnumForm(s: string): (r: Option<string>)
    ensures r.Some? ==> AllUpperAlnum(r.value) && |r.value| >= |s|
    ensures r.Some? <==> forall k :: 0 <= k < |s| ==> UpperAlnumOf(s[k]).Some?
  {
    if s == [] then Some([])
    else match UpperAlnumOf(s[0])
      case None => None
      case Some(u) =>
        match UpperAlnumForm(s[1..])
        case None => None
        case Some(rest) => Some(u + rest)
  }

  /** On ASCII letters and digits upper-casing is one character for one. */
  lemma {:induction false} UpperAlnumFormAscii(s: string)
    requires AllAsciiAlnum(s)
    ensures UpperAlnumForm(s).Some? && |UpperAlnumForm(s).value| == |s|
  {
    if s != [] {
      UpperAlnumFormAscii(s[1..]);
    }
  }
}
