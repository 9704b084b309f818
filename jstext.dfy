/**
 * The three JavaScript string operations the registration dialogue relies on:
 * `String.prototype.trim`, the `length` property (UTF-16 code units) and
 * `String.prototype.toLowerCase`, on Dafny strings of Unicode scalar values.
 */
module JsText {

  /** ECMAScript WhiteSpace and LineTerminator code points: what `trim` removes. */
  predicate IsWhitespace(c: char) {
    || c == '\t' || c == '\n' || c == '\U{000B}' || c == '\U{000C}' || c == '\r'
    || c == ' ' || c == '\U{00A0}' || c == '\U{1680}'
    || ('\U{2000}' <= c <= '\U{200A}')
    || c == '\U{2028}' || c == '\U{2029}' || c == '\U{202F}' || c == '\U{205F}'
    || c == '\U{3000}' || c == '\U{FEFF}'
  }

  /** Every character of `s` is whitespace. */
  predicate AllWhitespace(s: string) {
    s == [] || (IsWhitespace(s[0]) && AllWhitespace(s[1..]))
  }

  lemma {:induction false} AllWhitespaceConcat(a: string, b: string)
    ensures AllWhitespace(a + b) <==> AllWhitespace(a) && AllWhitespace(b)
  {
    if a == [] {
      assert a + b == b;
    } else {
      assert (a + b)[1..] == a[1..] + b;
      AllWhitespaceConcat(a[1..], b);
    }
  }

  /** The number of whitespace characters `s` starts with. */
  function LeadingWhitespace(s: string): (n: nat)
    ensures n <= |s|
    ensures n < |s| ==> !IsWhitespace(s[n])
  {
    if s != [] && IsWhitespace(s[0]) then 1 + LeadingWhitespace(s[1..]) else 0
  }

  /** The number of whitespace characters `s` ends with. */
  function TrailingWhitespace(s: string): (n: nat)
    ensures n <= |s|
    ensures n < |s| ==> !IsWhitespace(s[|s| - n - 1])
  {
    if s != [] && IsWhitespace(s[|s| - 1]) then 1 + TrailingWhitespace(s[..|s| - 1]) else 0
  }

  /** Everything `LeadingWhitespace` counts is whitespace, so it counts the longest whitespace prefix. */
  lemma {:induction false} LeadingWhitespaceIsWhitespace(s: string)
    ensures AllWhitespace(s[..LeadingWhitespace(s)])
  {
    if s != [] && IsWhitespace(s[0]) {
      LeadingWhitespaceIsWhitespace(s[1..]);
      var n := LeadingWhitespace(s);
      assert s[..n] == [s[0]] + s[1..][..n - 1];
      assert s[..n][1..] == s[1..][..n - 1];
    }
  }

  /** Everything `TrailingWhitespace` counts is whitespace, so it counts the longest whitespace suffix. */
  lemma {:induction false} TrailingWhitespaceIsWhitespace(s: string)
    ensures AllWhitespace(s[|s| - TrailingWhitespace(s)..])
  {
    if s != [] && IsWhitespace(s[|s| - 1]) {
      var init := s[..|s| - 1];
      TrailingWhitespaceIsWhitespace(init);
      var n := TrailingWhitespace(s);
      assert s[|s| - n..] == init[|init| - (n - 1)..] + [s[|s| - 1]];
      AllWhitespaceConcat(init[|init| - (n - 1)..], [s[|s| - 1]]);
    } else {
      assert s[|s|..] == [];
    }
  }

  /** Removes the leading whitespace. */
  function TrimStart(s: string): string {
    s[LeadingWhitespace(s)..]
  }

  /** Removes the trailing whitespace. */
  function TrimEnd(s: string): string {
    s[..|s| - TrailingWhitespace(s)]
  }

  /** Neither end of `s` is whitespace. */
  predicate Unpadded(s: string) {
    s != [] ==> !IsWhitespace(s[0]) && !IsWhitespace(s[|s| - 1])
  }

  /** `s.trim()`: neither end of the result is whitespace. */
  function Trim(s: string): (r: string)
    ensures |r| <= |s|
    ensures Unpadded(r)
  {
    TrimEnd(TrimStart(s))
  }

  /** A string is its own trim exactly when neither end is whitespace. */
  lemma TrimmedIffUnpadded(s: string)
    ensures Trim(s) == s <==> Unpadded(s)
  {
  }

  /** Trimming an already trimmed string changes nothing. */
  lemma TrimIdempotent(s: string)
    ensures Trim(Trim(s)) == Trim(s)
  {
    TrimmedIffUnpadded(Trim(s));
  }

  /** The trimmed string is the slice `s[k..k + |Trim(s)|]` of the original, with only whitespace cut from either side. */
  lemma TrimIsSlice(s: string) returns (k: nat)
    ensures k + |Trim(s)| <= |s|
    ensures Trim(s) == s[k..k + |Trim(s)|]
    ensures AllWhitespace(s[..k]) && AllWhitespace(s[k + |Trim(s)|..])
  {
    k := LeadingWhitespace(s);
    var t := s[k..];
    var m := |t| - TrailingWhitespace(t);
    assert |Trim(s)| == m && Trim(s) == s[k..k + m] by {
      assert Trim(s) == t[..m];
    }
    assert AllWhitespace(s[..k]) by {
      LeadingWhitespaceIsWhitespace(s);
    }
    assert AllWhitespace(s[k + m..]) by {
      TrailingWhitespaceIsWhitespace(t);
      assert s[k + m..] == t[m..];
    }
  }

  lemma {:induction false} LeadingWhitespaceSkipsWhitespace(w: string, s: string)
    requires AllWhitespace(w)
    ensures LeadingWhitespace(w + s) == |w| + LeadingWhitespace(s)
  {
    if w != [] {
      assert (w + s)[1..] == w[1..] + s;
      LeadingWhitespaceSkipsWhitespace(w[1..], s);
    } else {
      assert w + s == s;
    }
  }

  lemma {:induction false} TrailingWhitespaceSkipsWhitespace(s: string, w: string)
    requires AllWhitespace(w)
    ensures TrailingWhitespace(s + w) == TrailingWhitespace(s) + |w|
  {
    if w != [] {
      assert (s + w)[..|s + w| - 1] == s + w[..|w| - 1];
      assert w == w[..|w| - 1] + [w[|w| - 1]];
      AllWhitespaceConcat(w[..|w| - 1], [w[|w| - 1]]);
      TrailingWhitespaceSkipsWhitespace(s, w[..|w| - 1]);
    } else {
      assert s + w == s;
    }
  }

  lemma {:induction false} LeadingWhitespaceKeepsTail(s: string, w: string)
    requires !AllWhitespace(s)
    ensures LeadingWhitespace(s + w) == LeadingWhitespace(s)
  {
    if IsWhitespace(s[0]) {
      assert (s + w)[1..] == s[1..] + w;
      LeadingWhitespaceKeepsTail(s[1..], w);
    }
  }

  lemma {:induction false} LeadingWhitespaceOfWhitespace(w: string)
    requires AllWhitespace(w)
    ensures LeadingWhitespace(w) == |w|
  {
    if w != [] {
      LeadingWhitespaceOfWhitespace(w[1..]);
    }
  }

  /** Whitespace in front of a string is what `TrimStart` removes first. */
  lemma TrimStartSkipsWhitespace(w: string, x: string)
    requires AllWhitespace(w)
    ensures TrimStart(w + x) == TrimStart(x)
  {
    LeadingWhitespaceSkipsWhitespace(w, x);
    assert (w + x)[|w| + LeadingWhitespace(x)..] == x[LeadingWhitespace(x)..];
  }

  /** A string of whitespace only trims to nothing. */
  lemma TrimStartOfWhitespace(w: string)
    requires AllWhitespace(w)
    ensures TrimStart(w) == []
  {
    LeadingWhitespaceOfWhitespace(w);
  }

  /** Once a non-whitespace character is met, whatever follows is kept. */
  lemma TrimStartKeepsTail(s: string, w: string)
    requires !AllWhitespace(s)
    ensures TrimStart(s + w) == TrimStart(s) + w
  {
    LeadingWhitespaceKeepsTail(s, w);
    assert (s + w)[LeadingWhitespace(s)..] == s[LeadingWhitespace(s)..] + w;
  }

  /** Whitespace at the end of a string is what `TrimEnd` removes first. */
  lemma TrimEndSkipsWhitespace(t: string, w: string)
    requires AllWhitespace(w)
    ensures TrimEnd(t + w) == TrimEnd(t)
  {
    TrailingWhitespaceSkipsWhitespace(t, w);
    assert (t + w)[..|t + w| - TrailingWhitespace(t + w)] == t[..|t| - TrailingWhitespace(t)];
  }

  /** Surrounding a string with whitespace does not change what `trim` returns. */
  lemma TrimIgnoresPadding(w1: string, s: string, w2: string)
    requires AllWhitespace(w1) && AllWhitespace(w2)
    ensures Trim(w1 + s + w2) == Trim(s)
  {
    assert w1 + s + w2 == w1 + (s + w2);
    TrimStartSkipsWhitespace(w1, s + w2);
    if AllWhitespace(s) {
      AllWhitespaceConcat(s, w2);
      TrimStartOfWhitespace(s + w2);
      TrimStartOfWhitespace(s);
    } else {
      TrimStartKeepsTail(s, w2);
      TrimEndSkipsWhitespace(TrimStart(s), w2);
    }
  }

  /** The number of UTF-16 code units that encode `c`: two for a code point outside the Basic Multilingual Plane. */
  function CodeUnits(c: char): nat {
    if c as int < 0x1_0000 then 1 else 2
  }

  /** JavaScript's `s.length`, which counts UTF-16 code units rather than code points. */
  function Utf16Length(s: string): (n: nat)
    ensures |s| <= n <= 2 * |s|
  {
    if s == [] then 0 else CodeUnits(s[0]) + Utf16Length(s[1..])
  }

  /** The JavaScript length is the number of characters exactly when none lies outside the Basic Multilingual Plane. */
  lemma {:induction false} Utf16LengthCountsCharacters(s: string)
    ensures Utf16Length(s) == |s| <==> forall i :: 0 <= i < |s| ==> s[i] as int < 0x1_0000
  {
    if s != [] {
      Utf16LengthCountsCharacters(s[1..]);
      assert forall i :: 1 <= i < |s| ==> s[i] == s[1..][i - 1];
    }
  }

  /** ASCII upper-case letters map to lower case; every other character is left as it is. */
  function LowerChar(c: char): char {
    if 'A' <= c <= 'Z' then (c as int + 32) as char else c
  }

  /** `s.toLowerCase()`, character by character. */
  function ToLower(s: string): (r: string)
    ensures |r| == |s|
    ensures forall i :: 0 <= i < |s| ==> r[i] == LowerChar(s[i])
  {
    if s == [] then [] else [LowerChar(s[0])] + ToLower(s[1..])
  }
}
