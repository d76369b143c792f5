/** The java.lang.String operations the core relies on, restricted to ASCII case folding. */
module Text {
  /** `Character.toLowerCase` on ASCII letters; every other character is left alone. */
  function LowerChar(c: char): char {
    if 'A' <= c <= 'Z' then (c as int + 32) as char else c
  }

  /** `String.toLowerCase()`: lowers every character in place. */
  function Lower(s: string): (r: string)
    ensures |r| == |s|
    ensures forall i :: 0 <= i < |s| ==> r[i] == LowerChar(s[i])
  {
    if s == [] then [] else [LowerChar(s[0])] + Lower(s[1..])
  }

  /** `a.equalsIgnoreCase(b)` for ASCII text. */
  predicate EqualsIgnoreCase(a: string, b: string): (same: bool)
    ensures same ==> |a| == |b|
    ensures a == b ==> same
  {
    Lower(a) == Lower(b)
  }

  /** `String.trim()` strips every character whose code is at most that of the space. */
  predicate Trimmable(c: char) {
    c <= ' '
  }

  /** Drops the leading trimmable characters. */
  function TrimStart(s: string): (r: string)
    ensures |r| <= |s| && r == s[|s| - |r|..]
    ensures forall k :: 0 <= k < |s| - |r| ==> Trimmable(s[k])
    ensures r != [] ==> !Trimmable(r[0])
  {
    if s != [] && Trimmable(s[0]) then TrimStart(s[1..]) else s
  }

  /** Drops the trailing trimmable characters. */
  function TrimEnd(s: string): (r: string)
    ensures |r| <= |s| && r == s[..|r|]
    ensures forall k :: |r| <= k < |s| ==> Trimmable(s[k])
    ensures r != [] ==> !Trimmable(r[|r| - 1])
  {
    if s != [] && Trimmable(s[|s| - 1]) then TrimEnd(s[..|s| - 1]) else s
  }

  /** Number of characters `trim()` removes from the front. */
  function LeadingTrimmed(s: string): nat {
    |s| - |TrimStart(s)|
  }

  /** `String.trim()`: the longest infix that neither starts nor ends with a trimmable character,
      everything around it being trimmable. */
  function Trim(s: string): (r: string)
    ensures LeadingTrimmed(s) + |r| <= |s|
    ensures r == s[LeadingTrimmed(s)..LeadingTrimmed(s) + |r|]
    ensures forall k :: 0 <= k < LeadingTrimmed(s) ==> Trimmable(s[k])
    ensures forall k :: LeadingTrimmed(s) + |r| <= k < |s| ==> Trimmable(s[k])
    ensures r == [] || (!Trimmable(r[0]) && !Trimmable(r[|r| - 1]))
  {
    var t := TrimStart(s);
    var r := TrimEnd(t);
    assert r != [] ==> r[0] == t[0];
    r
  }

  /** `Character.isWhitespace`, restricted to ASCII: tab, line feed, vertical tab, form feed,
      carriage return, the four information separators and the space. */
  predicate IsWhitespace(c: char) {
    9 <= c as int <= 13 || 28 <= c as int <= 32
  }

  /** `String.length()`: the number of UTF-16 code units, two for a character beyond U+FFFF. */
  function Utf16Length(s: string): (n: nat)
    ensures |s| <= n <= 2 * |s|
    ensures n == |s| <==> forall i :: 0 <= i < |s| ==> s[i] as int < 0x10000
  {
    if s == [] then 0
    else (if s[0] as int < 0x10000 then 1 else 2) + Utf16Length(s[1..])
  }

  /** `trim()` leaves nothing exactly when every character is one it removes. */
  lemma TrimEmpty(s: string)
    ensures Trim(s) == [] <==> forall i :: 0 <= i < |s| ==> Trimmable(s[i])
  {
    if Trim(s) != [] {
      assert s[LeadingTrimmed(s)] == Trim(s)[0];
    }
  }

  /** `String.isBlank()`: empty or made only of whitespace. */
  predicate IsBlank(s: string): (blank: bool)
    ensures blank ==> Trim(s) == []
  {
    TrimEmpty(s);
    forall i :: 0 <= i < |s| ==> IsWhitespace(s[i])
  }

  /** The decimal digits of `n`, most significant first. */
  function Digits(n: nat): (r: string)
    ensures r != []
    ensures forall i :: 0 <= i < |r| ==> '0' <= r[i] <= '9'
    ensures n > 0 ==> r[0] != '0'
  {
    if n < 10 then [(48 + n) as char] else Digits(n / 10) + [(48 + n % 10) as char]
  }

  /** `String.valueOf(long)`: a minus sign for negatives, then the digits. */
  function LongText(n: int): (r: string)
    ensures r != []
    ensures r[0] == '-' <==> n < 0
    ensures forall i :: (if n < 0 then 1 else 0) <= i < |r| ==> '0' <= r[i] <= '9'
  {
    if n < 0 then "-" + Digits(-n) else Digits(n)
  }

  /** The number a string of decimal digits denotes, most significant first. */
  function DigitsValue(s: string): nat {
    if s == [] then 0
    else
      var d := s[|s| - 1] as int - 48;
      DigitsValue(s[..|s| - 1]) * 10 + (if 0 <= d then d else 0)
  }

  /** `Long.parseLong` of a decimal text with an optional minus sign. */
  function ParseLong(s: string): int {
    if s != [] && s[0] == '-' then -(DigitsValue(s[1..]) as int) else DigitsValue(s)
  }

  /** The digits read back as the number they were written from. */
  lemma {:induction false} DigitsRoundTrip(n: nat)
    ensures DigitsValue(Digits(n)) == n
  {
    if n >= 10 {
      DigitsRoundTrip(n / 10);
      var r := Digits(n);
      assert r[..|r| - 1] == Digits(n / 10);
    }
  }

  /** `String.valueOf(long)` reads back as the number it was written from, so distinct ids have
      distinct texts. */
  lemma LongTextRoundTrip(n: int)
    ensures ParseLong(LongText(n)) == n
  {
    if n < 0 {
      DigitsRoundTrip(-n);
      assert LongText(n)[1..] == Digits(-n);
    } else {
      DigitsRoundTrip(n);
    }
  }

  /** `String.valueOf(boolean)`. */
  function BoolText(b: bool): string {
    if b then "true" else "false"
  }

  /** `s.endsWith(suffix)`. */
  predicate EndsWith(s: string, suffix: string): (ends: bool)
    ensures ends <==> |suffix| <= |s| && forall i :: 0 <= i < |suffix| ==> s[|s| - |suffix| + i] == suffix[i]
  {
    |suffix| <= |s| && s[|s| - |suffix|..] == suffix
  }

  /** Trimming a string that is already trimmed changes nothing. */
  lemma TrimIdempotent(s: string)
    ensures Trim(Trim(s)) == Trim(s)
  {
    var r := Trim(s);
    assert TrimStart(r) == r;
    assert TrimEnd(r) == r;
  }

  /** Leading trimmable padding is invisible to `TrimStart`. */
  lemma {:induction false} TrimStartSkipsPadding(pad: string, s: string)
    requires forall k :: 0 <= k < |pad| ==> Trimmable(pad[k])
    ensures TrimStart(pad + s) == TrimStart(s)
  {
    if pad != [] {
      assert (pad + s)[1..] == pad[1..] + s;
      TrimStartSkipsPadding(pad[1..], s);
    } else {
      assert pad + s == s;
    }
  }

  /** Trailing trimmable padding is invisible to `TrimEnd`. */
  lemma {:induction false} TrimEndSkipsPadding(s: string, pad: string)
    requires forall k :: 0 <= k < |pad| ==> Trimmable(pad[k])
    ensures TrimEnd(s + pad) == TrimEnd(s)
  {
    if pad != [] {
      var last := |pad| - 1;
      assert (s + pad)[..|s + pad| - 1] == s + pad[..last];
      TrimEndSkipsPadding(s, pad[..last]);
    } else {
      assert s + pad == s;
    }
  }

  /** Padding a string with trimmable characters on either side does not change its trim. */
  lemma TrimIgnoresPadding(before: string, s: string, after: string)
    requires forall k :: 0 <= k < |before| ==> Trimmable(before[k])
    requires forall k :: 0 <= k < |after| ==> Trimmable(after[k])
    ensures Trim(before + s + after) == Trim(s)
  {
    TrimStartSkipsPadding(before, s + after);
    assert before + s + after == before + (s + after);
    // TrimStart(s + after) is TrimStart(s) + after, unless s is all padding.
    if TrimStart(s) == [] {
      forall k | 0 <= k < |s + after| ensures Trimmable((s + after)[k]) {
      }
      TrimStartAllPadding(s + after);
      TrimEndAllPadding(s);
    } else {
      TrimStartKeepsTail(s, after);
      TrimEndSkipsPadding(TrimStart(s), after);
    }
  }

  /** A string made only of trimmable characters trims from the front to nothing. */
  lemma {:induction false} TrimStartAllPadding(s: string)
    requires forall k :: 0 <= k < |s| ==> Trimmable(s[k])
    ensures TrimStart(s) == []
  {
    if s != [] {
      TrimStartAllPadding(s[1..]);
    }
  }

  /** A string made only of trimmable characters trims from the back to nothing. */
  lemma {:induction false} TrimEndAllPadding(s: string)
    requires forall k :: 0 <= k < |s| ==> Trimmable(s[k])
    ensures TrimEnd(s) == []
  {
    if s != [] {
      TrimEndAllPadding(s[..|s| - 1]);
    }
  }

  /** When `s` has a non-trimmable character, stripping the front of `s + after` leaves `after` alone. */
  lemma {:induction false} TrimStartKeepsTail(s: string, after: string)
    requires TrimStart(s) != []
    ensures TrimStart(s + after) == TrimStart(s) + after
  {
    assert s != [] && (s + after)[0] == s[0];
    if Trimmable(s[0]) {
      assert (s + after)[1..] == s[1..] + after;
      TrimStartKeepsTail(s[1..], after);
    } else {
      assert TrimStart(s) == s;
    }
  }

  /** Lowering keeps trimmable characters trimmable and the rest not. */
  lemma LowerCharKeepsTrimmable(c: char)
    ensures Trimmable(LowerChar(c)) == Trimmable(c)
  {
  }

  /** Lowering and trimming commute. */
  lemma {:induction false} TrimLowerCommute(s: string)
    ensures Trim(Lower(s)) == Lower(Trim(s))
  {
    TrimStartLowerCommute(s);
    TrimEndLowerCommute(TrimStart(s));
  }

  lemma {:induction false} TrimStartLowerCommute(s: string)
    ensures TrimStart(Lower(s)) == Lower(TrimStart(s))
  {
    if s != [] {
      assert Lower(s)[1..] == Lower(s[1..]);
      LowerCharKeepsTrimmable(s[0]);
      if Trimmable(s[0]) {
        TrimStartLowerCommute(s[1..]);
      }
    }
  }

  lemma {:induction false} TrimEndLowerCommute(s: string)
    ensures TrimEnd(Lower(s)) == Lower(TrimEnd(s))
  {
    if s != [] {
      var n := |s| - 1;
      assert Lower(s)[..n] == Lower(s[..n]);
      LowerCharKeepsTrimmable(s[n]);
      if Trimmable(s[n]) {
        TrimEndLowerCommute(s[..n]);
      }
    }
  }

  /** Text without upper-case ASCII letters is its own lower case. */
  lemma LowerOfLowercase(s: string)
    requires forall i :: 0 <= i < |s| ==> !('A' <= s[i] <= 'Z')
    ensures Lower(s) == s
  {
  }

  /** Lowering works character by character, so it distributes over concatenation. */
  lemma LowerConcat(a: string, b: string)
    ensures Lower(a + b) == Lower(a) + Lower(b)
  {
    assert forall i :: 0 <= i < |a + b| ==> Lower(a + b)[i] == (Lower(a) + Lower(b))[i];
  }

  /** Lowering twice is lowering once. */
  lemma LowerIdempotent(s: string)
    ensures Lower(Lower(s)) == Lower(s)
  {
    assert forall i :: 0 <= i < |s| ==> Lower(Lower(s))[i] == Lower(s)[i];
  }
}
