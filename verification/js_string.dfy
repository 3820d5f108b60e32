/**
  The JavaScript string operations the chat code relies on, over strings as
  sequences of characters: `String.prototype.trim`, the "blank" test
  `s.trim() === ''`, `toLowerCase` (ASCII letters only) and the ordering used in
  place of `localeCompare` (lexicographic by character code).
 */
module JsString {

  /** The WhiteSpace and LineTerminator code points that `trim` strips
      (ECMAScript 2023, sections 12.2 and 12.3): TAB, LF, VT, FF, CR, SPACE,
      NO-BREAK SPACE, the other space separators (U+1680, U+2000 to U+200A,
      U+202F, U+205F, U+3000), LINE and PARAGRAPH SEPARATOR and U+FEFF. */
  predicate IsWhitespace(c: char)
  {
    if c < '\U{00A0}' then c == ' ' || '\t' <= c <= '\r'
    else
      || c == '\U{00A0}' || c == '\U{1680}' || '\U{2000}' <= c <= '\U{200A}'
      || c == '\U{2028}' || c == '\U{2029}' || c == '\U{202F}' || c == '\U{205F}'
      || c == '\U{3000}' || c == '\U{FEFF}'
  }

  /** Every character of `s` is whitespace (the empty string included). */
  predicate AllWhitespace(s: string)
  {
    forall i :: 0 <= i < |s| ==> IsWhitespace(s[i])
  }

  /** Neither end of `s` is whitespace. */
  predicate IsTrimmed(s: string)
  {
    s == [] || (!IsWhitespace(s[0]) && !IsWhitespace(s[|s| - 1]))
  }

  /** `s` without its leading whitespace. */
  function TrimStart(s: string): (r: string)
    ensures |r| <= |s|
    ensures r == [] || !IsWhitespace(r[0])
  {
    if |s| > 0 && IsWhitespace(s[0]) then TrimStart(s[1..]) else s
  }

  /** `s` without its trailing whitespace. */
  function TrimEnd(s: string): (r: string)
    ensures |r| <= |s|
    ensures r == [] || !IsWhitespace(r[|r| - 1])
  {
    if |s| > 0 && IsWhitespace(s[|s| - 1]) then TrimEnd(s[..|s| - 1]) else s
  }

  /** `String.prototype.trim`. */
  function Trim(s: string): (r: string)
    ensures |r| <= |s|
    ensures IsTrimmed(r)
  {
    var a := TrimStart(s);
    var r := TrimEnd(a);
    assert r == [] || !IsWhitespace(r[0]) by {
      if r != [] {
        TrimEndIsPrefix(a);
        assert r[0] == a[0];
      }
    }
    r
  }

  /** The test `s.trim() === ''` that the server handlers and the forms use
      for "empty" input. */
  predicate IsBlank(s: string)
  {
    Trim(s) == ""
  }

  /** TrimStart removes exactly the leading run of whitespace. */
  lemma {:induction false} TrimStartIsSuffix(s: string)
    ensures var r := TrimStart(s);
            && r == s[|s| - |r|..]
            && AllWhitespace(s[..|s| - |r|])
  {
    if |s| > 0 && IsWhitespace(s[0]) {
      TrimStartIsSuffix(s[1..]);
      var r := TrimStart(s);
      assert s[..|s| - |r|] == [s[0]] + s[1..][..|s| - 1 - |r|];
    }
  }

  /** TrimEnd removes exactly the trailing run of whitespace. */
  lemma {:induction false} TrimEndIsPrefix(s: string)
    ensures var r := TrimEnd(s);
            && r == s[..|r|]
            && AllWhitespace(s[|r|..])
  {
    if |s| > 0 && IsWhitespace(s[|s| - 1]) {
      var t := s[..|s| - 1];
      TrimEndIsPrefix(t);
      var r := TrimEnd(s);
      assert s[|r|..] == t[|r|..] + [s[|s| - 1]];
    }
  }

  /** Trimming yields the text between the leading and the trailing run of
      whitespace: `s` is `lead + Trim(s) + trail` with both runs whitespace. */
  lemma TrimIsInfix(s: string)
    ensures var r := Trim(s);
            var k := |s| - |TrimStart(s)|;
            && k + |r| <= |s|
            && r == s[k..k + |r|]
            && AllWhitespace(s[..k])
            && AllWhitespace(s[k + |r|..])
  {
    TrimStartIsSuffix(s);
    TrimEndIsPrefix(TrimStart(s));
    var a := TrimStart(s);
    var k := |s| - |a|;
    var r := Trim(s);
    assert a == s[k..];
    assert r == a[..|r|] && AllWhitespace(a[|r|..]);
    assert a[..|r|] == s[k..k + |r|];
    assert s[k + |r|..] == a[|r|..];
  }

  lemma {:induction false} TrimStartEmpty(s: string)
    ensures TrimStart(s) == [] <==> AllWhitespace(s)
  {
    if |s| > 0 && IsWhitespace(s[0]) {
      TrimStartEmpty(s[1..]);
      assert AllWhitespace(s) <==> AllWhitespace(s[1..]) by {
        assert forall i :: 1 <= i < |s| ==> s[i] == s[1..][i - 1];
      }
    }
  }

  /** Blank strings are exactly the all-whitespace ones. */
  lemma BlankIffAllWhitespace(s: string)
    ensures IsBlank(s) <==> AllWhitespace(s)
  {
    TrimIsInfix(s);
    var k := |s| - |TrimStart(s)|;
    if IsBlank(s) {
      forall i | 0 <= i < |s|
        ensures IsWhitespace(s[i])
      {
        if i < k { assert s[..k][i] == s[i]; } else { assert s[k..][i - k] == s[i]; }
      }
    }
    TrimStartEmpty(s);
  }

  /** Trimming an already trimmed string changes nothing. */
  lemma {:induction false} TrimOfTrimmed(s: string)
    requires IsTrimmed(s)
    ensures Trim(s) == s
  {
    assert TrimStart(s) == s;
    assert TrimEnd(s) == s;
  }

  /** A nonempty string with no whitespace at either end is not blank. */
  lemma NotBlankWhenTrimmed(s: string)
    requires s != [] && IsTrimmed(s)
    ensures Trim(s) == s && !IsBlank(s)
  {
    TrimOfTrimmed(s);
  }

  lemma TrimIdempotent(s: string)
    ensures Trim(Trim(s)) == Trim(s)
  {
    TrimOfTrimmed(Trim(s));
  }

  /** `toLowerCase` on one character, for the ASCII letters. */
  function LowerChar(c: char): char
  {
    if 'A' <= c <= 'Z' then (c as int + 32) as char else c
  }

  function ToLower(s: string): (r: string)
    ensures |r| == |s|
    ensures forall i :: 0 <= i < |s| ==> r[i] == LowerChar(s[i])
  {
    if s == [] then [] else [LowerChar(s[0])] + ToLower(s[1..])
  }

  /** Lower-casing twice is lower-casing once, and leaves no ASCII capital. */
  lemma ToLowerIdempotent(s: string)
    ensures ToLower(ToLower(s)) == ToLower(s)
    ensures forall i :: 0 <= i < |s| ==> !('A' <= ToLower(s)[i] <= 'Z')
  {
    var l := ToLower(s);
    assert forall i :: 0 <= i < |l| ==> LowerChar(l[i]) == l[i];
    assert ToLower(l) == l;
  }

  /** The order `a.localeCompare(b) <= 0` is modelled by: lexicographic
      order on character codes, a proper prefix coming first. */
  predicate LexLeq(a: string, b: string)
  {
    |a| == 0 || (|b| > 0 && (a[0] < b[0] || (a[0] == b[0] && LexLeq(a[1..], b[1..]))))
  }

  lemma {:induction false} LexLeqTotal(a: string, b: string)
    ensures LexLeq(a, b) || LexLeq(b, a)
  {
    if |a| > 0 && |b| > 0 && a[0] == b[0] {
      LexLeqTotal(a[1..], b[1..]);
    }
  }

  lemma {:induction false} LexLeqTransitive(a: string, b: string, c: string)
    requires LexLeq(a, b) && LexLeq(b, c)
    ensures LexLeq(a, c)
  {
    if |a| > 0 && a[0] == b[0] && b[0] == c[0] {
      LexLeqTransitive(a[1..], b[1..], c[1..]);
    }
  }

  lemma {:induction false} LexLeqAntisymmetric(a: string, b: string)
    requires LexLeq(a, b) && LexLeq(b, a)
    ensures a == b
  {
    if |a| > 0 {
      LexLeqAntisymmetric(a[1..], b[1..]);
      assert a == [a[0]] + a[1..] && b == [b[0]] + b[1..];
    }
  }

  // ---------------------------------------------------------------------------
  // Padding and letter case

  /** Leading whitespace in front of `x` is all that `TrimStart` drops of it. */
  lemma {:induction false} TrimStartSkipsWhitespace(pre: string, x: string)
    requires AllWhitespace(pre)
    ensures TrimStart(pre + x) == TrimStart(x)
    decreases |pre|
  {
    if pre == [] {
      assert pre + x == x;
    } else {
      assert (pre + x)[0] == pre[0];
      assert (pre + x)[1..] == pre[1..] + x;
      TrimStartSkipsWhitespace(pre[1..], x);
    }
  }

  /** Trailing whitespace after `x` is all that `TrimEnd` drops of it. */
  lemma {:induction false} TrimEndSkipsWhitespace(x: string, post: string)
    requires AllWhitespace(post)
    ensures TrimEnd(x + post) == TrimEnd(x)
    decreases |post|
  {
    if post == [] {
      assert x + post == x;
    } else {
      var xp := x + post;
      assert xp[|xp| - 1] == post[|post| - 1];
      assert xp[..|xp| - 1] == x + post[..|post| - 1];
      TrimEndSkipsWhitespace(x, post[..|post| - 1]);
    }
  }

  /** Once a non-whitespace character is met, what follows is kept whole. */
  lemma {:induction false} TrimStartAppend(x: string, y: string)
    requires TrimStart(x) != []
    ensures TrimStart(x + y) == TrimStart(x) + y
  {
    assert (x + y)[0] == x[0];
    if IsWhitespace(x[0]) {
      assert (x + y)[1..] == x[1..] + y;
      TrimStartAppend(x[1..], y);
    }
  }

  /** Whitespace padding on either side does not change the trimmed text. */
  lemma TrimIgnoresPadding(pre: string, x: string, post: string)
    requires AllWhitespace(pre) && AllWhitespace(post)
    ensures Trim(pre + x + post) == Trim(x)
  {
    assert pre + x + post == pre + (x + post);
    TrimStartSkipsWhitespace(pre, x + post);
    if TrimStart(x) == [] {
      TrimStartEmpty(x);
      TrimStartSkipsWhitespace(x, post);
      TrimStartEmpty(post);
    } else {
      TrimStartAppend(x, post);
      TrimEndSkipsWhitespace(TrimStart(x), post);
    }
  }

  /** Lower-casing neither creates nor removes whitespace. */
  lemma LowerCharWhitespace(c: char)
    ensures IsWhitespace(LowerChar(c)) == IsWhitespace(c)
  {
  }

  lemma {:induction false} TrimStartLower(s: string)
    ensures TrimStart(ToLower(s)) == ToLower(TrimStart(s))
  {
    if s != [] {
      LowerCharWhitespace(s[0]);
      assert ToLower(s)[1..] == ToLower(s[1..]);
      TrimStartLower(s[1..]);
    }
  }

  lemma {:induction false} TrimEndLower(s: string)
    ensures TrimEnd(ToLower(s)) == ToLower(TrimEnd(s))
    decreases |s|
  {
    if s != [] {
      var l := ToLower(s);
      LowerCharWhitespace(s[|s| - 1]);
      assert l[..|l| - 1] == ToLower(s[..|s| - 1]);
      TrimEndLower(s[..|s| - 1]);
    }
  }

  /** Trimming and lower-casing commute. */
  lemma TrimLower(s: string)
    ensures Trim(ToLower(s)) == ToLower(Trim(s))
  {
    TrimStartLower(s);
    TrimEndLower(TrimStart(s));
  }

  // ---------------------------------------------------------------------------
  // UTF-16

  /** A UTF-16 code unit: what JavaScript's `length` and `substring` count. */
  type CodeUnit = x: int | 0 <= x < 0x1_0000

  /** A character outside the Basic Multilingual Plane, two code units long. */
  predicate IsAstral(c: char)
  {
    c as int >= 0x1_0000
  }

  /** A high (leading) surrogate. */
  predicate IsHighSurrogate(u: CodeUnit)
  {
    0xD800 <= u < 0xDC00
  }

  /** One character in UTF-16: itself, or a surrogate pair. */
  function Utf16Char(c: char): (r: seq<CodeUnit>)
    ensures |r| == if IsAstral(c) then 2 else 1
    ensures !IsAstral(c) ==> r[0] == c as int
    ensures IsAstral(c) ==> IsHighSurrogate(r[0]) && !IsHighSurrogate(r[1])
  {
    if IsAstral(c) then
      var v := c as int - 0x1_0000;
      [0xD800 + v / 0x400, 0xDC00 + v % 0x400]
    else [c as int]
  }

  /** A string as JavaScript stores it. */
  function Utf16(s: string): (r: seq<CodeUnit>)
    ensures |s| <= |r| <= 2 * |s|
  {
    if s == [] then [] else Utf16Char(s[0]) + Utf16(s[1..])
  }

  /** Without astral characters, code units and characters coincide. */
  lemma {:induction false} Utf16OfBmp(s: string)
    requires forall i :: 0 <= i < |s| ==> !IsAstral(s[i])
    ensures |Utf16(s)| == |s|
    ensures forall i :: 0 <= i < |s| ==> Utf16(s)[i] == s[i] as int
  {
    if s != [] {
      Utf16OfBmp(s[1..]);
      var r := Utf16(s);
      forall i | 0 <= i < |s|
        ensures r[i] == s[i] as int
      {
        if i > 0 { assert r[i] == Utf16(s[1..])[i - 1]; }
      }
    }
  }

  /** A text of astral characters only is twice as long in code units, and
      every even position holds a high surrogate. */
  lemma {:induction false} Utf16OfAstral(s: string)
    requires forall i :: 0 <= i < |s| ==> IsAstral(s[i])
    ensures |Utf16(s)| == 2 * |s|
    ensures forall j :: 0 <= j < |Utf16(s)| && j % 2 == 0 ==> IsHighSurrogate(Utf16(s)[j])
  {
    if s != [] {
      Utf16OfAstral(s[1..]);
      var r := Utf16(s);
      var t := Utf16(s[1..]);
      forall j | 0 <= j < |r| && j % 2 == 0
        ensures IsHighSurrogate(r[j])
      {
        if j >= 2 { assert r[j] == t[j - 2]; }
      }
    }
  }
}
