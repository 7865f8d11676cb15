/** String operations the modelled Python code relies on: substring tests,
    the `'_'.join(s.split('--'))` rewrite, `str(int)` and `int(str)`. */
module Text {
  import opened Wrappers

  /** `s.startswith(p)`. */
  predicate StartsWith(s: string, p: string) {
    |p| <= |s| && s[..|p|] == p
  }

  /** `s.endswith(p)`. */
  predicate EndsWith(s: string, p: string) {
    |p| <= |s| && s[|s| - |p|..] == p
  }

  /** Python's `p in s` on strings: `p` occurs as a contiguous block of `s`. */
  predicate Contains(s: string, p: string) {
    exists i :: 0 <= i <= |s| - |p| && OccursAt(s, p, i)
  }

  /** `p` occurs in `s` starting at position `i`. */
  predicate OccursAt(s: string, p: string, i: int) {
    0 <= i <= |s| - |p| && s[i..i + |p|] == p
  }

  // ---------------------------------------------------------------------------
  // '_'.join(s.split('--'))
  // ---------------------------------------------------------------------------

  /** `'_'.join(s.split('--'))`: every non-overlapping "--", scanned left to
      right, becomes "_". */
  function DashesToUnderscore(s: string): string
    decreases |s|
  {
    if |s| == 0 then ""
    else if |s| >= 2 && s[0] == '-' && s[1] == '-' then "_" + DashesToUnderscore(s[2..])
    else [s[0]] + DashesToUnderscore(s[1..])
  }

  /** No two adjacent dashes. */
  predicate NoDoubleDash(s: string) {
    forall i :: 0 <= i < |s| - 1 ==> !(s[i] == '-' && s[i + 1] == '-')
  }

  /** A dash at the head of the rewrite comes from a lone dash at the head of the input. */
  lemma {:induction false} LeadingDash(s: string)
    ensures |DashesToUnderscore(s)| > 0 && DashesToUnderscore(s)[0] == '-' ==>
      |s| > 0 && s[0] == '-' && (|s| == 1 || s[1] != '-')
  {
  }

  /** The rewrite leaves no "--" behind. */
  lemma {:induction false} DashesToUnderscoreNoDoubleDash(s: string)
    ensures NoDoubleDash(DashesToUnderscore(s))
    decreases |s|
  {
    if |s| == 0 {
    } else if |s| >= 2 && s[0] == '-' && s[1] == '-' {
      DashesToUnderscoreNoDoubleDash(s[2..]);
      var t := DashesToUnderscore(s[2..]);
      assert DashesToUnderscore(s) == "_" + t;
    } else {
      DashesToUnderscoreNoDoubleDash(s[1..]);
      var t := DashesToUnderscore(s[1..]);
      assert DashesToUnderscore(s) == [s[0]] + t;
      LeadingDash(s[1..]);
    }
  }

  /** A key without "--" is left unchanged by the rewrite. */
  lemma {:induction false} DashesToUnderscoreIdentity(s: string)
    requires NoDoubleDash(s)
    ensures DashesToUnderscore(s) == s
    decreases |s|
  {
    if |s| > 0 {
      assert NoDoubleDash(s[1..]) by {
        forall i | 0 <= i < |s[1..]| - 1
          ensures !(s[1..][i] == '-' && s[1..][i + 1] == '-')
        {
          assert s[1..][i] == s[i + 1] && s[1..][i + 1] == s[i + 2];
        }
      }
      DashesToUnderscoreIdentity(s[1..]);
    }
  }

  /** Rewriting twice is rewriting once. */
  lemma DashesToUnderscoreIdempotent(s: string)
    ensures DashesToUnderscore(DashesToUnderscore(s)) == DashesToUnderscore(s)
  {
    DashesToUnderscoreNoDoubleDash(s);
    DashesToUnderscoreIdentity(DashesToUnderscore(s));
  }

  // ---------------------------------------------------------------------------
  // str(n) and int(s)
  // ---------------------------------------------------------------------------

  predicate IsDigit(c: char) {
    '0' <= c <= '9'
  }

  predicate AllDigits(s: string) {
    forall i :: 0 <= i < |s| ==> IsDigit(s[i])
  }

  function DigitChar(d: nat): (c: char)
    requires d < 10
    ensures IsDigit(c)
  {
    (48 + d) as char
  }

  function DigitValue(c: char): (d: nat)
    requires IsDigit(c)
    ensures d < 10
  {
    (c as int) - 48
  }

  /** Decimal rendering of a natural number, most significant digit first. */
  function NatToString(n: nat): (s: string)
    ensures |s| > 0 && AllDigits(s)
    decreases n
  {
    if n < 10 then [DigitChar(n)] else NatToString(n / 10) + [DigitChar(n % 10)]
  }

  /** Python's `str(n)` for an integer. */
  function IntToString(n: int): (s: string)
    ensures |s| > 0
  {
    if n < 0 then "-" + NatToString(-n) else NatToString(n)
  }

  /** The value of a run of decimal digits. */
  function DigitsValue(s: string): nat
    requires AllDigits(s)
  {
    if |s| == 0 then 0 else DigitsValue(s[..|s| - 1]) * 10 + DigitValue(s[|s| - 1])
  }

  /** The whitespace Python's `str.strip()` and `int()` skip: the characters
      `str.isspace()` accepts, by code point. */
  predicate IsSpace(c: char) {
    var n := c as int;
    || 9 <= n <= 13 || 28 <= n <= 32 || n == 0x85 || n == 0xA0 || n == 0x1680
    || 0x2000 <= n <= 0x200A || n == 0x2028 || n == 0x2029 || n == 0x202F || n == 0x205F || n == 0x3000
  }

  /** Text that is empty or starts and ends with a non-space character. */
  predicate NotSpaceEnds(s: string) {
    |s| > 0 ==> !IsSpace(s[0]) && !IsSpace(s[|s| - 1])
  }

  /** A run of whitespace. */
  predicate Spaces(s: string) {
    forall i :: 0 <= i < |s| ==> IsSpace(s[i])
  }

  function StripLeft(s: string): (t: string)
    ensures |t| <= |s|
    ensures |t| > 0 ==> !IsSpace(t[0])
    ensures |t| > 0 ==> t == s[|s| - |t|..]
  {
    if |s| > 0 && IsSpace(s[0]) then StripLeft(s[1..]) else s
  }

  function StripRight(s: string): (t: string)
    ensures |t| <= |s|
    ensures |t| > 0 ==> !IsSpace(t[|t| - 1])
    ensures t == s[..|t|]
  {
    if |s| > 0 && IsSpace(s[|s| - 1]) then StripRight(s[..|s| - 1]) else s
  }

  /** `s.strip()`. */
  function Strip(s: string): string {
    StripRight(StripLeft(s))
  }

  /** Python's `int(s)` on a string: surrounding whitespace, an optional sign,
      then at least one decimal digit; None where Python raises ValueError. */
  function ParseInt(s: string): (r: Option<int>)
    ensures r.Some? ==> exists k :: 0 <= k < |Strip(s)| && IsDigit(Strip(s)[k])
    ensures |Strip(s)| == 0 ==> r.None?
    ensures r.Some? && r.value < 0 ==> Strip(s)[0] == '-'
  {
    ParseStripped(Strip(s))
  }

  /** `int()` on text already stripped of surrounding whitespace. */
  function ParseStripped(t: string): (r: Option<int>)
    ensures r.Some? ==> exists k :: 0 <= k < |t| && IsDigit(t[k])
    ensures |t| == 0 ==> r.None?
    ensures r.Some? && r.value < 0 ==> t[0] == '-'
  {
    if |t| > 1 && (t[0] == '-' || t[0] == '+') && AllDigits(t[1..]) then
      var v: int := DigitsValue(t[1..]);
      assert IsDigit(t[1..][0]);
      Some(if t[0] == '-' then -v else v)
    else if |t| > 0 && AllDigits(t) then
      assert IsDigit(t[0]);
      Some(DigitsValue(t))
    else None
  }

  /** Leading whitespace does not change what `int()` reads. */
  lemma ParseIntSkipsLeadingSpace(c: char, s: string)
    requires IsSpace(c)
    ensures ParseInt([c] + s) == ParseInt(s)
  {
    assert StripLeft([c] + s) == StripLeft(s) by {
      assert ([c] + s)[1..] == s;
    }
  }

  /** Leading whitespace before a non-space start is stripped. */
  lemma {:induction false} StripLeftSpaces(pre: string, x: string)
    requires Spaces(pre) && (|x| > 0 ==> !IsSpace(x[0]))
    ensures StripLeft(pre + x) == x
    decreases |pre|
  {
    if |pre| == 0 {
      assert pre + x == x;
    } else {
      assert (pre + x)[1..] == pre[1..] + x;
      StripLeftSpaces(pre[1..], x);
    }
  }

  /** Trailing whitespace after a non-space end is stripped. */
  lemma {:induction false} StripRightSpaces(x: string, post: string)
    requires Spaces(post) && (|x| > 0 ==> !IsSpace(x[|x| - 1]))
    ensures StripRight(x + post) == x
    decreases |post|
  {
    if |post| == 0 {
      assert x + post == x;
    } else {
      var post' := post[..|post| - 1];
      assert (x + post)[..|x + post| - 1] == x + post';
      StripRightSpaces(x, post');
    }
  }

  /** Surrounding whitespace is stripped from a core that starts and ends
      with a non-space character, and all-space text strips to nothing. */
  lemma StripAround(pre: string, core: string, post: string)
    requires Spaces(pre) && Spaces(post)
    requires NotSpaceEnds(core)
    ensures Strip(pre + core + post) == core
  {
    if |core| == 0 {
      assert pre + core + post == (pre + post) + "";
      StripLeftSpaces(pre + post, "");
    } else {
      assert pre + core + post == pre + (core + post);
      StripLeftSpaces(pre, core + post);
      StripRightSpaces(core, post);
    }
  }

  /** `int()` reads the same through surrounding whitespace. */
  lemma ParseIntAround(pre: string, core: string, post: string)
    requires Spaces(pre) && Spaces(post)
    requires NotSpaceEnds(core)
    ensures ParseInt(pre + core + post) == ParseInt(core)
    ensures Strip(core) == core
  {
    StripAround(pre, core, post);
    StripAround("", core, "");
    assert "" + core + "" == core;
  }

  /** Concatenation regrouped around the middle two parts. */
  lemma Regroup(a: string, b: string, c: string, d: string)
    ensures a + b + c + d == a + (b + c) + d
  {
  }

  /** A sign and a run of digits, with nothing around them, read as their value. */
  lemma ParseStrippedSigned(sign: string, digits: string)
    requires sign == "" || sign == "+" || sign == "-"
    requires |digits| > 0 && AllDigits(digits)
    ensures ParseStripped(sign + digits) ==
      Some(if sign == "-" then 0 - DigitsValue(digits) as int else DigitsValue(digits) as int)
  {
    var core := sign + digits;
    if sign == "" {
      assert core == digits;
      assert IsDigit(core[0]);
    } else {
      assert core[1..] == digits;
      assert core[0] == sign[0];
    }
  }

  /** A sign followed by digits neither starts nor ends with whitespace. */
  lemma SignedDigitsEnds(sign: string, digits: string)
    requires sign == "" || sign == "+" || sign == "-"
    requires |digits| > 0 && AllDigits(digits)
    ensures NotSpaceEnds(sign + digits)
  {
    var core := sign + digits;
    assert IsDigit(digits[0]) && IsDigit(digits[|digits| - 1]);
    assert core[0] == if sign == "" then digits[0] else sign[0];
    assert core[|core| - 1] == digits[|digits| - 1];
  }

  /** The reference reading of `int()`: optional whitespace, an optional sign,
      one or more decimal digits (leading zeros allowed), optional whitespace. */
  lemma ParseIntReference(pre: string, sign: string, digits: string, post: string)
    requires Spaces(pre) && Spaces(post)
    requires sign == "" || sign == "+" || sign == "-"
    requires |digits| > 0 && AllDigits(digits)
    ensures ParseInt(pre + sign + digits + post) ==
      Some(if sign == "-" then 0 - DigitsValue(digits) as int else DigitsValue(digits) as int)
  {
    var core := sign + digits;
    SignedDigitsEnds(sign, digits);
    Regroup(pre, sign, digits, post);
    ParseIntAround(pre, core, post);
    ParseStrippedSigned(sign, digits);
  }

  /** A sign, then a part that is empty or holds a non-digit, is rejected. */
  lemma ParseStrippedRejects(sign: string, body: string)
    requires sign == "" || sign == "+" || sign == "-"
    requires |body| > 0 ==> !AllDigits(body) && (sign == "" ==> body[0] != '+' && body[0] != '-')
    ensures ParseStripped(sign + body).None?
  {
    var core := sign + body;
    if sign == "" {
      assert core == body;
    } else {
      assert core[1..] == body;
      assert core[0] == sign[0];
    }
  }

  /** `int()` rejects text whose part after the optional sign is empty or holds
      a non-digit (the part starts and ends with a non-space, and starts with
      no sign of its own when none precedes it). */
  lemma ParseIntRejects(pre: string, sign: string, body: string, post: string)
    requires Spaces(pre) && Spaces(post)
    requires sign == "" || sign == "+" || sign == "-"
    requires |body| > 0 ==>
      && !AllDigits(body) && !IsSpace(body[0]) && !IsSpace(body[|body| - 1])
      && (sign == "" ==> body[0] != '+' && body[0] != '-')
    ensures ParseInt(pre + sign + body + post).None?
  {
    var core := sign + body;
    assert NotSpaceEnds(core) by {
      if |core| > 0 {
        assert core[0] == if sign == "" then body[0] else sign[0];
        assert core[|core| - 1] == if |body| == 0 then sign[0] else body[|body| - 1];
      }
    }
    Regroup(pre, sign, body, post);
    ParseIntAround(pre, core, post);
    ParseStrippedRejects(sign, body);
  }

  /** Reading back the rendering of a natural number gives the number. */
  lemma {:induction false} DigitsValueOfNatToString(n: nat)
    ensures DigitsValue(NatToString(n)) == n
    decreases n
  {
    if n >= 10 {
      var s := NatToString(n / 10) + [DigitChar(n % 10)];
      assert s[..|s| - 1] == NatToString(n / 10);
      DigitsValueOfNatToString(n / 10);
    }
  }

  /** `int(str(n)) == n`: the decimal rendering round-trips. */
  /** Text that starts and ends with a non-space character strips to itself. */
  lemma StripUnchanged(core: string)
    requires NotSpaceEnds(core)
    ensures Strip(core) == core
  {
    assert StripLeft(core) == core;
    assert StripRight(core) == core;
  }

  /** A signed run of digits with nothing around it. */
  lemma ParseIntSignedDigits(sign: string, digits: string)
    requires sign == "" || sign == "-"
    requires |digits| > 0 && AllDigits(digits)
    ensures ParseInt(sign + digits) ==
      Some(if sign == "-" then 0 - DigitsValue(digits) as int else DigitsValue(digits) as int)
    ensures sign == "" ==> ParseInt(digits) == Some(DigitsValue(digits) as int)
  {
    SignedDigitsEnds(sign, digits);
    StripUnchanged(sign + digits);
    ParseStrippedSigned(sign, digits);
    assert sign == "" ==> sign + digits == digits;
  }

  lemma ParseIntOfIntToString(n: int)
    ensures ParseInt(IntToString(n)) == Some(n)
  {
    var d: nat := if n < 0 then -n else n;
    var digits := NatToString(d);
    DigitsValueOfNatToString(d);
    assert DigitsValue(digits) == d;
    if n < 0 {
      ParseIntSignedDigits("-", digits);
      assert IntToString(n) == "-" + digits;
      assert ParseInt("-" + digits) == Some(n);
    } else {
      ParseIntSignedDigits("", digits);
      assert IntToString(n) == digits;
      assert ParseInt(digits) == Some(n);
    }
  }





  /** `str` is injective on integers, so distinct phase numbers give distinct labels. */
  lemma IntToStringInjective(a: int, b: int)
    requires IntToString(a) == IntToString(b)
    ensures a == b
  {
    ParseIntOfIntToString(a);
    ParseIntOfIntToString(b);
  }
}
