/**
  The pieces of Python's string handling that the date conversions rely on:
  `str.split(sep)`, `int(text)` on a string, and the f-string formats `{n}` and
  `{n:02d}` for integers.
*/
module PyText {
  import opened Wrappers

  // ---------------------------------------------------------------- digits

  predicate IsDigit(c: char) { '0' <= c <= '9' }

  predicate AllDigits(s: string) { forall i :: 0 <= i < |s| ==> IsDigit(s[i]) }

  function DigitChar(d: nat): char
    requires d < 10
  {
    ('0' as int + d) as char
  }

  /** The number a run of decimal digits denotes, most significant digit first. */
  function DigitsValue(s: string): nat
    requires AllDigits(s)
  {
    if s == [] then 0
    else DigitsValue(s[..|s| - 1]) * 10 + (s[|s| - 1] as int - '0' as int)
  }

  // ---------------------------------------------------------------- formatting

  /** `f"{n}"` for a non-negative integer. */
  function NatToString(n: nat): string
  {
    if n < 10 then [DigitChar(n)] else NatToString(n / 10) + [DigitChar(n % 10)]
  }

  /** `f"{n}"` for any integer: a minus sign, then the digits of the magnitude. */
  function IntToString(n: int): string
  {
    if n < 0 then "-" + NatToString(-n) else NatToString(n)
  }

  /** `f"{n:02d}"` for a non-negative integer: zero-padded to a width of two. */
  function Pad2(n: nat): string
  {
    if n < 10 then "0" + NatToString(n) else NatToString(n)
  }

  lemma {:induction false} NatToStringRoundTrip(n: nat)
    ensures NatToString(n) != [] && AllDigits(NatToString(n))
    ensures DigitsValue(NatToString(n)) == n
  {
    var s := NatToString(n);
    if n >= 10 {
      NatToStringRoundTrip(n / 10);
      assert s[..|s| - 1] == NatToString(n / 10);
    }
  }

  /** Below 100, `{n:02d}` is exactly two digits and reads back as `n`. */
  lemma Pad2TwoDigits(n: nat)
    requires n < 100
    ensures |Pad2(n)| == 2 && AllDigits(Pad2(n))
    ensures DigitsValue(Pad2(n)) == n
  {
    var s := Pad2(n);
    if n >= 10 {
      assert NatToString(n / 10) == [DigitChar(n / 10)];
      assert s == [DigitChar(n / 10), DigitChar(n % 10)];
      assert s[..1] == [DigitChar(n / 10)];
      assert DigitsValue(s[..1]) == n / 10;
    } else {
      assert s == ['0', DigitChar(n)];
      assert s[..1] == ['0'];
      assert DigitsValue(s[..1]) == 0;
    }
  }

  // ---------------------------------------------------------------- str.split

  /** `s.split(sep)` for a one-character separator: never empty, keeps empty fields. */
  function Split(s: string, sep: char): (parts: seq<string>)
    ensures |parts| >= 1
  {
    if s == [] then [""]
    else
      var rest := Split(s[1..], sep);
      if s[0] == sep then [""] + rest else [[s[0]] + rest[0]] + rest[1..]
  }

  /** `sep.join(parts)`. */
  function Join(parts: seq<string>, sep: char): string
    requires |parts| >= 1
  {
    if |parts| == 1 then parts[0] else parts[0] + [sep] + Join(parts[1..], sep)
  }

  lemma JoinExtendFirst(c: char, parts: seq<string>, sep: char)
    requires |parts| >= 1
    ensures Join([[c] + parts[0]] + parts[1..], sep) == [c] + Join(parts, sep)
  {
    var longer := [[c] + parts[0]] + parts[1..];
    if |parts| > 1 {
      assert longer[1..] == parts[1..];
    }
  }

  lemma JoinEmptyFirst(parts: seq<string>, sep: char)
    requires |parts| >= 1
    ensures Join([""] + parts, sep) == [sep] + Join(parts, sep)
  {
    assert ([""] + parts)[1..] == parts;
  }

  /** Splitting loses nothing: joining the fields back gives the string. */
  lemma {:induction false} SplitJoin(s: string, sep: char)
    ensures Join(Split(s, sep), sep) == s
  {
    if s != [] {
      SplitJoin(s[1..], sep);
      var rest := Split(s[1..], sep);
      if s[0] == sep {
        JoinEmptyFirst(rest, sep);
      } else {
        JoinExtendFirst(s[0], rest, sep);
      }
      assert s == [s[0]] + s[1..];
    }
  }

  /** No field of a split holds the separator. */
  lemma {:induction false} SplitFieldsLackSeparator(s: string, sep: char)
    ensures forall i :: 0 <= i < |Split(s, sep)| ==> sep !in Split(s, sep)[i]
  {
    if s != [] {
      SplitFieldsLackSeparator(s[1..], sep);
      var rest := Split(s[1..], sep);
      if s[0] != sep {
        var parts := Split(s, sep);
        assert parts == [[s[0]] + rest[0]] + rest[1..];
        assert forall i :: 1 <= i < |parts| ==> parts[i] == rest[i];
      }
    }
  }

  /** How many times `c` occurs in `s`. */
  function Count(s: string, c: char): nat
  {
    if s == [] then 0 else (if s[0] == c then 1 else 0) + Count(s[1..], c)
  }

  /** A split has one field more than the string has separators. */
  lemma {:induction false} SplitCount(s: string, sep: char)
    ensures |Split(s, sep)| == Count(s, sep) + 1
  {
    if s != [] {
      SplitCount(s[1..], sep);
    }
  }

  lemma {:induction false} SplitNoSeparator(s: string, sep: char)
    requires sep !in s
    ensures Split(s, sep) == [s]
  {
    if s != [] {
      SplitNoSeparator(s[1..], sep);
      assert s == [s[0]] + s[1..];
    }
  }

  lemma {:induction false} SplitAtSeparator(a: string, sep: char, b: string)
    requires sep !in a
    ensures Split(a + [sep] + b, sep) == [a] + Split(b, sep)
  {
    if a == [] {
      assert a + [sep] + b == [sep] + b;
      assert ([sep] + b)[1..] == b;
    } else {
      SplitAtSeparator(a[1..], sep, b);
      assert (a + [sep] + b)[1..] == a[1..] + [sep] + b;
      assert a == [a[0]] + a[1..];
    }
  }

  /** Joining fields that hold no separator and splitting again gives the fields back. */
  lemma {:induction false} JoinSplit(parts: seq<string>, sep: char)
    requires |parts| >= 1
    requires forall i :: 0 <= i < |parts| ==> sep !in parts[i]
    ensures Split(Join(parts, sep), sep) == parts
  {
    if |parts| == 1 {
      SplitNoSeparator(parts[0], sep);
    } else {
      JoinSplit(parts[1..], sep);
      SplitAtSeparator(parts[0], sep, Join(parts[1..], sep));
      assert parts == [parts[0]] + parts[1..];
    }
  }

  // ---------------------------------------------------------------- int(text)

  /** The characters `str.isspace()` accepts, which `int()` ignores around a numeral. */
  predicate IsSpace(c: char)
  {
    ('\t' <= c <= '\r') || ('\U{001C}' <= c <= ' ') || c == '\U{0085}' || c == '\U{00A0}'
    || c == '\U{1680}' || ('\U{2000}' <= c <= '\U{200A}') || c == '\U{2028}' || c == '\U{2029}'
    || c == '\U{202F}' || c == '\U{205F}' || c == '\U{3000}'
  }

  function StripLeading(s: string): string
  {
    if s != [] && IsSpace(s[0]) then StripLeading(s[1..]) else s
  }

  function StripTrailing(s: string): string
  {
    if s != [] && IsSpace(s[|s| - 1]) then StripTrailing(s[..|s| - 1]) else s
  }

  /** `s.strip()`. */
  function Strip(s: string): string
  {
    StripTrailing(StripLeading(s))
  }

  /** Digits, where a single `_` may stand between two digits (`1_000`). */
  predicate IsNumeral(s: string)
  {
    && s != []
    && IsDigit(s[0])
    && DigitsOrUnderscores(s)
    && forall i :: 0 <= i < |s| && s[i] == '_' ==> i + 1 < |s| && IsDigit(s[i + 1])
  }

  predicate DigitsOrUnderscores(s: string)
  {
    forall i :: 0 <= i < |s| ==> IsDigit(s[i]) || s[i] == '_'
  }

  function DropUnderscores(s: string): (r: string)
    ensures DigitsOrUnderscores(s) ==> AllDigits(r)
  {
    if s == [] then []
    else (if s[0] == '_' then [] else [s[0]]) + DropUnderscores(s[1..])
  }

  function ParseNumeral(s: string): Option<nat>
  {
    if IsNumeral(s) then
      Some(DigitsValue(DropUnderscores(s)))
    else None
  }

  /**
    `int(text)` on a string: None where Python raises ValueError, for numerals
    written in the ASCII digits `0`-`9`.
  */
  function ParseInt(text: string): (r: Option<int>)
    ensures r.Some? ==> Strip(text) != []
  {
    var t := Strip(text);
    if t == [] then None
    else
      var signed := t[0] == '-' || t[0] == '+';
      var sign: int := if t[0] == '-' then -1 else 1;
      match ParseNumeral(if signed then t[1..] else t)
      case Some(n) => Some(sign * n)
      case None => None
  }

  lemma {:induction false} StripNoSpace(s: string)
    requires forall i :: 0 <= i < |s| ==> !IsSpace(s[i])
    ensures Strip(s) == s
  {
  }

  lemma {:induction false} DropUnderscoresOfDigits(s: string)
    requires AllDigits(s)
    ensures DropUnderscores(s) == s
  {
    if s != [] {
      DropUnderscoresOfDigits(s[1..]);
      assert s == [s[0]] + s[1..];
    }
  }

  /** `int(f"{n}") == n` for every integer `n`. */
  lemma ParseNumeralOfNatToString(m: nat)
    ensures NatToString(m) != [] && IsDigit(NatToString(m)[0])
    ensures ParseNumeral(NatToString(m)) == Some(m)
  {
    var digits := NatToString(m);
    NatToStringRoundTrip(m);
    DropUnderscoresOfDigits(digits);
    assert IsNumeral(digits);
  }

  lemma IntToStringHasNoSpace(n: int)
    ensures Strip(IntToString(n)) == IntToString(n)
  {
    var s := IntToString(n);
    NatToStringRoundTrip(if n < 0 then -n else n);
    assert forall i :: 0 <= i < |s| ==> !IsSpace(s[i]);
    StripNoSpace(s);
  }

  lemma ParseIntOfIntToString(n: int)
    ensures ParseInt(IntToString(n)) == Some(n)
  {
    var m: nat := if n < 0 then -n else n;
    var digits := NatToString(m);
    ParseNumeralOfNatToString(m);
    IntToStringHasNoSpace(n);
    var s := IntToString(n);
    if n < 0 {
      assert s == "-" + digits && s[1..] == digits;
    } else {
      assert s == digits && s[0] != '+' && s[0] != '-';
    }
  }

  /** Text made only of the characters `strip` removes. */
  predicate AllSpace(s: string)
  {
    forall i :: 0 <= i < |s| ==> IsSpace(s[i])
  }

  /** `StripLeading` removes a prefix of whitespace and stops at a non-space. */
  lemma {:induction false} StripLeadingIsSuffix(s: string)
    ensures |StripLeading(s)| <= |s|
    ensures s[|s| - |StripLeading(s)|..] == StripLeading(s)
    ensures AllSpace(s[..|s| - |StripLeading(s)|])
    ensures StripLeading(s) == [] || !IsSpace(StripLeading(s)[0])
  {
    if s != [] && IsSpace(s[0]) {
      var r := StripLeading(s[1..]);
      StripLeadingIsSuffix(s[1..]);
      assert s[|s| - |r|..] == s[1..][|s[1..]| - |r|..];
      assert s[..|s| - |r|] == [s[0]] + s[1..][..|s[1..]| - |r|];
    }
  }

  /** `StripTrailing` removes a suffix of whitespace and stops at a non-space. */
  lemma {:induction false} StripTrailingIsPrefix(s: string)
    ensures |StripTrailing(s)| <= |s|
    ensures s[..|StripTrailing(s)|] == StripTrailing(s)
    ensures AllSpace(s[|StripTrailing(s)|..])
    ensures StripTrailing(s) == [] || !IsSpace(StripTrailing(s)[|StripTrailing(s)| - 1])
  {
    if s != [] && IsSpace(s[|s| - 1]) {
      var p := s[..|s| - 1];
      var r := StripTrailing(p);
      StripTrailingIsPrefix(p);
      assert s[..|r|] == p[..|r|];
      assert s[|r|..] == p[|r|..] + [s[|s| - 1]];
    }
  }

  lemma {:induction false} StripLeadingSpace(pre: string, s: string)
    requires AllSpace(pre)
    requires s == [] || !IsSpace(s[0])
    ensures StripLeading(pre + s) == s
  {
    if pre == [] {
      assert pre + s == s;
    } else {
      assert (pre + s)[1..] == pre[1..] + s;
      StripLeadingSpace(pre[1..], s);
    }
  }

  lemma {:induction false} StripTrailingSpace(s: string, post: string)
    requires AllSpace(post)
    requires s == [] || !IsSpace(s[|s| - 1])
    ensures StripTrailing(s + post) == s
  {
    if post == [] {
      assert s + post == s;
    } else {
      var q := post[..|post| - 1];
      assert (s + post)[..|s + post| - 1] == s + q;
      StripTrailingSpace(s, q);
    }
  }

  /**
    The text `int()` accepts: optional whitespace, an optional `+` or `-`, a
    numeral (leading zeros and single underscores allowed), optional whitespace.
  */
  ghost predicate IntLiteral(text: string, pre: string, sign: string, digits: string, post: string)
  {
    && AllSpace(pre) && AllSpace(post)
    && (sign == "" || sign == "+" || sign == "-")
    && IsNumeral(digits)
    && text == pre + sign + digits + post
  }

  function SignValue(sign: string): int
  {
    if sign == "-" then -1 else 1
  }

  /** `strip` removes whitespace padding around text that neither starts nor ends with a space. */
  lemma StripPadded(pre: string, core: string, post: string)
    requires AllSpace(pre) && AllSpace(post)
    requires core != [] && !IsSpace(core[0]) && !IsSpace(core[|core| - 1])
    ensures Strip(pre + core + post) == core
  {
    assert pre + core + post == pre + (core + post);
    StripLeadingSpace(pre, core + post);
    StripTrailingSpace(core, post);
  }

  /** `int()` on text whose stripped form is a sign followed by a numeral. */
  lemma ParseIntOfStripped(text: string, sign: string, digits: string)
    requires sign == "" || sign == "+" || sign == "-"
    requires IsNumeral(digits)
    requires Strip(text) == sign + digits
    ensures ParseInt(text) == Some(SignValue(sign) * DigitsValue(DropUnderscores(digits)))
  {
    var t := sign + digits;
    if sign != "" {
      assert t[0] == sign[0] && t[1..] == digits;
    } else {
      assert t == digits && IsDigit(t[0]);
    }
  }

  /** `int()` reads every literal of that form as its signed numeral. */
  lemma ParseIntOfLiteral(pre: string, sign: string, digits: string, post: string)
    requires IntLiteral(pre + sign + digits + post, pre, sign, digits, post)
    ensures ParseInt(pre + sign + digits + post) == Some(SignValue(sign) * DigitsValue(DropUnderscores(digits)))
  {
    var core := sign + digits;
    assert digits[|digits| - 1] != '_';
    assert core[0] == (if sign == "" then digits[0] else sign[0]);
    assert core[|core| - 1] == digits[|digits| - 1];
    assert pre + sign + digits + post == pre + core + post;
    StripPadded(pre, core, post);
    ParseIntOfStripped(pre + sign + digits + post, sign, digits);
  }

  /** Any text is its stripped form padded with whitespace on both sides. */
  lemma StripPadding(text: string) returns (pre: string, post: string)
    ensures AllSpace(pre) && AllSpace(post)
    ensures text == pre + Strip(text) + post
  {
    var lead := StripLeading(text);
    var t := StripTrailing(lead);
    StripLeadingIsSuffix(text);
    StripTrailingIsPrefix(lead);
    pre := text[..|text| - |lead|];
    post := lead[|t|..];
    assert text == pre + lead;
    assert lead == t + post;
  }

  /** Text `int()` reads splits into an optional sign and the part it reads as a numeral. */
  lemma SplitSign(t: string) returns (sign: string, digits: string)
    requires t != []
    ensures sign == "" || sign == "+" || sign == "-"
    ensures digits == if t[0] == '-' || t[0] == '+' then t[1..] else t
    ensures t == sign + digits
  {
    if t[0] == '-' || t[0] == '+' {
      sign, digits := [t[0]], t[1..];
      assert t == [t[0]] + t[1..];
    } else {
      sign, digits := "", t;
    }
  }

  /** Whatever `int()` accepts is a literal of that form around the stripped text. */
  lemma ParseIntIsLiteral(text: string) returns (pre: string, sign: string, digits: string, post: string)
    requires ParseInt(text).Some?
    ensures IntLiteral(text, pre, sign, digits, post)
    ensures Strip(text) == sign + digits
  {
    pre, post := StripPadding(text);
    sign, digits := SplitSign(Strip(text));
    assert ParseNumeral(digits).Some?;
    assert text == pre + sign + digits + post;
  }

  /** `int()` succeeds exactly on literals of that form, and reads them as their signed numeral. */
  lemma ParseIntLiteral(text: string)
    ensures ParseInt(text).Some? ==>
              exists pre, sign, digits, post :: IntLiteral(text, pre, sign, digits, post)
                && ParseInt(text).value == SignValue(sign) * DigitsValue(DropUnderscores(digits))
    ensures (exists pre, sign, digits, post :: IntLiteral(text, pre, sign, digits, post)) ==> ParseInt(text).Some?
  {
    if ParseInt(text).Some? {
      var pre, sign, digits, post := ParseIntIsLiteral(text);
      ParseIntOfStripped(text, sign, digits);
    }
    if exists pre, sign, digits, post :: IntLiteral(text, pre, sign, digits, post) {
      var pre, sign, digits, post :| IntLiteral(text, pre, sign, digits, post);
      ParseIntOfLiteral(pre, sign, digits, post);
    }
  }

  lemma NoSeparatorInIntToString(n: int, sep: char)
    requires sep != '-' && !IsDigit(sep)
    ensures sep !in IntToString(n)
  {
    var m: nat := if n < 0 then -n else n;
    NatToStringRoundTrip(m);
  }
}
