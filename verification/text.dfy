/** Python string behaviour that the core relies on: `str.isspace`,
    `str.strip`, `re.sub(r"\s+", "", ...)`, `str.lower`, the `in` substring
    test, `int(...)` and `str(n)` on decimal text, and the code-point order
    used when strings are sorted. */
module Text {
  import opened Wrappers

  // ---------------------------------------------------------------------
  // Whitespace

  /** The characters for which Python's `str.isspace()` holds; `str.strip()`
      and the regular expression class `\s` both use this set. */
  predicate IsSpace(c: char) {
    var n := c as int;
    (9 <= n <= 13) || (28 <= n <= 32) || n == 133 || n == 160 || n == 5760
    || (8192 <= n <= 8202) || n == 8232 || n == 8233 || n == 8239 || n == 8287
    || n == 12288
  }

  predicate NoSpaces(s: string) {
    forall i :: 0 <= i < |s| ==> !IsSpace(s[i])
  }

  predicate AllSpaces(s: string) {
    forall i :: 0 <= i < |s| ==> IsSpace(s[i])
  }

  function TrimLeft(s: string): (r: string)
    ensures |r| <= |s| && r == s[|s| - |r|..]
    ensures r == [] || !IsSpace(r[0])
  {
    if |s| > 0 && IsSpace(s[0]) then TrimLeft(s[1..]) else s
  }

  function TrimRight(s: string): (r: string)
    ensures |r| <= |s| && r == s[..|r|]
    ensures r == [] || !IsSpace(r[|r| - 1])
  {
    if |s| > 0 && IsSpace(s[|s| - 1]) then TrimRight(s[..|s| - 1]) else s
  }

  /** Python's `s.strip()`: leading and trailing whitespace removed. */
  function Strip(s: string): string {
    TrimRight(TrimLeft(s))
  }

  /** `re.sub(r"\s+", "", s)`: every whitespace character removed. */
  function RemoveSpaces(s: string): (r: string)
    ensures NoSpaces(r) && |r| <= |s|
  {
    if s == [] then []
    else (if IsSpace(s[0]) then [] else [s[0]]) + RemoveSpaces(s[1..])
  }

  lemma {:induction false} RemoveSpacesConcat(a: string, b: string)
    ensures RemoveSpaces(a + b) == RemoveSpaces(a) + RemoveSpaces(b)
  {
    if a == [] {
      assert a + b == b;
    } else {
      assert (a + b)[1..] == a[1..] + b;
      RemoveSpacesConcat(a[1..], b);
    }
  }

  lemma {:induction false} RemoveSpacesOfNoSpaces(s: string)
    requires NoSpaces(s)
    ensures RemoveSpaces(s) == s
  {
    if s != [] {
      RemoveSpacesOfNoSpaces(s[1..]);
    }
  }

  lemma {:induction false} RemoveSpacesOfSpaces(s: string)
    requires AllSpaces(s)
    ensures RemoveSpaces(s) == []
  {
    if s != [] {
      RemoveSpacesOfSpaces(s[1..]);
    }
  }

  lemma StripOfNoSpaces(s: string)
    requires NoSpaces(s)
    ensures Strip(s) == s
  {
  }

  lemma {:induction false} RemoveSpacesOfTrimLeft(s: string)
    ensures RemoveSpaces(TrimLeft(s)) == RemoveSpaces(s)
  {
    if |s| > 0 && IsSpace(s[0]) {
      RemoveSpacesOfTrimLeft(s[1..]);
    }
  }

  lemma {:induction false} RemoveSpacesOfTrimRight(s: string)
    ensures RemoveSpaces(TrimRight(s)) == RemoveSpaces(s)
    decreases |s|
  {
    if |s| > 0 && IsSpace(s[|s| - 1]) {
      var init := s[..|s| - 1];
      assert s == init + [s[|s| - 1]];
      RemoveSpacesConcat(init, [s[|s| - 1]]);
      RemoveSpacesOfTrimRight(init);
    }
  }

  /** Stripping first removes no character that `RemoveSpaces` keeps. */
  lemma RemoveSpacesOfStrip(s: string)
    ensures RemoveSpaces(Strip(s)) == RemoveSpaces(s)
  {
    RemoveSpacesOfTrimLeft(s);
    RemoveSpacesOfTrimRight(TrimLeft(s));
  }

  lemma KeepsEnds(t: string)
    requires |t| >= 2 && !IsSpace(t[0]) && !IsSpace(t[|t| - 1])
    ensures |RemoveSpaces(t)| >= 2
  {
    var init, last := t[..|t| - 1], t[|t| - 1..];
    assert t == init + last;
    RemoveSpacesConcat(init, last);
    assert init[0] == t[0];
    assert |RemoveSpaces(init)| >= 1;
    assert RemoveSpaces(last) == last;
  }

  /** A stripped string of two or more characters starts and ends with a
      character `RemoveSpaces` keeps, so at least two characters remain. */
  lemma StripLongKeepsTwo(s: string)
    requires |Strip(s)| >= 2
    ensures |RemoveSpaces(s)| >= 2
  {
    var l := TrimLeft(s);
    var st := TrimRight(l);
    assert st == l[..|st|];
    assert st[0] == l[0];
    KeepsEnds(st);
    RemoveSpacesOfStrip(s);
  }

  // ---------------------------------------------------------------------
  // Case

  /** `str.lower()` on one character, for the ASCII letters A to Z. */
  function LowerChar(c: char): char {
    if 'A' <= c <= 'Z' then (c as int + 32) as char else c
  }

  function ToLower(s: string): (r: string)
    ensures |r| == |s|
  {
    seq(|s|, i requires 0 <= i < |s| => LowerChar(s[i]))
  }

  // ---------------------------------------------------------------------
  // Substrings

  /** Python's `kw in text` for strings. */
  predicate Contains(text: string, kw: string)
    decreases |text|
  {
    |kw| <= |text| && (text[..|kw|] == kw || (|text| > 0 && Contains(text[1..], kw)))
  }

  lemma {:induction false} ContainsAt(text: string, kw: string, i: nat)
    requires i + |kw| <= |text| && text[i..i + |kw|] == kw
    ensures Contains(text, kw)
    decreases i
  {
    if i > 0 {
      assert text[1..][i - 1..i - 1 + |kw|] == text[i..i + |kw|];
      ContainsAt(text[1..], kw, i - 1);
    }
  }

  /** Every character of a contained keyword occurs in the text. */
  lemma {:induction false} ContainsChars(text: string, kw: string)
    requires Contains(text, kw)
    ensures forall j :: 0 <= j < |kw| ==> kw[j] in text
    decreases |text|
  {
    if text[..|kw|] != kw {
      ContainsChars(text[1..], kw);
    } else {
      forall j | 0 <= j < |kw| ensures kw[j] in text {
        assert text[j] == kw[j];
      }
    }
  }

  // ---------------------------------------------------------------------
  // Decimal integers

  predicate IsDigit(c: char) {
    '0' <= c <= '9'
  }

  predicate AllDigits(s: string) {
    forall i :: 0 <= i < |s| ==> IsDigit(s[i])
  }

  function DigitValue(c: char): nat
    requires IsDigit(c)
  {
    c as int - '0' as int
  }

  function DigitChar(d: nat): (c: char)
    requires d < 10
    ensures IsDigit(c) && DigitValue(c) == d
  {
    ('0' as int + d) as char
  }

  /** The value of a run of ASCII decimal digits (leading zeros allowed). */
  function DigitsValue(s: string): nat
    requires AllDigits(s)
  {
    if s == [] then 0 else DigitsValue(s[..|s| - 1]) * 10 + DigitValue(s[|s| - 1])
  }

  /** Python's `int(s)` on a string without whitespace: an optional sign
      followed by one or more digits; anything else raises `ValueError`,
      modelled as `None`. The text is accepted exactly when it is non-empty,
      every character after the first is a digit, and the first is a digit
      or a sign followed by at least one digit; only a leading minus gives
      a negative value, and unsigned digits give their decimal value. */
  function ParseInt(s: string): (r: Option<int>)
    ensures r.Some? <==>
      && s != []
      && (IsDigit(s[0]) || (|s| > 1 && (s[0] == '+' || s[0] == '-')))
      && forall i :: 0 < i < |s| ==> IsDigit(s[i])
    ensures r.Some? && r.value < 0 ==> s[0] == '-'
    ensures r.Some? && IsDigit(s[0]) ==> r == Some(DigitsValue(s))
  {
    if |s| > 0 && (s[0] == '+' || s[0] == '-') then
      var digits := s[1..];
      if digits != [] && AllDigits(digits) then
        var magnitude: int := DigitsValue(digits);
        Some(if s[0] == '-' then -magnitude else magnitude)
      else None
    else if s != [] && AllDigits(s) then Some(DigitsValue(s))
    else None
  }

  /** Python's `str(n)` for a non-negative integer. */
  function NatToDecimal(n: nat): (r: string)
    ensures r != [] && AllDigits(r)
  {
    if n < 10 then [DigitChar(n)] else NatToDecimal(n / 10) + [DigitChar(n % 10)]
  }

  lemma {:induction false} DecimalValue(n: nat)
    ensures DigitsValue(NatToDecimal(n)) == n
  {
    if n >= 10 {
      var s := NatToDecimal(n);
      assert s[..|s| - 1] == NatToDecimal(n / 10);
      DecimalValue(n / 10);
    }
  }

  lemma DecimalHasNoSpacesOrSign(n: nat)
    ensures NoSpaces(NatToDecimal(n)) && '-' !in NatToDecimal(n)
  {
    var s := NatToDecimal(n);
    forall i | 0 <= i < |s| ensures !IsSpace(s[i]) && s[i] != '-' {
      assert IsDigit(s[i]);
    }
  }

  /** `int(str(n)) == n`. */
  lemma ParseIntOfDecimal(n: nat)
    ensures ParseInt(NatToDecimal(n)) == Some(n)
  {
    DecimalValue(n);
    var s := NatToDecimal(n);
    assert IsDigit(s[0]);
  }

  /** `int("-" + str(n)) == -n` and `int("+" + str(n)) == n`. */
  lemma ParseIntOfSigned(n: nat)
    ensures ParseInt("-" + NatToDecimal(n)) == Some(-(n as int))
    ensures ParseInt("+" + NatToDecimal(n)) == Some(n)
  {
    DecimalValue(n);
    assert ("-" + NatToDecimal(n))[1..] == NatToDecimal(n);
    assert ("+" + NatToDecimal(n))[1..] == NatToDecimal(n);
  }

  /** Texts `int()` refuses: the empty text, a bare sign, a sign inside
      the digits and a letter. */
  lemma ParseIntRejects()
    ensures ParseInt("") == None && ParseInt("-") == None && ParseInt("+") == None
    ensures ParseInt("1-2") == None && ParseInt("a") == None
  {
    assert !IsDigit("1-2"[1]);
  }

  // ---------------------------------------------------------------------
  // Order

  /** `a < b` for Python strings: code-point order, a proper prefix first. */
  predicate Below(a: string, b: string)
    decreases |a|
  {
    if a == [] then b != []
    else b != [] && (a[0] < b[0] || (a[0] == b[0] && Below(a[1..], b[1..])))
  }

  lemma {:induction false} BelowIrreflexive(a: string)
    ensures !Below(a, a)
    decreases |a|
  {
    if a != [] {
      BelowIrreflexive(a[1..]);
    }
  }

  lemma {:induction false} BelowTransitive(a: string, b: string, c: string)
    requires Below(a, b) && Below(b, c)
    ensures Below(a, c)
    decreases |a|
  {
    if a != [] && a[0] == b[0] && b[0] == c[0] {
      BelowTransitive(a[1..], b[1..], c[1..]);
    }
  }

  lemma {:induction false} BelowTotal(a: string, b: string)
    ensures a == b || Below(a, b) || Below(b, a)
    decreases |a|
  {
    if a != [] && b != [] && a[0] == b[0] {
      BelowTotal(a[1..], b[1..]);
      if a[1..] == b[1..] {
        assert a == [a[0]] + a[1..] && b == [b[0]] + b[1..];
      }
    }
  }

  lemma BelowAsymmetric(a: string, b: string)
    requires Below(a, b)
    ensures !Below(b, a)
  {
    if Below(b, a) {
      BelowTransitive(a, b, a);
      BelowIrreflexive(a);
    }
  }
}
