/**
 * The parts of Python's `str` and `int` behaviour that the triage loop relies on:
 * `lower()`, `strip()`, `split()[1]`, `startswith`, the `in` substring test and `int(s)`.
 */
module Text {
  import opened Wrappers

  /** `str.isspace()` for one character: the characters `strip()` and `split()` treat as whitespace. */
  predicate IsSpace(c: char) {
    c == ' ' || ('\t' <= c <= '\r') || ('\U{1C}' <= c <= '\U{1F}') || c == '\U{85}' || c == '\U{A0}'
    || c == '\U{1680}' || ('\U{2000}' <= c <= '\U{200A}') || c == '\U{2028}' || c == '\U{2029}'
    || c == '\U{202F}' || c == '\U{205F}' || c == '\U{3000}'
  }

  predicate IsBlank(s: string) {
    forall i :: 0 <= i < |s| ==> IsSpace(s[i])
  }

  /** No character of the string is whitespace. */
  predicate IsWord(s: string) {
    forall i :: 0 <= i < |s| ==> !IsSpace(s[i])
  }

  /** `lower()` for one character: ASCII and Latin-1 capitals map to their small letters. */
  function LowerChar(c: char): char {
    if 'A' <= c <= 'Z' || ('\U{C0}' <= c <= '\U{DE}' && c != '\U{D7}') then (c as int + 32) as char else c
  }

  function ToLower(s: string): string {
    seq(|s|, i requires 0 <= i < |s| => LowerChar(s[i]))
  }

  predicate IsLower(s: string) {
    forall i :: 0 <= i < |s| ==> LowerChar(s[i]) == s[i]
  }

  /** `lower()` yields a lower-case string of the same length, and leaves a lower-case string alone. */
  lemma ToLowerIsLower(s: string)
    ensures IsLower(ToLower(s)) && |ToLower(s)| == |s|
    ensures IsLower(s) ==> ToLower(s) == s
  {
  }

  lemma ToLowerAppend(a: string, b: string)
    ensures ToLower(a + b) == ToLower(a) + ToLower(b)
  {
  }

  /** The string without its leading whitespace (`lstrip()`). */
  function TrimStart(s: string): string {
    if s != [] && IsSpace(s[0]) then TrimStart(s[1..]) else s
  }

  /** `lstrip()` removes a blank prefix and nothing more: the result is the rest, starting with a non-space. */
  lemma {:induction false} TrimStartFacts(s: string)
    ensures |TrimStart(s)| <= |s| && TrimStart(s) == s[|s| - |TrimStart(s)|..]
    ensures IsBlank(s[..|s| - |TrimStart(s)|])
    ensures TrimStart(s) == [] || !IsSpace(TrimStart(s)[0])
  {
    if s != [] && IsSpace(s[0]) {
      TrimStartFacts(s[1..]);
      var k := |s| - |TrimStart(s)|;
      assert forall i :: 1 <= i < k ==> s[..k][i] == s[1..][..k - 1][i - 1];
    }
  }

  /** The string without its trailing whitespace (`rstrip()`). */
  function TrimEnd(s: string): string {
    if s != [] && IsSpace(s[|s| - 1]) then TrimEnd(s[..|s| - 1]) else s
  }

  /** `rstrip()` removes a blank suffix and nothing more: the result is the rest, ending with a non-space. */
  lemma {:induction false} TrimEndFacts(s: string)
    ensures |TrimEnd(s)| <= |s| && TrimEnd(s) == s[..|TrimEnd(s)|]
    ensures IsBlank(s[|TrimEnd(s)|..])
    ensures TrimEnd(s) == [] || !IsSpace(TrimEnd(s)[|TrimEnd(s)| - 1])
  {
    if s != [] && IsSpace(s[|s| - 1]) {
      TrimEndFacts(s[..|s| - 1]);
      var k := |TrimEnd(s)|;
      assert forall i :: k <= i < |s| - 1 ==> s[i] == s[..|s| - 1][i];
    }
  }

  /** `strip()`. */
  function Strip(s: string): string {
    TrimEnd(TrimStart(s))
  }

  /** `strip()` yields the empty string exactly for all-whitespace input, and is otherwise framed by non-space characters. */
  lemma StripEmptyIffBlank(s: string)
    ensures Strip(s) == [] <==> IsBlank(s)
    ensures Strip(s) != [] ==> !IsSpace(Strip(s)[0]) && !IsSpace(Strip(s)[|Strip(s)| - 1])
  {
    var t := TrimStart(s);
    TrimStartFacts(s);
    TrimEndFacts(t);
    var k := |s| - |t|;
    assert s == s[..k] + t;
    if Strip(s) == [] {
      assert t[|TrimEnd(t)|..] == t;
      assert t == [];
      forall i | 0 <= i < |s| ensures IsSpace(s[i]) {
        assert s[i] == s[..k][i];
      }
    }
    if IsBlank(s) {
      assert t == [];
    }
    if Strip(s) != [] {
      assert Strip(s)[0] == t[0];
    }
  }

  /** Stripping a string that has no surrounding whitespace returns it unchanged. */
  lemma StripUnchanged(s: string)
    requires s == [] || (!IsSpace(s[0]) && !IsSpace(s[|s| - 1]))
    ensures Strip(s) == s
  {
  }

  lemma StripIdempotent(s: string)
    ensures Strip(Strip(s)) == Strip(s)
  {
    StripEmptyIffBlank(s);
    StripUnchanged(Strip(s));
  }

  /** Stripping keeps a lower-case string lower-case: the result is a slice of it. */
  lemma StripKeepsLower(s: string)
    requires IsLower(s)
    ensures IsLower(Strip(s))
  {
    var t := TrimStart(s);
    TrimStartFacts(s);
    assert forall i :: 0 <= i < |t| ==> t[i] == s[|s| - |t| + i];
    var r := TrimEnd(t);
    TrimEndFacts(t);
    assert forall i :: 0 <= i < |r| ==> r[i] == t[i];
  }

  /** Leading whitespace before a part that starts with a non-space is exactly what `lstrip()` removes. */
  lemma {:induction false} TrimStartBlankPrefix(a: string, x: string)
    requires IsBlank(a) && (x == [] || !IsSpace(x[0]))
    ensures TrimStart(a + x) == x
  {
    if a != [] {
      assert (a + x)[1..] == a[1..] + x;
      TrimStartBlankPrefix(a[1..], x);
    } else {
      assert a + x == x;
    }
  }

  /** Trailing whitespace after a part that ends with a non-space is exactly what `rstrip()` removes. */
  lemma {:induction false} TrimEndBlankSuffix(x: string, b: string)
    requires IsBlank(b) && (x == [] || !IsSpace(x[|x| - 1]))
    ensures TrimEnd(x + b) == x
  {
    if b != [] {
      assert (x + b)[..|x + b| - 1] == x + b[..|b| - 1];
      TrimEndBlankSuffix(x, b[..|b| - 1]);
    } else {
      assert x + b == x;
    }
  }

  /** `strip()` of a text framed by non-spaces and padded with whitespace is that text. */
  lemma StripFramed(a: string, t: string, b: string)
    requires IsBlank(a) && IsBlank(b)
    requires t != [] && !IsSpace(t[0]) && !IsSpace(t[|t| - 1])
    ensures Strip(a + t + b) == t
  {
    assert a + t + b == a + (t + b);
    TrimStartBlankPrefix(a, t + b);
    TrimEndBlankSuffix(t, b);
  }

  /** Every string is its stripped text padded with whitespace on both sides. */
  lemma StripSplit(s: string) returns (a: string, b: string)
    ensures IsBlank(a) && IsBlank(b) && s == a + Strip(s) + b
  {
    var t := TrimStart(s);
    TrimStartFacts(s);
    TrimEndFacts(t);
    a := s[..|s| - |t|];
    b := t[|TrimEnd(t)|..];
    assert t == TrimEnd(t) + b;
    assert s == a + t;
  }

  /** `lower()` maps whitespace to whitespace and nothing else to whitespace. */
  lemma ToLowerBlank(s: string)
    ensures forall i :: 0 <= i < |s| ==> (IsSpace(ToLower(s)[i]) <==> IsSpace(s[i]))
    ensures IsBlank(ToLower(s)) <==> IsBlank(s)
  {
  }

  function StartsWith(s: string, prefix: string): bool {
    |prefix| <= |s| && s[..|prefix|] == prefix
  }

  predicate OccursAt(haystack: string, needle: string, i: int) {
    0 <= i && i + |needle| <= |haystack| && haystack[i..i + |needle|] == needle
  }

  /** Python's `needle in haystack` for strings. */
  predicate Contains(haystack: string, needle: string) {
    exists i :: 0 <= i <= |haystack| && OccursAt(haystack, needle, i)
  }

  /** The longest prefix of `s` without whitespace. */
  function Word(s: string): (w: string)
    ensures |w| <= |s|
  {
    if s == [] || IsSpace(s[0]) then [] else [s[0]] + Word(s[1..])
  }

  /** `Word` takes the maximal whitespace-free prefix: what follows it, if anything, is a space. */
  lemma {:induction false} WordFacts(s: string)
    ensures |Word(s)| <= |s| && Word(s) == s[..|Word(s)|]
    ensures IsWord(Word(s))
    ensures |Word(s)| < |s| ==> IsSpace(s[|Word(s)|])
    ensures s != [] && !IsSpace(s[0]) ==> |Word(s)| > 0
  {
    if s != [] && !IsSpace(s[0]) {
      WordFacts(s[1..]);
    }
  }

  /** A string without whitespace is its own first word. */
  lemma {:induction false} WordWhole(w: string)
    requires IsWord(w)
    ensures Word(w) == w
  {
    if w != [] {
      WordWhole(w[1..]);
    }
  }

  /**
   * `split()[1]`: the second maximal run of non-whitespace characters, or `None`
   * where Python raises `IndexError` because there are fewer than two.
   */
  function SecondWord(s: string): Option<string> {
    var first := TrimStart(s);
    var rest := TrimStart(first[|Word(first)|..]);
    if first == [] || rest == [] then None else Some(Word(rest))
  }

  /** A string starting with a word has a second word exactly when something other than whitespace follows the first. */
  lemma SecondWordPresent(s: string)
    requires s != [] && !IsSpace(s[0])
    ensures SecondWord(s).Some? <==> !IsBlank(s[|Word(s)|..])
  {
    WordFacts(s);
    var rest := s[|Word(s)|..];
    var t := TrimStart(rest);
    TrimStartFacts(rest);
    assert rest == rest[..|rest| - |t|] + t;
    if t != [] {
      assert !IsSpace(rest[|rest| - |t|]);
    }
  }

  /** `<verb> <word>` has `<word>` as its second word. */
  lemma SecondWordOfVerb(verb: char, w: string)
    requires !IsSpace(verb) && w != [] && IsWord(w)
    ensures SecondWord([verb, ' '] + w) == Some(w)
  {
    var c := [verb, ' '] + w;
    var rest := [' '] + w;
    assert c[1..] == rest && rest[1..] == w;
    assert Word(c) == [verb] by {
      assert Word(rest) == [];
    }
    assert TrimStart(rest) == w;
    WordWhole(w);
  }

  // ---------------------------------------------------------------------------
  // int(s) for base 10

  predicate IsDigit(c: char) {
    '0' <= c <= '9'
  }

  /** The digits of `int()`'s base-10 grammar: digit (["_"] digit)*. */
  predicate DigitGroups(s: string)
    decreases |s|
  {
    |s| > 0 && IsDigit(s[0]) &&
    (|s| == 1 || (if s[1] == '_' then DigitGroups(s[2..]) else DigitGroups(s[1..])))
  }

  function WithoutUnderscores(s: string): (r: string) {
    if s == [] then [] else (if s[0] == '_' then [] else [s[0]]) + WithoutUnderscores(s[1..])
  }

  /** The value of a string of decimal digits, most significant first. */
  function DigitsValue(ds: string): nat
    requires forall i :: 0 <= i < |ds| ==> IsDigit(ds[i])
  {
    if ds == [] then 0 else
      assert IsDigit(ds[|ds| - 1]);
      DigitsValue(ds[..|ds| - 1]) * 10 + (ds[|ds| - 1] as int - '0' as int)
  }

  lemma {:induction false} WithoutUnderscoresDigits(s: string)
    requires forall i :: 0 <= i < |s| ==> IsDigit(s[i]) || s[i] == '_'
    ensures forall i :: 0 <= i < |WithoutUnderscores(s)| ==> IsDigit(WithoutUnderscores(s)[i])
  {
    if s != [] {
      WithoutUnderscoresDigits(s[1..]);
    }
  }

  lemma {:induction false} DigitGroupsChars(s: string)
    requires DigitGroups(s)
    ensures forall i :: 0 <= i < |s| ==> IsDigit(s[i]) || s[i] == '_'
    decreases |s|
  {
    if |s| > 1 {
      if s[1] == '_' {
        DigitGroupsChars(s[2..]);
        assert forall i :: 2 <= i < |s| ==> s[i] == s[2..][i - 2];
      } else {
        DigitGroupsChars(s[1..]);
        assert forall i :: 1 <= i < |s| ==> s[i] == s[1..][i - 1];
      }
    }
  }

  /**
   * The same grammar stated without recursion: digits and underscores only, a digit at
   * both ends, and never two underscores in a row.
   */
  predicate UnderscoredDigits(s: string) {
    |s| > 0 && IsDigit(s[0]) && IsDigit(s[|s| - 1])
    && (forall i :: 0 <= i < |s| ==> IsDigit(s[i]) || s[i] == '_')
    && (forall i :: 0 <= i < |s| - 1 ==> !(s[i] == '_' && s[i + 1] == '_'))
  }

  /** The recursive grammar and the flat one accept the same strings. */
  lemma {:induction false} DigitGroupsIff(s: string)
    ensures DigitGroups(s) <==> UnderscoredDigits(s)
    decreases |s|
  {
    if |s| > 1 && IsDigit(s[0]) {
      var k := if s[1] == '_' then 2 else 1;
      if k == 2 && |s| == 2 {
        assert !DigitGroups(s[2..]);
        assert !IsDigit(s[|s| - 1]);
      } else {
        var t := s[k..];
        DigitGroupsIff(t);
        assert DigitGroups(s) <==> DigitGroups(t);
        assert forall i :: 0 <= i < |t| ==> t[i] == s[i + k];
        if UnderscoredDigits(s) {
          assert s[k] != '_' by {
            if k == 2 { assert !(s[1] == '_' && s[2] == '_'); }
          }
          assert IsDigit(t[0]) && IsDigit(t[|t| - 1]);
          assert forall i :: 0 <= i < |t| ==> IsDigit(t[i]) || t[i] == '_' by {
            forall i | 0 <= i < |t| ensures IsDigit(t[i]) || t[i] == '_' {
              assert IsDigit(s[i + k]) || s[i + k] == '_';
            }
          }
          forall i | 0 <= i < |t| - 1 ensures !(t[i] == '_' && t[i + 1] == '_') {
            assert !(s[i + k] == '_' && s[i + k + 1] == '_');
          }
        }
        if UnderscoredDigits(t) {
          assert IsDigit(s[|s| - 1]) by { assert s[|s| - 1] == t[|t| - 1]; }
          forall i | 0 <= i < |s| ensures IsDigit(s[i]) || s[i] == '_' {
            if i >= k { assert s[i] == t[i - k]; }
          }
          forall i | 0 <= i < |s| - 1 ensures !(s[i] == '_' && s[i + 1] == '_') {
            if i >= k { assert s[i] == t[i - k] && s[i + 1] == t[i + 1 - k]; }
            else if i == k - 1 { assert s[i + 1] == t[0]; }
          }
        }
      }
    }
  }

  /**
   * CPython's default limit on the number of digits `int()` converts from a decimal
   * string; a longer string raises `ValueError`. Underscores and the sign do not count.
   */
  const MAX_STR_DIGITS := 4300

  lemma {:induction false} WithoutUnderscoresAppend(a: string, b: string)
    ensures WithoutUnderscores(a + b) == WithoutUnderscores(a) + WithoutUnderscores(b)
  {
    if a != [] {
      assert (a + b)[1..] == a[1..] + b;
      WithoutUnderscoresAppend(a[1..], b);
    } else {
      assert a + b == b;
    }
  }

  /** `int()` on unsigned digits: the grammar, the digit limit, and the value of the digits. */
  function ParseDigits(s: string): (r: Option<nat>)
    ensures r.Some? <==> UnderscoredDigits(s) && |WithoutUnderscores(s)| <= MAX_STR_DIGITS
  {
    DigitGroupsIff(s);
    if DigitGroups(s) && |WithoutUnderscores(s)| <= MAX_STR_DIGITS then
      DigitGroupsChars(s);
      WithoutUnderscoresDigits(s);
      Some(DigitsValue(WithoutUnderscores(s)))
    else None
  }

  /** Two digit groups joined by one underscore form a digit group. */
  lemma JoinUnderscored(a: string, b: string)
    requires UnderscoredDigits(a) && UnderscoredDigits(b)
    ensures UnderscoredDigits(a + "_" + b)
  {
    var u := a + "_" + b;
    assert forall i :: 0 <= i < |a| ==> u[i] == a[i];
    assert forall i :: 0 <= i < |b| ==> u[|a| + 1 + i] == b[i];
    forall i | 0 <= i < |u| - 1 ensures !(u[i] == '_' && u[i + 1] == '_') {
      if i < |a| - 1 {
      } else if i == |a| - 1 {
        assert u[i] == a[|a| - 1];
      } else if i == |a| {
        assert u[i + 1] == b[0];
      } else {
        assert u[i] == b[i - |a| - 1] && u[i + 1] == b[i - |a|];
      }
    }
  }

  /** Two digit groups written side by side form a digit group. */
  lemma JoinDirect(a: string, b: string)
    requires UnderscoredDigits(a) && UnderscoredDigits(b)
    ensures UnderscoredDigits(a + b)
  {
    var v := a + b;
    assert forall i :: 0 <= i < |a| ==> v[i] == a[i];
    assert forall i :: 0 <= i < |b| ==> v[|a| + i] == b[i];
    forall i | 0 <= i < |v| - 1 ensures !(v[i] == '_' && v[i + 1] == '_') {
      if i < |a| - 1 {
      } else if i == |a| - 1 {
        assert v[i] == a[|a| - 1];
      } else {
        assert v[i] == b[i - |a|] && v[i + 1] == b[i - |a| + 1];
      }
    }
  }

  /** An underscore between two digit groups changes neither whether `int()` accepts the text nor its value. */
  lemma ParseDigitsUnderscore(a: string, b: string)
    requires UnderscoredDigits(a) && UnderscoredDigits(b)
    ensures ParseDigits(a + "_" + b) == ParseDigits(a + b)
    ensures ParseDigits(a + "_" + b).Some? <==> |WithoutUnderscores(a)| + |WithoutUnderscores(b)| <= MAX_STR_DIGITS
  {
    var u, v := a + "_" + b, a + b;
    JoinUnderscored(a, b);
    JoinDirect(a, b);
    DigitGroupsIff(u);
    DigitGroupsIff(v);
    WithoutUnderscoresAppend(a + "_", b);
    WithoutUnderscoresAppend(a, "_");
    WithoutUnderscoresAppend(a, b);
    assert WithoutUnderscores("_") == [];
    assert WithoutUnderscores(u) == WithoutUnderscores(v);
  }

  /** `int("1_000")` is one thousand. */
  lemma ParseDigitsThousand()
    ensures ParseDigits("1_000") == Some(1000)
  {
    assert "1_000" == "1" + "_" + "000";
    ParseDigitsUnderscore("1", "000");
    assert "1" + "000" == "1000";
    ThousandValue();
  }

  lemma ThousandValue()
    ensures ParseDigits("1000") == Some(1000)
  {
    assert ShowNat(1) == "1";
    assert ShowNat(10) == ShowNat(1) + "0" == "10";
    assert ShowNat(100) == ShowNat(10) + "0" == "100";
    assert ShowNat(1000) == ShowNat(100) + "0" == "1000";
    ParseDigitsShowNat(1000);
  }

  /** A doubled or a leading underscore makes `int()` refuse the text. */
  lemma ParseDigitsRejects()
    ensures ParseDigits("1__0") == None && ParseDigits("_1") == None
  {
    assert !UnderscoredDigits("1__0") by {
      assert "1__0"[1] == '_' && "1__0"[2] == '_';
    }
    assert !UnderscoredDigits("_1") by {
      assert "_1"[0] == '_';
    }
  }

  /** `int(s)`: surrounding whitespace, an optional sign, then base-10 digit groups; `None` where Python raises `ValueError`. */
  function ParseInt(s: string): Option<int> {
    var t := Strip(s);
    if |t| > 0 && (t[0] == '-' || t[0] == '+') then
      match ParseDigits(t[1..])
      case None => None
      case Some(v) =>
        var n: int := if t[0] == '-' then 0 - v as int else v;
        Some(n)
    else
      match ParseDigits(t)
      case None => None
      case Some(v) => Some(v)
  }

  // ---------------------------------------------------------------------------
  // Decimal rendering, the partner of ParseInt

  function DigitChar(d: nat): char
    requires d < 10
  {
    ('0' as int + d) as char
  }

  function ShowNat(n: nat): (s: string)
    decreases n
  {
    if n < 10 then [DigitChar(n)] else ShowNat(n / 10) + [DigitChar(n % 10)]
  }

  /** The decimal text of an integer, as `str(n)` writes it. */
  function ShowInt(n: int): string {
    if n < 0 then "-" + ShowNat(-n) else ShowNat(n)
  }

  lemma {:induction false} ShowNatDigits(n: nat)
    ensures |ShowNat(n)| > 0
    ensures forall i :: 0 <= i < |ShowNat(n)| ==> IsDigit(ShowNat(n)[i])
    ensures DigitsValue(ShowNat(n)) == n
    decreases n
  {
    if n >= 10 {
      ShowNatDigits(n / 10);
      var s := ShowNat(n);
      assert s[..|s| - 1] == ShowNat(n / 10);
    }
  }

  lemma {:induction false} DigitsAreGroups(s: string)
    requires |s| > 0 && forall i :: 0 <= i < |s| ==> IsDigit(s[i])
    ensures DigitGroups(s) && WithoutUnderscores(s) == s
  {
    if |s| > 1 {
      DigitsAreGroups(s[1..]);
    }
  }

  lemma ParseDigitsShowNat(m: nat)
    ensures ParseDigits(ShowNat(m)) == if |ShowNat(m)| <= MAX_STR_DIGITS then Some(m) else None
  {
    ShowNatDigits(m);
    DigitsAreGroups(ShowNat(m));
  }

  /** The number of decimal digits of `n`, its sign left out. */
  function DecimalDigits(n: int): nat {
    |ShowNat(if n < 0 then -n else n)|
  }

  /** The decimal text of an integer has no surrounding whitespace. */
  lemma ShowIntStripped(n: int)
    ensures Strip(ShowInt(n)) == ShowInt(n)
  {
    ShowIntChars(n);
    var s := ShowInt(n);
    assert !IsSpace(s[0]) && !IsSpace(s[|s| - 1]);
    StripUnchanged(s);
  }

  /** `int(str(n)) == n` for every integer of at most `MAX_STR_DIGITS` digits; a longer one is refused. */
  lemma ParseShowInt(n: int)
    ensures ParseInt(ShowInt(n)) == if DecimalDigits(n) <= MAX_STR_DIGITS then Some(n) else None
  {
    var m: nat := if n < 0 then -n else n;
    ParseDigitsShowNat(m);
    ShowIntStripped(n);
    var s := ShowInt(n);
    if n < 0 {
      assert s[0] == '-' && s[1..] == ShowNat(m);
    } else {
      ShowNatDigits(m);
      assert s == ShowNat(m) && IsDigit(s[0]);
    }
  }

  /** The decimal text of an integer holds no whitespace, no letters, and is never empty. */
  lemma ShowIntChars(n: int)
    ensures |ShowInt(n)| > 0
    ensures forall i :: 0 <= i < |ShowInt(n)| ==> IsDigit(ShowInt(n)[i]) || ShowInt(n)[i] == '-'
  {
    ShowNatDigits(if n < 0 then -n else n);
  }
}
