/**
  The .NET string and char primitives the core relies on, over `seq<char>`.
  Case folding is ASCII only: `ToLowerInvariant`, `ToLower` and the
  `OrdinalIgnoreCase` comparisons all agree with it on ASCII text.
 */
module Text {
  import opened Wrappers

  /** `char.IsWhiteSpace`: the Unicode space, line and paragraph separators,
      U+0009..U+000D and U+0085. */
  predicate IsWhiteSpace(c: char) {
    || c == ' '
    || ('\t' <= c <= '\r')
    || c == '\U{0085}'
    || c == '\U{00A0}'
    || c == '\U{1680}'
    || ('\U{2000}' <= c <= '\U{200A}')
    || c == '\U{2028}'
    || c == '\U{2029}'
    || c == '\U{202F}'
    || c == '\U{205F}'
    || c == '\U{3000}'
  }

  /** Every character is white space (true of the empty string). */
  predicate IsBlank(s: string) {
    forall i :: 0 <= i < |s| ==> IsWhiteSpace(s[i])
  }

  /** `string.IsNullOrWhiteSpace`. */
  predicate IsNullOrWhiteSpace(s: Option<string>) {
    s.None? || IsBlank(s.value)
  }

  /** `string.TrimStart()`: drops the longest white-space prefix. */
  function TrimStart(s: string): (r: string)
    ensures |r| <= |s| && r == s[|s| - |r|..]
    ensures IsBlank(s[..|s| - |r|])
    ensures r == [] || !IsWhiteSpace(r[0])
  {
    if |s| > 0 && IsWhiteSpace(s[0]) then
      var r := TrimStart(s[1..]);
      TrimStartStep(s, r);
      r
    else s
  }

  /** A white-space character in front of a trimmed tail is trimmed too. */
  lemma TrimStartStep(s: string, r: string)
    requires |s| > 0 && IsWhiteSpace(s[0])
    requires |r| <= |s[1..]| && r == s[1..][|s[1..]| - |r|..] && IsBlank(s[1..][..|s[1..]| - |r|])
    ensures |r| <= |s| && r == s[|s| - |r|..] && IsBlank(s[..|s| - |r|])
  {
    assert s[..|s| - |r|] == [s[0]] + s[1..][..|s| - 1 - |r|];
    assert s[|s| - |r|..] == s[1..][|s| - 1 - |r|..];
  }

  /** `string.TrimEnd()`: drops the longest white-space suffix. */
  function TrimEnd(s: string): (r: string)
    ensures |r| <= |s| && r == s[..|r|]
    ensures IsBlank(s[|r|..])
    ensures r == [] || !IsWhiteSpace(r[|r| - 1])
  {
    if |s| > 0 && IsWhiteSpace(s[|s| - 1]) then
      var r := TrimEnd(s[..|s| - 1]);
      TrimEndStep(s, r);
      r
    else s
  }

  /** A white-space character after a trimmed head is trimmed too. */
  lemma TrimEndStep(s: string, r: string)
    requires |s| > 0 && IsWhiteSpace(s[|s| - 1])
    requires |r| <= |s[..|s| - 1]| && r == s[..|s| - 1][..|r|] && IsBlank(s[..|s| - 1][|r|..])
    ensures |r| <= |s| && r == s[..|r|] && IsBlank(s[|r|..])
  {
    assert s[|r|..] == s[..|s| - 1][|r|..] + [s[|s| - 1]];
  }

  /** `string.Trim()`. */
  function Trim(s: string): string {
    TrimEnd(TrimStart(s))
  }

  /** Trimming leaves nothing exactly when the string is blank. */
  lemma TrimEmptyIffBlank(s: string)
    ensures Trim(s) == [] <==> IsBlank(s)
  {
    var t := TrimStart(s);
    if Trim(s) == [] {
      assert s == s[..|s| - |t|] + t;
    }
  }

  /** A non-empty trimmed string stays non-blank once lower-cased. */
  lemma TrimmedLowerNotBlank(s: string)
    requires Trim(s) != []
    ensures !IsBlank(ToLower(Trim(s)))
  {
    var t := Trim(s);
    assert !IsWhiteSpace(ToLower(t)[|t| - 1]);
  }

  /** ASCII lower-casing of one character. */
  function ToLowerChar(c: char): char {
    if 'A' <= c <= 'Z' then (c as int + 32) as char else c
  }

  /** `ToLowerInvariant()` on ASCII text. */
  function ToLower(s: string): (r: string)
    ensures |r| == |s|
    ensures forall i :: 0 <= i < |s| ==> r[i] == ToLowerChar(s[i])
  {
    seq(|s|, i requires 0 <= i < |s| => ToLowerChar(s[i]))
  }

  /** Ordinal (exact) occurrence of `q` in `text` at offset `i`. */
  predicate OccursAt(text: string, q: string, i: nat) {
    i + |q| <= |text| && text[i..i + |q|] == q
  }

  /** `string.Contains(q)` with ordinal comparison. */
  predicate Contains(text: string, q: string) {
    exists i :: 0 <= i <= |text| && OccursAt(text, q, i)
  }

  /** `StringComparison.OrdinalIgnoreCase` equality. */
  predicate EqualsIgnoreCase(a: string, b: string) {
    |a| == |b| && forall i :: 0 <= i < |a| ==> ToLowerChar(a[i]) == ToLowerChar(b[i])
  }

  /** Characters `k..` of `q` agree, ignoring case, with those of `text`
      from `i + k` on. */
  predicate MatchesFrom(text: string, q: string, i: nat, k: nat)
    requires i + |q| <= |text| && k <= |q|
    decreases |q| - k
  {
    k == |q| || (ToLowerChar(text[i + k]) == ToLowerChar(q[k]) && MatchesFrom(text, q, i, k + 1))
  }

  /** Case-insensitive occurrence of `q` in `text` at offset `i`. */
  predicate MatchesAt(text: string, q: string, i: nat) {
    i + |q| <= |text| && MatchesFrom(text, q, i, 0)
  }

  lemma {:induction false} MatchesFromPointwise(text: string, q: string, i: nat, k: nat)
    requires i + |q| <= |text| && k <= |q|
    ensures MatchesFrom(text, q, i, k)
        <==> forall m :: k <= m < |q| ==> ToLowerChar(text[i + m]) == ToLowerChar(q[m])
    decreases |q| - k
  {
    if k < |q| {
      MatchesFromPointwise(text, q, i, k + 1);
    }
  }

  /** An occurrence is a slice of the text equal to the query up to case. */
  lemma MatchesAtSlice(text: string, q: string, i: nat)
    requires i + |q| <= |text|
    ensures MatchesAt(text, q, i) <==> EqualsIgnoreCase(text[i..i + |q|], q)
  {
    MatchesFromPointwise(text, q, i, 0);
    var a := text[i..i + |q|];
    assert forall m :: 0 <= m < |q| ==> a[m] == text[i + m];
  }

  /** `text.Contains(q, StringComparison.OrdinalIgnoreCase)`. */
  predicate ContainsIgnoreCase(text: string, q: string) {
    exists i :: 0 <= i <= |text| && MatchesAt(text, q, i)
  }

  /** `text.StartsWith(p, StringComparison.OrdinalIgnoreCase)`. */
  predicate StartsWithIgnoreCase(text: string, p: string) {
    MatchesAt(text, p, 0)
  }

  /** `text.IndexOf(q, from, StringComparison.OrdinalIgnoreCase)`, with
      `None` for -1. .NET throws when `from` is past the end, hence the
      precondition. */
  function IndexOfIgnoreCase(text: string, q: string, from: nat): (r: Option<nat>)
    requires from <= |text|
    decreases |text| - from
    ensures r.Some? ==> from <= r.value && r.value + |q| <= |text|
  {
    if from + |q| > |text| then None
    else if MatchesAt(text, q, from) then Some(from)
    else IndexOfIgnoreCase(text, q, from + 1)
  }

  /** The index found is the first match at or after `from`; -1 means
      there is none. */
  lemma {:induction false} IndexOfFinds(text: string, q: string, from: nat)
    requires from <= |text|
    ensures var r := IndexOfIgnoreCase(text, q, from);
      && (r.Some? ==> MatchesAt(text, q, r.value))
      && (r.Some? ==> forall j :: from <= j < r.value ==> !MatchesAt(text, q, j))
      && (r.None? ==> forall j :: from <= j ==> !MatchesAt(text, q, j))
    decreases |text| - from
  {
    if from + |q| <= |text| && !MatchesAt(text, q, from) {
      IndexOfFinds(text, q, from + 1);
    }
  }

  /** Lower-casing both sides and comparing ordinally (what the filter view
      does) is the same as comparing case-insensitively (what the console
      domain filter does). */
  lemma ContainsLowered(text: string, q: string)
    ensures Contains(ToLower(text), ToLower(q)) <==> ContainsIgnoreCase(text, q)
  {
    var lt, lq := ToLower(text), ToLower(q);
    forall i | 0 <= i <= |text|
      ensures OccursAt(lt, lq, i) <==> MatchesAt(text, q, i)
    {
      if i + |q| <= |text| {
        MatchesAtSlice(text, q, i);
        var a := text[i..i + |q|];
        assert lt[i..i + |q|] == ToLower(a);
        if OccursAt(lt, lq, i) {
          forall k | 0 <= k < |a| ensures ToLowerChar(a[k]) == ToLowerChar(q[k]) {
            assert lt[i..i + |q|][k] == lq[k];
          }
        }
      }
    }
    if Contains(lt, lq) {
      var i :| 0 <= i <= |lt| && OccursAt(lt, lq, i);
      assert MatchesAt(text, q, i);
    }
    if ContainsIgnoreCase(text, q) {
      var i :| 0 <= i <= |text| && MatchesAt(text, q, i);
      assert OccursAt(lt, lq, i);
    }
  }

  /** A decimal digit as a character. */
  function DigitChar(d: nat): char
    requires d < 10
  {
    ('0' as int + d) as char
  }

  /** The value of a decimal digit character. */
  function DigitValue(c: char): nat
    requires '0' <= c <= '9'
  {
    c as int - '0' as int
  }

  predicate AllDigits(s: string) {
    forall i :: 0 <= i < |s| ==> '0' <= s[i] <= '9'
  }

  /** `n.ToString()` for a non-negative integer. */
  function NatToString(n: nat): (r: string)
    decreases n
    ensures |r| >= 1 && AllDigits(r)
  {
    if n < 10 then [DigitChar(n)] else NatToString(n / 10) + [DigitChar(n % 10)]
  }

  /** `int.ToString()` with the invariant culture's minus sign. */
  function IntToString(n: int): (r: string)
    ensures |r| >= 1
    ensures n >= 0 ==> AllDigits(r)
    ensures n < 0 ==> r[0] == '-' && AllDigits(r[1..])
  {
    if n < 0 then "-" + NatToString(-n) else NatToString(n)
  }

  /** The value of a string of decimal digits. */
  function DecimalValue(s: string): nat
    requires AllDigits(s)
  {
    if |s| == 0 then 0 else DecimalValue(s[..|s| - 1]) * 10 + DigitValue(s[|s| - 1])
  }

  /** Reading back the decimal rendering gives the number again. */
  lemma {:induction false} NatToStringRoundTrip(n: nat)
    ensures DecimalValue(NatToString(n)) == n
    decreases n
  {
    if n >= 10 {
      NatToStringRoundTrip(n / 10);
      var s := NatToString(n);
      assert s[..|s| - 1] == NatToString(n / 10);
    }
  }

  /** A rendering starts with '-' exactly for negative numbers. */
  lemma IntToStringSign(n: int)
    ensures IntToString(n)[0] == '-' <==> n < 0
  {
    if n >= 0 {
      var r := NatToString(n);
      assert '0' <= r[0] <= '9';
    }
  }

  /** Distinct integers render as distinct strings. */
  lemma IntToStringInjective(m: int, n: int)
    requires IntToString(m) == IntToString(n)
    ensures m == n
  {
    IntToStringSign(m);
    IntToStringSign(n);
    var a, b := NatToString(if m < 0 then -m else m), NatToString(if n < 0 then -n else n);
    if m < 0 {
      assert IntToString(m) == "-" + a && IntToString(n) == "-" + b;
      assert a == ("-" + a)[1..];
      assert b == ("-" + b)[1..];
    }
    assert a == b;
    NatToStringRoundTrip(if m < 0 then -m else m);
    NatToStringRoundTrip(if n < 0 then -n else n);
  }
}
