/**
 * The .NET string operations the membership code applies to names and
 * addresses: `char.IsWhiteSpace`, `string.IsNullOrWhiteSpace` and
 * `string.Trim()`.
 */
module Text {
  import opened Runtime

  /** `char.IsWhiteSpace`: the Unicode space, line and paragraph separators
      and the control characters U+0009 to U+000D and U+0085. */
  predicate IsWhiteSpace(c: char) {
    || ('\U{0009}' <= c <= '\U{000D}')
    || c == ' ' || c == '\U{0085}' || c == '\U{00A0}' || c == '\U{1680}'
    || ('\U{2000}' <= c <= '\U{200A}')
    || c == '\U{2028}' || c == '\U{2029}' || c == '\U{202F}' || c == '\U{205F}' || c == '\U{3000}'
  }

  predicate AllWhiteSpace(s: string) {
    forall i :: 0 <= i < |s| ==> IsWhiteSpace(s[i])
  }

  /** `string.IsNullOrWhiteSpace`. */
  predicate IsNullOrWhiteSpace(s: Option<string>) {
    s.None? || AllWhiteSpace(s.value)
  }

  /** How many white-space characters `s` starts with. */
  function LeadingBlanks(s: string): (n: nat)
    ensures n <= |s|
    ensures forall i :: 0 <= i < n ==> IsWhiteSpace(s[i])
    ensures n < |s| ==> !IsWhiteSpace(s[n])
  {
    if |s| > 0 && IsWhiteSpace(s[0]) then 1 + LeadingBlanks(s[1..]) else 0
  }

  /** How many white-space characters `s` ends with. */
  function TrailingBlanks(s: string): (n: nat)
    ensures n <= |s|
    ensures forall i :: |s| - n <= i < |s| ==> IsWhiteSpace(s[i])
    ensures n < |s| ==> !IsWhiteSpace(s[|s| - n - 1])
  {
    if |s| > 0 && IsWhiteSpace(s[|s| - 1]) then 1 + TrailingBlanks(s[..|s| - 1]) else 0
  }

  /** `TrimStart()`: `s` without its leading white space. */
  function TrimStart(s: string): string {
    s[LeadingBlanks(s)..]
  }

  /** `TrimEnd()`: `s` without its trailing white space. */
  function TrimEnd(s: string): string {
    s[..|s| - TrailingBlanks(s)]
  }

  /** `Trim()`: `s` without its leading and trailing white space. */
  function Trim(s: string): (r: string)
    ensures r != [] ==> !IsWhiteSpace(r[0]) && !IsWhiteSpace(r[|r| - 1])
    ensures |r| <= |s|
  {
    TrimEnd(TrimStart(s))
  }

  /** `Trim()` leaves nothing exactly when the string is all white space. */
  lemma {:induction false} TrimEmptyIffBlank(s: string)
    ensures Trim(s) == [] <==> AllWhiteSpace(s)
  {
    var n := LeadingBlanks(s);
    if n == |s| {
      assert TrimStart(s) == [];
    } else {
      assert TrimStart(s)[0] == s[n];
      assert TrailingBlanks(TrimStart(s)) < |TrimStart(s)|;
    }
  }

  /** `Trim()` keeps the characters of `s` from the first to the last that is
      not white space, in place, and drops only white space around them. */
  lemma {:induction false} TrimIsInfix(s: string)
    ensures var i := LeadingBlanks(s);
      && i + |Trim(s)| <= |s| && Trim(s) == s[i..i + |Trim(s)|]
      && (forall j :: 0 <= j < i ==> IsWhiteSpace(s[j]))
      && (forall j :: i + |Trim(s)| <= j < |s| ==> IsWhiteSpace(s[j]))
  {
    var i := LeadingBlanks(s);
    var t := s[i..];
    var e := i + |Trim(s)|;
    assert Trim(s) == s[i..e];
    forall j | e <= j < |s| ensures IsWhiteSpace(s[j]) {
      assert s[j] == t[j - i];
    }
  }

  /** Trimming twice is trimming once. */
  lemma {:induction false} TrimIdempotent(s: string)
    ensures Trim(Trim(s)) == Trim(s)
  {
    var r := Trim(s);
    if r != [] {
      assert LeadingBlanks(r) == 0;
      assert TrimStart(r) == r;
      assert TrailingBlanks(r) == 0;
    }
  }
}
