/**
 * The JavaScript string primitives that the `messageCreate` handler of
 * index.js relies on: `trim`, the first field of `split(/ +/)`,
 * `toLowerCase`, `startsWith`, `slice`, `replace` with a one-character string
 * pattern, and the decimal text that a template literal gives an integer.
 * Characters are Unicode scalar values; case mapping and white space are
 * restricted to ASCII.
 */
module JsStrings {

  /** The characters `String.prototype.trim` removes, restricted to ASCII. */
  predicate IsTrimmable(c: char) {
    c == ' ' || c == '\t' || c == '\n' || c == '\r' || c == '\U{000B}' || c == '\U{000C}'
  }

  /** `s.startsWith(prefix)`. */
  predicate StartsWith(s: string, prefix: string) {
    prefix <= s
  }

  /** `s.slice(k)` for a non-negative `k`: empty once `k` passes the end. */
  function Slice(s: string, k: nat): (r: string)
    ensures k <= |s| ==> s == s[..k] + r
    ensures k >= |s| ==> r == []
  {
    if k <= |s| then s[k..] else []
  }

  /** `s` without its leading white space: a suffix of `s` that starts with no white space. */
  function TrimStart(s: string): (r: string)
    ensures |r| <= |s| && r == s[|s| - |r|..]
    ensures forall i :: 0 <= i < |s| - |r| ==> IsTrimmable(s[i])
    ensures r == [] || !IsTrimmable(r[0])
  {
    if s != [] && IsTrimmable(s[0]) then TrimStart(s[1..]) else s
  }

  /** `s` without its trailing white space: a prefix of `s` that ends with no white space. */
  function TrimEnd(s: string): (r: string)
    ensures |r| <= |s| && r == s[..|r|]
    ensures forall i :: |r| <= i < |s| ==> IsTrimmable(s[i])
    ensures r == [] || !IsTrimmable(r[|r| - 1])
  {
    if s != [] && IsTrimmable(s[|s| - 1]) then TrimEnd(s[..|s| - 1]) else s
  }

  predicate AllTrimmable(s: string) {
    forall i :: 0 <= i < |s| ==> IsTrimmable(s[i])
  }

  /** `r` is the part of `s` that starts at `i`, with only white space before and after it. */
  predicate IsWhiteSpaceFramed(s: string, i: nat, r: string) {
    i + |r| <= |s| && r == s[i..i + |r|] && AllTrimmable(s[..i]) && AllTrimmable(s[i + |r|..])
  }

  /** The leading white space `TrimStart` drops, as a slice. */
  lemma TrimStartDropsWhiteSpace(s: string)
    ensures AllTrimmable(s[..|s| - |TrimStart(s)|])
  {
    var i := |s| - |TrimStart(s)|;
    assert forall j :: 0 <= j < i ==> s[..i][j] == s[j];
  }

  /** The trailing white space `TrimEnd` drops, as a slice. */
  lemma TrimEndDropsWhiteSpace(u: string)
    ensures AllTrimmable(u[|TrimEnd(u)|..])
  {
    var n := |TrimEnd(u)|;
    assert forall j :: 0 <= j < |u| - n ==> u[n..][j] == u[n + j];
  }

  /** A white-space-framed suffix of `s` whose prefix is framed by white space is framed in `s`. */
  lemma FramedInSuffix(s: string, i: nat, u: string, r: string)
    requires i <= |s| && u == s[i..] && AllTrimmable(s[..i])
    requires |r| <= |u| && r == u[..|r|] && AllTrimmable(u[|r|..])
    ensures IsWhiteSpaceFramed(s, i, r)
  {
    assert s[i..i + |r|] == u[..|r|];
    assert s[i + |r|..] == u[|r|..];
  }

  /** Trimming the front and then the back leaves the middle of `s`, framed by white space. */
  lemma TrimStartThenEndIsFramed(s: string)
    ensures IsWhiteSpaceFramed(s, |s| - |TrimStart(s)|, TrimEnd(TrimStart(s)))
  {
    var u := TrimStart(s);
    TrimStartDropsWhiteSpace(s);
    TrimEndDropsWhiteSpace(u);
    FramedInSuffix(s, |s| - |u|, u, TrimEnd(u));
  }

  /** Trimming the front and then the back leaves no white space at either end, and nothing only for all white space. */
  lemma TrimStartThenEndEnds(s: string, r: string)
    requires r == TrimEnd(TrimStart(s))
    ensures r == [] || (!IsTrimmable(r[0]) && !IsTrimmable(r[|r| - 1]))
    ensures r == [] <==> AllTrimmable(s)
  {
    var u := TrimStart(s);
    assert u != [] ==> u[0] == s[|s| - |u|];
    assert r != [] ==> r[0] == u[0];
  }

  /**
   * `s.trim()`: the part of `s` left after its leading white space (whose
   * length `TrimStart` fixes) and its trailing white space, with white space
   * at neither end; nothing is left exactly when `s` is all white space.
   */
  function Trim(s: string): (r: string)
    ensures IsWhiteSpaceFramed(s, |s| - |TrimStart(s)|, r)
    ensures r == [] || (!IsTrimmable(r[0]) && !IsTrimmable(r[|r| - 1]))
    ensures r == [] <==> AllTrimmable(s)
  {
    var r := TrimEnd(TrimStart(s));
    TrimStartThenEndIsFramed(s);
    TrimStartThenEndEnds(s, r);
    r
  }

  /**
   * The first element of `s.split(/ +/)`: everything before the first space
   * (the whole of `s` when it has none, the empty string when `s` starts
   * with a space).
   */
  function FirstSplitField(s: string): (r: string)
    ensures |r| <= |s| && r == s[..|r|]
    ensures ' ' !in r
    ensures |r| < |s| ==> s[|r|] == ' '
  {
    if s == [] || s[0] == ' ' then [] else [s[0]] + FirstSplitField(s[1..])
  }

  /** `toLowerCase` on one character, ASCII letters only. */
  function LowerChar(c: char): char {
    if 'A' <= c <= 'Z' then (c as int + 32) as char else c
  }

  predicate IsUpperAscii(c: char) {
    'A' <= c <= 'Z'
  }

  /** `s.toLowerCase()`: every character mapped on its own, the length kept. */
  function ToLowerCase(s: string): (r: string)
    ensures |r| == |s|
    ensures forall i :: 0 <= i < |s| ==> r[i] == LowerChar(s[i])
  {
    if s == [] then [] else [LowerChar(s[0])] + ToLowerCase(s[1..])
  }

  /** Lower-casing leaves no upper-case ASCII letter and so is idempotent. */
  lemma ToLowerCaseIsIdempotent(s: string)
    ensures forall i :: 0 <= i < |s| ==> !IsUpperAscii(ToLowerCase(s)[i])
    ensures ToLowerCase(ToLowerCase(s)) == ToLowerCase(s)
  {
  }

  /** A string without upper-case ASCII letters is its own lower case. */
  lemma ToLowerCaseOfLower(s: string)
    requires forall i :: 0 <= i < |s| ==> !IsUpperAscii(s[i])
    ensures ToLowerCase(s) == s
  {
  }

  /** Position of the first `c` in `s`, or `|s|` when there is none (where `indexOf` gives -1). */
  function IndexOf(s: string, c: char): (i: nat)
    ensures i <= |s|
    ensures c !in s[..i]
    ensures i < |s| ==> s[i] == c
  {
    if s == [] then 0
    else if s[0] == c then 0
    else 1 + IndexOf(s[1..], c)
  }

  /** Searching past a part that holds no `c` only shifts the index. */
  lemma {:induction false} IndexOfAfter(a: string, b: string, c: char)
    requires c !in a
    ensures IndexOf(a + b, c) == |a| + IndexOf(b, c)
  {
    if a == [] {
      assert a + b == b;
    } else {
      assert (a + b)[0] == a[0];
      assert (a + b)[1..] == a[1..] + b;
      IndexOfAfter(a[1..], b, c);
    }
  }

  /**
   * `s.replace(c, '')` with a one-character string pattern: only the FIRST
   * occurrence of `c` is removed. Putting `c` back at the position where it
   * was found gives `s` again.
   */
  function RemoveFirst(s: string, c: char): (r: string)
    ensures c !in s ==> r == s
    ensures c in s ==> IndexOf(s, c) < |s| && |r| == |s| - 1 && s == r[..IndexOf(s, c)] + [c] + r[IndexOf(s, c)..]
  {
    var i := IndexOf(s, c);
    if i < |s| then
      var r := s[..i] + s[i + 1..];
      assert r[..i] == s[..i] && r[i..] == s[i + 1..];
      assert s == s[..i] + [s[i]] + s[i + 1..];
      r
    else
      assert s[..i] == s;
      s
  }

  /** Exactly one `c` goes, if there is one, and every other character stays. */
  lemma RemoveFirstCount(s: string, c: char)
    ensures multiset(RemoveFirst(s, c)) == multiset(s) - multiset{c}
  {
    var r := RemoveFirst(s, c);
    if c in s {
      var i := IndexOf(s, c);
      assert multiset(s) == multiset(r[..i]) + multiset{c} + multiset(r[i..]);
      assert r == r[..i] + r[i..];
    }
  }

  /** A string whose first character is `c` loses exactly that character. */
  lemma RemoveFirstAtHead(s: string, c: char)
    requires s != [] && s[0] == c
    ensures RemoveFirst(s, c) == s[1..]
  {
  }

  predicate IsDigit(c: char) {
    '0' <= c <= '9'
  }

  predicate AllDigits(s: string) {
    forall i :: 0 <= i < |s| ==> IsDigit(s[i])
  }

  function DigitChar(d: nat): (c: char)
    requires d < 10
    ensures IsDigit(c) && c as int - '0' as int == d
  {
    ('0' as int + d) as char
  }

  /** The value a string of decimal digits denotes. */
  function DigitsValue(s: string): nat
    requires AllDigits(s)
  {
    if s == [] then 0 else 10 * DigitsValue(s[..|s| - 1]) + (s[|s| - 1] as int - '0' as int)
  }

  /** The text of a non-negative integer: digits without leading zeros that read back as `n`. */
  function NatToString(n: nat): (s: string)
    ensures s != [] && AllDigits(s)
    ensures s[0] == '0' ==> s == "0"
    ensures DigitsValue(s) == n
  {
    if n < 10 then
      var s := [DigitChar(n)];
      assert s[..0] == [];
      s
    else
      var p := NatToString(n / 10);
      var s := p + [DigitChar(n % 10)];
      assert s[..|s| - 1] == p;
      assert p[0] != '0' by {
        if p[0] == '0' {
          assert p[..0] == [];
        }
      }
      s
  }

  /** Text that a template literal gives an integer: an optional minus sign, then digits. */
  predicate IsIntText(s: string) {
    if s != [] && s[0] == '-' then |s| > 1 && AllDigits(s[1..]) else s != [] && AllDigits(s)
  }

  function IntTextValue(s: string): int
    requires IsIntText(s)
  {
    if s[0] == '-' then -(DigitsValue(s[1..]) as int) else DigitsValue(s)
  }

  /** Integer text as JavaScript prints it: no leading zero, and no `-0`. */
  predicate IsCanonicalIntText(s: string) {
    IsIntText(s) &&
    var digits := if s[0] == '-' then s[1..] else s;
    digits[0] == '0' ==> digits == "0" && s[0] != '-'
  }

  /** Digits without a leading zero denote a positive number. */
  lemma {:induction false} LeadingDigitPositive(s: string)
    requires s != [] && AllDigits(s) && s[0] != '0'
    ensures DigitsValue(s) >= 1
    ensures |s| > 1 ==> DigitsValue(s) >= 10
  {
    if |s| > 1 {
      var p := s[..|s| - 1];
      assert p[0] == s[0];
      LeadingDigitPositive(p);
    }
  }

  /** Digits without leading zeros are fixed by the number they denote. */
  lemma {:induction false} DigitsValueInjective(a: string, b: string)
    requires a != [] && AllDigits(a) && (a[0] == '0' ==> a == "0")
    requires b != [] && AllDigits(b) && (b[0] == '0' ==> b == "0")
    requires DigitsValue(a) == DigitsValue(b)
    ensures a == b
    decreases |a|
  {
    var v := DigitsValue(a);
    if |a| > 1 {
      LeadingDigitPositive(a);
    }
    if |b| > 1 {
      LeadingDigitPositive(b);
    }
    if |a| == 1 || |b| == 1 {
      assert |a| == 1 && |b| == 1;
      assert DigitsValue(a[..0]) == 0 && DigitsValue(b[..0]) == 0;
    } else {
      var pa, pb := a[..|a| - 1], b[..|b| - 1];
      assert pa[0] == a[0] && pb[0] == b[0];
      assert 10 * DigitsValue(pa) + (a[|a| - 1] as int - '0' as int) == v;
      assert 10 * DigitsValue(pb) + (b[|b| - 1] as int - '0' as int) == v;
      DigitsValueInjective(pa, pb);
      assert a == pa + [a[|a| - 1]] && b == pb + [b[|b| - 1]];
    }
  }

  /** Canonical integer text is fixed by its value: there is one way to print an integer. */
  lemma CanonicalIntTextIsUnique(a: string, b: string)
    requires IsCanonicalIntText(a) && IsCanonicalIntText(b)
    requires IntTextValue(a) == IntTextValue(b)
    ensures a == b
  {
    var da := if a[0] == '-' then a[1..] else a;
    var db := if b[0] == '-' then b[1..] else b;
    if a[0] == '-' && da[0] != '0' {
      LeadingDigitPositive(da);
    }
    if b[0] == '-' && db[0] != '0' {
      LeadingDigitPositive(db);
    }
    assert (a[0] == '-') == (b[0] == '-');
    DigitsValueInjective(da, db);
    assert a == (if a[0] == '-' then "-" else "") + da;
    assert b == (if b[0] == '-' then "-" else "") + db;
  }

  /** `${i}` for an integer `i`: canonical integer text that reads back as `i`, signed exactly when `i` is negative. */
  function IntToString(i: int): (s: string)
    ensures IsCanonicalIntText(s) && IntTextValue(s) == i
    ensures (s[0] == '-') <==> i < 0
    ensures 'm' !in s
  {
    if i < 0 then
      var s := "-" + NatToString(-i);
      assert s[1..] == NatToString(-i);
      s
    else
      NatToString(i)
  }
}
