/**
 * The handful of Python string operations the core relies on, written out
 * over `seq<char>`: whitespace classification, `strip`, `split`, `join`,
 * `replace`, `find`, ASCII case mapping, `isdigit`/`int`, and the
 * code-point order Python uses to compare and sort strings.
 */
module Text {

  /** Python's `str.isspace()`: the characters `strip()` and `split()` treat as whitespace. */
  predicate IsSpace(c: char) {
    || c == ' ' || '\t' <= c <= '\r' || '\U{1C}' <= c <= '\U{1F}'
    || c == '\U{85}' || c == '\U{A0}' || c == '\U{1680}'
    || '\U{2000}' <= c <= '\U{200A}' || c == '\U{2028}' || c == '\U{2029}'
    || c == '\U{202F}' || c == '\U{205F}' || c == '\U{3000}'
  }

  predicate NoSpace(s: string) {
    forall i :: 0 <= i < |s| ==> !IsSpace(s[i])
  }

  // ---------------------------------------------------------------- strip

  /** `s.lstrip(...)`: drop the longest prefix whose characters all satisfy `drop`. */
  function TrimStart(s: string, drop: char -> bool): (r: string)
    ensures |r| <= |s|
    ensures r == [] || !drop(r[0])
  {
    if s != [] && drop(s[0]) then TrimStart(s[1..], drop) else s
  }

  /** `s.rstrip(...)`: drop the longest suffix whose characters all satisfy `drop`. */
  function TrimEnd(s: string, drop: char -> bool): (r: string)
    ensures |r| <= |s|
    ensures r == [] || !drop(r[|r| - 1])
  {
    if s != [] && drop(s[|s| - 1]) then TrimEnd(s[..|s| - 1], drop) else s
  }

  /** `s.strip(chars)`, with the characters given as a predicate. */
  function Trim(s: string, drop: char -> bool): string {
    TrimEnd(TrimStart(s, drop), drop)
  }

  /** `s.strip()` with no argument. */
  function Strip(s: string): string {
    Trim(s, IsSpace)
  }

  /** `s.rstrip()` with no argument. */
  function StripEnd(s: string): string {
    TrimEnd(s, IsSpace)
  }

  /** `lstrip` keeps a suffix and removes only dropped characters before it. */
  lemma {:induction false} TrimStartSpec(s: string, drop: char -> bool)
    ensures var r := TrimStart(s, drop);
      && r == s[|s| - |r|..]
      && forall i :: 0 <= i < |s| - |r| ==> drop(s[i])
  {
    if s != [] && drop(s[0]) {
      var tail := s[1..];
      TrimStartSpec(tail, drop);
      var r := TrimStart(tail, drop);
      assert r == tail[|tail| - |r|..];
      assert tail[|tail| - |r|..] == s[|s| - |r|..];
      forall i | 0 <= i < |s| - |r| ensures drop(s[i]) {
        if i > 0 {
          assert s[i] == tail[i - 1];
        }
      }
    }
  }

  /** `rstrip` keeps a prefix and removes only dropped characters after it. */
  lemma {:induction false} TrimEndSpec(s: string, drop: char -> bool)
    ensures var r := TrimEnd(s, drop);
      && r == s[..|r|]
      && forall i :: |r| <= i < |s| ==> drop(s[i])
  {
    if s != [] && drop(s[|s| - 1]) {
      var init := s[..|s| - 1];
      TrimEndSpec(init, drop);
      var r := TrimEnd(init, drop);
      assert r == init[..|r|];
      assert init[..|r|] == s[..|r|];
      forall i | |r| <= i < |s| ensures drop(s[i]) {
        if i < |s| - 1 {
          assert s[i] == init[i];
        }
      }
    }
  }

  /** Trimming the end of a suffix `s[i..]` keeps a middle part `s[i..j]` followed only by
      dropped characters. */
  lemma TrimEndOfSuffix(s: string, i: nat, drop: char -> bool) returns (j: nat)
    requires i <= |s|
    ensures i <= j <= |s| && TrimEnd(s[i..], drop) == s[i..j]
    ensures forall k :: j <= k < |s| ==> drop(s[k])
  {
    var t := s[i..];
    TrimEndSpec(t, drop);
    var r := TrimEnd(t, drop);
    j := i + |r|;
    assert r == t[..|r|];
    forall k | j <= k < |s| ensures drop(s[k]) {
      assert s[k] == t[k - i];
    }
  }

  /** `s.strip(chars)` keeps a contiguous middle part `s[i..j]`, removes only dropped
      characters around it and leaves neither end on a dropped character. */
  lemma TrimShape(s: string, drop: char -> bool) returns (i: nat, j: nat)
    ensures i <= j <= |s| && Trim(s, drop) == s[i..j]
    ensures forall k :: 0 <= k < i ==> drop(s[k])
    ensures forall k :: j <= k < |s| ==> drop(s[k])
    ensures var r := Trim(s, drop); r == [] || (!drop(r[0]) && !drop(r[|r| - 1]))
  {
    TrimStartSpec(s, drop);
    var t := TrimStart(s, drop);
    i := |s| - |t|;
    assert t == s[i..];
    j := TrimEndOfSuffix(s, i, drop);
    var r := TrimEnd(t, drop);
    if r != [] {
      TrimEndSpec(t, drop);
      assert r[0] == t[0];
    }
  }

  /** `s.strip()` keeps a contiguous middle part `s[i..j]`, removes only whitespace around it
      and leaves neither end on a whitespace character. */
  lemma StripShape(s: string) returns (i: nat, j: nat)
    ensures i <= j <= |s| && Strip(s) == s[i..j]
    ensures forall k :: 0 <= k < i ==> IsSpace(s[k])
    ensures forall k :: j <= k < |s| ==> IsSpace(s[k])
    ensures Strip(s) == [] || (!IsSpace(Strip(s)[0]) && !IsSpace(Strip(s)[|Strip(s)| - 1]))
  {
    i, j := TrimShape(s, IsSpace);
  }

  /** Trimming an already trimmed string changes nothing. */
  lemma TrimIdempotent(s: string, drop: char -> bool)
    ensures Trim(Trim(s, drop), drop) == Trim(s, drop)
  {
    var r := Trim(s, drop);
    var _, _ := TrimShape(s, drop);
    if r != [] {
      assert TrimStart(r, drop) == r;
      assert TrimEnd(r, drop) == r;
    }
  }

  /** Stripping an already stripped string changes nothing. */
  lemma StripIdempotent(s: string)
    ensures Strip(Strip(s)) == Strip(s)
  {
    TrimIdempotent(s, IsSpace);
  }

  /** A string trims to "" exactly when every character is dropped. */
  lemma TrimEmptyIffAllDropped(s: string, drop: char -> bool)
    ensures Trim(s, drop) == [] <==> forall k :: 0 <= k < |s| ==> drop(s[k])
  {
    var i, j := TrimShape(s, drop);
    if Trim(s, drop) != [] {
      assert !drop(s[i]);
    }
  }

  /** A string strips to "" exactly when every character is whitespace. */
  lemma StripEmptyIffBlank(s: string)
    ensures Strip(s) == [] <==> forall k :: 0 <= k < |s| ==> IsSpace(s[k])
  {
    TrimEmptyIffAllDropped(s, IsSpace);
  }

  // ---------------------------------------------------------------- split

  /** Length of the leading run of non-whitespace characters. */
  function WordEnd(s: string): (n: nat)
    ensures n <= |s|
    ensures s != [] && !IsSpace(s[0]) ==> n > 0
  {
    if s == [] || IsSpace(s[0]) then 0 else 1 + WordEnd(s[1..])
  }

  lemma {:induction false} WordEndSpec(s: string)
    ensures forall i :: 0 <= i < WordEnd(s) ==> !IsSpace(s[i])
    ensures WordEnd(s) == |s| || IsSpace(s[WordEnd(s)])
  {
    if s != [] && !IsSpace(s[0]) {
      WordEndSpec(s[1..]);
      forall i | 0 <= i < WordEnd(s) ensures !IsSpace(s[i]) {
        if i > 0 {
          assert s[i] == s[1..][i - 1];
        }
      }
    }
  }

  /** `s.split()` with no separator: the maximal runs of non-whitespace characters, in order. */
  function Split(s: string): seq<string>
    decreases |s|
  {
    var t := TrimStart(s, IsSpace);
    if t == [] then []
    else
      var n := WordEnd(t);
      [t[..n]] + Split(t[n..])
  }

  /** Every word of `s.split()` is non-empty and holds no whitespace. */
  lemma {:induction false} SplitWords(s: string)
    ensures forall w :: w in Split(s) ==> w != [] && NoSpace(w)
    decreases |s|
  {
    var t := TrimStart(s, IsSpace);
    if t != [] {
      var n := WordEnd(t);
      WordEndSpec(t);
      SplitWords(t[n..]);
      assert NoSpace(t[..n]);
    }
  }

  /** `s.split()` finds no word exactly when `s.strip()` is empty. */
  lemma SplitEmptyIffBlank(s: string)
    ensures Split(s) == [] <==> Strip(s) == []
  {
    var t := TrimStart(s, IsSpace);
    if t != [] {
      assert Split(s) != [];
      TrimEndSpec(t, IsSpace);
    }
  }

  // ---------------------------------------------------------------- join

  /** `sep.join(parts)`. */
  function Join(sep: string, parts: seq<string>): (r: string)
    ensures |parts| == 1 ==> r == parts[0]
  {
    if parts == [] then ""
    else if |parts| == 1 then parts[0]
    else parts[0] + sep + Join(sep, parts[1..])
  }

  /** With a non-empty separator, the join is empty only for no parts or one empty part. */
  lemma JoinEmptyIff(sep: string, parts: seq<string>)
    requires sep != []
    ensures Join(sep, parts) == [] <==> parts == [] || parts == [""]
  {
    if |parts| > 1 {
      assert |Join(sep, parts)| >= |sep|;
    }
  }

  /** The first part of a join is a prefix of it. */
  lemma JoinStartsWith(sep: string, parts: seq<string>)
    requires parts != []
    ensures parts[0] <= Join(sep, parts)
  {
  }

  // ---------------------------------------------------------------- find, replace

  /** `s.find(c)` for a single character: the first index of `c`, or -1. */
  function Find(s: string, c: char): (r: int)
    ensures -1 <= r < |s|
    ensures r == -1 <==> c !in s
    ensures r >= 0 ==> s[r] == c && c !in s[..r]
  {
    if s == [] then -1
    else if s[0] == c then 0
    else
      var k := Find(s[1..], c);
      assert s[1..][..if k < 0 then 0 else k] == s[1..if k < 0 then 1 else k + 1];
      if k < 0 then -1 else k + 1
  }

  /** `s.replace(pat, rep)`: every non-overlapping occurrence of `pat`, scanning from the left. */
  function ReplaceAll(s: string, pat: string, rep: string): string
    requires pat != []
    decreases |s|
  {
    if |s| < |pat| then s
    else if s[..|pat|] == pat then rep + ReplaceAll(s[|pat|..], pat, rep)
    else [s[0]] + ReplaceAll(s[1..], pat, rep)
  }

  /** Replacing one character by a string that does not contain it leaves none of it behind,
      and every other character survives in order. */
  lemma {:induction false} ReplaceCharRemoves(s: string, c: char, rep: string)
    requires c !in rep
    ensures c !in ReplaceAll(s, [c], rep)
    ensures forall d :: d != c && d !in rep ==> (d in ReplaceAll(s, [c], rep) <==> d in s)
  {
    if s != [] {
      ReplaceCharRemoves(s[1..], c, rep);
      assert s == [s[0]] + s[1..];
    }
  }

  /** A pattern whose first character does not occur in `s` is never replaced. */
  lemma {:induction false} ReplaceAllAbsent(s: string, pat: string, rep: string)
    requires pat != [] && pat[0] !in s
    ensures ReplaceAll(s, pat, rep) == s
  {
    if |s| >= |pat| {
      assert s[..|pat|] != pat by { assert s[0] != pat[0]; }
      ReplaceAllAbsent(s[1..], pat, rep);
    }
  }

  /** Replacing in `a + b`, when the pattern's first character does not occur in `a`,
      leaves `a` alone and continues in `b`. */
  lemma {:induction false} ReplaceAllSkip(a: string, b: string, pat: string, rep: string)
    requires pat != [] && pat[0] !in a
    ensures ReplaceAll(a + b, pat, rep) == a + ReplaceAll(b, pat, rep)
  {
    if a != [] {
      var s := a + b;
      if |s| < |pat| {
        assert ReplaceAll(s, pat, rep) == s;
        assert ReplaceAll(b, pat, rep) == b;
      } else {
        assert s[..|pat|] != pat by { assert s[0] == a[0]; }
        assert s[1..] == a[1..] + b;
        ReplaceAllSkip(a[1..], b, pat, rep);
        assert a == [a[0]] + a[1..];
      }
    } else {
      assert a + b == b;
    }
  }

  /** An occurrence at the very front is replaced first. */
  lemma ReplaceAllFront(pat: string, b: string, rep: string)
    requires pat != []
    ensures ReplaceAll(pat + b, pat, rep) == rep + ReplaceAll(b, pat, rep)
  {
    var s := pat + b;
    assert s[..|pat|] == pat;
    assert s[|pat|..] == b;
  }

  /** Deleting the only occurrence of a character splices the two sides together. */
  lemma DeleteSoleChar(a: string, c: char, b: string)
    requires c !in a && c !in b
    ensures ReplaceAll(a + [c] + b, [c], "") == a + b
  {
    var tail := [c] + b;
    assert a + [c] + b == a + tail;
    ReplaceAllSkip(a, tail, [c], "");
    ReplaceAllFront([c], b, "");
    ReplaceAllAbsent(b, [c], "");
    assert ReplaceAll(tail, [c], "") == b;
  }

  // ---------------------------------------------------------------- case, digits

  function UpperChar(c: char): char {
    if 'a' <= c <= 'z' then (c as int - 32) as char else c
  }

  function LowerChar(c: char): char {
    if 'A' <= c <= 'Z' then (c as int + 32) as char else c
  }

  /** `s.upper()` on ASCII letters. */
  function Upper(s: string): (r: string)
    ensures |r| == |s|
  {
    if s == [] then [] else [UpperChar(s[0])] + Upper(s[1..])
  }

  /** `s.lower()` on ASCII letters. */
  function Lower(s: string): (r: string)
    ensures |r| == |s|
  {
    if s == [] then [] else [LowerChar(s[0])] + Lower(s[1..])
  }

  /** Upper-casing works character by character. */
  lemma {:induction false} UpperSpec(s: string)
    ensures forall i :: 0 <= i < |s| ==> Upper(s)[i] == UpperChar(s[i])
  {
    if s != [] {
      UpperSpec(s[1..]);
      assert Upper(s) == [UpperChar(s[0])] + Upper(s[1..]);
    }
  }

  /** Lower-casing works character by character. */
  lemma {:induction false} LowerSpec(s: string)
    ensures forall i :: 0 <= i < |s| ==> Lower(s)[i] == LowerChar(s[i])
  {
    if s != [] {
      LowerSpec(s[1..]);
      assert Lower(s) == [LowerChar(s[0])] + Lower(s[1..]);
    }
  }

  predicate IsDigit(c: char) {
    '0' <= c <= '9'
  }

  /** `s.isdigit()` on ASCII digits: non-empty and made of digits only. */
  predicate IsDigits(s: string) {
    s != [] && forall i :: 0 <= i < |s| ==> IsDigit(s[i])
  }

  /** `int(s)` for a string of decimal digits. */
  function DigitsValue(s: string): (n: nat)
    requires forall i :: 0 <= i < |s| ==> IsDigit(s[i])
  {
    if s == [] then 0
    else
      assert IsDigit(s[|s| - 1]);
      DigitsValue(s[..|s| - 1]) * 10 + (s[|s| - 1] as int - '0' as int)
  }

  /** The decimal digits of `n` without leading zeros: `str(n)` for a natural number. */
  function Decimal(n: nat): string {
    var digit := ['0' + (n % 10) as char];
    if n < 10 then digit else Decimal(n / 10) + digit
  }

  /** `str(i)` for an integer. */
  function IntText(i: int): string {
    if i < 0 then "-" + Decimal(-i) else Decimal(i)
  }

  /** Reading back the digits written by `Decimal` gives the number. */
  lemma {:induction false} DecimalRoundTrip(n: nat)
    ensures IsDigits(Decimal(n)) && DigitsValue(Decimal(n)) == n
  {
    var s := Decimal(n);
    var digit := '0' + (n % 10) as char;
    if n >= 10 {
      var init := Decimal(n / 10);
      DecimalRoundTrip(n / 10);
      assert s == init + [digit];
      assert s[..|s| - 1] == init;
    }
  }

  // ---------------------------------------------------------------- order

  /** Python's `a < b` on strings: lexicographic by code point, a proper prefix first. */
  predicate LexLess(a: string, b: string) {
    if a == [] then b != []
    else if b == [] then false
    else a[0] < b[0] || (a[0] == b[0] && LexLess(a[1..], b[1..]))
  }

  lemma {:induction false} LexLessIrreflexive(a: string)
    ensures !LexLess(a, a)
  {
    if a != [] {
      LexLessIrreflexive(a[1..]);
    }
  }

  lemma {:induction false} LexLessTransitive(a: string, b: string, c: string)
    requires LexLess(a, b) && LexLess(b, c)
    ensures LexLess(a, c)
  {
    if a != [] && a[0] == b[0] && b[0] == c[0] {
      LexLessTransitive(a[1..], b[1..], c[1..]);
    }
  }

  lemma {:induction false} LexLessTotal(a: string, b: string)
    requires a != b
    ensures LexLess(a, b) || LexLess(b, a)
  {
    if a != [] && b != [] && a[0] == b[0] {
      assert a == [a[0]] + a[1..] && b == [b[0]] + b[1..];
      LexLessTotal(a[1..], b[1..]);
    }
  }

  lemma {:induction false} LexLessAsymmetric(a: string, b: string)
    requires LexLess(a, b)
    ensures !LexLess(b, a)
  {
    if a != [] && b != [] && a[0] == b[0] {
      LexLessAsymmetric(a[1..], b[1..]);
    }
  }
}
