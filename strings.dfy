/** Python string operations used by the parser and the node builder:
    `str.replace`, `str.split`, `str.strip`, `str(int)` and the character
    classes that the regular expressions rely on. */
module Strings {

  /** The digits that `\d` matches (ASCII only, see README). */
  predicate IsDigit(c: char) { '0' <= c <= '9' }

  predicate IsUpper(c: char) { 'A' <= c <= 'Z' }

  predicate IsLower(c: char) { 'a' <= c <= 'z' }

  /** `[A-Za-z]` */
  predicate IsLetter(c: char) { IsUpper(c) || IsLower(c) }

  /** The characters for which Python's `str.isspace` holds; `str.strip()`
      removes exactly these. */
  predicate IsSpace(c: char)
  {
    c == ' ' || ('\t' <= c <= '\r') || ('\U{1c}' <= c <= '\U{1f}') || c == '\U{85}' ||
    c == '\U{a0}' || c == '\U{1680}' || ('\U{2000}' <= c <= '\U{200a}') ||
    c == '\U{2028}' || c == '\U{2029}' || c == '\U{202f}' || c == '\U{205f}' || c == '\U{3000}'
  }

  predicate AllDigits(s: string) { forall i :: 0 <= i < |s| ==> IsDigit(s[i]) }

  predicate NoNewline(s: string) { forall i :: 0 <= i < |s| ==> s[i] != '\n' }

  predicate StartsWith(s: string, p: string) { |p| <= |s| && s[..|p|] == p }

  predicate EndsWith(s: string, p: string) { |p| <= |s| && s[|s| - |p|..] == p }

  /** The character classes used by the parser's regular expressions. */
  datatype CharClass = Digit | Letter | Upper | Lower

  predicate InClass(k: CharClass, c: char)
  {
    match k
    case Digit => IsDigit(c)
    case Letter => IsLetter(c)
    case Upper => IsUpper(c)
    case Lower => IsLower(c)
  }

  predicate AllIn(k: CharClass, s: string) { forall i :: 0 <= i < |s| ==> InClass(k, s[i]) }

  /** Every character of `s[i..j]` is of class `k`. */
  predicate InClassBetween(k: CharClass, s: string, i: int, j: int)
  {
    forall m :: i <= m < j ==> 0 <= m < |s| && InClass(k, s[m])
  }

  /** A slice whose characters are all of one class. */
  lemma SliceInClass(k: CharClass, s: string, i: nat, j: nat)
    requires i <= j <= |s| && InClassBetween(k, s, i, j)
    ensures AllIn(k, s[i..j])
  {
    forall m | 0 <= m < j - i ensures InClass(k, s[i..j][m]) {
      assert s[i..j][m] == s[i + m];
    }
  }

  /** No character of `s[..i]` is a newline. */
  predicate NoNewlineBefore(s: string, i: int)
  {
    forall m :: 0 <= m < i ==> 0 <= m < |s| && s[m] != '\n'
  }

  /** Length of the longest run of characters of class `k` starting at
      position `i`: what a greedy `\d+`, `[A-Za-z]+`, ... consumes. */
  function Run(s: string, i: nat, k: CharClass): (n: nat)
    requires i <= |s|
    ensures i + n <= |s|
    decreases |s| - i
  {
    if i < |s| && InClass(k, s[i]) then 1 + Run(s, i + 1, k) else 0
  }

  /** The run stops at the end of the text or at a character outside the class. */
  lemma {:induction false} RunEnds(s: string, i: nat, k: CharClass)
    requires i <= |s|
    ensures i + Run(s, i, k) == |s| || !InClass(k, s[i + Run(s, i, k)])
    decreases |s| - i
  {
    if i < |s| && InClass(k, s[i]) {
      RunEnds(s, i + 1, k);
    }
  }

  /** Every character of the run is of class `k`. */
  lemma {:induction false} RunInClass(s: string, i: nat, k: CharClass)
    requires i <= |s|
    ensures InClassBetween(k, s, i, i + Run(s, i, k))
    decreases |s| - i
  {
    if i < |s| && InClass(k, s[i]) {
      RunInClass(s, i + 1, k);
    }
  }

  /** The number of characters in the prefix that contains no newline. */
  function NewlineFreePrefix(s: string): (n: nat)
    ensures n <= |s|
    ensures NoNewlineBefore(s, n)
    ensures n == |s| || s[n] == '\n'
  {
    if s == [] || s[0] == '\n' then 0
    else
      var m := NewlineFreePrefix(s[1..]);
      assert forall j :: 0 < j < 1 + m ==> s[j] == s[1..][j - 1];
      1 + m
  }

  /** Adjacent slices concatenate. */
  lemma SliceConcat(s: string, i: nat, j: nat, k: nat)
    requires i <= j <= k <= |s|
    ensures s[i..k] == s[i..j] + s[j..k]
  {
  }

  /** A maximal run reaches exactly to the first character outside the class. */
  lemma RunReaches(s: string, i: nat, j: nat, k: CharClass)
    requires i <= j <= |s| && InClassBetween(k, s, i, j) && (j == |s| || !InClass(k, s[j]))
    ensures Run(s, i, k) == j - i
    decreases j - i
  {
    if i < j {
      RunReaches(s, i + 1, j, k);
    }
  }

  /** Python's `s.replace(pat, rep)`: one left-to-right pass that replaces
      each non-overlapping occurrence of `pat`. */
  function Replace(s: string, pat: string, rep: string): string
    requires |pat| > 0
    decreases |s|
  {
    if |s| < |pat| then s
    else if s[..|pat|] == pat then rep + Replace(s[|pat|..], pat, rep)
    else [s[0]] + Replace(s[1..], pat, rep)
  }

  /** Replacing a single character reads each input character exactly once. */
  lemma {:induction false} ReplaceCharCons(c: char, rest: string, x: char, rep: string)
    ensures Replace([c] + rest, [x], rep) == (if c == x then rep else [c]) + Replace(rest, [x], rep)
  {
    var s := [c] + rest;
    assert s[..1] == [c];
    assert s[1..] == rest;
  }

  /** Replacing a single character distributes over concatenation. */
  lemma {:induction false} ReplaceCharAppend(a: string, b: string, x: char, rep: string)
    ensures Replace(a + b, [x], rep) == Replace(a, [x], rep) + Replace(b, [x], rep)
    decreases |a|
  {
    if a == [] {
      assert a + b == b;
    } else {
      assert a + b == [a[0]] + (a[1..] + b);
      ReplaceCharCons(a[0], a[1..] + b, x, rep);
      ReplaceCharCons(a[0], a[1..], x, rep);
      assert [a[0]] + a[1..] == a;
      ReplaceCharAppend(a[1..], b, x, rep);
    }
  }

  /** Replacing one character by one character keeps the length and changes
      exactly the positions that held that character. */
  lemma {:induction false} ReplaceCharPointwise(s: string, x: char, y: char)
    ensures |Replace(s, [x], [y])| == |s|
    ensures forall i :: 0 <= i < |s| ==> Replace(s, [x], [y])[i] == if s[i] == x then y else s[i]
    decreases |s|
  {
    if s != [] {
      ReplaceCharCons(s[0], s[1..], x, [y]);
      assert [s[0]] + s[1..] == s;
      ReplaceCharPointwise(s[1..], x, y);
    }
  }

  function Spaces(n: nat): (r: string)
    ensures |r| == n
    ensures forall i :: 0 <= i < n ==> r[i] == ' '
  {
    if n == 0 then "" else " " + Spaces(n - 1)
  }

  /** One pass of `replace("  ", " ")` halves a run of spaces, rounding up:
      it is not a full collapse (three spaces become two). */
  lemma {:induction false} CollapseSpaceRun(n: nat)
    ensures Replace(Spaces(n), "  ", " ") == Spaces((n + 1) / 2)
    decreases n
  {
    if n >= 2 {
      var s := Spaces(n);
      assert s[..2] == "  ";
      assert s[2..] == Spaces(n - 2);
      CollapseSpaceRun(n - 2);
      assert (n - 1) / 2 + 1 == (n + 1) / 2;
    }
  }

  /** A text without a double space is left unchanged by the pass. */
  lemma {:induction false} CollapseNoDoubleSpace(s: string)
    requires forall i :: 0 <= i < |s| - 1 ==> !(s[i] == ' ' && s[i + 1] == ' ')
    ensures Replace(s, "  ", " ") == s
    decreases |s|
  {
    if |s| >= 2 {
      assert s[..2] != "  " by { assert !(s[0] == ' ' && s[1] == ' '); }
      CollapseNoDoubleSpace(s[1..]);
      assert [s[0]] + s[1..] == s;
    }
  }

  /** Position of the first occurrence of `c` in `s`. */
  function IndexOf(s: string, c: char): (k: nat)
    requires c in s
    ensures k < |s| && s[k] == c && c !in s[..k]
  {
    if s[0] == c then 0
    else
      var k := 1 + IndexOf(s[1..], c);
      assert s[..k] == [s[0]] + s[1..][..k - 1];
      k
  }

  /** Python's `s.split(c)` for a one-character separator. */
  function Split(s: string, c: char): (parts: seq<string>)
    ensures |parts| >= 1
    ensures forall i :: 0 <= i < |parts| ==> c !in parts[i]
    decreases |s|
  {
    if c !in s then [s]
    else
      var k := IndexOf(s, c);
      [s[..k]] + Split(s[k + 1..], c)
  }

  /** The first occurrence is the one with no occurrence before it. */
  lemma IndexOfFirst(s: string, c: char, n: nat)
    requires n < |s| && s[n] == c && c !in s[..n]
    ensures IndexOf(s, c) == n
  {
  }

  /** Python's `c.join(parts)`. */
  function Join(parts: seq<string>, c: char): string
    requires |parts| >= 1
  {
    if |parts| == 1 then parts[0] else parts[0] + [c] + Join(parts[1..], c)
  }

  /** Splitting and joining again gives back the text. */
  lemma {:induction false} JoinSplit(s: string, c: char)
    ensures Join(Split(s, c), c) == s
    decreases |s|
  {
    if c in s {
      var k := IndexOf(s, c);
      var rest := Split(s[k + 1..], c);
      var parts := Split(s, c);
      assert parts == [s[..k]] + rest;
      assert parts[0] == s[..k] && parts[1..] == rest;
      assert Join(parts, c) == s[..k] + [c] + Join(rest, c);
      JoinSplit(s[k + 1..], c);
      assert s == s[..k] + [c] + s[k + 1..];
    }
  }

  /** Joining parts that do not hold the separator and splitting again gives
      back the parts. */
  lemma {:induction false} SplitJoin(parts: seq<string>, c: char)
    requires |parts| >= 1 && forall i :: 0 <= i < |parts| ==> c !in parts[i]
    ensures Split(Join(parts, c), c) == parts
    decreases |parts|
  {
    if |parts| > 1 {
      var rest := Join(parts[1..], c);
      var s := parts[0] + [c] + rest;
      assert s[..|parts[0]|] == parts[0];
      IndexOfFirst(s, c, |parts[0]|);
      assert s[|parts[0]| + 1..] == rest;
      SplitJoin(parts[1..], c);
      assert parts == [parts[0]] + parts[1..];
    }
  }

  predicate AllSpace(s: string) { forall i :: 0 <= i < |s| ==> IsSpace(s[i]) }

  /** `r` is `s` with its leading and trailing white space removed: a slice
      of `s` that neither starts nor ends with white space and has only
      white space before and after it. */
  predicate StrippedFrom(s: string, r: string)
  {
    && (r == [] || (!IsSpace(r[0]) && !IsSpace(r[|r| - 1])))
    && exists i :: 0 <= i <= |s| - |r| && r == s[i..i + |r|] && AllSpace(s[..i]) && AllSpace(s[i + |r|..])
  }

  function LStrip(s: string): (r: string)
    ensures |r| <= |s| && r == s[|s| - |r|..] && AllSpace(s[..|s| - |r|])
    ensures r == [] || !IsSpace(r[0])
  {
    if s != [] && IsSpace(s[0]) then
      var t := s[1..];
      var r := LStrip(t);
      var n := |s| - |r|;
      assert n - 1 == |t| - |r| && t[n - 1..] == s[n..];
      SpacePrefixCons(s, n);
      r
    else s
  }

  function RStrip(s: string): (r: string)
    ensures |r| <= |s| && r == s[..|r|] && AllSpace(s[|r|..])
    ensures r == [] || !IsSpace(r[|r| - 1])
  {
    if s != [] && IsSpace(s[|s| - 1]) then
      var r := RStrip(s[..|s| - 1]);
      SpaceSuffixSnoc(s, |r|);
      r
    else s
  }

  lemma SpacePrefixCons(s: string, n: nat)
    requires 0 < n <= |s| && IsSpace(s[0]) && AllSpace(s[1..][..n - 1])
    ensures AllSpace(s[..n])
  {
    forall j | 0 <= j < n ensures IsSpace(s[..n][j]) {
      if j > 0 { assert s[..n][j] == s[1..][..n - 1][j - 1]; }
    }
  }

  lemma SpaceSuffixSnoc(s: string, n: nat)
    requires n < |s| && IsSpace(s[|s| - 1]) && AllSpace(s[..|s| - 1][n..])
    ensures AllSpace(s[n..])
  {
    forall j | 0 <= j < |s| - n ensures IsSpace(s[n..][j]) {
      if j < |s| - 1 - n { assert s[n..][j] == s[..|s| - 1][n..][j]; }
    }
  }

  /** Python's `s.strip()`. */
  function Strip(s: string): (r: string)
    ensures |r| <= |s|
    ensures StrippedFrom(s, r)
  {
    var t := RStrip(s);
    var r := LStrip(t);
    StripOfParts(s, t, r);
    r
  }

  /** Right-stripping, then left-stripping what is left, strips. */
  lemma StripOfParts(s: string, t: string, r: string)
    requires |t| <= |s| && t == s[..|t|] && AllSpace(s[|t|..]) && (t == [] || !IsSpace(t[|t| - 1]))
    requires |r| <= |t| && r == t[|t| - |r|..] && AllSpace(t[..|t| - |r|]) && (r == [] || !IsSpace(r[0]))
    ensures StrippedFrom(s, r)
  {
    var i := |t| - |r|;
    assert r != [] ==> r[|r| - 1] == t[|t| - 1];
    assert r == s[i..i + |r|];
    assert s[..i] == t[..i];
    StrippedWitness(s, r, i);
  }

  lemma StrippedWitness(s: string, r: string, i: nat)
    requires r == [] || (!IsSpace(r[0]) && !IsSpace(r[|r| - 1]))
    requires i + |r| <= |s| && r == s[i..i + |r|] && AllSpace(s[..i]) && AllSpace(s[i + |r|..])
    ensures StrippedFrom(s, r)
  {
  }

  /** At most one text is `s` stripped, so the contract of `Strip` fixes
      its result. */
  lemma StrippedUnique(s: string, r1: string, r2: string)
    requires StrippedFrom(s, r1) && StrippedFrom(s, r2)
    ensures r1 == r2
  {
    var i1 :| 0 <= i1 <= |s| - |r1| && r1 == s[i1..i1 + |r1|] && AllSpace(s[..i1]) && AllSpace(s[i1 + |r1|..]);
    var i2 :| 0 <= i2 <= |s| - |r2| && r2 == s[i2..i2 + |r2|] && AllSpace(s[..i2]) && AllSpace(s[i2 + |r2|..]);
    if r1 != [] {
      StrippedStart(s, r1, i1, r2, i2);
      StrippedStart(s, r2, i2, r1, i1);
      assert i1 == i2 && |r1| == |r2|;
    } else if r2 != [] {
      StrippedStart(s, r2, i2, r1, i1);
    }
  }

  /** Stripping adds no character. */
  lemma StrippedKeepsOut(s: string, r: string, c: char)
    requires StrippedFrom(s, r) && c !in s
    ensures c !in r
  {
    var i :| 0 <= i <= |s| - |r| && r == s[i..i + |r|] && AllSpace(s[..i]) && AllSpace(s[i + |r|..]);
    forall m | 0 <= m < |r| ensures r[m] != c {
      assert r[m] == s[i + m];
    }
  }

  /** A non-empty stripped slice pins the other one: both are non-empty,
      and neither starts nor ends before the other. */
  lemma StrippedStart(s: string, r1: string, i1: nat, r2: string, i2: nat)
    requires r1 != [] && !IsSpace(r1[0]) && !IsSpace(r1[|r1| - 1])
    requires i1 + |r1| <= |s| && r1 == s[i1..i1 + |r1|]
    requires i2 + |r2| <= |s| && r2 == s[i2..i2 + |r2|] && AllSpace(s[..i2]) && AllSpace(s[i2 + |r2|..])
    ensures r2 != [] && i2 <= i1 && i1 + |r1| <= i2 + |r2|
  {
    assert s[i1] == r1[0] && s[i1 + |r1| - 1] == r1[|r1| - 1];
  }

  /** A text without surrounding white space is its own strip. */
  lemma StripClean(s: string)
    requires s == [] || (!IsSpace(s[0]) && !IsSpace(s[|s| - 1]))
    ensures Strip(s) == s
  {
  }

  function DigitChar(d: nat): char
    requires d < 10
  {
    "0123456789"[d]
  }

  /** Python's `str(n)` for a non-negative integer. */
  function NatToString(n: nat): (r: string)
    ensures |r| >= 1 && AllDigits(r)
  {
    if n < 10 then [DigitChar(n)] else NatToString(n / 10) + [DigitChar(n % 10)]
  }

  function DigitValue(c: char): nat
    requires IsDigit(c)
  {
    (c as int - '0' as int) as nat
  }

  /** Python's `int(s)` for a string of decimal digits. */
  function ParseNat(s: string): nat
    requires AllDigits(s)
  {
    if s == [] then 0 else 10 * ParseNat(s[..|s| - 1]) + DigitValue(s[|s| - 1])
  }

  /** `int(str(n)) == n`. */
  lemma {:induction false} ParseNatToString(n: nat)
    ensures ParseNat(NatToString(n)) == n
  {
    var r := NatToString(n);
    if n < 10 {
      assert r[..0] == [];
    } else {
      ParseNatToString(n / 10);
      assert r[..|r| - 1] == NatToString(n / 10);
    }
  }

  /** Distinct numbers have distinct decimal renderings. */
  lemma NatToStringInjective(m: nat, n: nat)
    requires NatToString(m) == NatToString(n)
    ensures m == n
  {
    ParseNatToString(m);
    ParseNatToString(n);
  }

  /** Two strings that share a prefix and are equal agree after it. */
  lemma SameSuffix(p: string, a: string, b: string)
    requires p + a == p + b
    ensures a == b
  {
    assert a == (p + a)[|p|..];
    assert b == (p + b)[|p|..];
  }

  /** Concatenation regroups freely. */
  lemma AppendAssoc<T>(a: seq<T>, b: seq<T>, c: seq<T>)
    ensures a + b + c == a + (b + c)
  {
  }
}
