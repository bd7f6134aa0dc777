/** Reading a verse out of a class token such as "Gen-1-1"
    (`normalize_verse_class` and `find_class_verse`, parse.py:194-233). */
module VerseClass {
  import opened Options
  import opened Strings
  import opened Markup
  import opened Resolver

  /** The groups of a match of `(.+)-(\d+)-(\d+)`: `ref` is the whole match. */
  datatype VerseClass = VerseClass(ref: string, book: string, chapter: string, verse: string)

  /** The regular-expression reading of "a match whose first group ends at
      `i`": a dash at `i`, then one or more digits, a dash and a digit. */
  predicate DashDigitsDashDigit(s: string, i: nat)
  {
    0 < i < |s| && s[i] == '-' &&
    exists k :: i + 1 < k < |s| - 1 && InClassBetween(Digit, s, i + 1, k) && s[k] == '-' && IsDigit(s[k + 1])
  }

  /** `s` starts with `<book>-<digits>-<digits>` where `book` is the
      newline-free text `s[..i]`. */
  predicate VerseClassShape(s: string, i: nat)
  {
    NoNewlineBefore(s, i) && DashDigitsDashDigit(s, i)
  }

  /** The greedy digit groups after a first group ending at `i`. */
  function MatchAt(s: string, i: nat): Option<VerseClass>
  {
    if !(0 < i < |s| && s[i] == '-') then None
    else
      var c := Run(s, i + 1, Digit);
      if c == 0 || i + 1 + c >= |s| - 1 || s[i + 1 + c] != '-' then None
      else
        var v := Run(s, i + 2 + c, Digit);
        if v == 0 then None
        else Some(VerseClass(s[..i + 2 + c + v], s[..i], s[i + 1..i + 1 + c], s[i + 2 + c..i + 2 + c + v]))
  }

  /** The greedy reading finds a match exactly where the regular expression
      admits one. */
  lemma MatchAtIff(s: string, i: nat)
    ensures MatchAt(s, i).Some? <==> DashDigitsDashDigit(s, i)
  {
    if MatchAt(s, i).Some? {
      MatchAtSound(s, i);
    }
    if DashDigitsDashDigit(s, i) {
      MatchAtComplete(s, i);
    }
  }

  lemma MatchAtSound(s: string, i: nat)
    requires MatchAt(s, i).Some?
    ensures DashDigitsDashDigit(s, i)
  {
    var c := Run(s, i + 1, Digit);
    RunInClass(s, i + 1, Digit);
    var v := Run(s, i + 2 + c, Digit);
    RunInClass(s, i + 2 + c, Digit);
    assert IsDigit(s[i + 2 + c]);
    assert i + 1 < i + 1 + c < |s| - 1 && InClassBetween(Digit, s, i + 1, i + 1 + c);
  }

  lemma MatchAtComplete(s: string, i: nat)
    requires DashDigitsDashDigit(s, i)
    ensures MatchAt(s, i).Some?
  {
    var k :| i + 1 < k < |s| - 1 && InClassBetween(Digit, s, i + 1, k) && s[k] == '-' && IsDigit(s[k + 1]);
    RunReaches(s, i + 1, k, Digit);
    assert Run(s, k + 1, Digit) > 0;
  }

  /** A greedy match consists of the first group, a dash, the full digit run,
      a dash and the full digit run after it. */
  lemma MatchAtGroups(s: string, i: nat)
    requires MatchAt(s, i).Some?
    ensures
      var m := MatchAt(s, i).value;
      && m.book == s[..i]
      && m.chapter != [] && AllDigits(m.chapter)
      && m.verse != [] && AllDigits(m.verse)
      && m.ref == m.book + "-" + m.chapter + "-" + m.verse
      && StartsWith(s, m.ref)
      && (|m.ref| == |s| || !IsDigit(s[|m.ref|]))
  {
    var c := Run(s, i + 1, Digit);
    var v := Run(s, i + 2 + c, Digit);
    MatchAtValue(s, i);
    RunInClass(s, i + 1, Digit);
    RunInClass(s, i + 2 + c, Digit);
    RunEnds(s, i + 2 + c, Digit);
    PiecesGroups(s, i, c, v, MatchAt(s, i).value);
  }

  /** The value of a greedy match, in terms of the two digit runs. */
  lemma MatchAtValue(s: string, i: nat)
    requires MatchAt(s, i).Some?
    ensures i + 1 < |s| && Run(s, i + 1, Digit) > 0
    ensures
      var c := Run(s, i + 1, Digit);
      && i + 2 + c <= |s| && s[i] == '-' && s[i + 1 + c] == '-' && Run(s, i + 2 + c, Digit) > 0
      && var e := i + 2 + c + Run(s, i + 2 + c, Digit);
      MatchAt(s, i).value == VerseClass(s[..e], s[..i], s[i + 1..i + 1 + c], s[i + 2 + c..e])
  {
  }

  /** The groups read off a dash, `c` digits, a dash and `v` digits after `s[..i]`. */
  lemma PiecesGroups(s: string, i: nat, c: nat, v: nat, m: VerseClass)
    requires 0 < c && 0 < v && i + 2 + c + v <= |s| && s[i] == '-' && s[i + 1 + c] == '-'
    requires InClassBetween(Digit, s, i + 1, i + 1 + c) && InClassBetween(Digit, s, i + 2 + c, i + 2 + c + v)
    requires i + 2 + c + v == |s| || !InClass(Digit, s[i + 2 + c + v])
    requires m == VerseClass(s[..i + 2 + c + v], s[..i], s[i + 1..i + 1 + c], s[i + 2 + c..i + 2 + c + v])
    ensures
      && m.book == s[..i]
      && m.chapter != [] && AllDigits(m.chapter)
      && m.verse != [] && AllDigits(m.verse)
      && m.ref == m.book + "-" + m.chapter + "-" + m.verse
      && StartsWith(s, m.ref)
      && (|m.ref| == |s| || !IsDigit(s[|m.ref|]))
  {
    DigitSlice(s, i + 1, i + 1 + c);
    DigitSlice(s, i + 2 + c, i + 2 + c + v);
    FourPieces(s, i, c, v);
  }

  /** A slice made of digits only. */
  lemma DigitSlice(s: string, i: nat, j: nat)
    requires i <= j <= |s| && InClassBetween(Digit, s, i, j)
    ensures AllDigits(s[i..j])
  {
    forall p | 0 <= p < j - i ensures IsDigit(s[i..j][p]) { assert s[i..j][p] == s[i + p]; }
  }

  lemma FourPieces(s: string, i: nat, c: nat, v: nat)
    requires i + 2 + c + v <= |s| && s[i] == '-' && s[i + 1 + c] == '-'
    ensures s[..i + 2 + c + v] == s[..i] + "-" + s[i + 1..i + 1 + c] + "-" + s[i + 2 + c..i + 2 + c + v]
  {
    var e := i + 2 + c + v;
    SliceConcat(s, 0, i + 2 + c, e);
    SliceConcat(s, 0, i + 1 + c, i + 2 + c);
    SliceConcat(s, 0, i + 1, i + 1 + c);
    SliceConcat(s, 0, i, i + 1);
    assert s[i..i + 1] == "-" && s[i + 1 + c..i + 2 + c] == "-";
  }

  /** The backtracking of the greedy `(.+)`: the first group is tried
      longest first, from `i` down; the answer is the end of the first group
      that admits a match, or 0 when none does. */
  function SearchEnd(s: string, i: nat): (j: nat)
    ensures j <= i
    ensures j > 0 ==> MatchAt(s, j).Some?
    ensures forall m :: j < m <= i ==> MatchAt(s, m).None?
  {
    if i == 0 || MatchAt(s, i).Some? then i else SearchEnd(s, i - 1)
  }

  /** `normalize_verse_class` (parse.py:194-207): `re.match` of
      `(.+)-(\d+)-(\d+)`, where `.` is any character but a newline. */
  function NormalizeVerseClass(s: string): Option<VerseClass>
  {
    var j := SearchEnd(s, NewlineFreePrefix(s));
    if j == 0 then None else MatchAt(s, j)
  }

  /** What `normalize_verse_class` promises: a result exists exactly when
      the token starts with `<book>-<digits>-<digits>`; then `ref` is that
      prefix, the book is the longest possible one, and chapter and verse
      are the full digit runs after it. */
  lemma NormalizeVerseClassSpec(s: string)
    ensures NormalizeVerseClass(s).Some? <==> exists i :: VerseClassShape(s, i)
    ensures NormalizeVerseClass(s).Some? ==>
      var c := NormalizeVerseClass(s).value;
      && c.book != [] && NoNewline(c.book)
      && c.chapter != [] && AllDigits(c.chapter)
      && c.verse != [] && AllDigits(c.verse)
      && c.ref == c.book + "-" + c.chapter + "-" + c.verse
      && StartsWith(s, c.ref)
      && (|c.ref| == |s| || !IsDigit(s[|c.ref|]))
    ensures NormalizeVerseClass(s).Some? ==>
      var c := NormalizeVerseClass(s).value;
      VerseClassShape(s, |c.book|) && forall i :: |c.book| < i ==> !VerseClassShape(s, i)
  {
    var n := NewlineFreePrefix(s);
    var r := NormalizeVerseClass(s);
    var j := SearchEnd(s, n);
    if r.None? {
      forall i | VerseClassShape(s, i) ensures false {
        ShapeWithinPrefix(s, i);
        MatchAtIff(s, i);
      }
    } else {
      MatchAtIff(s, j);
      MatchAtGroups(s, j);
      var c := r.value;
      assert |c.book| == j;
      assert VerseClassShape(s, j);
      assert NoNewline(c.book) by {
        forall m | 0 <= m < |c.book| ensures c.book[m] != '\n' { assert c.book[m] == s[m]; }
      }
      forall i | j < i ensures !VerseClassShape(s, i) {
        MatchAtIff(s, i);
        if VerseClassShape(s, i) {
          ShapeWithinPrefix(s, i);
        }
      }
    }
  }

  /** A match cannot reach past the first newline. */
  lemma ShapeWithinPrefix(s: string, i: nat)
    requires VerseClassShape(s, i)
    ensures i <= NewlineFreePrefix(s)
  {
  }

  /** The class token `b-c-v` of a book `b` and digit strings `c` and `v`
      reads back as book `b`, chapter `c` and verse `v` with `ref` the whole
      token, whatever dashes or digits `b` itself holds. */
  lemma ComposedClassRoundTrip(b: string, c: string, v: string)
    requires b != [] && NoNewline(b)
    requires c != [] && AllDigits(c) && v != [] && AllDigits(v)
    ensures NormalizeVerseClass(b + "-" + c + "-" + v) == Some(VerseClass(b + "-" + c + "-" + v, b, c, v))
  {
    var s := b + "-" + c + "-" + v;
    ComposedMatch(b, c, v);
    ComposedNoNewline(b, c, v);
    var j := SearchEnd(s, |s|);
    assert j == |b| by {
      if j > |b| {
        MatchAtIff(s, j);
        ComposedNoLaterDash(b, c, v, j);
      }
    }
  }

  /** The greedy match of a text made of a first group, a dash, digits, a
      dash and digits to its end. */
  lemma MatchOfPieces(s: string, i: nat, d: nat, book: string, chapter: string, verse: string)
    requires 0 < i && i + 1 < d && d + 1 < |s| && s[i] == '-' && s[d] == '-'
    requires InClassBetween(Digit, s, i + 1, d) && InClassBetween(Digit, s, d + 1, |s|)
    requires book == s[..i] && chapter == s[i + 1..d] && verse == s[d + 1..]
    ensures MatchAt(s, i) == Some(VerseClass(s, book, chapter, verse))
  {
    RunReaches(s, i + 1, d, Digit);
    RunReaches(s, d + 1, |s|, Digit);
    assert s[..|s|] == s && s[d + 1..|s|] == s[d + 1..];
  }

  lemma ComposedMatch(b: string, c: string, v: string)
    requires b != [] && c != [] && AllDigits(c) && v != [] && AllDigits(v)
    ensures MatchAt(b + "-" + c + "-" + v, |b|) == Some(VerseClass(b + "-" + c + "-" + v, b, c, v))
  {
    var s := b + "-" + c + "-" + v;
    var d := |b| + 1 + |c|;
    ComposedPieces(b, c, v);
    DigitsInside(s, |b| + 1, c);
    DigitsInside(s, d + 1, v);
    MatchOfPieces(s, |b|, d, b, c, v);
  }

  /** The pieces of `b-c-v` sit where their lengths put them. */
  lemma ComposedPieces(b: string, c: string, v: string)
    ensures
      var s := b + "-" + c + "-" + v;
      var d := |b| + 1 + |c|;
      && s[|b|] == '-' && s[d] == '-'
      && s[..|b|] == b && s[|b| + 1..d] == c && s[d + 1..] == v
  {
  }

  /** A digit string copied into `s` at `a`. */
  lemma DigitsInside(s: string, a: nat, c: string)
    requires a + |c| <= |s| && s[a..a + |c|] == c && AllDigits(c)
    ensures InClassBetween(Digit, s, a, a + |c|)
  {
    forall m | a <= m < a + |c| ensures IsDigit(s[m]) { assert s[m] == s[a..a + |c|][m - a]; }
  }

  lemma ComposedNoNewline(b: string, c: string, v: string)
    requires NoNewline(b) && AllDigits(c) && AllDigits(v)
    ensures NewlineFreePrefix(b + "-" + c + "-" + v) == |b + "-" + c + "-" + v|
  {
    var s := b + "-" + c + "-" + v;
    var d := |b| + 1 + |c|;
    forall m | 0 <= m < |s| ensures s[m] != '\n' {
      if m < |b| { assert s[m] == b[m]; }
      else if m == |b| || m == d { }
      else if m < d { assert s[m] == c[m - |b| - 1]; }
      else { assert s[m] == v[m - d - 1]; }
    }
  }

  /** Past the book, no dash is followed by digits, a dash and a digit. */
  lemma ComposedNoLaterDash(b: string, c: string, v: string, j: nat)
    requires AllDigits(c) && AllDigits(v) && |b| < j
    ensures !DashDigitsDashDigit(b + "-" + c + "-" + v, j)
  {
    var s := b + "-" + c + "-" + v;
    var d := |b| + 1 + |c|;
    forall m | |b| < m < |s| && m != d ensures IsDigit(s[m]) {
      if m < d { assert s[m] == c[m - |b| - 1]; }
      else { assert s[m] == v[m - d - 1]; }
    }
    assert forall m :: d < m < |s| ==> s[m] != '-';
  }

  /** The exceptions that `find_class_verse` can raise. */
  datatype Exception = TypeError | ResolverError

  /** What one class token contributes to the search. */
  datatype TokenOutcome = Skip | Hit(clsstr: string, verseId: VerseId) | Raise

  /** The text handed to the resolver for a class token: "Gen 1:1". */
  function ClassLocator(c: VerseClass): string
  {
    c.book + " " + c.chapter + ":" + c.verse
  }

  /** One round of the class loop in parse.py:218-228: a token that does not
      normalize, or whose locator resolves to no reference, is skipped; a
      resolver error propagates. */
  function TokenVerse(tok: string, res: Resolver): TokenOutcome
  {
    match NormalizeVerseClass(tok)
    case None => Skip
    case Some(n) =>
      match res.lookup(ClassLocator(n))
      case None => Raise
      case Some(refs) => if refs == [] then Skip else Hit(n.ref, FirstId(refs[0]))
  }

  /** The answer of `find_class_verse`: `found` with the matched token and the
      verse id, or `found = None`. */
  datatype ClassVerse = Found(clsstr: string, verseId: VerseId) | NotFound

  predicate AllSkipped(classes: seq<string>, res: Resolver, k: int)
  {
    forall j :: 0 <= j < k && j < |classes| ==> TokenVerse(classes[j], res) == Skip
  }

  /** The outcome that a token which is not skipped decides. */
  function Decided(t: TokenOutcome): Result<ClassVerse, Exception>
  {
    match t
    case Hit(c, id) => Ok(Found(c, id))
    case _ => Err(ResolverError)
  }

  /** The class loop: the first token that is not skipped decides. */
  function FindInClasses(classes: seq<string>, res: Resolver): Result<ClassVerse, Exception>
  {
    if classes == [] then Ok(NotFound)
    else
      match TokenVerse(classes[0], res)
      case Hit(c, id) => Ok(Found(c, id))
      case Raise => Err(ResolverError)
      case Skip => FindInClasses(classes[1..], res)
  }

  lemma {:induction false} FindInClassesSpec(classes: seq<string>, res: Resolver)
    ensures FindInClasses(classes, res) == Ok(NotFound) <==> AllSkipped(classes, res, |classes|)
    ensures FindInClasses(classes, res) != Ok(NotFound) ==>
      exists k :: 0 <= k < |classes| && TokenVerse(classes[k], res) != Skip && AllSkipped(classes, res, k) &&
        FindInClasses(classes, res) == Decided(TokenVerse(classes[k], res))
  {
    if classes != [] {
      var t := TokenVerse(classes[0], res);
      if t == Skip {
        var tail := classes[1..];
        FindInClassesSpec(tail, res);
        if FindInClasses(tail, res) != Ok(NotFound) {
          var k :| 0 <= k < |tail| && TokenVerse(tail[k], res) != Skip && AllSkipped(tail, res, k) &&
            FindInClasses(tail, res) == Decided(TokenVerse(tail[k], res));
          assert classes[k + 1] == tail[k];
          assert AllSkipped(classes, res, k + 1) by {
            forall j | 0 < j < k + 1 ensures TokenVerse(classes[j], res) == Skip { assert classes[j] == tail[j - 1]; }
          }
        } else {
          assert AllSkipped(classes, res, |classes|) by {
            forall j | 0 < j < |classes| ensures TokenVerse(classes[j], res) == Skip { assert classes[j] == tail[j - 1]; }
          }
        }
      } else {
        assert AllSkipped(classes, res, 0);
      }
    }
  }

  /** `find_class_verse` (parse.py:209-233). */
  function FindClassVerse(tag: Node, res: Resolver): Result<ClassVerse, Exception>
  {
    match tag
    case Text(_) => Err(TypeError)
    case Element(_, classes, _) => FindInClasses(classes, res)
  }

  /** A text node raises `TypeError`; for an element, the first class token
      that both normalizes and resolves gives the answer, a resolver error
      before it propagates, and "not found" comes back exactly when every
      token is skipped. */
  lemma FindClassVerseSpec(tag: Node, res: Resolver)
    ensures tag.Text? ==> FindClassVerse(tag, res) == Err(TypeError)
    ensures tag.Element? ==>
      (FindClassVerse(tag, res) == Ok(NotFound) <==> AllSkipped(tag.classes, res, |tag.classes|))
    ensures tag.Element? && FindClassVerse(tag, res) != Ok(NotFound) ==>
      exists k :: 0 <= k < |tag.classes| && TokenVerse(tag.classes[k], res) != Skip &&
        AllSkipped(tag.classes, res, k) && FindClassVerse(tag, res) == Decided(TokenVerse(tag.classes[k], res))
  {
    if tag.Element? {
      FindInClassesSpec(tag.classes, res);
    }
  }
}
