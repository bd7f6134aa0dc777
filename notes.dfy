/** The pure parts of the footnote and cross-reference linkers of parse.py:
    the letter code read from a list item's id, the footnote body
    (`format_footnote`, parse.py:173-192), the locator handed to the
    resolver and the cross-reference targets. */
module Notes {
  import opened Options
  import opened Strings
  import opened Markup

  /** A JSON object as the verse records store it: its key/value pairs in
      insertion order. The linkers only ever build one-pair objects. */
  datatype Pair = Pair(key: string, value: string)
  type JsonObject = seq<Pair>

  /** `re.search("[A-Za-z]+-[A-Za-z]+-\d+(K+)", id)` tried at position `p`,
      with K the class `k` of the letter code. Every group is followed by a
      character outside its class, so the greedy runs are the only reading. */
  function CodeAt(s: string, p: nat, k: CharClass): (r: Option<string>)
    requires p <= |s|
    ensures r.Some? ==> r.value != [] && AllIn(k, r.value)
  {
    var a := Run(s, p, Letter);
    if a == 0 || p + a >= |s| || s[p + a] != '-' then None
    else
      var b := Run(s, p + a + 1, Letter);
      if b == 0 || p + a + b + 1 >= |s| || s[p + a + b + 1] != '-' then None
      else
        var q := p + a + b + 2;
        var d := Run(s, q, Digit);
        var g := Run(s, q + d, k);
        if d == 0 || g == 0 then None
        else
          RunInClass(s, q + d, k);
          SliceInClass(k, s, q + d, q + d + g);
          Some(s[q + d..q + d + g])
  }

  /** The leftmost position where the pattern matches. */
  function SearchCode(s: string, p: nat, k: CharClass): (r: Option<string>)
    requires p <= |s|
    ensures r.Some? ==> r.value != [] && AllIn(k, r.value)
    decreases |s| - p
  {
    if CodeAt(s, p, k).Some? then CodeAt(s, p, k)
    else if p == |s| then None
    else SearchCode(s, p + 1, k)
  }

  /** The search finds the match at the leftmost position from `p` where
      the pattern matches, and finds nothing exactly when it matches at no
      position from `p` on. */
  lemma {:induction false} SearchCodeSpec(s: string, p: nat, k: CharClass)
    requires p <= |s|
    ensures SearchCode(s, p, k).None? <==> forall m :: p <= m <= |s| ==> CodeAt(s, m, k).None?
    ensures SearchCode(s, p, k).Some? ==>
      exists q :: p <= q <= |s| && SearchCode(s, p, k) == CodeAt(s, q, k) &&
        forall m :: p <= m < q ==> CodeAt(s, m, k).None?
    decreases |s| - p
  {
    var here := CodeAt(s, p, k);
    if here.Some? {
      assert SearchCode(s, p, k) == here;
    } else if p == |s| {
      assert SearchCode(s, p, k).None?;
    } else {
      assert SearchCode(s, p, k) == SearchCode(s, p + 1, k);
      SearchCodeSpec(s, p + 1, k);
      SearchCodeStep(s, p, k);
    }
  }

  /** The search from `p` inherits the answer of the search from `p + 1`
      when the pattern does not match at `p`. */
  lemma SearchCodeStep(s: string, p: nat, k: CharClass)
    requires p < |s| && CodeAt(s, p, k).None?
    requires SearchCode(s, p + 1, k).None? <==> forall m :: p + 1 <= m <= |s| ==> CodeAt(s, m, k).None?
    requires SearchCode(s, p + 1, k).Some? ==>
      exists q :: p + 1 <= q <= |s| && SearchCode(s, p + 1, k) == CodeAt(s, q, k) &&
        forall m :: p + 1 <= m < q ==> CodeAt(s, m, k).None?
    ensures (forall m :: p + 1 <= m <= |s| ==> CodeAt(s, m, k).None?) <==> (forall m :: p <= m <= |s| ==> CodeAt(s, m, k).None?)
    ensures SearchCode(s, p + 1, k).Some? ==>
      exists q :: p <= q <= |s| && SearchCode(s, p + 1, k) == CodeAt(s, q, k) &&
        forall m :: p <= m < q ==> CodeAt(s, m, k).None?
  {
    if SearchCode(s, p + 1, k).Some? {
      var q :| p + 1 <= q <= |s| && SearchCode(s, p + 1, k) == CodeAt(s, q, k) &&
        forall m :: p + 1 <= m < q ==> CodeAt(s, m, k).None?;
      assert forall m :: p <= m < q ==> CodeAt(s, m, k).None?;
    }
  }

  /** A code found at any position is a maximal run of its class: it comes
      right after a digit, and the text ends after it or goes on with a
      character outside the class, as the greedy `+` of the pattern takes. */
  lemma CodeAtGreedy(s: string, p: nat, k: CharClass)
    requires p <= |s| && CodeAt(s, p, k).Some?
    ensures var code := CodeAt(s, p, k).value;
      var e := CodeAtStart(s, p, k);
      && 0 < e && e + |code| <= |s| && s[e..e + |code|] == code && IsDigit(s[e - 1])
      && (e + |code| == |s| || !InClass(k, s[e + |code|]))
  {
    var e := CodeAtStart(s, p, k);
    RunEnds(s, e, k);
  }

  /** Where the code found at `p` starts: right after the digit run. */
  function CodeAtStart(s: string, p: nat, k: CharClass): (e: nat)
    requires p <= |s| && CodeAt(s, p, k).Some?
    ensures 0 < e <= |s| && IsDigit(s[e - 1])
    ensures CodeAt(s, p, k).value == s[e..e + Run(s, e, k)]
  {
    var a := Run(s, p, Letter);
    var b := Run(s, p + a + 1, Letter);
    var q := p + a + b + 2;
    var d := Run(s, q, Digit);
    RunInClass(s, q, Digit);
    q + d
  }

  /** The footnote letter: the lowercase run after the digits
      (parse.py:413). */
  function FootnoteLetter(id: string): Option<string>
  {
    SearchCode(id, 0, Lower)
  }

  /** The cross-reference letter: the uppercase run after the digits
      (parse.py:462). */
  function CrossrefLetter(id: string): Option<string>
  {
    SearchCode(id, 0, Upper)
  }

  /** A piece of class `k` copied into `s` at `i`. */
  lemma PieceInClass(s: string, i: nat, w: string, k: CharClass)
    requires i + |w| <= |s| && s[i..i + |w|] == w && AllIn(k, w)
    ensures InClassBetween(k, s, i, i + |w|)
  {
    forall m | i <= m < i + |w| ensures InClass(k, s[m]) { assert s[m] == s[i..i + |w|][m - i]; }
  }

  /** The pattern matches at position 0 once the four greedy runs are known. */
  lemma CodeAtFromRuns(s: string, a: nat, b: nat, d: nat, g: nat, k: CharClass)
    requires a > 0 && b > 0 && d > 0 && g > 0 && a + b + d + g + 2 <= |s|
    requires s[a] == '-' && s[a + 1 + b] == '-'
    requires Run(s, 0, Letter) == a && Run(s, a + 1, Letter) == b
    requires Run(s, a + b + 2, Digit) == d && Run(s, a + b + 2 + d, k) == g
    ensures SearchCode(s, 0, k) == Some(s[a + b + 2 + d..a + b + 2 + d + g])
  {
  }

  /** The id `a-b-<digits><code><rest>`. */
  function ComposedId(a: string, b: string, d: string, g: string, rest: string): string
  {
    a + ("-" + (b + ("-" + (d + (g + rest)))))
  }

  /** `s` starts with `a`, a dash, `b`, a dash, `d` and `g`, and what
      follows `g` does not go on with class `k`. */
  predicate PiecesAt(s: string, a: string, b: string, d: string, g: string, k: CharClass)
  {
    && |a| + |b| + |d| + |g| + 2 <= |s|
    && s[..|a|] == a && s[|a|] == '-'
    && s[|a| + 1..|a| + 1 + |b|] == b && s[|a| + 1 + |b|] == '-'
    && s[|a| + |b| + 2..|a| + |b| + 2 + |d|] == d
    && s[|a| + |b| + 2 + |d|..|a| + |b| + 2 + |d| + |g|] == g
    && (|a| + |b| + 2 + |d| + |g| == |s| || !InClass(k, s[|a| + |b| + 2 + |d| + |g|]))
  }

  /** The code read from a text whose pieces are known by position. */
  lemma CodeOfPieces(s: string, a: string, b: string, d: string, g: string, k: CharClass)
    requires a != [] && AllIn(Letter, a) && b != [] && AllIn(Letter, b)
    requires d != [] && AllIn(Digit, d) && g != [] && AllIn(k, g)
    requires k == Lower || k == Upper
    requires PiecesAt(s, a, b, d, g, k)
    ensures SearchCode(s, 0, k) == Some(g)
  {
    PiecesInClass(s, a, b, d, g, k);
    CodeOfClasses(s, |a|, |b|, |d|, |g|, k);
  }

  /** The pieces, read as character classes between positions. */
  lemma PiecesInClass(s: string, a: string, b: string, d: string, g: string, k: CharClass)
    requires AllIn(Letter, a) && AllIn(Letter, b) && AllIn(Digit, d) && AllIn(k, g)
    requires PiecesAt(s, a, b, d, g, k)
    ensures InClassBetween(Letter, s, 0, |a|) && InClassBetween(Letter, s, |a| + 1, |a| + 1 + |b|)
    ensures InClassBetween(Digit, s, |a| + |b| + 2, |a| + |b| + 2 + |d|)
    ensures InClassBetween(k, s, |a| + |b| + 2 + |d|, |a| + |b| + 2 + |d| + |g|)
    ensures s[|a|] == '-' && s[|a| + 1 + |b|] == '-'
    ensures s[|a| + |b| + 2 + |d|..|a| + |b| + 2 + |d| + |g|] == g
    ensures |a| + |b| + 2 + |d| + |g| == |s| || !InClass(k, s[|a| + |b| + 2 + |d| + |g|])
  {
    assert s[0..|a|] == a;
    PieceInClass(s, 0, a, Letter);
    PieceInClass(s, |a| + 1, b, Letter);
    PieceInClass(s, |a| + |b| + 2, d, Digit);
    PieceInClass(s, |a| + |b| + 2 + |d|, g, k);
  }

  /** The code read from a text made of letters, a dash, letters, a dash,
      digits and the code, whose four greedy runs end where the pieces do. */
  lemma CodeOfClasses(s: string, a: nat, b: nat, d: nat, g: nat, k: CharClass)
    requires 0 < g && a + b + d + g + 2 <= |s| && s[a] == '-' && s[a + 1 + b] == '-'
    requires k == Lower || k == Upper
    requires InClassBetween(Letter, s, 0, a) && InClassBetween(Letter, s, a + 1, a + 1 + b)
    requires InClassBetween(Digit, s, a + b + 2, a + b + 2 + d)
    requires InClassBetween(k, s, a + b + 2 + d, a + b + 2 + d + g)
    requires a + b + 2 + d + g == |s| || !InClass(k, s[a + b + 2 + d + g])
    requires 0 < a && 0 < b && 0 < d
    ensures SearchCode(s, 0, k) == Some(s[a + b + 2 + d..a + b + 2 + d + g])
  {
    RunReaches(s, 0, a, Letter);
    RunReaches(s, a + 1, a + 1 + b, Letter);
    CodeNotDigit(k, s[a + b + 2 + d]);
    RunReaches(s, a + b + 2, a + b + 2 + d, Digit);
    RunReaches(s, a + b + 2 + d, a + b + 2 + d + g, k);
    CodeAtFromRuns(s, a, b, d, g, k);
  }

  /** A letter of the code is no digit. */
  lemma CodeNotDigit(k: CharClass, c: char)
    requires k == Lower || k == Upper
    requires InClass(k, c)
    ensures !InClass(Digit, c)
  {
  }

  /** An id `a-b-<digits><code><rest>` yields the code when the letter
      groups are letters, the digits are digits and `rest` does not go on
      with the code's class. */
  lemma CodeOfComposedId(a: string, b: string, d: string, g: string, rest: string, k: CharClass)
    requires a != [] && AllIn(Letter, a) && b != [] && AllIn(Letter, b)
    requires d != [] && AllDigits(d) && g != [] && AllIn(k, g)
    requires rest == [] || !InClass(k, rest[0])
    requires k == Lower || k == Upper
    ensures SearchCode(ComposedId(a, b, d, g, rest), 0, k) == Some(g)
  {
    var s := ComposedId(a, b, d, g, rest);
    var e := |a| + |b| + 2 + |d|;
    assert s[..|a|] == a && s[|a|] == '-';
    assert s[|a| + 1..|a| + 1 + |b|] == b && s[|a| + 1 + |b|] == '-';
    assert s[|a| + |b| + 2..e] == d;
    assert s[e..e + |g|] == g;
    assert e + |g| < |s| ==> s[e + |g|] == rest[0];
    assert AllIn(Digit, d);
    CodeOfPieces(s, a, b, d, g, k);
  }

  /** The id of the footnote linker's example, `fen-NRSVUE-30261a`, gives `a`. */
  lemma FootnoteLetterExample()
    ensures FootnoteLetter("fen-NRSVUE-30261a") == Some("a")
  {
    var s := "fen-NRSVUE-30261a";
    assert s[..3] == "fen" && s[4..10] == "NRSVUE" && s[11..16] == "30261" && s[16..17] == "a";
    CodeOfPieces(s, "fen", "NRSVUE", "30261", "a", Lower);
  }

  /** The id of the cross-reference linker's example, `cen-NRSVUE-2B`, gives `B`. */
  lemma CrossrefLetterExample()
    ensures CrossrefLetter("cen-NRSVUE-2B") == Some("B")
  {
    var s := "cen-NRSVUE-2B";
    assert s[..3] == "cen" && s[4..10] == "NRSVUE" && s[11..12] == "2" && s[12..13] == "B";
    CodeOfPieces(s, "cen", "NRSVUE", "2", "B", Upper);
  }

  /** What one child of the footnote text contributes (parse.py:173-192): an
      italic element is wrapped, a small-caps span becomes LORD, an anchor
      becomes a `[[...]]` link, a text node is copied, other elements give
      nothing. */
  function FootnotePiece(fmt: OutputFormat, tag: Node): string
  {
    match tag
    case Text(s) => s
    case Element(name, _, _) =>
      if name == "i" then Italic(fmt, TextContent(tag))
      else if FindClass(tag, "small-caps") then Lord(fmt)
      else if name == "a" then "[[" + TextContent(tag) + "]]"
      else ""
  }

  /** `format_footnote(text, tag)`: the text with the child's piece appended. */
  function FormatFootnote(fmt: OutputFormat, text: string, tag: Node): (r: string)
    ensures StartsWith(r, text)
    ensures tag.Element? && tag.name != "i" && tag.name != "a" && !FindClass(tag, "small-caps") ==> r == text
    ensures tag.Text? ==> r == text + tag.content
  {
    text + FootnotePiece(fmt, tag)
  }

  /** An `i` child appends its text in underscores (markdown) or `<i>`
      (html), and nothing in an unrecognised format. */
  lemma FootnoteItalic(text: string, tag: Node)
    requires tag.Element? && tag.name == "i"
    ensures FormatFootnote(Markdown, text, tag) == text + "__" + TextContent(tag) + "__"
    ensures FormatFootnote(Html, text, tag) == text + "<i>" + TextContent(tag) + "</i>"
    ensures FormatFootnote(Unrecognized, text, tag) == text
  {
    var t := TextContent(tag);
    Regroup3(text, "__", t, "__");
    Regroup3(text, "<i>", t, "</i>");
    assert text + "" == text;
  }

  /** A small-caps child that is not an `i` appends a bold LORD, and nothing
      in an unrecognised format. */
  lemma FootnoteSmallCaps(text: string, tag: Node)
    requires tag.Element? && tag.name != "i" && FindClass(tag, "small-caps")
    ensures FormatFootnote(Markdown, text, tag) == text + "**LORD**"
    ensures FormatFootnote(Html, text, tag) == text + "<b>LORD</b>"
    ensures FormatFootnote(Unrecognized, text, tag) == text
  {
    LordText();
    assert FootnotePiece(Markdown, tag) == Lord(Markdown);
    assert FootnotePiece(Html, tag) == Lord(Html);
    assert text + "" == text;
  }

  lemma LordText()
    ensures Lord(Markdown) == "**LORD**" && Lord(Html) == "<b>LORD</b>"
  {
  }

  /** A link that is not small-caps appends its text in double brackets,
      whatever the format. */
  lemma FootnoteLink(fmt: OutputFormat, text: string, tag: Node)
    requires tag.Element? && tag.name == "a" && !FindClass(tag, "small-caps")
    ensures FormatFootnote(fmt, text, tag) == text + "[[" + TextContent(tag) + "]]"
  {
    Regroup3(text, "[[", TextContent(tag), "]]");
  }

  lemma Regroup3(a: string, b: string, c: string, d: string)
    ensures a + (b + c + d) == a + b + c + d
  {
  }

  /** The footnote body: the pieces of the footnote text's children, in order. */
  function FootnoteText(fmt: OutputFormat, objs: seq<Node>): string
  {
    if objs == [] then "" else FootnoteText(fmt, objs[..|objs| - 1]) + FootnotePiece(fmt, objs[|objs| - 1])
  }

  /** The loop of parse.py:424-425 folding `format_footnote` over the
      children of the footnote text. */
  method FootnoteBody(fmt: OutputFormat, objs: seq<Node>) returns (text: string)
    ensures text == FootnoteText(fmt, objs)
  {
    text := "";
    var k := 0;
    while k < |objs|
      invariant 0 <= k <= |objs|
      invariant text == FootnoteText(fmt, objs[..k])
    {
      assert objs[..k + 1][..k] == objs[..k];
      text := FormatFootnote(fmt, text, objs[k]);
      k := k + 1;
    }
    assert objs[..k] == objs;
  }

  /** The body is the concatenation of the bodies of any split of the children. */
  lemma {:induction false} FootnoteTextAppend(fmt: OutputFormat, a: seq<Node>, b: seq<Node>)
    ensures FootnoteText(fmt, a + b) == FootnoteText(fmt, a) + FootnoteText(fmt, b)
    decreases |b|
  {
    if b == [] {
      assert a + b == a;
    } else {
      var b' := b[..|b| - 1];
      assert (a + b)[..|a + b| - 1] == a + b';
      assert (a + b)[|a + b| - 1] == b[|b| - 1];
      FootnoteTextAppend(fmt, a, b');
      var x, y, z := FootnoteText(fmt, a), FootnoteText(fmt, b'), FootnotePiece(fmt, b[|b| - 1]);
      AppendAssoc(x, y, z);
    }
  }

  /** A footnote text "Or <i>the</i> LORD" in markdown. */
  lemma FootnoteExample()
    ensures FootnoteText(Markdown, [Text("Or "), Element("i", [], [Text("the")]), Element("span", ["small-caps"], [Text("Lord")])])
      == "Or __the__**LORD**"
  {
    var objs := [Text("Or "), Element("i", [], [Text("the")]), Element("span", ["small-caps"], [Text("Lord")])];
    assert objs[..2][..1] == [Text("Or ")];
    assert objs[..2] == [Text("Or "), Element("i", [], [Text("the")])];
    assert [Text("Or ")][..0] == [];
    assert TextOfAll([Text("the")][1..]) == "";
  }

  /** The version of the bible being parsed, as far as the linkers tell
      versions apart. */
  datatype Version = NRSVUE | ASV | OtherVersion

  /** The text handed to the resolver for a footnote (parse.py:433-438).
      The `.replace(".", ":")` of parse.py:434 is applied to the literal key
      "verse_ref", not to the anchor text, so dots reach the resolver
      unchanged. Other versions resolve nothing. */
  function FootnoteLocator(version: Version, shortTitle: string, anchor: string): Option<string>
  {
    match version
    case NRSVUE => Some(shortTitle + " " + anchor)
    case ASV => Some(anchor)
    case OtherVersion => None
  }

  /** The source locator of a cross-reference, whatever the version
      (parse.py:473). */
  function CrossrefLocator(shortTitle: string, anchor: string): string
  {
    shortTitle + " " + anchor
  }

  /** `[r.strip() for r in parts]` */
  function StripAll(parts: seq<string>): seq<string>
  {
    seq(|parts|, i requires 0 <= i < |parts| => Strip(parts[i]))
  }

  /** The targets of a cross-reference: the comma-separated parts of its
      `data-bibleref` attribute, stripped (parse.py:471). */
  function CrossrefTargets(bibleref: string): seq<string>
  {
    StripAll(Split(bibleref, ','))
  }

  /** The targets of a `data-bibleref` are its comma-separated parts, in
      order, each with its surrounding white space removed: there is one
      target per part, the parts joined by commas give back the attribute,
      and target i is part i stripped, so it holds no comma and neither
      starts nor ends with white space. */
  lemma CrossrefTargetsSpec(bibleref: string)
    ensures var parts := Split(bibleref, ',');
      var r := CrossrefTargets(bibleref);
      && |r| == |parts| >= 1
      && Join(parts, ',') == bibleref
      && (forall i :: 0 <= i < |r| ==> StrippedFrom(parts[i], r[i]))
      && (forall i :: 0 <= i < |r| ==> ',' !in r[i])
  {
    var parts := Split(bibleref, ',');
    var r := StripAll(parts);
    JoinSplit(bibleref, ',');
    forall i | 0 <= i < |r| ensures StrippedFrom(parts[i], r[i]) && ',' !in r[i] {
      assert r[i] == Strip(parts[i]);
      StrippedKeepsOut(parts[i], r[i], ',');
    }
  }

  /** A target list without spaces around the commas splits back into the
      original targets. */
  lemma TargetsOfJoined(targets: seq<string>)
    requires |targets| >= 1
    requires forall i :: 0 <= i < |targets| ==> ',' !in targets[i]
    requires forall i :: 0 <= i < |targets| ==> targets[i] == [] || (!IsSpace(targets[i][0]) && !IsSpace(targets[i][|targets[i]| - 1]))
    ensures CrossrefTargets(Join(targets, ',')) == targets
  {
    SplitJoin(targets, ',');
    forall i | 0 <= i < |targets| ensures Strip(targets[i]) == targets[i] {
      StripClean(targets[i]);
    }
  }
}
