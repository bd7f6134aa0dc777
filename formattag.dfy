/** `format_tag` (parse.py:126-171): the fold of one markup node into the
    verse text being accumulated. */
module Formatting {
  import opened Strings
  import opened Markup

  /** The class tokens that mark a superscript as a footnote or cross-reference marker. */
  predicate IsMarker(tag: Node)
  {
    tag.Element? && tag.name == "sup" && (FindClass(tag, "footnote") || FindClass(tag, "crossreference"))
  }

  /** A chapter or verse number (by class or by tag name). */
  predicate IsNumber(tag: Node)
  {
    FindClass(tag, "chapternum") || FindClass(tag, "versenum") || (tag.Element? && tag.name == "versenum")
  }

  /** A chapter or verse number that opens a section. */
  predicate IsOpening(tag: Node)
  {
    IsNumber(tag) && FindClass(tag, "opening")
  }

  /** The marker text after the four one-pass replacements of parse.py:143
      (markdown) or parse.py:145 (html); nothing for any other format. */
  function MarkerText(fmt: OutputFormat, t: string): string
  {
    match fmt
    case Markdown => Replace(Replace(Replace(Replace(t, "[", " __["), "]", "]__"), "(", " __("), ")", ")__")
    case Html => Replace(Replace(Replace(Replace(t, "[", " <i>["), "]", "]</i>"), "(", " <i>("), ")", ")</i>")
    case Unrecognized => ""
  }

  /** What a single marker character becomes: brackets and parentheses open
      or close an italic span, every other character stays. */
  function Glyph(fmt: OutputFormat, c: char): string
  {
    match fmt
    case Markdown =>
      if c == '[' then " __[" else if c == ']' then "]__"
      else if c == '(' then " __(" else if c == ')' then ")__" else [c]
    case Html =>
      if c == '[' then " <i>[" else if c == ']' then "]</i>"
      else if c == '(' then " <i>(" else if c == ')' then ")</i>" else [c]
    case Unrecognized => ""
  }

  /** The character-by-character reading of the marker rewrite. */
  function Glyphs(fmt: OutputFormat, t: string): string
  {
    if t == [] then "" else Glyph(fmt, t[0]) + Glyphs(fmt, t[1..])
  }

  /** A one-character replacement leaves a text without that character alone. */
  lemma {:induction false} ReplaceAbsent(s: string, x: char, rep: string)
    requires x !in s
    ensures Replace(s, [x], rep) == s
    decreases |s|
  {
    if s != [] {
      ReplaceCharCons(s[0], s[1..], x, rep);
      assert [s[0]] + s[1..] == s;
      ReplaceAbsent(s[1..], x, rep);
    }
  }

  /** The four chained replacements distribute over concatenation. */
  lemma MarkerTextAppend(fmt: OutputFormat, a: string, b: string)
    ensures MarkerText(fmt, a + b) == MarkerText(fmt, a) + MarkerText(fmt, b)
  {
    match fmt
    case Markdown =>
      ReplaceCharAppend(a, b, '[', " __[");
      var a1, b1 := Replace(a, "[", " __["), Replace(b, "[", " __[");
      ReplaceCharAppend(a1, b1, ']', "]__");
      var a2, b2 := Replace(a1, "]", "]__"), Replace(b1, "]", "]__");
      ReplaceCharAppend(a2, b2, '(', " __(");
      var a3, b3 := Replace(a2, "(", " __("), Replace(b2, "(", " __(");
      ReplaceCharAppend(a3, b3, ')', ")__");
    case Html =>
      ReplaceCharAppend(a, b, '[', " <i>[");
      var a1, b1 := Replace(a, "[", " <i>["), Replace(b, "[", " <i>[");
      ReplaceCharAppend(a1, b1, ']', "]</i>");
      var a2, b2 := Replace(a1, "]", "]</i>"), Replace(b1, "]", "]</i>");
      ReplaceCharAppend(a2, b2, '(', " <i>(");
      var a3, b3 := Replace(a2, "(", " <i>("), Replace(b2, "(", " <i>(");
      ReplaceCharAppend(a3, b3, ')', ")</i>");
    case Unrecognized =>
  }

  /** Replacing `x` by `rep` in a one-character text. */
  lemma ReplaceOne(c: char, x: char, rep: string)
    ensures Replace([c], [x], rep) == if c == x then rep else [c]
  {
    ReplaceCharCons(c, [], x, rep);
    assert [c] + [] == [c];
  }

  /** On one character the chained replacements give its glyph: no later
      replacement touches what an earlier one inserted. */
  lemma MarkerTextChar(fmt: OutputFormat, c: char)
    ensures MarkerText(fmt, [c]) == Glyph(fmt, c)
  {
    if fmt.Markdown? {
      ReplaceOne(c, '[', " __[");
      var s1 := Replace([c], "[", " __[");
      if c == '[' {
        ReplaceAbsent(s1, ']', "]__");
        ReplaceAbsent(s1, '(', " __(");
        ReplaceAbsent(s1, ')', ")__");
      } else {
        ReplaceOne(c, ']', "]__");
        var s2 := Replace([c], "]", "]__");
        if c == ']' {
          ReplaceAbsent(s2, '(', " __(");
          ReplaceAbsent(s2, ')', ")__");
        } else {
          ReplaceOne(c, '(', " __(");
          if c == '(' {
            ReplaceAbsent(" __(", ')', ")__");
          } else {
            ReplaceOne(c, ')', ")__");
          }
        }
      }
    } else if fmt.Html? {
      ReplaceOne(c, '[', " <i>[");
      var s1 := Replace([c], "[", " <i>[");
      if c == '[' {
        ReplaceAbsent(s1, ']', "]</i>");
        ReplaceAbsent(s1, '(', " <i>(");
        ReplaceAbsent(s1, ')', ")</i>");
      } else {
        ReplaceOne(c, ']', "]</i>");
        var s2 := Replace([c], "]", "]</i>");
        if c == ']' {
          ReplaceAbsent(s2, '(', " <i>(");
          ReplaceAbsent(s2, ')', ")</i>");
        } else {
          ReplaceOne(c, '(', " <i>(");
          if c == '(' {
            ReplaceAbsent(" <i>(", ')', ")</i>");
          } else {
            ReplaceOne(c, ')', ")</i>");
          }
        }
      }
    }
  }

  /** The chained `str.replace` calls of parse.py:143/145 rewrite every
      character of the marker independently. */
  lemma {:induction false} MarkerTextIsGlyphs(fmt: OutputFormat, t: string)
    ensures MarkerText(fmt, t) == Glyphs(fmt, t)
    decreases |t|
  {
    if t == [] {
      assert MarkerText(fmt, t) == "";
    } else {
      assert t == [t[0]] + t[1..];
      MarkerTextAppend(fmt, [t[0]], t[1..]);
      MarkerTextChar(fmt, t[0]);
      MarkerTextIsGlyphs(fmt, t[1..]);
    }
  }

  /** A markdown footnote marker "[a]" becomes " __[a]__". */
  lemma MarkdownMarkerExample()
    ensures MarkerText(Markdown, "[a]") == " __[a]__"
  {
    MarkerTextIsGlyphs(Markdown, "[a]");
    MarkdownMarkerGlyphs();
    MarkdownMarkerJoin();
  }

  lemma MarkdownMarkerGlyphs()
    ensures Glyphs(Markdown, "[a]") == " __[" + ("a" + "]__")
  {
    assert "[a]"[0] == '[' && "[a]"[1..] == "a]";
    assert "a]"[0] == 'a' && "a]"[1..] == "]";
    assert "]"[0] == ']' && "]"[1..] == [];
    assert Glyphs(Markdown, "]") == "]__" + "";
  }

  lemma MarkdownMarkerJoin()
    ensures " __[" + ("a" + "]__") == " __[a]__"
  {
  }

  /** `format_tag(config, acc, tag)`. An element with class `text` first
      folds its children; then an opening number replaces the whole text by
      the paragraph mark, a footnote or cross-reference superscript appends
      its rewritten marker and halves every run of spaces, a small-caps span
      appends LORD, and every other element leaves the text as it is. A text
      node appends its string. */
  function FormatTag(fmt: OutputFormat, acc: string, tag: Node): string
    decreases tag
  {
    match tag
    case Text(s) => acc + s
    case Element(name, _, children) =>
      var inner := if FindClass(tag, "text") then FormatChildren(fmt, acc, children) else acc;
      if IsNumber(tag) then
        (if FindClass(tag, "opening") then "¶ " else inner)
      else if name == "sup" then
        (if IsMarker(tag) then Replace(inner + MarkerText(fmt, TextContent(tag)), "  ", " ") else inner)
      else if name == "div" then inner
      else if FindClass(tag, "small-caps") then inner + Lord(fmt)
      else inner
  }

  /** The loop over the children of a `text` element (parse.py:132-133). */
  function FormatChildren(fmt: OutputFormat, acc: string, children: seq<Node>): string
    decreases children
  {
    if children == [] then acc else FormatChildren(fmt, FormatTag(fmt, acc, children[0]), children[1..])
  }

  /** Folding over two runs of children is folding over the first and then
      over the second. */
  lemma {:induction false} FormatChildrenAppend(fmt: OutputFormat, acc: string, a: seq<Node>, b: seq<Node>)
    ensures FormatChildren(fmt, acc, a + b) == FormatChildren(fmt, FormatChildren(fmt, acc, a), b)
    decreases |a|
  {
    if a == [] {
      assert a + b == b;
    } else {
      assert (a + b)[0] == a[0] && (a + b)[1..] == a[1..] + b;
      FormatChildrenAppend(fmt, FormatTag(fmt, acc, a[0]), a[1..], b);
    }
  }

  /** A node whose formatting never meets an opening number or a footnote
      marker: the formatting then only appends to the text. */
  predicate Plain(tag: Node)
    decreases tag
  {
    match tag
    case Text(_) => true
    case Element(_, _, children) =>
      !IsOpening(tag) && !IsMarker(tag) && (FindClass(tag, "text") ==> AllPlain(children))
  }

  predicate AllPlain(children: seq<Node>)
    decreases children
  {
    forall i :: 0 <= i < |children| ==> Plain(children[i])
  }

  /** The text a plain node contributes, independently of the text before it:
      the text of a text node, its descended children for a `text` element,
      LORD for a small-caps span, nothing for any other element. */
  function Render(fmt: OutputFormat, tag: Node): string
    decreases tag
  {
    match tag
    case Text(s) => s
    case Element(name, _, children) =>
      (if FindClass(tag, "text") then RenderAll(fmt, children) else "") +
      (if !IsNumber(tag) && name != "sup" && name != "div" && FindClass(tag, "small-caps") then Lord(fmt) else "")
  }

  function RenderAll(fmt: OutputFormat, children: seq<Node>): string
    decreases children
  {
    if children == [] then "" else Render(fmt, children[0]) + RenderAll(fmt, children[1..])
  }

  /** Formatting a plain node appends its rendering to whatever was there. */
  lemma {:induction false} FormatTagPlain(fmt: OutputFormat, acc: string, tag: Node)
    requires Plain(tag)
    ensures FormatTag(fmt, acc, tag) == acc + Render(fmt, tag)
    decreases tag
  {
    match tag
    case Text(_) =>
    case Element(name, _, children) =>
      if FindClass(tag, "text") {
        FormatChildrenPlain(fmt, acc, children);
      }
  }

  lemma {:induction false} FormatChildrenPlain(fmt: OutputFormat, acc: string, children: seq<Node>)
    requires AllPlain(children)
    ensures FormatChildren(fmt, acc, children) == acc + RenderAll(fmt, children)
    decreases children
  {
    if children != [] {
      FormatTagPlain(fmt, acc, children[0]);
      assert AllPlain(children[1..]) by {
        forall i | 0 <= i < |children[1..]| ensures Plain(children[1..][i]) {
          assert children[1..][i] == children[i + 1];
        }
      }
      FormatChildrenPlain(fmt, acc + Render(fmt, children[0]), children[1..]);
    }
  }

  /** An element without class `text` that is no number, marker or small-caps
      span leaves the text unchanged, whatever its children hold. */
  lemma NoDescent(fmt: OutputFormat, acc: string, tag: Node)
    requires tag.Element? && !FindClass(tag, "text") && !IsNumber(tag) && !IsMarker(tag) && !FindClass(tag, "small-caps")
    ensures FormatTag(fmt, acc, tag) == acc
  {
  }

  /** A small-caps span renders as LORD whatever its content. */
  lemma SmallCapsIsLord(fmt: OutputFormat, acc: string, tag: Node)
    requires tag.Element? && FindClass(tag, "small-caps") && !FindClass(tag, "text")
    requires !IsNumber(tag) && tag.name != "sup" && tag.name != "div"
    ensures FormatTag(fmt, acc, tag) == acc + (if fmt.Markdown? then "**LORD**" else if fmt.Html? then "<b>LORD</b>" else "")
  {
  }

  /** In a `text` span, an opening number discards everything folded before
      it: the result is the paragraph mark followed by the rendering of the
      plain children after it. */
  lemma {:induction false} OpeningResets(fmt: OutputFormat, acc: string, span: Node, k: nat)
    requires span.Element? && FindClass(span, "text") && !IsNumber(span)
    requires span.name != "sup" && span.name != "div" && !FindClass(span, "small-caps")
    requires k < |span.children| && IsOpening(span.children[k]) && AllPlain(span.children[k + 1..])
    ensures FormatTag(fmt, acc, span) == "¶ " + RenderAll(fmt, span.children[k + 1..])
  {
    var cs := span.children;
    assert cs == cs[..k] + ([cs[k]] + cs[k + 1..]);
    FormatChildrenAppend(fmt, acc, cs[..k], [cs[k]] + cs[k + 1..]);
    var before := FormatChildren(fmt, acc, cs[..k]);
    assert FormatTag(fmt, before, cs[k]) == "¶ ";
    FormatChildrenPlain(fmt, "¶ ", cs[k + 1..]);
  }

  /** The opening chapter number of Genesis 1 as the site marks it up. */
  const OpeningNumber: Node := Element("span", ["chapternum", "opening"], [Text("1 ")])

  /** The first verse of Genesis 1: an opening chapter number, then the words. */
  const OpeningVerse: Node := Element("span", ["text", "Gen-1-1"], [OpeningNumber, Text("In the beginning")])

  lemma OpeningNumberIsOpening()
    ensures IsOpening(OpeningNumber)
  {
    assert "chapternum" in OpeningNumber.classes && "opening" in OpeningNumber.classes;
  }

  lemma OpeningVerseIsText()
    ensures FindClass(OpeningVerse, "text") && !IsNumber(OpeningVerse) && !FindClass(OpeningVerse, "small-caps")
    ensures OpeningVerse.name != "sup" && OpeningVerse.name != "div"
  {
    assert "text" in OpeningVerse.classes;
    assert "chapternum" != "text" && "chapternum" != "Gen-1-1";
    assert "versenum" != "text" && "versenum" != "Gen-1-1";
    assert "small-caps" != "text" && "small-caps" != "Gen-1-1";
  }

  lemma OpeningVerseWords(fmt: OutputFormat)
    ensures |OpeningVerse.children| == 2 && OpeningVerse.children[0] == OpeningNumber
    ensures AllPlain(OpeningVerse.children[1..])
    ensures RenderAll(fmt, OpeningVerse.children[1..]) == "In the beginning"
  {
    var words := [Text("In the beginning")];
    assert OpeningVerse.children[1..] == words;
    assert Plain(words[0]);
    assert words[1..] == [];
  }

  /** The opening verse of a chapter: a `text` span holding an opening
      chapter number and the words gives "¶ " and the words. */
  lemma OpeningExample(fmt: OutputFormat, acc: string)
    ensures FormatTag(fmt, acc, OpeningVerse) == "¶ In the beginning"
  {
    OpeningNumberIsOpening();
    OpeningVerseIsText();
    OpeningVerseWords(fmt);
    OpeningResets(fmt, acc, OpeningVerse, 0);
    OpeningVerseText();
  }

  lemma OpeningVerseText()
    ensures "¶ " + "In the beginning" == "¶ In the beginning"
  {
  }

  /** A footnote marker with no text, after a run of `n` spaces: the one
      pass of `replace("  ", " ")` leaves ceil(n/2) spaces, not one. */
  lemma MarkerHalvesSpaces(fmt: OutputFormat, n: nat)
    ensures FormatTag(fmt, Spaces(n), Element("sup", ["footnote"], [])) == Spaces((n + 1) / 2)
  {
    var sup := Element("sup", ["footnote"], []);
    assert TextContent(sup) == "";
    MarkerTextIsGlyphs(fmt, "");
    assert Spaces(n) + "" == Spaces(n);
    CollapseSpaceRun(n);
  }

  /** In particular three spaces become two. */
  lemma ThreeSpacesBecomeTwo(fmt: OutputFormat)
    ensures FormatTag(fmt, "   ", Element("sup", ["footnote"], [])) == "  "
  {
    MarkerHalvesSpaces(fmt, 3);
    assert Spaces(3) == "   " && Spaces(2) == "  ";
  }
}
