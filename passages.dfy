/** The passage loop of parse.py:294-397: the text of one verse is rebuilt
    from the `text` spans that carry its class, one passage at a time, with a
    counter of the poetry lines seen so far. */
module Passages {
  import opened Options
  import opened Strings
  import opened Markup
  import opened Formatting

  /** The fixed poetry indentation (parse.py:252). */
  const Indent: string := "    "

  /** One `text` span of the verse and the facts about its surroundings that
      the loop asks the markup tree for: its parent's tag name and whether
      that parent has a previous sibling, its own previous sibling, whether
      it has a `poetry` division among its ancestors, and whether every
      `span` among its ancestors carries a class attribute. */
  datatype Passage = Passage(
    node: Node,
    parentName: string,
    parentHasPrevSibling: bool,
    prevSibling: Option<Node>,
    inPoetry: bool,
    spanAncestorsClassed: bool)

  /** Python truthiness of a previous sibling: an element is always true, a
      text node only when it is not empty. */
  predicate Truthy(sibling: Option<Node>)
  {
    sibling.Some? && !(sibling.value.Text? && sibling.value.content == "")
  }

  /** A heading passage: its parent is a section heading or a verse number. */
  predicate IsHeading(p: Passage)
  {
    p.parentName == "h3" || p.parentName == "versenum"
  }

  /** A passage that takes the poetry branch and counts as a poetry line. */
  predicate IsPoetryLine(p: Passage)
  {
    !IsHeading(p) && p.inPoetry
  }

  /** The poetry branch reads the class attribute of every `span` ancestor
      (parse.py:357-358), which raises KeyError for one without classes;
      with `i > 0` it also asks a truthy previous sibling for its class
      attribute, which a text node does not have (AttributeError). */
  predicate StepDefined(p: Passage, i: nat)
  {
    && !(IsPoetryLine(p) && !p.spanAncestorsClassed)
    && !(IsPoetryLine(p) && i > 0 && Truthy(p.prevSibling) && p.prevSibling.value.Text?)
  }

  /** A poetry line below a `span` without a class attribute stops the run,
      whatever the poetry counter. */
  lemma ClasslessSpanAncestorCrashes(p: Passage, i: nat)
    requires IsPoetryLine(p) && !p.spanAncestorsClassed
    ensures !StepDefined(p, i)
  {
  }

  /** A heading: bold passage text and a newline, preceded by a newline when
      the heading's parent has a previous sibling (parse.py:315-343). */
  function Heading(fmt: OutputFormat, afterSibling: bool, t: string): string
  {
    if fmt.Unrecognized? then "" else (if afterSibling then "\n" else "") + Bold(fmt, t) + "\n"
  }

  /** `re.search("indent-(\d+)-breaks", s)` matches at position `q`. Greedy
      digits followed by a dash can only be the whole digit run. */
  predicate IndentBreaksAt(s: string, q: nat)
  {
    q + 7 <= |s| && s[q..q + 7] == "indent-" &&
    var n := Run(s, q + 7, Digit);
    n > 0 && q + 14 + n <= |s| && s[q + 7 + n..q + 14 + n] == "-breaks"
  }

  predicate IndentBreaks(s: string)
  {
    exists q :: 0 <= q <= |s| && IndentBreaksAt(s, q)
  }

  /** The reading of the pattern with an arbitrary digit count picks the
      same positions as the greedy one. */
  lemma IndentBreaksAtAnyDigits(s: string, q: nat, d: nat)
    requires q + 14 + d <= |s| && s[q..q + 7] == "indent-" && d > 0
    requires InClassBetween(Digit, s, q + 7, q + 7 + d) && s[q + 7 + d..q + 14 + d] == "-breaks"
    ensures IndentBreaksAt(s, q)
  {
    assert s[q + 7 + d] == "-breaks"[0];
    RunReaches(s, q + 7, q + 7 + d, Digit);
  }

  /** parse.py:371-376: the previous sibling's text, with non-breaking
      spaces made plain, once for every class token that names an
      `indent-N-breaks` span. */
  function IndentCopies(classes: seq<string>, piece: string): string
  {
    if classes == [] then ""
    else (if IndentBreaks(classes[0]) then piece else "") + IndentCopies(classes[1..], piece)
  }

  /** The copy is made once per matching token: none when no token matches,
      and the whole piece again for each further matching token. */
  lemma {:induction false} IndentCopiesCount(classes: seq<string>, piece: string, tok: string)
    ensures (forall j :: 0 <= j < |classes| ==> !IndentBreaks(classes[j])) ==> IndentCopies(classes, piece) == ""
    ensures IndentBreaks(tok) ==> IndentCopies([tok] + classes, piece) == piece + IndentCopies(classes, piece)
    decreases |classes|
  {
    assert ([tok] + classes)[1..] == classes;
    if classes != [] && forall j :: 0 <= j < |classes| ==> !IndentBreaks(classes[j]) {
      assert forall j :: 0 <= j < |classes[1..]| ==> classes[1..][j] == classes[j + 1];
      IndentCopiesCount(classes[1..], piece, tok);
    }
  }

  /** An `indent-1-breaks` span matches the pattern. */
  lemma IndentOneBreaks()
    ensures IndentBreaks("indent-1-breaks")
  {
    var s := "indent-1-breaks";
    RunReaches(s, 7, 8, Digit);
    assert IndentBreaksAt(s, 0);
  }

  /** The leading indentation copied before a poetry line after the first. */
  function LeadingIndent(p: Passage): string
    requires !(Truthy(p.prevSibling) && p.prevSibling.value.Text?)
  {
    if !Truthy(p.prevSibling) then ""
    else IndentCopies(p.prevSibling.value.classes, Replace(TextContent(p.prevSibling.value), "\U{a0}", " "))
  }

  /** The loop state: the text so far and the poetry counter `i`. */
  datatype State = State(text: string, lines: nat)

  /** One iteration of the passage loop (parse.py:311-394). */
  function Step(fmt: OutputFormat, st: State, p: Passage): State
    requires StepDefined(p, st.lines)
  {
    if IsHeading(p) then
      State(st.text + Heading(fmt, p.parentHasPrevSibling, TextContent(p.node)), st.lines)
    else
      var t1 := if Truthy(p.prevSibling) then st.text else st.text + "¶ ";
      if p.inPoetry then
        var t2 := if st.lines == 0 then t1 + Indent else t1 + LeadingIndent(p);
        State(FormatTag(fmt, t2, p.node) + "\n" + Indent, st.lines + 1)
      else
        State(FormatTag(fmt, t1, p.node), st.lines)
  }

  /** No iteration of the loop, started with `i` poetry lines, crashes. */
  predicate Defined(ps: seq<Passage>, i: nat)
  {
    forall k :: 0 <= k < |ps| ==> StepDefined(ps[k], i + PoetryCount(ps[..k]))
  }

  function PoetryCount(ps: seq<Passage>): nat
  {
    if ps == [] then 0 else PoetryCount(ps[..|ps| - 1]) + (if IsPoetryLine(ps[|ps| - 1]) then 1 else 0)
  }

  lemma DefinedTail(ps: seq<Passage>, i: nat)
    requires ps != [] && Defined(ps, i)
    ensures StepDefined(ps[0], i)
    ensures Defined(ps[1..], i + (if IsPoetryLine(ps[0]) then 1 else 0))
  {
    assert ps[..0] == [];
    var j := i + (if IsPoetryLine(ps[0]) then 1 else 0);
    forall k | 0 <= k < |ps[1..]| ensures StepDefined(ps[1..][k], j + PoetryCount(ps[1..][..k])) {
      PoetryCountCons(ps[0], ps[1..][..k]);
      assert [ps[0]] + ps[1..][..k] == ps[..k + 1];
    }
  }

  lemma {:induction false} PoetryCountCons(p: Passage, ps: seq<Passage>)
    ensures PoetryCount([p] + ps) == (if IsPoetryLine(p) then 1 else 0) + PoetryCount(ps)
    decreases |ps|
  {
    if ps == [] {
      assert [p] + ps == [p];
      assert [p][..0] == [];
    } else {
      var q := [p] + ps;
      assert q[..|q| - 1] == [p] + ps[..|ps| - 1];
      PoetryCountCons(p, ps[..|ps| - 1]);
    }
  }

  /** The loop as a left fold over the passages. */
  function Fold(fmt: OutputFormat, st: State, ps: seq<Passage>): State
    requires Defined(ps, st.lines)
    decreases |ps|
  {
    if ps == [] then st
    else
      DefinedTail(ps, st.lines);
      Fold(fmt, Step(fmt, st, ps[0]), ps[1..])
  }

  lemma FoldCons(fmt: OutputFormat, st: State, ps: seq<Passage>)
    requires ps != [] && Defined(ps, st.lines)
    ensures StepDefined(ps[0], st.lines)
    ensures Defined(ps[1..], Step(fmt, st, ps[0]).lines)
    ensures Fold(fmt, st, ps) == Fold(fmt, Step(fmt, st, ps[0]), ps[1..])
  {
    DefinedTail(ps, st.lines);
    StepLines(fmt, st, ps[0]);
  }

  /** A step counts the poetry lines. */
  lemma StepLines(fmt: OutputFormat, st: State, p: Passage)
    requires StepDefined(p, st.lines)
    ensures Step(fmt, st, p).lines == st.lines + (if IsPoetryLine(p) then 1 else 0)
  {
  }

  /** The text of one verse (parse.py:302-397), built step by step; the
      result is the fold of the passages from the empty text and `i = 0`. */
  method ReconstructVerse(fmt: OutputFormat, passages: seq<Passage>) returns (text: string)
    requires Defined(passages, 0)
    ensures text == Fold(fmt, State("", 0), passages).text
  {
    text := "";
    var i := 0;
    var k := 0;
    while k < |passages|
      invariant 0 <= k <= |passages|
      invariant Defined(passages[k..], i)
      invariant Fold(fmt, State(text, i), passages[k..]) == Fold(fmt, State("", 0), passages)
    {
      var p := passages[k];
      ghost var before := State(text, i);
      DefinedTail(passages[k..], i);
      assert passages[k..][1..] == passages[k + 1..];
      assert Fold(fmt, before, passages[k..]) == Fold(fmt, Step(fmt, before, p), passages[k + 1..]);
      if IsHeading(p) {
        text := text + Heading(fmt, p.parentHasPrevSibling, TextContent(p.node));
      } else {
        if !Truthy(p.prevSibling) {
          text := text + "¶ ";
        }
        if p.inPoetry {
          if i == 0 {
            text := text + Indent;
          } else {
            text := text + LeadingIndent(p);
          }
          text := FormatTag(fmt, text, p.node);
          text := text + "\n" + Indent;
          i := i + 1;
        } else {
          text := FormatTag(fmt, text, p.node);
        }
      }
      assert State(text, i) == Step(fmt, before, p);
      k := k + 1;
    }
    assert passages[k..] == [];
  }

  /** After the loop, `i` is the number of poetry lines among the passages. */
  lemma {:induction false} FoldCountsPoetry(fmt: OutputFormat, st: State, ps: seq<Passage>)
    requires Defined(ps, st.lines)
    ensures Fold(fmt, st, ps).lines == st.lines + PoetryCount(ps)
    decreases |ps|
  {
    if ps != [] {
      FoldCons(fmt, st, ps);
      PoetryCountCons(ps[0], ps[1..]);
      assert [ps[0]] + ps[1..] == ps;
      FoldCountsPoetry(fmt, Step(fmt, st, ps[0]), ps[1..]);
    }
  }

  /** A passage whose node never resets the text. */
  predicate PlainPassage(p: Passage)
  {
    IsHeading(p) || Plain(p.node)
  }

  predicate AllPlainPassages(ps: seq<Passage>)
  {
    forall k :: 0 <= k < |ps| ==> PlainPassage(ps[k])
  }

  lemma PlainTail(ps: seq<Passage>)
    requires ps != [] && AllPlainPassages(ps)
    ensures PlainPassage(ps[0]) && AllPlainPassages(ps[1..])
  {
    forall k | 0 <= k < |ps[1..]| ensures PlainPassage(ps[1..][k]) { assert ps[1..][k] == ps[k + 1]; }
  }

  /** What a passage appends when its node is plain: the heading, or the
      paragraph mark when it has no previous sibling, then for a poetry line
      the indentation, the rendered node and a newline with the fixed indent. */
  function Contribution(fmt: OutputFormat, p: Passage, i: nat): string
    requires StepDefined(p, i)
  {
    if IsHeading(p) then Heading(fmt, p.parentHasPrevSibling, TextContent(p.node))
    else
      (if Truthy(p.prevSibling) then "" else "¶ ") +
      (if p.inPoetry then (if i == 0 then Indent else LeadingIndent(p)) + Render(fmt, p.node) + "\n" + Indent
       else Render(fmt, p.node))
  }

  lemma StepPlain(fmt: OutputFormat, st: State, p: Passage)
    requires StepDefined(p, st.lines) && PlainPassage(p)
    ensures Step(fmt, st, p).text == st.text + Contribution(fmt, p, st.lines)
  {
    if !IsHeading(p) {
      var mark := if Truthy(p.prevSibling) then "" else "¶ ";
      var t1 := if Truthy(p.prevSibling) then st.text else st.text + "¶ ";
      assert t1 == st.text + mark;
      if p.inPoetry {
        StepPlainPoetry(fmt, st, p, t1, mark);
      } else {
        FormatTagPlain(fmt, t1, p.node);
      }
    }
  }

  /** The poetry-line case of StepPlain, once the paragraph mark is placed. */
  lemma StepPlainPoetry(fmt: OutputFormat, st: State, p: Passage, t1: string, mark: string)
    requires StepDefined(p, st.lines) && !IsHeading(p) && Plain(p.node) && p.inPoetry
    requires mark == (if Truthy(p.prevSibling) then "" else "¶ ")
    requires t1 == (if Truthy(p.prevSibling) then st.text else st.text + "¶ ") && t1 == st.text + mark
    ensures Step(fmt, st, p).text == st.text + Contribution(fmt, p, st.lines)
  {
    var ind := if st.lines == 0 then Indent else LeadingIndent(p);
    var body := Render(fmt, p.node);
    var t2 := if st.lines == 0 then t1 + Indent else t1 + LeadingIndent(p);
    assert t2 == t1 + ind;
    assert Step(fmt, st, p).text == FormatTag(fmt, t2, p.node) + "\n" + Indent;
    FormatTagPlain(fmt, t2, p.node);
    assert Contribution(fmt, p, st.lines) == mark + (ind + body + "\n" + Indent);
    Regroup(st.text, mark, ind, body, "\n", Indent);
  }

  lemma Regroup(a: string, b: string, c: string, d: string, e: string, f: string)
    ensures a + b + c + d + e + f == a + (b + (c + d + e + f))
  {
  }

  /** The concatenated contributions of a run of plain passages. */
  function Contributions(fmt: OutputFormat, i: nat, ps: seq<Passage>): string
    requires Defined(ps, i)
    decreases |ps|
  {
    if ps == [] then ""
    else
      DefinedTail(ps, i);
      Contribution(fmt, ps[0], i) + Contributions(fmt, i + (if IsPoetryLine(ps[0]) then 1 else 0), ps[1..])
  }

  lemma ContributionsCons(fmt: OutputFormat, i: nat, ps: seq<Passage>)
    requires ps != [] && Defined(ps, i)
    ensures Defined(ps[1..], i + (if IsPoetryLine(ps[0]) then 1 else 0))
    ensures Contributions(fmt, i, ps) ==
      Contribution(fmt, ps[0], i) + Contributions(fmt, i + (if IsPoetryLine(ps[0]) then 1 else 0), ps[1..])
  {
    DefinedTail(ps, i);
  }

  /** When no passage resets the text, the loop only appends: the verse text
      is the concatenation of what each passage contributes. */
  lemma {:induction false} FoldPlain(fmt: OutputFormat, st: State, ps: seq<Passage>)
    requires Defined(ps, st.lines)
    requires AllPlainPassages(ps)
    ensures Fold(fmt, st, ps).text == st.text + Contributions(fmt, st.lines, ps)
    decreases |ps|
  {
    if ps != [] {
      FoldCons(fmt, st, ps);
      PlainTail(ps);
      StepPlain(fmt, st, ps[0]);
      var st1 := Step(fmt, st, ps[0]);
      StepLines(fmt, st, ps[0]);
      FoldPlain(fmt, st1, ps[1..]);
      var c := Contribution(fmt, ps[0], st.lines);
      var rest := Contributions(fmt, st1.lines, ps[1..]);
      ContributionsCons(fmt, st.lines, ps);
      AppendAssoc(st.text, c, rest);
    } else {
      assert st.text + "" == st.text;
    }
  }

  /** Every poetry line ends with a newline and the fixed four-space indent. */
  lemma PoetryLineEnds(fmt: OutputFormat, st: State, p: Passage)
    requires StepDefined(p, st.lines) && IsPoetryLine(p)
    ensures EndsWith(Step(fmt, st, p).text, "\n" + Indent)
    ensures Step(fmt, st, p).lines == st.lines + 1
  {
    var r := Step(fmt, st, p).text;
    assert r[|r| - 5..] == "\n" + Indent;
  }

  /** The first poetry line of a verse, without a previous sibling, is the
      paragraph mark, the indent, the line and a newline with the indent. */
  lemma FirstPoetryLine(fmt: OutputFormat, p: Passage)
    requires IsPoetryLine(p) && p.spanAncestorsClassed && !Truthy(p.prevSibling) && Plain(p.node)
    ensures Fold(fmt, State("", 0), [p]).text == "¶ " + Indent + Render(fmt, p.node) + "\n" + Indent
  {
    var st := State("", 0);
    assert [p][..0] == [];
    FoldCons(fmt, st, [p]);
    assert [p][1..] == [];
    StepPlain(fmt, st, p);
    Regroup("", "¶ ", Indent, Render(fmt, p.node), "\n", Indent);
  }

  /** A heading whose parent has a previous sibling is set off by a newline;
      without one it starts the text directly. */
  lemma HeadingExample(t: string)
    ensures Fold(Markdown, State("", 0), [Passage(Text(t), "h3", true, None, false, true)]).text == "\n**" + t + "**\n"
    ensures Fold(Html, State("", 0), [Passage(Text(t), "h3", false, None, false, true)]).text == "<b>" + t + "</b>\n"
  {
    var a := [Passage(Text(t), "h3", true, None, false, true)];
    var b := [Passage(Text(t), "h3", false, None, false, true)];
    assert a[..0] == [] && b[..0] == [] && a[1..] == [] && b[1..] == [];
  }
}
