/** The per-chapter pass of parse.py's main script (parse.py:262-497): the
    verse records of a chapter, the segmenter that creates them, the text
    reconstruction, the footnote and cross-reference linkers and the check
    for empty verses. */
module Chapter {
  import opened Options
  import opened Strings
  import opened Markup
  import opened Resolver
  import opened VerseClass
  import opened Passages
  import opened Notes

  /** A verse record (parse.py:55-76). Its id, version and class string
      never change; its text and its two lists are filled in place. */
  class Verse {
    const verseId: VerseId
    const version: string
    const clsstr: string
    var text: string
    var footnotes: seq<JsonObject>
    var crossrefs: seq<JsonObject>

    /** A record with empty text and lists of its own. */
    constructor (verseId: VerseId, version: string, clsstr: string)
      ensures this.verseId == verseId && this.version == version && this.clsstr == clsstr
      ensures text == "" && footnotes == [] && crossrefs == []
    {
      this.verseId := verseId;
      this.version := version;
      this.clsstr := clsstr;
      text := "";
      footnotes := [];
      crossrefs := [];
    }

    /** `add_footnote` (parse.py:104-105) */
    method AddFootnote(footnote: JsonObject)
      modifies this
      ensures footnotes == old(footnotes) + [footnote]
      ensures text == old(text) && crossrefs == old(crossrefs)
    {
      footnotes := footnotes + [footnote];
    }

    /** `add_crossref` (parse.py:101-102) */
    method AddCrossref(crossref: JsonObject)
      modifies this
      ensures crossrefs == old(crossrefs) + [crossref]
      ensures text == old(text) && footnotes == old(footnotes)
    {
      crossrefs := crossrefs + [crossref];
    }
  }

  /** An entry of the script's problem list; the message text is reduced to
      the facts it reports. */
  datatype Problem =
    | NoValidVerseFormat(verseRef: string)
    | EmptyVerse(chapter: nat, verseId: VerseId)

  /** The ids of a list of verse records (ids are constant, so no heap is read). */
  function IdsOf(vs: seq<Verse>): seq<VerseId>
  {
    seq(|vs|, i requires 0 <= i < |vs| => vs[i].verseId)
  }

  /** The position of the first occurrence of `x`. */
  function FirstIndex(xs: seq<VerseId>, x: VerseId): (i: nat)
    requires x in xs
    ensures i < |xs| && xs[i] == x && forall j :: 0 <= j < i ==> xs[j] != x
  {
    if xs[0] == x then 0 else 1 + FirstIndex(xs[1..], x)
  }

  lemma FirstIndexUnique(xs: seq<VerseId>, x: VerseId, i: nat)
    requires i < |xs| && xs[i] == x && forall j :: 0 <= j < i ==> xs[j] != x
    ensures FirstIndex(xs, x) == i
  {
  }

  /** A verse found by the segmenter: its id and the class token that named it. */
  datatype Skeleton = Skeleton(verseId: VerseId, clsstr: string)

  function Ids(h: seq<Skeleton>): (r: seq<VerseId>)
    ensures |r| == |h| && forall i :: 0 <= i < |h| ==> r[i] == h[i].verseId
  {
    if h == [] then [] else Ids(h[..|h| - 1]) + [h[|h| - 1].verseId]
  }

  /** What one `class="text"` node contributes to the scan. */
  function HitOf(node: Node, res: Resolver): seq<Skeleton>
  {
    match FindClassVerse(node, res)
    case Ok(Found(c, id)) => [Skeleton(id, c)]
    case _ => []
  }

  /** Every verse the scan finds, in node order, repeats included. */
  function Hits(nodes: seq<Node>, res: Resolver): seq<Skeleton>
  {
    if nodes == [] then [] else Hits(nodes[..|nodes| - 1], res) + HitOf(nodes[|nodes| - 1], res)
  }

  /** The finds with every repeat of an id dropped. */
  function Dedup(h: seq<Skeleton>): seq<Skeleton>
  {
    if h == [] then []
    else
      var d := Dedup(h[..|h| - 1]);
      if h[|h| - 1].verseId in Ids(d) then d else d + [h[|h| - 1]]
  }

  predicate Distinct(ids: seq<VerseId>)
  {
    forall i, j :: 0 <= i < j < |ids| ==> ids[i] != ids[j]
  }

  lemma FirstIndexAppend(xs: seq<VerseId>, x: VerseId, y: VerseId)
    requires y in xs
    ensures FirstIndex(xs + [x], y) == FirstIndex(xs, y)
  {
    var i := FirstIndex(xs, y);
    FirstIndexUnique(xs + [x], y, i);
  }

  lemma IdsSnoc(p: seq<Skeleton>, x: Skeleton)
    ensures Ids(p + [x]) == Ids(p) + [x.verseId]
  {
    assert (p + [x])[..|p|] == p;
  }

  lemma DedupSnoc(p: seq<Skeleton>, x: Skeleton)
    ensures Dedup(p + [x]) == if x.verseId in Ids(Dedup(p)) then Dedup(p) else Dedup(p) + [x]
  {
    assert (p + [x])[..|p|] == p;
  }

  /** The dedup drops no id and adds none. */
  lemma {:induction false} DedupIds(h: seq<Skeleton>)
    ensures forall id :: id in Ids(h) <==> id in Ids(Dedup(h))
  {
    if h != [] {
      var p := h[..|h| - 1];
      var x := h[|h| - 1];
      assert h == p + [x];
      DedupIds(p);
      IdsSnoc(p, x);
      DedupSnoc(p, x);
      IdsSnoc(Dedup(p), x);
    }
  }

  /** The dedup keeps one record per id. */
  lemma {:induction false} DedupDistinct(h: seq<Skeleton>)
    ensures Distinct(Ids(Dedup(h)))
  {
    if h != [] {
      var p := h[..|h| - 1];
      var x := h[|h| - 1];
      assert h == p + [x];
      DedupDistinct(p);
      DedupSnoc(p, x);
      IdsSnoc(Dedup(p), x);
    }
  }

  /** The record kept for an id is the first find with that id. */
  lemma {:induction false} DedupFirst(h: seq<Skeleton>)
    ensures forall j :: 0 <= j < |Dedup(h)| ==>
      Dedup(h)[j].verseId in Ids(h) && Dedup(h)[j] == h[FirstIndex(Ids(h), Dedup(h)[j].verseId)]
  {
    if h != [] {
      var p := h[..|h| - 1];
      var x := h[|h| - 1];
      assert h == p + [x];
      DedupFirst(p);
      DedupIds(p);
      IdsSnoc(p, x);
      DedupSnoc(p, x);
      var d := Dedup(p);
      forall j | 0 <= j < |d| ensures d[j].verseId in Ids(h) && h[FirstIndex(Ids(h), d[j].verseId)] == d[j] {
        FirstIndexAppend(Ids(p), x.verseId, d[j].verseId);
      }
      if x.verseId !in Ids(d) {
        FirstIndexUnique(Ids(h), x.verseId, |p|);
      }
    }
  }

  /** The records come in the order in which their ids first occur. */
  lemma {:induction false} DedupOrder(h: seq<Skeleton>)
    ensures forall i :: 0 <= i < |Dedup(h)| ==> Dedup(h)[i].verseId in Ids(h)
    ensures forall i, j :: 0 <= i < j < |Dedup(h)| ==>
      FirstIndex(Ids(h), Dedup(h)[i].verseId) < FirstIndex(Ids(h), Dedup(h)[j].verseId)
  {
    DedupIds(h);
    forall i, j | 0 <= i < j < |Dedup(h)|
      ensures FirstIndex(Ids(h), Dedup(h)[i].verseId) < FirstIndex(Ids(h), Dedup(h)[j].verseId)
    {
      DedupOrderAt(h, i, j);
    }
  }

  /** DedupOrder for one pair of records. */
  lemma {:induction false} DedupOrderAt(h: seq<Skeleton>, i: nat, j: nat)
    requires i < j < |Dedup(h)|
    ensures Dedup(h)[i].verseId in Ids(h) && Dedup(h)[j].verseId in Ids(h)
    ensures FirstIndex(Ids(h), Dedup(h)[i].verseId) < FirstIndex(Ids(h), Dedup(h)[j].verseId)
  {
    var p := h[..|h| - 1];
    var x := h[|h| - 1];
    DedupIds(p);
    var d := Dedup(p);
    var e := Dedup(h);
    assert Ids(h) == Ids(p) + [x.verseId];
    assert e[i] == d[i];
    assert d[i].verseId in Ids(p);
    FirstIndexAppend(Ids(p), x.verseId, d[i].verseId);
    if j < |d| {
      DedupOrderAt(p, i, j);
      assert e[j] == d[j];
      FirstIndexAppend(Ids(p), x.verseId, d[j].verseId);
    } else {
      assert e[j] == x && x.verseId !in Ids(p);
      FirstIndexUnique(Ids(h), x.verseId, |p|);
    }
  }

  /** One more node extends the deduplicated finds by at most its own find. */
  lemma HitsStep(nodes: seq<Node>, k: nat, res: Resolver)
    requires k < |nodes|
    ensures var d := Dedup(Hits(nodes[..k], res));
      var cv := FindClassVerse(nodes[k], res);
      Dedup(Hits(nodes[..k + 1], res)) ==
        if cv.Ok? && cv.value.Found? then
          (if cv.value.verseId in Ids(d) then d else d + [Skeleton(cv.value.verseId, cv.value.clsstr)])
        else d
  {
    assert nodes[..k + 1][..k] == nodes[..k];
    var h := Hits(nodes[..k], res);
    assert Hits(nodes[..k + 1], res) == h + HitOf(nodes[k], res);
    match FindClassVerse(nodes[k], res)
    case Ok(Found(c, id)) =>
      DedupSnoc(h, Skeleton(id, c));
    case _ =>
      assert h + [] == h;
  }

  /** Records whose ids and class strings are those of the finds, in order. */
  predicate Matches(vs: seq<Verse>, d: seq<Skeleton>)
  {
    |vs| == |d| && forall j :: 0 <= j < |vs| ==> vs[j].verseId == d[j].verseId && vs[j].clsstr == d[j].clsstr
  }

  /** Two positions of a list of records without repeated ids that hold the
      same id are the same position. */
  lemma UniqueId(vs: seq<Verse>, i: nat, j: nat)
    requires Distinct(IdsOf(vs)) && i < |vs| && j < |vs| && vs[i].verseId == vs[j].verseId
    ensures i == j
  {
    assert IdsOf(vs)[i] == IdsOf(vs)[j];
  }

  /** The text the passage loop builds for one verse from its passages. */
  function VerseText(fmt: OutputFormat, ps: seq<Passage>): string
    requires Defined(ps, 0)
  {
    Fold(fmt, State("", 0), ps).text
  }

  /** How many times `id` occurs in `ids`. */
  function Count(ids: seq<VerseId>, id: VerseId): nat
  {
    if ids == [] then 0 else Count(ids[..|ids| - 1], id) + (if ids[|ids| - 1] == id then 1 else 0)
  }

  /** The count is the multiplicity of the id in the list. */
  lemma {:induction false} CountIsMultiplicity(ids: seq<VerseId>, id: VerseId)
    ensures Count(ids, id) == multiset(ids)[id]
  {
    if ids != [] {
      var p := ids[..|ids| - 1];
      CountIsMultiplicity(p, id);
      assert ids == p + [ids[|ids| - 1]];
    }
  }

  lemma CountSnoc(ids: seq<VerseId>, k: nat, id: VerseId)
    requires k < |ids|
    ensures Count(ids[..k + 1], id) == Count(ids[..k], id) + (if ids[k] == id then 1 else 0)
  {
    assert ids[..k + 1][..k] == ids[..k];
  }

  /** `n` copies of `x`. */
  function Repeat(x: JsonObject, n: nat): (r: seq<JsonObject>)
    ensures |r| == n && forall i :: 0 <= i < n ==> r[i] == x
  {
    if n == 0 then [] else Repeat(x, n - 1) + [x]
  }

  /** The version named in the configuration, as far as the linkers tell
      versions apart. */
  function VersionOf(name: string): Version
  {
    if name == "NRSVUE" then NRSVUE else if name == "ASV" then ASV else OtherVersion
  }

  /** A list item of the footnote block as the linker reads it: its id, the
      text of its first anchor if it has one, and the children of its
      `footnote-text` span (none when it has no such span). */
  datatype FootnoteItem = FootnoteItem(id: string, anchor: Option<string>, body: seq<Node>)

  /** The item is processed without an uncaught exception: its id carries a
      letter code (parse.py:413) and, when the version builds a locator, it
      has an anchor (parse.py:434, 437). */
  predicate FootnoteDefined(version: Version, item: FootnoteItem)
  {
    FootnoteLetter(item.id).Some? && (item.anchor.Some? || version.OtherVersion?)
  }

  /** The one-pair object `{letter: body}` the linker appends (parse.py:443). */
  function FootnoteEntry(fmt: OutputFormat, item: FootnoteItem): JsonObject
    requires FootnoteLetter(item.id).Some?
  {
    [Pair(FootnoteLetter(item.id).value, FootnoteText(fmt, item.body))]
  }

  /** The ids a footnote is attached to, or the problem it records
      (parse.py:426-445): a version without a locator attaches nothing, a
      resolver error records the anchor text, and otherwise every id of
      every resolved reference is tried. */
  function FootnoteIds(version: Version, shortTitle: string, item: FootnoteItem, res: Resolver): (r: Result<seq<VerseId>, Problem>)
    requires FootnoteDefined(version, item)
    ensures version.OtherVersion? ==> r == Ok([])
    ensures r.Err? <==> !version.OtherVersion? && res.lookup(FootnoteLocator(version, shortTitle, item.anchor.value).value).None?
    ensures r.Err? ==> r.error == NoValidVerseFormat(item.anchor.value)
    ensures r.Ok? && !version.OtherVersion? ==>
      r.value == AllIds(res.lookup(FootnoteLocator(version, shortTitle, item.anchor.value).value).value)
  {
    if item.anchor.None? then Ok([])
    else
      match FootnoteLocator(version, shortTitle, item.anchor.value)
      case None => Ok([])
      case Some(loc) =>
        match res.lookup(loc)
        case None => Err(NoValidVerseFormat(item.anchor.value))
        case Some(refs) => Ok(AllIds(refs))
  }

  /** How many entries one footnote item gives the verse `id`. */
  function Attached(out: Result<seq<VerseId>, Problem>, id: VerseId): nat
  {
    if out.Ok? then Count(out.value, id) else 0
  }

  /** A footnote reaches a verse once per occurrence of its id among the
      resolved ids, so never a verse whose id was not resolved, and exactly
      once when the resolved ids do not repeat. */
  lemma AttachedBounds(out: Result<seq<VerseId>, Problem>, id: VerseId)
    ensures out.Ok? && id in out.value ==> Attached(out, id) >= 1
    ensures !(out.Ok? && id in out.value) ==> Attached(out, id) == 0
    ensures out.Ok? && Distinct(out.value) && id in out.value ==> Attached(out, id) == 1
  {
    if out.Ok? {
      CountIsMultiplicity(out.value, id);
      if Distinct(out.value) && id in out.value {
        var i :| 0 <= i < |out.value| && out.value[i] == id;
        var p := out.value[..i];
        var q := out.value[i + 1..];
        assert out.value == p + [id] + q;
        assert id !in p && id !in q;
      }
    }
  }

  /** What every footnote item of a list gives the verse `id`, in order. */
  function FootnotesFrom(fmt: OutputFormat, version: Version, shortTitle: string, items: seq<FootnoteItem>, res: Resolver, id: VerseId, n: nat): seq<JsonObject>
    requires n <= |items| && forall i :: 0 <= i < |items| ==> FootnoteDefined(version, items[i])
  {
    if n == 0 then []
    else
      var last := items[n - 1];
      FootnotesFrom(fmt, version, shortTitle, items, res, id, n - 1) +
      Repeat(FootnoteEntry(fmt, last), Attached(FootnoteIds(version, shortTitle, last, res), id))
  }

  /** The problems a list of footnote items records, in order. */
  function FootnoteProblems(version: Version, shortTitle: string, items: seq<FootnoteItem>, res: Resolver, n: nat): seq<Problem>
    requires n <= |items| && forall i :: 0 <= i < |items| ==> FootnoteDefined(version, items[i])
  {
    if n == 0 then []
    else
      var out := FootnoteIds(version, shortTitle, items[n - 1], res);
      FootnoteProblems(version, shortTitle, items, res, n - 1) + (if out.Err? then [out.error] else [])
  }

  /** A list item of the cross-reference block as the linker reads it: its
      id, the text of its first anchor if it has one, and the
      `data-bibleref` attribute of its `crossref-link` element, if any. */
  datatype CrossrefItem = CrossrefItem(id: string, anchor: Option<string>, bibleref: Option<string>)

  /** The item is processed without an uncaught exception, apart from the
      lookup of the source verse among the chapter's records: its id carries
      a letter code (parse.py:462), an item with an anchor has a
      `data-bibleref` (parse.py:471) and its locator resolves to a
      reference list that is not empty (parse.py:474). */
  predicate CrossrefResolvable(shortTitle: string, item: CrossrefItem, res: Resolver)
  {
    CrossrefLetter(item.id).Some? &&
    (item.anchor.Some? ==>
      item.bibleref.Some? &&
      match res.lookup(CrossrefLocator(shortTitle, item.anchor.value))
      case None => true
      case Some(refs) => refs != [])
  }

  /** What the cross-reference linker does with one item. */
  datatype CrossrefOutcome =
    | Skipped
    | AttachTo(source: VerseId, entries: seq<JsonObject>)
    | Failed(problem: Problem)

  /** One `{letter: target}` object per target, in order (parse.py:478). */
  function CrossrefEntries(letter: string, targets: seq<string>): (r: seq<JsonObject>)
    ensures |r| == |targets|
  {
    if targets == [] then [] else CrossrefEntries(letter, targets[..|targets| - 1]) + [[Pair(letter, targets[|targets| - 1])]]
  }

  /** Entry `i` is the object `{letter: targets[i]}`. */
  lemma {:induction false} CrossrefEntriesSpec(letter: string, targets: seq<string>)
    ensures forall i :: 0 <= i < |targets| ==> CrossrefEntries(letter, targets)[i] == [Pair(letter, targets[i])]
    decreases |targets|
  {
    if targets != [] {
      var init := targets[..|targets| - 1];
      CrossrefEntriesSpec(letter, init);
      forall i | 0 <= i < |targets|
        ensures CrossrefEntries(letter, targets)[i] == [Pair(letter, targets[i])]
      {
        if i < |targets| - 1 {
          assert targets[i] == init[i];
        }
      }
    }
  }

  /** parse.py:462-480: an item without an anchor does nothing, a resolver
      error records the anchor text, and otherwise every target of the
      `data-bibleref` goes to the verse of the first resolved reference. */
  function CrossrefOutcomeOf(shortTitle: string, item: CrossrefItem, res: Resolver): (r: CrossrefOutcome)
    requires CrossrefResolvable(shortTitle, item, res)
    ensures item.anchor.None? <==> r.Skipped?
    ensures r.Failed? ==> r.problem == NoValidVerseFormat(item.anchor.value)
    ensures r.AttachTo? ==> |r.entries| >= 1
  {
    if item.anchor.None? then Skipped
    else
      match res.lookup(CrossrefLocator(shortTitle, item.anchor.value))
      case None => Failed(NoValidVerseFormat(item.anchor.value))
      case Some(refs) =>
        AttachTo(FirstId(refs[0]), CrossrefEntries(CrossrefLetter(item.id).value, CrossrefTargets(item.bibleref.value)))
  }

  /** The source verse of a cross-reference item exists among the records. */
  predicate CrossrefDefined(shortTitle: string, item: CrossrefItem, res: Resolver, ids: seq<VerseId>)
  {
    CrossrefResolvable(shortTitle, item, res) &&
    (CrossrefOutcomeOf(shortTitle, item, res).AttachTo? ==> CrossrefOutcomeOf(shortTitle, item, res).source in ids)
  }

  /** What one cross-reference item gives the verse `id`. */
  function CrossrefGain(shortTitle: string, item: CrossrefItem, res: Resolver, id: VerseId): seq<JsonObject>
    requires CrossrefResolvable(shortTitle, item, res)
  {
    var out := CrossrefOutcomeOf(shortTitle, item, res);
    if out.AttachTo? && out.source == id then out.entries else []
  }

  /** Every item of a cross-reference block can be looked up. */
  predicate AllResolvable(shortTitle: string, items: seq<CrossrefItem>, res: Resolver)
  {
    forall i :: 0 <= i < |items| ==> CrossrefResolvable(shortTitle, items[i], res)
  }

  /** What every cross-reference item of a list gives the verse `id`, in order. */
  function CrossrefsFrom(shortTitle: string, items: seq<CrossrefItem>, res: Resolver, id: VerseId, n: nat): seq<JsonObject>
    requires n <= |items| && AllResolvable(shortTitle, items, res)
  {
    if n == 0 then []
    else
      CrossrefsFrom(shortTitle, items, res, id, n - 1) + CrossrefGain(shortTitle, items[n - 1], res, id)
  }

  /** One more item extends what a verse has gained by the one item's gain. */
  lemma CrossrefsFromNext(shortTitle: string, items: seq<CrossrefItem>, res: Resolver, id: VerseId, k: nat, before: seq<JsonObject>)
    requires k < |items| && AllResolvable(shortTitle, items, res)
    ensures before + CrossrefsFrom(shortTitle, items, res, id, k + 1) ==
      before + CrossrefsFrom(shortTitle, items, res, id, k) + CrossrefGain(shortTitle, items[k], res, id)
  {
    AppendAssoc(before, CrossrefsFrom(shortTitle, items, res, id, k), CrossrefGain(shortTitle, items[k], res, id));
  }

  /** The problem one cross-reference item records, if any. */
  function CrossrefProblem(shortTitle: string, item: CrossrefItem, res: Resolver): seq<Problem>
    requires CrossrefResolvable(shortTitle, item, res)
  {
    var out := CrossrefOutcomeOf(shortTitle, item, res);
    if out.Failed? then [out.problem] else []
  }

  /** The problems a list of cross-reference items records, in order. */
  function CrossrefProblems(shortTitle: string, items: seq<CrossrefItem>, res: Resolver, n: nat): seq<Problem>
    requires n <= |items| && AllResolvable(shortTitle, items, res)
  {
    if n == 0 then []
    else
      CrossrefProblems(shortTitle, items, res, n - 1) + CrossrefProblem(shortTitle, items[n - 1], res)
  }

  /** A verse text after the check: a leading newline before a bold heading
      is dropped (parse.py:496-497). */
  function Trimmed(t: string): string
  {
    if BreakBeforeBold(t) then t[1..] else t
  }

  /** `t.startswith("\n<b>")`, character by character. */
  predicate BreakBeforeBold(t: string)
  {
    |t| >= 4 && t[0] == '\n' && t[1] == '<' && t[2] == 'b' && t[3] == '>'
  }

  lemma BreakBeforeBoldIsPrefix(t: string)
    ensures BreakBeforeBold(t) <==> StartsWith(t, "\n<b>")
  {
    if StartsWith(t, "\n<b>") {
      assert t[..4][0] == '\n' && t[..4][1] == '<' && t[..4][2] == 'b' && t[..4][3] == '>';
    }
  }

  /** The trimmed text never starts with the newline and heading, is empty
      exactly when the text was, and loses at most its first character. */
  lemma TrimmedSpec(t: string)
    ensures !StartsWith(Trimmed(t), "\n<b>")
    ensures Trimmed(t) == "" <==> t == ""
    ensures Trimmed(t) == t || (t != [] && t[0] == '\n' && Trimmed(t) == t[1..])
  {
    BreakBeforeBoldIsPrefix(t);
    if |t| > 1 { BreakBeforeBoldIsPrefix(t[1..]); }
    BreakBeforeBoldIsPrefix(Trimmed(t));
  }

  /** The texts of a list of records. */
  function TextsOf(vs: seq<Verse>): seq<string>
    reads set v | v in vs
  {
    seq(|vs|, i reads vs requires 0 <= i < |vs| => vs[i].text)
  }

  /** The problem the check records for one verse: one exactly when its
      text is empty. */
  function EmptyProblem(chapter: nat, id: VerseId, text: string): seq<Problem>
  {
    if text == "" then [EmptyVerse(chapter, id)] else []
  }

  /** The problems the empty-verse check records: one per empty text, in order. */
  function EmptyProblems(chapter: nat, ids: seq<VerseId>, texts: seq<string>): seq<Problem>
    requires |ids| == |texts|
  {
    if texts == [] then []
    else
      var n := |texts| - 1;
      EmptyProblems(chapter, ids[..n], texts[..n]) + EmptyProblem(chapter, ids[n], texts[n])
  }

  lemma EmptyProblemsSnoc(chapter: nat, ids: seq<VerseId>, texts: seq<string>, k: nat)
    requires |ids| == |texts| && k < |texts|
    ensures EmptyProblems(chapter, ids[..k + 1], texts[..k + 1]) ==
      EmptyProblems(chapter, ids[..k], texts[..k]) + EmptyProblem(chapter, ids[k], texts[k])
  {
    assert ids[..k + 1][..k] == ids[..k] && texts[..k + 1][..k] == texts[..k];
  }

  /** One problem per empty text. */
  lemma {:induction false} EmptyProblemsCount(chapter: nat, ids: seq<VerseId>, texts: seq<string>)
    requires |ids| == |texts|
    ensures |EmptyProblems(chapter, ids, texts)| == multiset(texts)[""]
  {
    if texts != [] {
      var n := |texts| - 1;
      EmptyProblemsCount(chapter, ids[..n], texts[..n]);
      assert texts == texts[..n] + [texts[n]];
    }
  }

  /** A problem is listed exactly when it names a verse whose text is empty. */
  lemma {:induction false} EmptyProblemsSpec(chapter: nat, ids: seq<VerseId>, texts: seq<string>)
    requires |ids| == |texts|
    ensures forall p :: p in EmptyProblems(chapter, ids, texts) <==>
      exists i :: 0 <= i < |texts| && texts[i] == "" && p == EmptyVerse(chapter, ids[i])
  {
    if texts != [] {
      var n := |texts| - 1;
      var init := EmptyProblems(chapter, ids[..n], texts[..n]);
      EmptyProblemsSpec(chapter, ids[..n], texts[..n]);
      assert EmptyProblems(chapter, ids, texts) == init + EmptyProblem(chapter, ids[n], texts[n]);
      forall p | p in EmptyProblems(chapter, ids, texts)
        ensures exists i :: 0 <= i < |texts| && texts[i] == "" && p == EmptyVerse(chapter, ids[i])
      {
        if p !in init {
          assert texts[n] == "" && p == EmptyVerse(chapter, ids[n]);
        } else {
          var i :| 0 <= i < n && texts[..n][i] == "" && p == EmptyVerse(chapter, ids[..n][i]);
          assert texts[i] == "" && p == EmptyVerse(chapter, ids[i]);
        }
      }
      forall p | exists i :: 0 <= i < |texts| && texts[i] == "" && p == EmptyVerse(chapter, ids[i])
        ensures p in EmptyProblems(chapter, ids, texts)
      {
        var i :| 0 <= i < |texts| && texts[i] == "" && p == EmptyVerse(chapter, ids[i]);
        if i < n {
          assert texts[..n][i] == "" && p == EmptyVerse(chapter, ids[..n][i]);
          assert p in init;
        }
      }
    }
  }

  /** The check as written (parse.py:490-497). The message for an empty
      verse reads `v.verse`, an attribute verse records do not have, so the
      first empty text raises AttributeError (`None` here) after the texts
      before it were trimmed. */
  function EmptyCheckAsWritten(texts: seq<string>): Option<seq<string>>
  {
    if texts == [] then Some([])
    else
      match EmptyCheckAsWritten(texts[..|texts| - 1])
      case None => None
      case Some(done) => if texts[|texts| - 1] == "" then None else Some(done + [Trimmed(texts[|texts| - 1])])
  }

  /** As written, the check stops the script exactly when some verse is
      empty, so it never records a problem. */
  lemma {:induction false} EmptyCheckAsWrittenCrashes(texts: seq<string>)
    ensures EmptyCheckAsWritten(texts).None? <==> "" in texts
  {
    if texts != [] {
      var n := |texts| - 1;
      EmptyCheckAsWrittenCrashes(texts[..n]);
      assert texts == texts[..n] + [texts[n]];
    }
  }

  /** A chapter whose only verse came out empty: the check as written
      stops, where one problem naming the verse is intended. */
  lemma EmptyVerseFinding()
    ensures EmptyCheckAsWritten([""]).None?
    ensures EmptyProblems(1, [1001001], [""]) == [EmptyVerse(1, 1001001)]
  {
    assert [""][..0] == [];
    assert [1001001][..0] == [];
  }

  /** The book being parsed (parse.py:11-22), reduced to what the chapter
      pass uses: its version, its short title, the verse records of the
      current chapter and the script's problem list. */
  class Book {
    const version: string
    const shortTitle: string
    var verses: seq<Verse>
    var problems: seq<Problem>

    constructor (version: string, shortTitle: string)
      ensures this.version == version && this.shortTitle == shortTitle
      ensures verses == [] && problems == []
    {
      this.version := version;
      this.shortTitle := shortTitle;
      verses := [];
      problems := [];
    }

    /** No two records of the chapter share an id (so no two are the same object). */
    predicate Valid()
      reads this
    {
      Distinct(IdsOf(verses))
    }

    /** `next((item for item in verses if item.verse_id == id), None)`: the
        first record with the id, if any. */
    method FindVerse(id: VerseId) returns (r: Option<Verse>)
      ensures r.None? <==> id !in IdsOf(verses)
      ensures r.Some? ==> id in IdsOf(verses) && r.value == verses[FirstIndex(IdsOf(verses), id)]
    {
      var k := 0;
      while k < |verses|
        invariant 0 <= k <= |verses|
        invariant forall j :: 0 <= j < k ==> verses[j].verseId != id
      {
        if verses[k].verseId == id {
          FirstIndexUnique(IdsOf(verses), id, k);
          return Some(verses[k]);
        }
        k := k + 1;
      }
      return None;
    }

    /** One find of the segmenter (parse.py:283-291): a record is added
        unless one with the id is already listed. */
    method AddFind(id: VerseId, c: string, ghost d: seq<Skeleton>)
      requires Matches(verses, d)
      modifies this
      ensures Matches(verses, if id in Ids(d) then d else d + [Skeleton(id, c)])
      ensures forall v :: v in verses ==>
        v in old(verses) || (fresh(v) && v.version == version && v.text == "" && v.footnotes == [] && v.crossrefs == [])
      ensures problems == old(problems)
    {
      assert IdsOf(verses) == Ids(d);
      var found: Option<Verse> := None;
      if |verses| > 0 {
        found := FindVerse(id);
      }
      if found.None? {
        var v := new Verse(id, version, c);
        verses := verses + [v];
      }
    }

    /** One round of the scan (parse.py:280-291): the node's verse, if its
        class names one, is added unless already listed. */
    method ScanNode(nodes: seq<Node>, k: nat, res: Resolver, ghost d: seq<Skeleton>) returns (ghost d': seq<Skeleton>)
      requires k < |nodes| && FindClassVerse(nodes[k], res).Ok?
      requires d == Dedup(Hits(nodes[..k], res)) && Matches(verses, d)
      modifies this
      ensures d' == Dedup(Hits(nodes[..k + 1], res)) && Matches(verses, d')
      ensures forall v :: v in verses ==>
        v in old(verses) || (fresh(v) && v.version == version && v.text == "" && v.footnotes == [] && v.crossrefs == [])
      ensures problems == old(problems)
    {
      HitsStep(nodes, k, res);
      d' := d;
      var cv := FindClassVerse(nodes[k], res);
      if cv.Ok? && cv.value.Found? {
        AddFind(cv.value.verseId, cv.value.clsstr, d);
        d' := if cv.value.verseId in Ids(d) then d else d + [Skeleton(cv.value.verseId, cv.value.clsstr)];
      }
    }

    /** The segmenter (parse.py:262, 279-291): the chapter's list is reset,
        then every `class="text"` node whose class names a verse adds a
        fresh record unless one with that id is already listed. */
    method Segment(nodes: seq<Node>, res: Resolver)
      requires forall k :: 0 <= k < |nodes| ==> FindClassVerse(nodes[k], res).Ok?
      modifies this
      ensures Matches(verses, Dedup(Hits(nodes, res)))
      ensures Valid()
      ensures forall v :: v in verses ==>
        fresh(v) && v.version == version && v.text == "" && v.footnotes == [] && v.crossrefs == []
      ensures problems == old(problems)
    {
      verses := [];
      var k := 0;
      ghost var d: seq<Skeleton> := [];
      assert nodes[..k] == [];
      while k < |nodes|
        invariant 0 <= k <= |nodes|
        invariant d == Dedup(Hits(nodes[..k], res))
        invariant Matches(verses, d)
        invariant forall v :: v in verses ==>
          fresh(v) && v.version == version && v.text == "" && v.footnotes == [] && v.crossrefs == []
        invariant problems == old(problems)
      {
        d := ScanNode(nodes, k, res, d);
        k := k + 1;
      }
      assert nodes[..k] == nodes;
      DedupDistinct(Hits(nodes, res));
      assert IdsOf(verses) == Ids(Dedup(Hits(nodes, res)));
    }
    /** The passage loop for every record (parse.py:294-397): each verse's
        text grows by the text its passages build, starting from an empty
        text and no poetry lines. `passagesOf` stands for the query of
        parse.py:305 (the spans whose class is exactly "text" and the
        record's class string). */
    method ReconstructTexts(fmt: OutputFormat, passagesOf: string -> seq<Passage>)
      requires Valid()
      requires forall v :: v in verses ==> Defined(passagesOf(v.clsstr), 0)
      modifies set v | v in verses
      ensures forall v :: v in verses ==>
        v.text == old(v.text) + VerseText(fmt, passagesOf(v.clsstr)) &&
        v.footnotes == old(v.footnotes) && v.crossrefs == old(v.crossrefs)
    {
      var k := 0;
      while k < |verses|
        invariant 0 <= k <= |verses|
        invariant forall j :: 0 <= j < |verses| ==>
          verses[j].footnotes == old(verses[j].footnotes) && verses[j].crossrefs == old(verses[j].crossrefs)
        invariant forall j :: 0 <= j < k ==>
          verses[j].text == old(verses[j].text) + VerseText(fmt, passagesOf(verses[j].clsstr))
        invariant forall j :: k <= j < |verses| ==> verses[j].text == old(verses[j].text)
      {
        var v := verses[k];
        forall j | 0 <= j < |verses| && verses[j] == v ensures j == k {
          UniqueId(verses, j, k);
        }
        var passages := passagesOf(v.clsstr);
        var text := "";
        if passages != [] {
          text := ReconstructVerse(fmt, passages);
        }
        assert text == VerseText(fmt, passages);
        v.text := v.text + text;
        k := k + 1;
      }
    }

    /** One round of the footnote linker's inner loop (parse.py:442-443):
        the first record with the id, if any, gets the entry. */
    method AddFootnoteTo(id: VerseId, entry: JsonObject)
      requires Valid()
      modifies set v | v in verses
      ensures forall v :: v in verses ==>
        v.footnotes == old(v.footnotes) + (if v.verseId == id then [entry] else []) &&
        v.text == old(v.text) && v.crossrefs == old(v.crossrefs)
    {
      var found := FindVerse(id);
      if found.Some? {
        var f := found.value;
        forall j | 0 <= j < |verses| && verses[j].verseId == id ensures verses[j] == f {
          UniqueId(verses, j, FirstIndex(IdsOf(verses), id));
        }
        f.AddFootnote(entry);
      } else {
        forall j | 0 <= j < |verses| ensures verses[j].verseId != id {
          assert IdsOf(verses)[j] == verses[j].verseId;
        }
      }
    }

    /** One round of the cross-reference linker's inner loop
        (parse.py:476-478): the first record with the id gets the entry; the
        record must exist. */
    method AddCrossrefTo(id: VerseId, entry: JsonObject)
      requires Valid() && id in IdsOf(verses)
      modifies set v | v in verses
      ensures forall v :: v in verses ==>
        v.crossrefs == old(v.crossrefs) + (if v.verseId == id then [entry] else []) &&
        v.text == old(v.text) && v.footnotes == old(v.footnotes)
    {
      var found := FindVerse(id);
      var f := found.value;
      forall j | 0 <= j < |verses| && verses[j].verseId == id ensures verses[j] == f {
        UniqueId(verses, j, FirstIndex(IdsOf(verses), id));
      }
      f.AddCrossref(entry);
    }

    /** The inner loop of the footnote linker (parse.py:441-443): for every
        id, the first record with that id, if any, gets the entry. */
    method AttachFootnote(ids: seq<VerseId>, entry: JsonObject)
      requires Valid()
      modifies set v | v in verses
      ensures forall v :: v in verses ==>
        v.footnotes == old(v.footnotes) + Repeat(entry, Count(ids, v.verseId)) &&
        v.text == old(v.text) && v.crossrefs == old(v.crossrefs)
    {
      var k := 0;
      while k < |ids|
        invariant 0 <= k <= |ids|
        invariant forall v :: v in verses ==>
          v.footnotes == old(v.footnotes) + Repeat(entry, Count(ids[..k], v.verseId)) &&
          v.text == old(v.text) && v.crossrefs == old(v.crossrefs)
      {
        forall v | v in verses ensures Count(ids[..k + 1], v.verseId) == Count(ids[..k], v.verseId) + (if ids[k] == v.verseId then 1 else 0) {
          CountSnoc(ids, k, v.verseId);
        }
        AddFootnoteTo(ids[k], entry);
        k := k + 1;
      }
      assert ids[..k] == ids;
    }

    /** The footnote linker for one list item (parse.py:406-445). */
    method LinkFootnote(fmt: OutputFormat, item: FootnoteItem, res: Resolver)
      requires Valid() && FootnoteDefined(VersionOf(version), item)
      modifies this, set v | v in verses
      ensures verses == old(verses)
      ensures var out := FootnoteIds(VersionOf(version), shortTitle, item, res);
        problems == old(problems) + (if out.Err? then [out.error] else [])
      ensures var out := FootnoteIds(VersionOf(version), shortTitle, item, res);
        forall v :: v in verses ==>
          v.footnotes == old(v.footnotes) + Repeat(FootnoteEntry(fmt, item), Attached(out, v.verseId)) &&
          v.text == old(v.text) && v.crossrefs == old(v.crossrefs)
    {
      var letter := FootnoteLetter(item.id).value;
      var text := FootnoteBody(fmt, item.body);
      var entry := [Pair(letter, text)];
      var version := VersionOf(this.version);
      if item.anchor.Some? {
        match FootnoteLocator(version, shortTitle, item.anchor.value) {
          case None =>
          case Some(loc) =>
            match res.lookup(loc) {
              case None =>
                problems := problems + [NoValidVerseFormat(item.anchor.value)];
              case Some(refs) =>
                AttachFootnote(AllIds(refs), entry);
            }
        }
      }
    }

    /** The footnote linker (parse.py:400-445): every item of the footnote
        block in turn. */
    method LinkFootnotes(fmt: OutputFormat, items: seq<FootnoteItem>, res: Resolver)
      requires Valid()
      requires forall i :: 0 <= i < |items| ==> FootnoteDefined(VersionOf(version), items[i])
      modifies this, set v | v in verses
      ensures verses == old(verses)
      ensures problems == old(problems) + FootnoteProblems(VersionOf(version), shortTitle, items, res, |items|)
      ensures forall v :: v in verses ==>
        v.footnotes == old(v.footnotes) + FootnotesFrom(fmt, VersionOf(version), shortTitle, items, res, v.verseId, |items|) &&
        v.text == old(v.text) && v.crossrefs == old(v.crossrefs)
    {
      var k := 0;
      while k < |items|
        invariant 0 <= k <= |items|
        invariant verses == old(verses)
        invariant problems == old(problems) + FootnoteProblems(VersionOf(version), shortTitle, items, res, k)
        invariant forall v :: v in verses ==>
          v.footnotes == old(v.footnotes) + FootnotesFrom(fmt, VersionOf(version), shortTitle, items, res, v.verseId, k) &&
          v.text == old(v.text) && v.crossrefs == old(v.crossrefs)
      {
        var out := FootnoteIds(VersionOf(version), shortTitle, items[k], res);
        var entry := FootnoteEntry(fmt, items[k]);
        AppendAssoc(old(problems), FootnoteProblems(VersionOf(version), shortTitle, items, res, k), if out.Err? then [out.error] else []);
        forall v | v in verses
          ensures old(v.footnotes) + FootnotesFrom(fmt, VersionOf(version), shortTitle, items, res, v.verseId, k + 1) ==
            old(v.footnotes) + FootnotesFrom(fmt, VersionOf(version), shortTitle, items, res, v.verseId, k) + Repeat(entry, Attached(out, v.verseId))
        {
          AppendAssoc(old(v.footnotes), FootnotesFrom(fmt, VersionOf(version), shortTitle, items, res, v.verseId, k), Repeat(entry, Attached(out, v.verseId)));
        }
        LinkFootnote(fmt, items[k], res);
        k := k + 1;
      }
    }

    /** The inner loop of the cross-reference linker (parse.py:476-478):
        every target goes to the source verse as `{letter: target}`. */
    method AttachCrossrefs(source: VerseId, letter: string, clist: seq<string>)
      requires Valid() && source in IdsOf(verses)
      modifies set v | v in verses
      ensures forall v :: v in verses ==>
        v.crossrefs == old(v.crossrefs) + (if source == v.verseId then CrossrefEntries(letter, clist) else []) &&
        v.text == old(v.text) && v.footnotes == old(v.footnotes)
    {
      var k := 0;
      while k < |clist|
        invariant 0 <= k <= |clist|
        invariant forall v :: v in verses ==>
          v.crossrefs == old(v.crossrefs) + (if source == v.verseId then CrossrefEntries(letter, clist[..k]) else []) &&
          v.text == old(v.text) && v.footnotes == old(v.footnotes)
      {
        assert clist[..k + 1][..k] == clist[..k];
        AddCrossrefTo(source, [Pair(letter, clist[k])]);
        k := k + 1;
      }
      assert clist[..k] == clist;
    }

    /** The cross-reference linker for one list item (parse.py:452-480). */
    method LinkCrossref(item: CrossrefItem, res: Resolver)
      requires Valid() && CrossrefDefined(shortTitle, item, res, IdsOf(verses))
      modifies this, set v | v in verses
      ensures verses == old(verses)
      ensures problems == old(problems) + CrossrefProblem(shortTitle, item, res)
      ensures forall v :: v in verses ==>
          v.crossrefs == old(v.crossrefs) + CrossrefGain(shortTitle, item, res, v.verseId) &&
          v.text == old(v.text) && v.footnotes == old(v.footnotes)
    {
      var letter := CrossrefLetter(item.id).value;
      if item.anchor.Some? {
        var clist := CrossrefTargets(item.bibleref.value);
        match res.lookup(CrossrefLocator(shortTitle, item.anchor.value)) {
          case None =>
            problems := problems + [NoValidVerseFormat(item.anchor.value)];
          case Some(refs) =>
            AttachCrossrefs(FirstId(refs[0]), letter, clist);
        }
      }
    }

    /** The cross-reference linker (parse.py:448-480): every item of the
        cross-reference block in turn. */
    method LinkCrossrefs(items: seq<CrossrefItem>, res: Resolver)
      requires Valid()
      requires forall i :: 0 <= i < |items| ==>
        CrossrefResolvable(shortTitle, items[i], res) && CrossrefDefined(shortTitle, items[i], res, IdsOf(verses))
      modifies this, set v | v in verses
      ensures verses == old(verses)
      ensures problems == old(problems) + CrossrefProblems(shortTitle, items, res, |items|)
      ensures forall v :: v in verses ==>
        v.crossrefs == old(v.crossrefs) + CrossrefsFrom(shortTitle, items, res, v.verseId, |items|) &&
        v.text == old(v.text) && v.footnotes == old(v.footnotes)
    {
      var k := 0;
      while k < |items|
        invariant 0 <= k <= |items|
        invariant verses == old(verses)
        invariant problems == old(problems) + CrossrefProblems(shortTitle, items, res, k)
        invariant forall v :: v in verses ==>
          v.crossrefs == old(v.crossrefs) + CrossrefsFrom(shortTitle, items, res, v.verseId, k)
        invariant forall v :: v in verses ==> v.text == old(v.text) && v.footnotes == old(v.footnotes)
      {
        AppendAssoc(old(problems), CrossrefProblems(shortTitle, items, res, k), CrossrefProblem(shortTitle, items[k], res));
        LinkCrossref(items[k], res);
        forall v | v in verses
          ensures v.crossrefs == old(v.crossrefs) + CrossrefsFrom(shortTitle, items, res, v.verseId, k + 1)
        {
          CrossrefsFromNext(shortTitle, items, res, v.verseId, k, old(v.crossrefs));
        }
        k := k + 1;
      }
    }

    /** One round of the check for empty verses (parse.py:491-497). */
    method CheckVerse(k: nat, chapter: nat)
      requires Valid() && k < |verses|
      modifies this, verses[k]
      ensures verses == old(verses)
      ensures problems == old(problems) + EmptyProblem(chapter, verses[k].verseId, old(verses[k].text))
      ensures verses[k].text == Trimmed(old(verses[k].text))
      ensures verses[k].footnotes == old(verses[k].footnotes) && verses[k].crossrefs == old(verses[k].crossrefs)
      ensures forall j :: 0 <= j < |verses| && j != k ==>
        verses[j].text == old(verses[j].text) &&
        verses[j].footnotes == old(verses[j].footnotes) && verses[j].crossrefs == old(verses[j].crossrefs)
    {
      var v := verses[k];
      forall j | 0 <= j < |verses| && verses[j] == v ensures j == k {
        UniqueId(verses, j, k);
      }
      if v.text == "" {
        problems := problems + [EmptyVerse(chapter, v.verseId)];
      }
      if BreakBeforeBold(v.text) {
        v.text := v.text[1..];
      }
    }

    /** The check for empty verses (parse.py:490-497), with the message
        built from the record's id: every empty text records a problem, and
        a text that starts with a newline before a bold heading loses the
        newline. */
    method CheckEmptyVerses(chapter: nat)
      requires Valid()
      modifies this, set v | v in verses
      ensures verses == old(verses)
      ensures problems == old(problems) + EmptyProblems(chapter, IdsOf(verses), old(TextsOf(verses)))
      ensures forall j :: 0 <= j < |verses| ==>
        verses[j].text == Trimmed(old(verses[j].text)) &&
        verses[j].footnotes == old(verses[j].footnotes) && verses[j].crossrefs == old(verses[j].crossrefs)
    {
      ghost var texts := TextsOf(verses);
      ghost var ids := IdsOf(verses);
      var k := 0;
      while k < |verses|
        invariant 0 <= k <= |verses|
        invariant verses == old(verses)
        invariant problems == old(problems) + EmptyProblems(chapter, ids[..k], texts[..k])
        invariant forall j :: 0 <= j < |verses| ==>
          verses[j].footnotes == old(verses[j].footnotes) && verses[j].crossrefs == old(verses[j].crossrefs)
        invariant forall j :: 0 <= j < k ==> verses[j].text == Trimmed(texts[j])
        invariant forall j :: k <= j < |verses| ==> verses[j].text == texts[j]
      {
        EmptyProblemsSnoc(chapter, ids, texts, k);
        AppendAssoc(old(problems), EmptyProblems(chapter, ids[..k], texts[..k]), EmptyProblem(chapter, ids[k], texts[k]));
        assert verses[k].verseId == ids[k] && verses[k].text == texts[k];
        CheckVerse(k, chapter);
        k := k + 1;
      }
      assert ids[..k] == ids && texts[..k] == texts;
      assert IdsOf(verses) == ids && old(TextsOf(verses)) == texts;
    }
  }
}
