/** The Tana import-file builder of generate_tif.py: every verse record a
    chapter file holds becomes one `bibleverse` node with fixed fields, a
    flattened Footnotes field and, when there are any, a Cross References
    field whose entries are links or plain text. */
module Tif {
  import opened Options
  import opened Strings
  import opened Resolver
  import opened Notes
  import Chapter

  /** generate_tif.py:23-24: every space, then every colon, becomes a dash. */
  function NormalizeName(s: string): string
  {
    Replace(Replace(s, " ", "-"), ":", "-")
  }

  /** The result has the input's length, and a position changes exactly when
      it held a space or a colon; so no space or colon is left. */
  lemma NormalizeNameSpec(s: string)
    ensures |NormalizeName(s)| == |s|
    ensures forall i :: 0 <= i < |s| ==>
      NormalizeName(s)[i] == if s[i] == ' ' || s[i] == ':' then '-' else s[i]
    ensures forall i :: 0 <= i < |s| ==> NormalizeName(s)[i] != ' ' && NormalizeName(s)[i] != ':'
  {
    ReplaceCharPointwise(s, ' ', '-');
    ReplaceCharPointwise(Replace(s, " ", "-"), ':', '-');
  }

  /** Normalizing twice is normalizing once. */
  lemma NormalizeNameIdempotent(s: string)
    ensures NormalizeName(NormalizeName(s)) == NormalizeName(s)
  {
    NormalizeNameSpec(s);
    NormalizeNameSpec(NormalizeName(s));
  }

  // ---------------------------------------------------------------------
  // The interchange tree

  /** The `"type"` of an entry. */
  datatype Kind = NodeKind | FieldKind

  /** One entry of the intermediate file. A key the source leaves out of an
      entry is `None`. */
  datatype TifNode = TifNode(
    kind: Kind, uid: string, name: string,
    supertags: Option<seq<string>>, children: Option<seq<TifNode>>, refs: Option<seq<string>>)

  function Leaf(uid: string, name: string): TifNode
  {
    TifNode(NodeKind, uid, name, None, None, None)
  }

  function Field(uid: string, name: string, children: seq<TifNode>): TifNode
  {
    TifNode(FieldKind, uid, name, None, Some(children), None)
  }

  /** `"{}<suffix>".format(verse_id)` */
  function Uid(id: VerseId, suffix: string): string
  {
    NatToString(id) + suffix
  }

  /** The header of the file (generate_tif.py:54-96). */
  const FileVersion := "TanaIntermediateFile V0.1"
  const AttributeNames: seq<string> :=
    ["Version", "Book (abbr)", "Book", "Chapter", "Starting Verse", "Ending Verse",
     "Footnotes", "Cross References"]
  const VerseTag := "bibleverse"
  const SupertagUids: seq<string> := [VerseTag]

  /** One entry of a chapter file's `"verses"` list, as the parser wrote it. */
  datatype VerseRecord = VerseRecord(
    verseId: VerseId, text: string, footnotes: seq<JsonObject>, crossrefs: seq<JsonObject>)

  // ---------------------------------------------------------------------
  // Footnotes (generate_tif.py:226-251)

  /** Every key/value pair of a list of JSON objects, object by object, each
      object in key order. */
  function Flatten(objs: seq<JsonObject>): seq<Pair>
  {
    if objs == [] then [] else Flatten(objs[..|objs| - 1]) + objs[|objs| - 1]
  }

  /** The child written for the `i`-th pair: `f_i` is `i`. */
  function FootnoteNote(id: VerseId, i: nat, p: Pair): TifNode
  {
    Leaf(Uid(id, "-fn-values-" + NatToString(i)), p.key + ": " + p.value)
  }

  function NotesOf(id: VerseId, ps: seq<Pair>): seq<TifNode>
  {
    seq(|ps|, i requires 0 <= i < |ps| => FootnoteNote(id, i, ps[i]))
  }

  /** The children of the Footnotes field: one per (object, key) pair, in order. */
  function FootnoteNotes(id: VerseId, footnotes: seq<JsonObject>): seq<TifNode>
  {
    NotesOf(id, Flatten(footnotes))
  }

  function FootnotesField(id: VerseId, footnotes: seq<JsonObject>): TifNode
  {
    Field(Uid(id, "-fn"), "Footnotes", FootnoteNotes(id, footnotes))
  }

  lemma NotesOfSnoc(id: VerseId, ps: seq<Pair>, p: Pair)
    ensures NotesOf(id, ps + [p]) == NotesOf(id, ps) + [FootnoteNote(id, |ps|, p)]
  {
  }

  /** generate_tif.py:226-244: the two nested loops, with `f_i` counting the
      children written so far. */
  method FlattenFootnotes(id: VerseId, footnotes: seq<JsonObject>) returns (children: seq<TifNode>)
    ensures children == FootnoteNotes(id, footnotes)
  {
    children := [];
    var f := 0;
    var n := 0;
    while n < |footnotes|
      invariant n <= |footnotes|
      invariant f == |Flatten(footnotes[..n])|
      invariant children == NotesOf(id, Flatten(footnotes[..n]))
    {
      var footnote := footnotes[n];
      ghost var done := Flatten(footnotes[..n]);
      var j := 0;
      while j < |footnote|
        invariant j <= |footnote|
        invariant f == |done| + j
        invariant children == NotesOf(id, done + footnote[..j])
      {
        NotesOfSnoc(id, done + footnote[..j], footnote[j]);
        assert done + footnote[..j + 1] == (done + footnote[..j]) + [footnote[j]];
        children := children + [FootnoteNote(id, f, footnote[j])];
        f := f + 1;
        j := j + 1;
      }
      assert footnotes[..n + 1][..n] == footnotes[..n];
      assert footnote[..j] == footnote;
      n := n + 1;
    }
    assert footnotes[..n] == footnotes;
  }

  /** The `i`-th footnote child has uid `<id>-fn-values-<i>` and is named
      after the `i`-th pair. */
  lemma FootnoteNotesSpec(id: VerseId, footnotes: seq<JsonObject>)
    ensures |FootnoteNotes(id, footnotes)| == |Flatten(footnotes)|
    ensures forall i :: 0 <= i < |FootnoteNotes(id, footnotes)| ==>
      FootnoteNotes(id, footnotes)[i].uid == NatToString(id) + "-fn-values-" + NatToString(i) &&
      FootnoteNotes(id, footnotes)[i].name == Flatten(footnotes)[i].key + ": " + Flatten(footnotes)[i].value
  {
  }

  /** No two footnote children share a uid. */
  lemma FootnoteUidsDistinct(id: VerseId, footnotes: seq<JsonObject>)
    ensures forall i, j :: 0 <= i < j < |FootnoteNotes(id, footnotes)| ==>
      FootnoteNotes(id, footnotes)[i].uid != FootnoteNotes(id, footnotes)[j].uid
  {
    var ns := FootnoteNotes(id, footnotes);
    forall i, j | 0 <= i < j < |ns|
      ensures ns[i].uid != ns[j].uid
    {
      var a, b := "-fn-values-" + NatToString(i), "-fn-values-" + NatToString(j);
      assert ns[i].uid == NatToString(id) + a;
      assert ns[j].uid == NatToString(id) + b;
      if ns[i].uid == ns[j].uid {
        SameSuffix(NatToString(id), a, b);
        SameSuffix("-fn-values-", NatToString(i), NatToString(j));
        NatToStringInjective(i, j);
      }
    }
  }

  /** The length of the flattened list is the total number of pairs. */
  function PairCount(objs: seq<JsonObject>): nat
  {
    if objs == [] then 0 else PairCount(objs[..|objs| - 1]) + |objs[|objs| - 1]|
  }

  lemma {:induction false} FlattenLength(objs: seq<JsonObject>)
    ensures |Flatten(objs)| == PairCount(objs)
    decreases |objs|
  {
    if objs != [] {
      FlattenLength(objs[..|objs| - 1]);
    }
  }

  /** When every object holds one pair, as the parser writes footnotes, the
      flattened list is the list of those pairs. */
  lemma {:induction false} FlattenSingles(objs: seq<JsonObject>)
    requires forall i :: 0 <= i < |objs| ==> |objs[i]| == 1
    ensures |Flatten(objs)| == |objs|
    ensures forall i :: 0 <= i < |objs| ==> Flatten(objs)[i] == objs[i][0]
    decreases |objs|
  {
    if objs != [] {
      var init := objs[..|objs| - 1];
      FlattenSingles(init);
      assert forall i :: 0 <= i < |init| ==> init[i] == objs[i];
    }
  }

  /** Footnotes as the parser writes them, one `{letter: text}` object each,
      give one child apiece named `"<letter>: <text>"`. */
  lemma ParsedFootnoteNames(id: VerseId, footnotes: seq<JsonObject>)
    requires forall i :: 0 <= i < |footnotes| ==> |footnotes[i]| == 1
    ensures |FootnoteNotes(id, footnotes)| == |footnotes|
    ensures forall i :: 0 <= i < |footnotes| ==>
      FootnoteNotes(id, footnotes)[i].name == footnotes[i][0].key + ": " + footnotes[i][0].value
  {
    FlattenSingles(footnotes);
    FootnoteNotesSpec(id, footnotes);
  }

  // ---------------------------------------------------------------------
  // Cross references (generate_tif.py:253-361)

  /** `list(entry.keys())[0]` raises IndexError on an empty object, which
      aborts the whole run; the model requires every entry to have a key. */
  predicate NonEmptyEntries(crossrefs: seq<JsonObject>)
  {
    forall i :: 0 <= i < |crossrefs| ==> |crossrefs[i]| > 0
  }

  function FirstKey(entry: JsonObject): string
    requires |entry| > 0
  {
    entry[0].key
  }

  /** `this_key[key]` once `key` is the entry's first key. */
  function FirstValue(entry: JsonObject): string
    requires |entry| > 0
  {
    entry[0].value
  }

  /** The number of entries among the first `n` whose first key differs from
      the first key of the entry before it. */
  function KeyChanges(crossrefs: seq<JsonObject>, n: nat): nat
    requires n <= |crossrefs| && NonEmptyEntries(crossrefs)
  {
    if n <= 1 then 0
    else
      var step := if FirstKey(crossrefs[n - 1]) != FirstKey(crossrefs[n - 2]) then 1 else 0;
      KeyChanges(crossrefs, n - 1) + step
  }

  /** The value of `c_i` when entry `i` is written: one step per earlier
      entry and one more per key change up to and including entry `i`. */
  function Counter(crossrefs: seq<JsonObject>, i: nat): nat
    requires i < |crossrefs| && NonEmptyEntries(crossrefs)
  {
    i + KeyChanges(crossrefs, i + 1)
  }

  lemma {:induction false} KeyChangesMonotone(crossrefs: seq<JsonObject>, m: nat, n: nat)
    requires m <= n <= |crossrefs| && NonEmptyEntries(crossrefs)
    ensures KeyChanges(crossrefs, m) <= KeyChanges(crossrefs, n)
    decreases n - m
  {
    if m < n {
      KeyChangesMonotone(crossrefs, m, n - 1);
    }
  }

  /** `c_i` strictly increases from entry to entry, so no two entries share a
      uid; and it never falls behind the entry's position. */
  lemma CounterIncreasing(crossrefs: seq<JsonObject>, i: nat, j: nat)
    requires i < j < |crossrefs| && NonEmptyEntries(crossrefs)
    ensures i <= Counter(crossrefs, i) < Counter(crossrefs, j)
  {
    KeyChangesMonotone(crossrefs, i + 1, j + 1);
  }

  /** When every entry has the same first key, `c_i` is the entry's position. */
  lemma {:induction false} CounterSingleKey(crossrefs: seq<JsonObject>, n: nat)
    requires NonEmptyEntries(crossrefs) && n <= |crossrefs|
    requires forall i :: 0 <= i < |crossrefs| ==> FirstKey(crossrefs[i]) == FirstKey(crossrefs[0])
    ensures KeyChanges(crossrefs, n) == 0
    ensures forall i :: 0 <= i < n ==> Counter(crossrefs, i) == i
    decreases n
  {
    if n > 0 {
      CounterSingleKey(crossrefs, n - 1);
      if n > 1 {
        assert FirstKey(crossrefs[n - 1]) == FirstKey(crossrefs[n - 2]);
      }
    }
  }

  /** With keys A, A, B the counter runs 0, 1, 3: the key change costs one
      extra step. */
  lemma CounterExample()
    ensures var crs := [[Pair("A", "x")], [Pair("A", "y")], [Pair("B", "z")]];
      NonEmptyEntries(crs) &&
      Counter(crs, 0) == 0 && Counter(crs, 1) == 1 && Counter(crs, 2) == 3
  {
    var crs := [[Pair("A", "x")], [Pair("A", "y")], [Pair("B", "z")]];
    assert FirstKey(crs[2]) != FirstKey(crs[1]);
  }

  /** A resolved reference names one verse when its range starts and ends at
      the same chapter and verse. */
  predicate SingleVerse(r: Reference)
  {
    r.endChapter == r.startChapter && r.endVerse == r.startVerse
  }

  function CrossrefUid(id: VerseId, c: nat): string
  {
    Uid(id, "-cr-values-" + NatToString(c))
  }

  /** generate_tif.py:299-350: the child written for the target `text` with
      counter `c`. A `ValueError`, an empty or longer list of references and
      a range all leave `plain` set. */
  function CrossrefNode(id: VerseId, c: nat, text: string, res: Resolver): TifNode
  {
    match res.lookup(text)
    case Some(refs) =>
      if |refs| == 1 && SingleVerse(refs[0]) then
        TifNode(NodeKind, CrossrefUid(id, c),
          "[" + text + "]([[" + NatToString(FirstId(refs[0])) + "]])",
          None, None, Some([NatToString(FirstId(refs[0]))]))
      else Leaf(CrossrefUid(id, c), text)
    case None => Leaf(CrossrefUid(id, c), text)
  }

  /** A target becomes a link to its verse exactly when it resolves to one
      reference naming one verse; otherwise the child holds the raw text. */
  lemma CrossrefNodeSpec(id: VerseId, c: nat, text: string, res: Resolver)
    ensures CrossrefNode(id, c, text, res).uid == NatToString(id) + "-cr-values-" + NatToString(c)
    ensures CrossrefNode(id, c, text, res).refs.Some? <==>
      (res.lookup(text).Some? && |res.lookup(text).value| == 1 && SingleVerse(res.lookup(text).value[0]))
    ensures CrossrefNode(id, c, text, res).refs.Some? ==>
      var target := NatToString(FirstId(res.lookup(text).value[0]));
      CrossrefNode(id, c, text, res).refs == Some([target]) &&
      CrossrefNode(id, c, text, res).name == "[" + text + "]([[" + target + "]])"
    ensures CrossrefNode(id, c, text, res).refs.None? ==> CrossrefNode(id, c, text, res).name == text
    ensures CrossrefNode(id, c, text, res).children.None?
  {
  }

  /** The children written for the first `n` entries: entry `i` is written
      with `c_i`. */
  function ChildrenPrefix(id: VerseId, crossrefs: seq<JsonObject>, res: Resolver, n: nat): (r: seq<TifNode>)
    requires n <= |crossrefs| && NonEmptyEntries(crossrefs)
    ensures |r| == n
  {
    if n == 0 then []
    else
      var last := CrossrefNode(id, Counter(crossrefs, n - 1), FirstValue(crossrefs[n - 1]), res);
      ChildrenPrefix(id, crossrefs, res, n - 1) + [last]
  }

  /** The children of the group node. */
  function CrossrefChildren(id: VerseId, crossrefs: seq<JsonObject>, res: Resolver): seq<TifNode>
    requires NonEmptyEntries(crossrefs)
  {
    ChildrenPrefix(id, crossrefs, res, |crossrefs|)
  }

  /** Child `i` is entry `i` written with its own counter. */
  lemma {:induction false} ChildAt(id: VerseId, crossrefs: seq<JsonObject>, res: Resolver, n: nat, i: nat)
    requires i < n <= |crossrefs| && NonEmptyEntries(crossrefs)
    ensures ChildrenPrefix(id, crossrefs, res, n)[i] == CrossrefNode(id, Counter(crossrefs, i), FirstValue(crossrefs[i]), res)
    decreases n
  {
    if i < n - 1 {
      ChildAt(id, crossrefs, res, n - 1, i);
    }
  }

  /** The Cross References field, present only when there are entries; its one
      group node is named by the first entry's key. */
  function CrossrefField(id: VerseId, crossrefs: seq<JsonObject>, res: Resolver): Option<TifNode>
    requires NonEmptyEntries(crossrefs)
  {
    if |crossrefs| == 0 then None
    else Some(Field(Uid(id, "-cr"), "Cross References",
      [TifNode(NodeKind, Uid(id, "-cr-values"), FirstKey(crossrefs[0]), None,
         Some(CrossrefChildren(id, crossrefs, res)), None)]))
  }

  /** No two children of the group node share a uid. */
  lemma CrossrefUidsDistinct(id: VerseId, crossrefs: seq<JsonObject>, res: Resolver)
    requires NonEmptyEntries(crossrefs)
    ensures forall i, j :: 0 <= i < j < |crossrefs| ==>
      CrossrefChildren(id, crossrefs, res)[i].uid != CrossrefChildren(id, crossrefs, res)[j].uid
  {
    var cs := CrossrefChildren(id, crossrefs, res);
    forall i, j | 0 <= i < j < |crossrefs|
      ensures cs[i].uid != cs[j].uid
    {
      ChildAt(id, crossrefs, res, |crossrefs|, i);
      ChildAt(id, crossrefs, res, |crossrefs|, j);
      CounterIncreasing(crossrefs, i, j);
      var ci, cj := Counter(crossrefs, i), Counter(crossrefs, j);
      CrossrefNodeSpec(id, ci, FirstValue(crossrefs[i]), res);
      CrossrefNodeSpec(id, cj, FirstValue(crossrefs[j]), res);
      if cs[i].uid == cs[j].uid {
        SameSuffix(NatToString(id), "-cr-values-" + NatToString(ci), "-cr-values-" + NatToString(cj));
        SameSuffix("-cr-values-", NatToString(ci), NatToString(cj));
        NatToStringInjective(ci, cj);
      }
    }
  }

  /** Entries the parser attaches in one go share their letter, so `c_i`
      never skips and entry `i` is written with counter `i`. */
  lemma ParsedCrossrefCounter(letter: string, targets: seq<string>, i: nat)
    requires i < |targets|
    ensures NonEmptyEntries(Chapter.CrossrefEntries(letter, targets))
    ensures Counter(Chapter.CrossrefEntries(letter, targets), i) == i
  {
    var crs := Chapter.CrossrefEntries(letter, targets);
    Chapter.CrossrefEntriesSpec(letter, targets);
    CounterSingleKey(crs, |crs|);
  }

  lemma KeyChangesStep(crossrefs: seq<JsonObject>, n: nat)
    requires 0 < n < |crossrefs| && NonEmptyEntries(crossrefs)
    ensures KeyChanges(crossrefs, n + 1) ==
      KeyChanges(crossrefs, n) + if FirstKey(crossrefs[n]) != FirstKey(crossrefs[n - 1]) then 1 else 0
  {
  }

  /** generate_tif.py:299-350: the classification of one target, with the
      source's `plain` flag. */
  method BuildCrossrefNode(id: VerseId, c: nat, text: string, res: Resolver) returns (node: TifNode)
    ensures node == CrossrefNode(id, c, text, res)
  {
    var bibleRef := res.lookup(text);
    var plain := true;
    node := Leaf(CrossrefUid(id, c), text);
    if bibleRef.Some? && |bibleRef.value| == 1 && SingleVerse(bibleRef.value[0]) {
      var target := NatToString(FirstId(bibleRef.value[0]));
      node := TifNode(NodeKind, CrossrefUid(id, c),
        "[" + text + "]([[" + target + "]])", None, None, Some([target]));
      plain := false;
    }
    if plain {
      node := Leaf(CrossrefUid(id, c), text);
    }
  }

  /** One turn of the loop: update `key` and `c_i` if the key changed, and
      write the entry with the current `c_i`. */
  method CrossrefTurn(id: VerseId, crossrefs: seq<JsonObject>, res: Resolver, n: nat, key: string, c: nat)
    returns (key': string, c': nat, child: TifNode)
    requires n < |crossrefs| && NonEmptyEntries(crossrefs)
    requires key == FirstKey(crossrefs[if n == 0 then 0 else n - 1])
    requires c == n + KeyChanges(crossrefs, n)
    ensures key' == FirstKey(crossrefs[n])
    ensures c' == n + 1 + KeyChanges(crossrefs, n + 1)
    ensures child == CrossrefNode(id, Counter(crossrefs, n), FirstValue(crossrefs[n]), res)
  {
    key', c' := key, c;
    var entry := crossrefs[n];
    if FirstKey(entry) != key' {
      key' := FirstKey(entry);
      c' := c' + 1;
    }
    if n > 0 {
      KeyChangesStep(crossrefs, n);
    }
    child := BuildCrossrefNode(id, c', FirstValue(entry), res);
    c' := c' + 1;
  }

  /** generate_tif.py:253-361: the loop that tracks the current `key` and the
      counter `c_i` and classifies each target. */
  method BuildCrossrefs(id: VerseId, crossrefs: seq<JsonObject>, res: Resolver) returns (field: Option<TifNode>)
    requires NonEmptyEntries(crossrefs)
    ensures field == CrossrefField(id, crossrefs, res)
  {
    field := None;
    if |crossrefs| > 0 {
      var key := FirstKey(crossrefs[0]);
      var c := 0;
      var group: seq<TifNode> := [];
      var n := 0;
      while n < |crossrefs|
        invariant n <= |crossrefs|
        invariant key == FirstKey(crossrefs[if n == 0 then 0 else n - 1])
        invariant c == n + KeyChanges(crossrefs, n)
        invariant group == ChildrenPrefix(id, crossrefs, res, n)
      {
        var child;
        key, c, child := CrossrefTurn(id, crossrefs, res, n, key, c);
        group := group + [child];
        n := n + 1;
      }
      field := Some(Field(Uid(id, "-cr"), "Cross References",
        [TifNode(NodeKind, Uid(id, "-cr-values"), FirstKey(crossrefs[0]), None, Some(group), None)]));
    }
  }

  // ---------------------------------------------------------------------
  // The verse node (generate_tif.py:139-224, 246-251, 355-362)

  /** A field holding one value node. */
  function ValueField(id: VerseId, fieldSuffix: string, name: string, valueSuffix: string, value: string): TifNode
  {
    Field(Uid(id, fieldSuffix), name, [Leaf(Uid(id, valueSuffix), value)])
  }

  /** The five fields and the text node every verse node starts with. */
  function FixedChildren(book: string, rec: VerseRecord, res: Resolver): seq<TifNode>
  {
    var id := rec.verseId;
    var chapter := NatToString(res.chapterOf(id));
    var verse := NatToString(res.verseOf(id));
    [ ValueField(id, "-book-abbr", "Book (abbr)", "-book-abbr-val", book),
      ValueField(id, "-book-", "Book", "-book-val", book),
      ValueField(id, "-chapter", "Chapter", "-chapter-val", chapter),
      ValueField(id, "-starting-verse", "Starting Verse", "-starting-verse-val", verse),
      ValueField(id, "-ending_verse", "Ending Verse", "-ending-verse-val", verse),
      Leaf(Uid(id, "-text"), rec.text) ]
  }

  /** `"<book> <chapter>:<verse>"` */
  function VerseName(book: string, id: VerseId, res: Resolver): string
  {
    book + " " + NatToString(res.chapterOf(id)) + ":" + NatToString(res.verseOf(id))
  }

  /** The node written for one verse record. */
  function VerseNode(book: string, rec: VerseRecord, res: Resolver): TifNode
    requires NonEmptyEntries(rec.crossrefs)
  {
    var children := FixedChildren(book, rec, res) + [FootnotesField(rec.verseId, rec.footnotes)];
    var cr := CrossrefField(rec.verseId, rec.crossrefs, res);
    TifNode(NodeKind, NatToString(rec.verseId), VerseName(book, rec.verseId, res), Some([VerseTag]),
      Some(if cr.Some? then children + [cr.value] else children), None)
  }

  /** The shape every verse node has: its uid is the verse id, it carries the
      declared verse supertag, its Starting and Ending Verse fields hold the
      same number, the Footnotes field is always there and the Cross
      References field is there exactly when the record has cross references. */
  lemma VerseNodeShape(book: string, rec: VerseRecord, res: Resolver)
    requires NonEmptyEntries(rec.crossrefs)
    ensures var node := VerseNode(book, rec, res);
      node.uid == NatToString(rec.verseId) &&
      node.name == VerseName(book, rec.verseId, res) &&
      node.supertags == Some([VerseTag]) && VerseTag in SupertagUids &&
      node.children.Some? &&
      |node.children.value| == (if |rec.crossrefs| > 0 then 8 else 7) &&
      node.children.value[3].children.value[0].name == NatToString(res.verseOf(rec.verseId)) &&
      node.children.value[4].children.value[0].name == NatToString(res.verseOf(rec.verseId)) &&
      node.children.value[5] == Leaf(NatToString(rec.verseId) + "-text", rec.text) &&
      node.children.value[6].name == "Footnotes" &&
      node.children.value[6].children == Some(FootnoteNotes(rec.verseId, rec.footnotes)) &&
      (|rec.crossrefs| > 0 ==> node.children.value[7].name == "Cross References")
  {
  }

  /** Every field of a verse node names an attribute the file header declares. */
  lemma VerseFieldsDeclared(book: string, rec: VerseRecord, res: Resolver)
    requires NonEmptyEntries(rec.crossrefs)
    ensures VerseNode(book, rec, res).children.Some?
    ensures forall c :: c in VerseNode(book, rec, res).children.value && c.kind == FieldKind ==>
      c.name in AttributeNames
  {
    var ch := VerseNode(book, rec, res).children.value;
    forall c | c in ch && c.kind == FieldKind
      ensures c.name in AttributeNames
    {
      var k :| 0 <= k < |ch| && ch[k] == c;
      assert k != 5;
    }
  }

  /** Distinct verse ids give distinct verse-node uids. */
  lemma VerseUidInjective(book: string, a: VerseRecord, b: VerseRecord, res: Resolver)
    requires NonEmptyEntries(a.crossrefs) && NonEmptyEntries(b.crossrefs)
    requires a.verseId != b.verseId
    ensures VerseNode(book, a, res).uid != VerseNode(book, b, res).uid
  {
    if NatToString(a.verseId) == NatToString(b.verseId) {
      NatToStringInjective(a.verseId, b.verseId);
    }
  }

  /** generate_tif.py:139-362: build the node with its fixed children, then
      append the Footnotes field and, when there are cross references, the
      Cross References field. */
  method BuildVerseNode(book: string, rec: VerseRecord, res: Resolver) returns (node: TifNode)
    requires NonEmptyEntries(rec.crossrefs)
    ensures node == VerseNode(book, rec, res)
  {
    var children := FixedChildren(book, rec, res);
    var notes := FlattenFootnotes(rec.verseId, rec.footnotes);
    children := children + [Field(Uid(rec.verseId, "-fn"), "Footnotes", notes)];
    var cr := BuildCrossrefs(rec.verseId, rec.crossrefs, res);
    if cr.Some? {
      children := children + [cr.value];
    }
    node := TifNode(NodeKind, NatToString(rec.verseId), VerseName(book, rec.verseId, res),
      Some([VerseTag]), Some(children), None);
  }

  predicate AllNonEmptyEntries(verses: seq<VerseRecord>)
  {
    forall i :: 0 <= i < |verses| ==> NonEmptyEntries(verses[i].crossrefs)
  }

  /** The nodes of the first `n` verse records of a chapter, in order. */
  function VerseNodes(book: string, verses: seq<VerseRecord>, res: Resolver, n: nat): (r: seq<TifNode>)
    requires n <= |verses| && AllNonEmptyEntries(verses)
    ensures |r| == n
  {
    if n == 0 then [] else VerseNodes(book, verses, res, n - 1) + [VerseNode(book, verses[n - 1], res)]
  }

  /** One node per record: node `i` is the node of record `i`. */
  lemma {:induction false} VerseNodeAt(book: string, verses: seq<VerseRecord>, res: Resolver, n: nat, i: nat)
    requires i < n <= |verses| && AllNonEmptyEntries(verses)
    ensures VerseNodes(book, verses, res, n)[i] == VerseNode(book, verses[i], res)
    decreases n
  {
    var prefix := VerseNodes(book, verses, res, n - 1);
    assert VerseNodes(book, verses, res, n) == prefix + [VerseNode(book, verses[n - 1], res)];
    if i < n - 1 {
      VerseNodeAt(book, verses, res, n - 1, i);
      assert (prefix + [VerseNode(book, verses[n - 1], res)])[i] == prefix[i];
    }
  }

  /** The file being assembled: `tif_object`, whose `"nodes"` list grows as
      chapters are read. */
  class TifDocument {
    var nodes: seq<TifNode>

    constructor()
      ensures nodes == []
    {
      nodes := [];
    }

    /** generate_tif.py:139-362: one node per verse record of the chapter,
        in order. */
    method AddChapter(book: string, verses: seq<VerseRecord>, res: Resolver)
      requires AllNonEmptyEntries(verses)
      modifies this
      ensures nodes == old(nodes) + VerseNodes(book, verses, res, |verses|)
    {
      var n := 0;
      while n < |verses|
        invariant n <= |verses|
        invariant nodes == old(nodes) + VerseNodes(book, verses, res, n)
      {
        var node := BuildVerseNode(book, verses[n], res);
        ghost var prefix := VerseNodes(book, verses, res, n);
        assert VerseNodes(book, verses, res, n + 1) == prefix + [node];
        AppendAssoc(old(nodes), prefix, [node]);
        nodes := nodes + [node];
        n := n + 1;
      }
    }
  }

  // ---------------------------------------------------------------------
  // The output file (generate_tif.py:364-377)

  /** `args["output"][-5:] == ".json"` holds exactly when the name ends in
      `.json`; that suffix is dropped before `.json` is appended. */
  function StripJson(name: string): string
  {
    if EndsWith(name, ".json") then name[..|name| - 5] else name
  }

  /** The path written, or `None` when there are no nodes and nothing is
      written. An empty `-o` counts as absent. */
  function OutputPath(nodeCount: nat, version: string, output: Option<string>): (r: Option<seq<string>>)
  {
    if nodeCount == 0 then None
    else if output.Some? && output.value != "" then
      Some(["books", "output", version, "tif", StripJson(output.value) + ".json"])
    else Some(["books", "output", version, "tif", version + ".json"])
  }

  /** Something is written exactly when there are nodes; the arguments
      handed to `Path` are the version's tif folder and a file name ending
      in `.json`, and an `-o` name already ending in `.json` is used as
      given. */
  lemma OutputPathSpec(nodeCount: nat, version: string, output: Option<string>)
    ensures OutputPath(nodeCount, version, output).None? <==> nodeCount == 0
    ensures OutputPath(nodeCount, version, output).Some? ==>
      var p := OutputPath(nodeCount, version, output).value;
      |p| == 5 && p[..4] == ["books", "output", version, "tif"] && EndsWith(p[4], ".json")
    ensures nodeCount > 0 && output.Some? && EndsWith(output.value, ".json") ==>
      OutputPath(nodeCount, version, output).value[4] == output.value
    ensures nodeCount > 0 && (output.None? || output.value == "") ==>
      OutputPath(nodeCount, version, output).value[4] == version + ".json"
  {
    if nodeCount > 0 {
      var p := OutputPath(nodeCount, version, output).value;
      if output.Some? && output.value != "" {
        var o := output.value;
        if EndsWith(o, ".json") {
          assert o[..|o| - 5] + ".json" == o;
        }
      }
      assert EndsWith(p[4], ".json");
    }
  }

  /** Giving `-o name` or `-o name.json` writes the same file, for a name
      that does not itself end in `.json`. */
  lemma OutputPathSuffixOptional(nodeCount: nat, version: string, name: string)
    requires name != "" && !EndsWith(name, ".json")
    ensures OutputPath(nodeCount, version, Some(name + ".json")) == OutputPath(nodeCount, version, Some(name))
  {
    var o := name + ".json";
    assert EndsWith(o, ".json");
    assert o[..|o| - 5] == name;
  }
}
