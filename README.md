# tana_bible core in Dafny

This project models the two stages of tana_bible that turn Bible Gateway
chapter pages into a Tana import file.

- **parse.py** reads the HTML of one chapter and builds its verse records:
  - the verses are found from the class tokens of the `text` spans (`Gen-1-1`);
  - each verse's text is rebuilt from its passages, with headings, paragraph marks, poetry indentation and inline footnote markers;
  - footnotes and cross-references are attached to the verses they name;
  - a problem is recorded for every reference that cannot be resolved and every verse left empty.
- **generate_tif.py** reads those records back and builds one `bibleverse` node per verse:
  - five fixed fields and the text;
  - a Footnotes field with one child per footnote entry;
  - a Cross References field, when there are any, whose entries are links to single verses or plain text.

Files:

- `options.dfy`: Option and Result.
- `strings.dfy`: Python string operations: single-pass `str.replace`, `split`/`join`, `strip`, `str(int)`, greedy character runs.
- `markup.dfy`: the parsed HTML tree and `find_class`.
- `resolver.dfy`: the reference resolver (the `pythonbible` package).
  - It is a parameter: a lookup that returns references or fails.
  - Two functions give the chapter and verse numbers of an id.
- `verseclass.dfy`: `normalize_verse_class` and `find_class_verse`.
- `formattag.dfy`: `format_tag`.
- `passages.dfy`: the passage loop that rebuilds one verse's text.
- `notes.dfy`:
  - `format_footnote`;
  - the footnote and cross-reference letter codes;
  - the resolver locators;
  - the `data-bibleref` target list.
- `chapter.dfy`: the chapter pass of parse.py's main script.
  - It covers the segmenter, the text pass, the two linkers and the empty-verse check.
  - The `Verse` class holds the verse records.
  - The `Book` class holds the chapter's verse list and the `problem_verses` list.
- `tif.dfy`: the node builder of generate_tif.py, `normalize_name` and the output file name.

## Model

| member | source | states |
|---|---|---|
| Markup.HasClass | parse.py:119-123 | The class loop answers true exactly when the name is one of the class tokens. |
| Markup.FindClass | parse.py:117-124 | `find_class` is true exactly for an element whose class list holds the name; text nodes and class-less elements give false. |
| Strings.ReplaceCharPointwise | parse.py:375 | Replacing one character by one character keeps the length and changes exactly the positions holding that character. |
| Strings.CollapseSpaceRun | parse.py:148 | One pass of `replace("  ", " ")` turns a run of n spaces into ceil(n/2) spaces, not into one. |
| Strings.JoinSplit | parse.py:471 | Joining the comma-split parts of a string gives back the string. |
| Strings.SplitJoin | parse.py:471 | Splitting a comma-joined list of comma-free parts gives back the parts. |
| Strings.Strip | parse.py:471 | `strip()` returns the input with its leading and trailing whitespace removed: a slice of the input, with only whitespace before and after it, that neither starts nor ends with whitespace. |
| Strings.StrippedUnique | parse.py:471 | Only one text meets that description, so the contract fixes the result of `strip()`. |
| Strings.ParseNatToString | generate_tif.py:142 | `str(n)` of a verse id reads back as n. |
| Strings.NatToStringInjective | generate_tif.py:142 | Distinct numbers print differently, so uids built from them differ. |
| VerseClass.MatchAtIff | parse.py:195 | The pattern `(.+)-(\d+)-(\d+)` with the first group ending at i matches exactly when a dash, digits, a dash and a digit follow position i. |
| VerseClass.MatchAtGroups | parse.py:195-203 | In that match, book, chapter and verse are the prefix and the two full digit runs, and `ref` is the matched text. |
| VerseClass.SearchEnd | parse.py:195 | The greedy first group backtracks to the last position that admits a match, and only positions that fail are passed over. |
| VerseClass.NormalizeVerseClassSpec | parse.py:194-207 | A result exists exactly when the token starts with `<book>-<digits>-<digits>`. The book is newline-free and as long as possible, chapter and verse are full digit runs, and `ref` is the matched prefix. |
| VerseClass.ComposedClassRoundTrip | parse.py:194-207 | For a non-empty, newline-free book b and non-empty digit strings c and v, the token `b-c-v` yields book b, chapter c, verse v and `ref` equal to the whole token. |
| VerseClass.FindInClassesSpec | parse.py:218-228 | The class loop gives "not found" exactly when every token is skipped. Otherwise the first token that is not skipped decides the result: its verse, or the resolver's error. |
| VerseClass.FindClassVerseSpec | parse.py:209-233 | A text node raises TypeError. For an element, "not found" means every class token was skipped; otherwise the first token that is not skipped decides the result. |
| Formatting.MarkerTextIsGlyphs | parse.py:141-145 | The four chained replacements on a marker's text rewrite each character independently: a bracket or parenthesis gets its emphasis glyph, anything else is kept. |
| Formatting.MarkdownMarkerExample | parse.py:143 | The marker `[a]` becomes ` __[a]__` in markdown. |
| Formatting.FormatChildrenAppend | parse.py:132-133 | Folding the children of a `text` span over a concatenation is folding over the first part, then over the second. |
| Formatting.FormatTagPlain | parse.py:126-171 | A node without opening numbers or markers appends its rendering to the text so far. |
| Formatting.FormatChildrenPlain | parse.py:132-133 | Folding such children appends their renderings in order. |
| Formatting.NoDescent | parse.py:129-161 | An element that is no `text` span, number, marker or small-caps span leaves the text unchanged, whatever its children hold. |
| Formatting.SmallCapsIsLord | parse.py:154-158 | A small-caps span appends LORD in bold whatever it contains, and nothing for an unrecognised format. |
| Formatting.OpeningResets | parse.py:130-138 | Inside a `text` span, an opening chapter or verse number discards the text folded before it; the result is the paragraph mark and the rendering of what follows. |
| Formatting.OpeningExample | parse.py:130-138 | The span of Genesis 1:1 with its opening chapter number gives `¶ In the beginning`. |
| Formatting.MarkerHalvesSpaces | parse.py:140-148 | An empty footnote marker after n spaces leaves ceil(n/2) spaces. |
| Formatting.ThreeSpacesBecomeTwo | parse.py:148 | Three spaces before an empty marker become two, not one. |
| Passages.IndentCopiesCount | parse.py:369-376 | The previous sibling's text is appended once per class token matching `indent-N-breaks`: never when none matches, once more for each further match. |
| Passages.IndentOneBreaks | parse.py:372 | The token `indent-1-breaks` matches. |
| Passages.ReconstructVerse | parse.py:302-397 | The loop over a verse's passages computes the verse text that the passage fold defines. |
| Passages.FoldCountsPoetry | parse.py:309-390 | After the loop, the counter `i` equals the number of poetry lines among the passages. |
| Passages.FoldPlain | parse.py:311-394 | When no passage resets the text, the verse text is the concatenation of what each passage contributes. |
| Passages.PoetryLineEnds | parse.py:384-390 | Every poetry line ends with a newline and the four-space indent, and it advances the line counter by one. |
| Passages.ClasslessSpanAncestorCrashes | parse.py:357-358 | A poetry line below a `span` without a class attribute is never a defined step, whatever the line counter. |
| Passages.FirstPoetryLine | parse.py:348-385 | A verse's first poetry line, without a previous sibling and with classes on all its `span` ancestors, is the paragraph mark, the indent, the line, a newline and the indent. |
| Passages.HeadingExample | parse.py:315-329 | A heading after a sibling is a newline and the bold title and a newline; without a sibling the first newline is dropped. |
| Notes.SearchCodeSpec | parse.py:413 | `re.search` finds the match at the leftmost position where the pattern matches, and finds nothing exactly when it matches at no position. |
| Notes.CodeAtGreedy | parse.py:413 | A code found is a maximal run of its class: it follows a digit, and the id ends after it or goes on with a character outside the class. |
| Notes.CodeOfComposedId | parse.py:413 | For an id `<letters>-<letters>-<digits><code><rest>`, where rest does not continue the code's class, the search yields exactly the code; the cross-reference search at parse.py:462 is the same with an uppercase code. |
| Notes.FootnoteLetterExample | parse.py:411-413 | `fen-NRSVUE-30261a` has footnote letter `a`. |
| Notes.CrossrefLetterExample | parse.py:460-462 | `cen-NRSVUE-2B` has cross-reference letter `B`. |
| Notes.FootnoteItalic | parse.py:175-179 | An `i` child appends `__text__` in markdown, `<i>text</i>` in html, and nothing in an unrecognised format. |
| Notes.FootnoteSmallCaps | parse.py:180-184 | A small-caps child that is not an `i` appends `**LORD**` in markdown, `<b>LORD</b>` in html, and nothing in an unrecognised format. |
| Notes.FootnoteLink | parse.py:185-186 | A link that is not small-caps appends `[[text]]` in every format. |
| Notes.FormatFootnote | parse.py:173-192 | The footnote text only grows. Text nodes append their content, and elements that are not italic, link or small-caps append nothing. |
| Notes.FootnoteBody | parse.py:422-425 | The loop over the footnote-text children computes the footnote text fold. |
| Notes.FootnoteTextAppend | parse.py:424-425 | The footnote text of a concatenation is the concatenation of the footnote texts. |
| Notes.FootnoteExample | parse.py:173-192 | `Or <i>the</i> <small-caps>Lord</small-caps>` becomes `Or __the__**LORD**` in markdown. |
| Notes.CrossrefTargetsSpec | parse.py:471 | There is one target per comma-separated part of `data-bibleref`, in order; the parts joined by commas give back the attribute, and target i is part i with its surrounding whitespace removed, so it holds no comma. |
| Notes.TargetsOfJoined | parse.py:471 | Clean targets joined by commas split back into the same targets. |
| Chapter.Verse.constructor | parse.py:58-76 | A new record has the given id, version and class string, an empty text and two empty lists. |
| Chapter.Verse.AddFootnote | parse.py:104-105 | The footnote is appended; text and cross-references are unchanged. |
| Chapter.Verse.AddCrossref | parse.py:101-102 | The cross-reference is appended; text and footnotes are unchanged. |
| Chapter.FirstIndex | parse.py:286 | `next(...)` over the verse list finds the first record with the id. |
| Chapter.DedupIds | parse.py:284-291 | The segmenter keeps exactly the verse ids that some span found. |
| Chapter.DedupDistinct | parse.py:284-291 | No two kept records share an id. |
| Chapter.DedupFirst | parse.py:284-291 | Each kept record is the first find of its id, so it keeps that find's class string. |
| Chapter.DedupOrder | parse.py:284-291 | Kept records are in the order their ids were first found. |
| Chapter.HitsStep | parse.py:282-291 | One span adds its verse when it finds one whose id is not yet listed, and otherwise changes nothing. |
| Chapter.Book.constructor | parse.py:237-262 | A new book has no verses and no problems. |
| Chapter.Book.FindVerse | parse.py:441-476 | The lookup returns None exactly when no record has the id, and otherwise the first record that has it. |
| Chapter.Book.Segment | parse.py:262-291 | The verse list becomes the deduplicated finds, as fresh empty records of the book's version with distinct ids; problems are unchanged. |
| Chapter.Book.ReconstructTexts | parse.py:294-397 | Every record's text gains the text its passages fold to; its lists are unchanged. |
| Chapter.CountIsMultiplicity | parse.py:440-443 | The number of times an id occurs in the resolved list is its multiplicity. |
| Chapter.Book.AttachFootnote | parse.py:440-443 | A record receives the footnote once per occurrence of its id among the resolved ids; text and cross-references are unchanged. |
| Chapter.FootnoteIds | parse.py:426-445 | An unknown version attaches nothing. Otherwise the ids are those of every resolved reference, and a resolver failure records `NoValidVerseFormat` with the anchor text. |
| Chapter.AttachedBounds | parse.py:440-443 | A footnote reaches a verse at least once when its id is resolved, never otherwise, and exactly once when the resolved ids are distinct. |
| Chapter.Book.LinkFootnote | parse.py:404-445 | For one list item, the problems grow by the resolver failure if there is one, and each record gains the footnote entry as many times as the footnote ids name it. |
| Chapter.Book.LinkFootnotes | parse.py:400-445 | For the whole footnote list, the problems and every record's footnotes grow by what the items define, in order; texts and cross-references are unchanged. |
| Chapter.CrossrefEntriesSpec | parse.py:475-477 | One `{letter: target}` object per target, in order: entry i holds target i. |
| Chapter.CrossrefOutcomeOf | parse.py:462-486 | An item without an anchor does nothing. A resolver failure records `NoValidVerseFormat` with the anchor, and a success attaches at least one entry. |
| Chapter.Book.AttachCrossrefs | parse.py:475-477 | The first record with the source id gains one entry per target; the other records are unchanged. |
| Chapter.Book.LinkCrossref | parse.py:453-486 | For one list item, the problems grow by its failure and the source record gains its entries. |
| Chapter.Book.LinkCrossrefs | parse.py:450-486 | For the whole cross-reference list, the problems and every record's cross-references grow by what the items define, in order. |
| Chapter.BreakBeforeBoldIsPrefix | parse.py:496 | The character test equals `startswith("\n<b>")`. |
| Chapter.TrimmedSpec | parse.py:496-497 | After trimming no text starts with a newline and `<b>`. A text is empty after trimming exactly when it was empty before, and trimming drops at most one leading newline. |
| Chapter.EmptyProblemsCount | parse.py:491-493 | One problem per empty verse: the list is as long as the number of empty texts. |
| Chapter.EmptyProblemsSpec | parse.py:491-493 | A problem is listed exactly when some record with that id is empty. |
| Chapter.Book.CheckVerse | parse.py:492-497 | One record: a problem when its text is empty, then its text trimmed. |
| Chapter.Book.CheckEmptyVerses | parse.py:490-497 | The problems grow by one entry per empty verse, in order, and every text is trimmed; the lists and verse set are unchanged. |
| Chapter.EmptyCheckAsWrittenCrashes | parse.py:492-493 | As written, the check fails exactly when some verse text is empty. |
| Chapter.EmptyVerseFinding | parse.py:493 | A chapter with one empty verse crashes as written, and the corrected check records one problem for it. |
| Tif.NormalizeNameSpec | generate_tif.py:23-24 | The result has the input's length, and exactly the spaces and colons become dashes; no space or colon is left. |
| Tif.NormalizeNameIdempotent | generate_tif.py:23-24 | Normalising twice is normalising once. |
| Tif.FlattenFootnotes | generate_tif.py:226-242 | The nested loops produce one child per (footnote object, key) pair, in order, numbered by `f_i`. |
| Tif.FootnoteNotesSpec | generate_tif.py:231-242 | Child i has uid `<id>-fn-values-<i>` and is named `<key>: <value>` after the i-th pair. |
| Tif.FootnoteUidsDistinct | generate_tif.py:237 | No two footnote children share a uid. |
| Tif.FlattenLength | generate_tif.py:231-242 | There are as many footnote children as key/value pairs in all footnote objects. |
| Tif.FlattenSingles | generate_tif.py:231-242 | When every object holds one pair, the flattened list is those pairs in order. |
| Tif.ParsedFootnoteNames | generate_tif.py:231-242 | Footnotes written by the parser as `{letter: text}` give one child each, named `<letter>: <text>`. |
| Tif.KeyChangesMonotone | generate_tif.py:289-298 | Key changes only accumulate along the list. |
| Tif.CounterIncreasing | generate_tif.py:257-352 | `c_i` strictly increases from entry to entry and is never below the entry's position. |
| Tif.CounterSingleKey | generate_tif.py:264-298 | When every entry has the first entry's key, `c_i` is the entry's position. |
| Tif.CounterExample | generate_tif.py:289-352 | With keys A, A, B the counter runs 0, 1, 3. |
| Tif.ParsedCrossrefCounter | generate_tif.py:264-352 | Entries the parser attaches from one list item share their letter, so `c_i` numbers them 0, 1, 2, … |
| Tif.CrossrefNodeSpec | generate_tif.py:317-350 | A target is a link `[alias]([[id]])` with `refs = [id]` exactly when it resolves to one reference with the same start and end chapter and verse. A failure, an empty or longer list, or a range gives a plain node holding the raw text. |
| Tif.BuildCrossrefNode | generate_tif.py:299-350 | The classification with the `plain` flag produces that node. |
| Tif.CrossrefTurn | generate_tif.py:282-352 | One turn of the loop: `key` becomes the entry's key, `c_i` is bumped on a key change, and the entry is written with the counter of its position. |
| Tif.BuildCrossrefs | generate_tif.py:253-361 | The loop builds the Cross References field only when there are entries. The field has one group node named by the first entry's key, and the entries carry counters and classifications. |
| Tif.CrossrefUidsDistinct | generate_tif.py:326-347 | No two cross-reference children share a uid. |
| Tif.VerseNodeShape | generate_tif.py:139-361 | A verse node's uid is the verse id, its name is `<book> <chapter>:<verse>`, and it carries the `bibleverse` supertag. Starting and Ending Verse hold the same number. Footnotes is always present. Cross References is present exactly when the record has cross-references. |
| Tif.VerseFieldsDeclared | generate_tif.py:54-360 | Every field of a verse node names an attribute the file header declares. |
| Tif.VerseUidInjective | generate_tif.py:142 | Distinct verse ids give distinct verse-node uids. |
| Tif.BuildVerseNode | generate_tif.py:139-362 | The node is built from the fixed children, then the Footnotes field, then the Cross References field when there is one. |
| Tif.VerseNodeAt | generate_tif.py:139-362 | Node i of a chapter is the node of verse record i. |
| Tif.ChildAt | generate_tif.py:282-352 | Cross-reference child i is entry i, written with its counter `c_i` and classified by its target. |
| Tif.TifDocument.constructor | generate_tif.py:54-96 | The document starts with no nodes. |
| Tif.TifDocument.AddChapter | generate_tif.py:139-362 | The document's nodes grow by the chapter's verse nodes, in order. |
| Tif.OutputPathSpec | generate_tif.py:364-377 | A file is written exactly when there are nodes. The arguments handed to `Path` are the folder `books/output/<version>/tif` and a file name ending in `.json`. An `-o` name ending in `.json` is used as given, and without `-o` the name is `<version>.json`. |
| Tif.OutputPathSuffixOptional | generate_tif.py:365-369 | `-o name` and `-o name.json` write the same file. |

## Left out

- HTML parsing and bs4 queries are not modelled. The markup is a `Node` tree, and each passage carries the facts the loop asks about its surroundings: parent name, parent's previous sibling, own previous sibling, poetry ancestor, and whether every `span` ancestor has a class attribute.
- `find_all(class_="text")` is not modelled: the segmenter receives the matching spans as a list.
- The exact-string class query `"text <clsstr>"` (parse.py:305) is not modelled: the text pass receives each verse's passages through a function parameter.
- File and JSON I/O, `config.json`, argparse, tqdm, `print` and `tqdm.write` logging are not modelled.
- JSON encoding is not modelled. A JSON object is its list of key/value pairs with distinct keys, as `json.load` produces them.
- The `Book` classes of both files and their `_get_chapters`/`_get_short_title` helpers are left out. They only wrap resolver lookups; the short title and version are plain parameters.
- The chapter driver loops are not modelled. Note that `range(1, chapters)` skips the last chapter (parse.py:258, generate_tif.py:134).
- The `debug` filters, `found_types`, `refs`, `max_keys` and the no-op `Gen-2-14` test are not modelled.
- The book-group filter (generate_tif.py:116-132) is not modelled.
- The `Verse` methods `__repr__`, `to_string`, `to_dict`, `from_dict` and `equals` are left out; the chapter pass never calls them. `to_dict` and `equals` read `book`, `chapter` and `verse`, which records never set. `__repr__` and `to_string` call `super().to_string()`, which the base object does not have. `from_dict` only calls the constructor.
- OutputPath: gives the arguments handed to `Path` and treats `-o` as a plain file name. How pathlib joins an absolute `-o` (which replaces the folder) or one holding `/` (a sub-folder that must exist) is not modelled.
- The poetry indentation level `indent_string` is not modelled. The loop computes it (parse.py:357-363, 386-389) but never appends it.
- Some failure paths of the source abort the whole run. The model turns them into preconditions:
  - a letter-code search without a match;
  - a footnote without an anchor in a version that resolves one;
  - a cross-reference without `data-bibleref`;
  - an empty source reference list;
  - a source verse that is not in the chapter;
  - an empty cross-reference object in generate_tif.py;
  - a poetry passage whose previous sibling is a text node;
  - a poetry passage below a `span` without a class attribute (KeyError at parse.py:358);
  - a verse class token whose resolver lookup fails while the segmenter runs (parse.py:222, reached from parse.py:285 without a `try`).
- The resolver is a parameter, and its exceptions are abstracted:
  - a `ValueError` is a `None` result; the linkers catch it and record a problem, while in the segmenter it stops the run and is one of the preconditions above;
  - other exceptions from it are not modelled;
  - verse ids are naturals and their decimal form is `str(id)`.
- The wording of the problem messages is not modelled. A problem records its kind and the anchor text, or the chapter and verse id.
- Regular expressions are modelled only for the patterns used, with `\d` as the ASCII digits. `.` excludes only the newline.
- Unicode handling is not modelled. Strings are sequences of characters, and the non-breaking-space replacement works on single characters.

## Findings

| source | as written | input that shows it | evidently intended | confidence | as-written member | corrected member |
|---|---|---|---|---|---|---|
| parse.py:493 | The empty-verse message reads `v.verse`, an attribute `Verse` never defines, so the first empty verse raises AttributeError and the run stops. | A chapter whose only verse has empty text (id 1001001). | Record a "Something wrong with" problem for each empty verse and go on, trimming texts as for any other verse. | not executed | Chapter.EmptyCheckAsWrittenCrashes | Chapter.Book.CheckEmptyVerses |
