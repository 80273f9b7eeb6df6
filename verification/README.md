# AutoDeck outline parser — a Dafny model

`auto_deck.py` turns a topic into a branded slide deck. It searches the web,
asks a language model for a slide outline, and renders that outline with
python-pptx. This project models the deterministic core of that pipeline.
That core is the part of `build_pptx` that turns the outline text into slides.
It also covers the footer text every slide carries and the deck file name the
command line derives from the topic.

The parser works as follows:

1. The outline is cut at every `"Slide "`.
2. Each fragment is stripped of whitespace.
3. A fragment is kept when it is non-empty, starts with a digit and holds a
   colon.
4. The text before the first colon is the ordinal label.
5. The text after that colon, stripped, is the body.
6. The title is the first line of the body, or `"Slide " + label` when the
   body is empty.
7. Every later body line is cleaned with `strip("-• ")` and then `strip()`.
   Lines that clean to nothing are skipped.
8. A cleaned line starting with `*` or `#` becomes an emphasis paragraph at
   level 0. Its text is the line with every `*` and `#` removed, then
   stripped.
9. Any other cleaned line becomes a bullet paragraph at level 1, with the
   cleaned line as its text.
10. Every slide gets the footer `brand + " | Auto-Generated Deck"`.

Each slide is modelled as an immutable `SlideRecord`. It holds the title, the
paragraphs and the footer. Each paragraph holds its text, a style tag
(`Emphasis` or `Bullet`) and its outline level.

Files:

- `strsplit.dfy` (module `StrSplit`) covers `str.split(sep)`,
  `str.split(sep, 1)` and `sep.join`.
  - `IsSplitOf` states Python's promise about a split independently of any
    algorithm: the pieces join back to the string, every cut is at the
    leftmost occurrence still ahead, and the last piece holds none.
  - `Split` is proved to meet that promise, and to be the only list that
    does.
- `strstrip.dfy` (module `StrStrip`) covers `str.strip(chars)` and `str.strip()`.
  - `TrimmedOf` says a result is a slice of the input with only characters
    from the set cut away.
  - `EndsClear` says neither end of the result is in the set.
  - The lemmas show the stripped string is the only trimming with clear ends.
  - `Whitespace` is the full set of characters for which Python's
    `str.isspace` holds.
- `strreplace.dfy` (module `StrReplace`) covers `str.replace` of a single
  character.
- `filtermaps.dfy` (module `FilterMaps`) covers the "map each element, skip
  the failures, keep the order" loop. Both loops of the parser have this
  shape.
- `autodeck.dfy` (module `AutoDeck`) holds the records, the parser, the
  footer, the file name, and the properties of the parser.
- `scenarios.dfy` (module `Scenarios`) works outlines through the parser end
  to end. It covers single lines, a one-slide outline, and the two-slide
  outline `"Slide 1: Intro\n- point one\n- point two\nSlide 2: *Key Trend*\n- detail"`.

The model follows the code as written. In particular:

- A `"Slide "` inside a slide's own text also cuts the outline, and
  `NoSlideMarkerInText` states what that implies for titles and bullets.
  Emphasis paragraphs can still read `"Slide "`, because removing their
  marks can join text into it (`MarksJoinMarker`).
- Bullet marks are stripped before whitespace, so a dash behind a tab
  survives (`TabShieldsDash`).
- The title is the first body line, not otherwise trimmed.
- Emphasis cleaning removes every `*` and `#`, not only the leading ones.

The title is the first line of the body, not the first non-empty line. The two
coincide because the body is stripped first: `TitleNonEmpty` shows that the
first line of a stripped, non-empty body is never empty.

## Model

| member | source | states |
|---|---|---|
| `StrSplit.SplitIsSplitOf` | auto_deck.py:65 | `s.split(sep)` meets Python's promise: the pieces joined with `sep` give `s` back, each cut is at the leftmost occurrence still ahead, and the last piece holds no `sep` |
| `StrSplit.SplitUnique` | auto_deck.py:65 | any list of pieces meeting that promise is exactly `Split`'s result, so the promise pins the split down |
| `StrSplit.JoinSplit` | auto_deck.py:65 | round trip: joining the pieces of a split with the separator restores the string |
| `StrSplit.SplitCountBound` | auto_deck.py:65 | a split has at most one more piece than the string has occurrences of the separator |
| `StrSplit.SplitPieceFree` | auto_deck.py:65 | every piece of a split sits inside the string and holds no occurrence of the separator |
| `StrSplit.SplitWhenHeadAbsent` | auto_deck.py:65 | pieces none of which holds the separator's first character are exactly what their join splits back into |
| `StrSplit.SplitOnceSpec` | auto_deck.py:72 | `s.split(sep, 1)` has one piece, `s` itself, exactly when `sep` does not occur; otherwise it has two pieces, the text before and after the leftmost occurrence |
| `StrSplit.SplitOnceAgreesWithSplit` | auto_deck.py:72 | `split(sep, 1)` cuts where the first cut of `split(sep)` is |
| `StrSplit.SplitFirstPieceChar` | auto_deck.py:94 | the first piece of a split on one character is a prefix free of that character, ending at the end of the string or at that character |
| `StrStrip.StripChars` | auto_deck.py:103 | `strip(chars)` cuts from the input a slice whose two cut-off ends consist only of those characters, and whose own ends are not among them |
| `StrStrip.Strip` | auto_deck.py:67 | `strip()` is such a trimming for the whitespace characters |
| `StrStrip.StripCharsUnique` | auto_deck.py:67 | any trimming whose ends are clear of the set is the stripped string |
| `StrStrip.StripCharsIdempotent` | auto_deck.py:67 | stripping twice is stripping once |
| `StrStrip.StripCharsClear` | auto_deck.py:103 | a string whose ends are already clear of the set is left unchanged |
| `StrStrip.StripCharsEmpty` | auto_deck.py:67-68 | stripping leaves nothing exactly when every character is one to strip |
| `StrStrip.TrimmedOfCompose` | auto_deck.py:103 | stripping one set and then another trims only characters of their union |
| `StrStrip.TrimmedSubMultiset` | auto_deck.py:111 | stripping only deletes characters |
| `StrStrip.TrimmedKeeps` | auto_deck.py:76 | stripping keeps every occurrence of a character outside the set |
| `StrReplace.Replace` | auto_deck.py:111 | replacing `c` by text without `c` leaves no `c`, and every character of the result comes from the input or the replacement |
| `StrReplace.RemoveKeepsOthers` | auto_deck.py:111 | `s.replace(c, "")` removes every `c` and keeps every other character as often as it occurred |
| `StrReplace.ReplaceLength` | auto_deck.py:150 | each replaced occurrence changes the length by the replacement's length minus one |
| `StrReplace.ReplaceConcat` | auto_deck.py:150 | replacing in a concatenation is replacing in each part |
| `StrReplace.ReplaceAbsent` | auto_deck.py:150 | nothing changes when the character does not occur |
| `StrReplace.ReplaceByCharPointwise` | auto_deck.py:150 | replacing by a single character keeps the length and changes exactly the positions holding the old character |
| `FilterMaps.FilterMap` | auto_deck.py:66-69 | the loop output is no longer than its input and each output comes from some input element |
| `FilterMaps.FilterMapCount` | auto_deck.py:66-74 | the loop produces one output per element it keeps |
| `FilterMaps.FilterMapOrder` | auto_deck.py:66-78 | the output for the kept element `i` sits right after the outputs of the kept elements before it |
| `FilterMaps.FilterMapEmpty` | auto_deck.py:66-69 | nothing is produced exactly when every element is skipped |
| `FilterMaps.CountWhereComplement` | auto_deck.py:68-74 | elements that pass and elements that fail a test together account for all of them |
| `AutoDeck.CleanLine` | auto_deck.py:103 | cleaning is two passes: some trimming of bullet marks leaves a text whose ends are not bullet marks, and the result is a whitespace trimming of that text; it starts and ends with non-whitespace |
| `AutoDeck.CleanLineUnique` | auto_deck.py:103 | any text obtained by those two passes, each leaving clear ends, is the cleaned line, so `- x-` cleans to `x` and not `x-` |
| `AutoDeck.EmphasisText` | auto_deck.py:111 | emphasis text is a whitespace trimming of the line with every `*` and `#` removed; it holds no `*` or `#`, has clear ends, and keeps every other non-whitespace character exactly as often as the line has it |
| `AutoDeck.EmphasisTextUnique` | auto_deck.py:111 | any whitespace trimming with clear ends of the line with its marks removed is the emphasis text |
| `AutoDeck.ParagraphOf` | auto_deck.py:103-121 | a line gives no paragraph exactly when it cleans to nothing; it gives an emphasis paragraph (level 0, text the emphasis text of the cleaned line) exactly when the cleaned line starts with `*` or `#`, and a bullet paragraph (level 1, text the cleaned line) otherwise |
| `AutoDeck.Paragraphs` | auto_deck.py:102-105 | a body has at most one paragraph per line after the first, each either an emphasis at level 0 without marks or a non-empty bullet at level 1 |
| `AutoDeck.ColonSplit` | auto_deck.py:72-75 | there is a label and a rest exactly when the text holds a colon; the label is the text before the first colon and the rest the text after it |
| `AutoDeck.Header` | auto_deck.py:67-76 | a fragment gets a label and body exactly when, stripped, it is non-empty, starts with a digit and holds a colon; the body is the stripped text after the first colon |
| `AutoDeck.Title` | auto_deck.py:94 | an empty body gives `"Slide " + label`; otherwise the title is a prefix of the body without a line break that ends at the body's end or at its first line break |
| `AutoDeck.TitleNonEmpty` | auto_deck.py:94 | the title of a stripped body is never empty |
| `AutoDeck.SlideOf` | auto_deck.py:66-94 | a fragment becomes a slide exactly when it is kept, and that slide carries the footer and a non-empty title |
| `AutoDeck.ParseOutline` | auto_deck.py:64-78 | parsing is total and yields at most one slide more than the outline has occurrences of `"Slide "`, each with the brand footer and a non-empty title |
| `AutoDeck.BuildPptx` | auto_deck.py:53-78 | the deck is written to the given path and has exactly one slide per kept fragment |
| `AutoDeck.SlideCount` | auto_deck.py:65-78 | the number of slides is the number of kept fragments |
| `AutoDeck.EmptyOutline` | auto_deck.py:65-69 | an empty outline gives no slides |
| `AutoDeck.KeptAndDropped` | auto_deck.py:66-74 | every fragment either becomes a slide or is dropped: the slides plus the dropped fragments are as many as the fragments |
| `AutoDeck.SlideOrder` | auto_deck.py:66-78 | the slide of the kept fragment `i` comes right after the slides of the kept fragments before it |
| `AutoDeck.SlideSources` | auto_deck.py:66-78 | every slide is the slide of some kept fragment |
| `AutoDeck.ColonSplitAt` | auto_deck.py:72-75 | when the first colon of a text is at index `n`, the label is the text before `n` and the rest the text after it |
| `AutoDeck.ColonCount` | auto_deck.py:72-76 | cutting at the first colon and stripping the rest loses exactly one colon |
| `AutoDeck.LabelAndBody` | auto_deck.py:72-76 | the label is the stripped fragment's text before its first colon and holds no colon; every later colon stays in the body |
| `AutoDeck.EmptyBodySlide` | auto_deck.py:94 | a kept fragment with nothing after its colon becomes the slide titled `"Slide " + label` with no paragraphs |
| `AutoDeck.EmptyBodyNoParagraphs` | auto_deck.py:102 | an empty body has no paragraphs |
| `AutoDeck.ParagraphCount` | auto_deck.py:102-105 | the number of paragraphs is the number of lines after the first that do not clean to nothing |
| `AutoDeck.ParagraphOrder` | auto_deck.py:102-107 | paragraphs keep the order of their lines |
| `Scenarios.MarksOnlyLine` | auto_deck.py:110-116 | a line of marks only, `**`, still gives an emphasis paragraph, with empty text |
| `Scenarios.DashedBullet` | auto_deck.py:103-121 | a line of a dash, a space and a non-empty text becomes the bullet holding just that text, at level 1, when the text neither starts nor ends with a bullet mark or whitespace and does not start with `*` or `#` |
| `Scenarios.DashBothEnds` | auto_deck.py:103 | `- x-` cleans to `x`: bullet marks go from both ends |
| `Scenarios.MarksJoinMarker` | auto_deck.py:110-111 | the line `*Sl*ide c` holds no `"Slide "`, yet removing its stars gives the emphasis paragraph `Slide c`, which does |
| `Scenarios.StarredLine` | auto_deck.py:110-116 | a letter between two stars gives an emphasis paragraph at level 0 holding just that letter |
| `Scenarios.TabShieldsDash` | auto_deck.py:103 | in a tab followed by `- x`, the dash sits behind the tab, so the first pass keeps it and the bullet text is `- x` |
| `Scenarios.OneSlideOutline` | auto_deck.py:65-105 | `Slide 1: Intro` parses to one slide titled `Intro` with no paragraphs and the brand footer |
| `Scenarios.DigitHeader` | auto_deck.py:67-76 | a fragment made of a digit, a colon, a space and a body with clear ends, followed only by whitespace, is kept with the digit as its label and the body as its stripped body |
| `Scenarios.TwoBullets` | auto_deck.py:102-121 | a body made of a title line and two dash-led lines gives exactly those two bullets, in line order |
| `Scenarios.TwoSlideOutline` | auto_deck.py:65-121 | the two-slide outline gives exactly two slides: `Intro` with bullets `point one` and `point two`, then `*Key Trend*` with the marks kept in the title and the bullet `detail`, each with the brand footer |
| `AutoDeck.DefaultDeck` | auto_deck.py:53 | with both defaults the deck is written to `Branded_Slides.pptx`, has one slide per kept fragment, and every footer is the default brand `AutoDeck AI` followed by the fixed tag, spelled out as one literal |
| `AutoDeck.OutputFileName` | auto_deck.py:150 | the file name is the topic with every space turned into `_`, followed by `_Branded_Deck.pptx`, and holds no space |
| `AutoDeck.DeckForTopic` | auto_deck.py:150 | the command line writes the deck under the topic's file name, and every slide's footer is the default brand `AutoDeck AI` followed by the fixed tag, spelled out as one literal |
| `AutoDeck.DefaultFooterText` | auto_deck.py:127 | with the default brand `AutoDeck AI` the footer is that brand, a space, a vertical bar and ` Auto-Generated Deck` |
| `AutoDeck.FooterNamesBrand` | auto_deck.py:127 | different brands give different footers |
| `AutoDeck.TitleFree` | auto_deck.py:94 | a body free of `"Slide "` gives a title free of it exactly when the body is non-empty |
| `AutoDeck.BulletsFree` | auto_deck.py:102-118 | the bullet texts of a body free of `"Slide "` are free of it |
| `AutoDeck.SlideOfFree` | auto_deck.py:72-118 | a kept fragment free of `"Slide "` gives a slide whose bullets are free of it and whose title holds it only once, at its start; the title holds it exactly when the body is empty, and then it is `"Slide " + label` |
| `AutoDeck.NoSlideMarkerInText` | auto_deck.py:65-118 | because the outline is cut at every `"Slide "`, no bullet of any slide contains `"Slide "`; a title contains it at most once, at its start, and then the title is `"Slide " + label` for the label of one of the kept fragments |

## Left out

- `search_web` (auto_deck.py:12-17): network I/O through an external search client.
- `generate_slide_content` (auto_deck.py:22-48): a call to a hosted language model. The prompt is an interpolated string.
- Rendering (auto_deck.py:54-62, 78-91, 95-97, 107, 113-115, 119-120, 125-129):
  - the presentation and layout objects, the background rectangle and its z-order;
  - inch and point geometry, font sizes, bold flags and RGB colours.
  - Each paragraph keeps only its style tag and outline level.
  - The empty first paragraph that `tf.clear()` leaves in the content area is not modelled.
- `prs.save` and the console messages (auto_deck.py:131-132, 139, 143, 146, 149): file and console output. `BuildPptx` returns the deck together with the path it would be written to.
- The command line's argument check and exit code (auto_deck.py:138-142). The search and model calls feed the parser, so `DeckForTopic` takes the generated outline as a parameter.
- `AutoDeck.IsDigit`: Python's `str.isdigit` accepts every Unicode digit character. The model accepts only `'0'`..`'9'`, so a fragment starting with another digit character (such as `'²'` or `'٣'`) is dropped here but kept by the source.
- `StrSplit.Split`, `StrSplit.SplitOnce`: modelled only for non-empty separators. Python raises on an empty one, and the source never passes one.
- `StrReplace.Replace`: modelled only for a one-character `old`, which is all the source uses (`'*'`, `'#'`, `' '`).
- Python strings are sequences of code points. The model uses `seq<char>`, whose elements are Unicode scalar values, so it cannot hold the lone surrogates a Python `str` can hold; there is no normalisation, case folding or encoding.
