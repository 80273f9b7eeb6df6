/**
 The outline parser and slide-record builder of `build_pptx` (auto_deck.py),
 the footer text every slide carries, and the output file name the command
 line derives from the topic.

 The generated outline is cut at every "Slide ". Each fragment that, once
 stripped, starts with a digit and holds a colon becomes one slide: the text
 before the first colon is its ordinal label, the stripped text after it its
 body.
 The first body line is the title (or "Slide <ordinal>" for an empty body);
 every later line that is not blank once cleaned becomes a paragraph, an
 emphasis paragraph when it starts with `*` or `#`, a bullet otherwise.
 Rendering (shapes, fonts, colours, geometry) is reduced to the style tag and
 the outline level of each paragraph.
 */
module AutoDeck {
  import opened FilterMaps
  import opened StrSplit
  import opened StrStrip
  import opened StrReplace

  /** How a body paragraph is rendered: a larger bold bright-blue heading, or
      a normal dark-gray bullet. */
  datatype Style = Emphasis | Bullet

  /** One paragraph of a slide's content area and its outline level. */
  datatype Paragraph = Paragraph(text: string, style: Style, level: nat)

  /** What one slide shows: the title, the body paragraphs in order, and the
      footer text. */
  datatype SlideRecord = SlideRecord(title: string, paragraphs: seq<Paragraph>, footer: string)

  /** The deck `build_pptx` saves: where it is written and its slides in order. */
  datatype Deck = Deck(path: string, slides: seq<SlideRecord>)

  /** The text the outline is cut at. */
  const SlideMarker: string := "Slide "

  /** Lines of a slide body are separated by this alone (no "\r\n" handling). */
  const LineBreak: string := "\n"

  /** The characters `line.strip("-• ")` removes from both ends of a body line. */
  const BulletMarks: set<char> := {'-', '•', ' '}

  /** What follows the brand name in every footer. */
  const FooterTag: string := " | Auto-Generated Deck"

  /** The brand `build_pptx` uses when none is given, as from the command line. */
  const DefaultBrand: string := "AutoDeck AI"

  /** Where `build_pptx` writes the deck when no file name is given. */
  const DefaultOutputFile: string := "Branded_Slides.pptx"

  /** What the command line appends to the topic to name the deck file. */
  const DeckSuffix: string := "_Branded_Deck.pptx"

  /** `c.isdigit()`, restricted to the ASCII digits. */
  predicate IsDigit(c: char) {
    '0' <= c <= '9'
  }

  /** A line starting with one of these is an emphasis line. */
  predicate IsEmphasisMark(c: char) {
    c == '*' || c == '#'
  }

  // ---------------------------------------------------------------------------
  // Body lines
  // ---------------------------------------------------------------------------

  /** `line.strip("-• ").strip()`: bullet marks and spaces off both ends, then
      whitespace off both ends. A mark behind a tab survives the first pass. */
  function CleanLine(line: string): (r: string)
    ensures exists m :: TrimmedOf(m, line, BulletMarks) && EndsClear(m, BulletMarks) && TrimmedOf(r, m, Whitespace)
    ensures TrimmedOf(r, line, BulletMarks + Whitespace)
    ensures EndsClear(r, Whitespace)
  {
    var m := StripChars(line, BulletMarks);
    TrimmedOfCompose(Strip(m), m, line, BulletMarks, Whitespace);
    Strip(m)
  }

  /** The two passes pin the cleaned line down: a text cut from the line by
      a bullet-mark trimming with clear ends, then cut from that by a
      whitespace trimming with clear ends, is the cleaned line. */
  lemma CleanLineUnique(line: string, m: string, r: string)
    requires TrimmedOf(m, line, BulletMarks) && EndsClear(m, BulletMarks)
    requires TrimmedOf(r, m, Whitespace) && EndsClear(r, Whitespace)
    ensures r == CleanLine(line)
  {
    StripCharsUnique(m, line, BulletMarks);
    StripCharsUnique(r, m, Whitespace);
  }

  /** The text of an emphasis line: every `*` and `#`, wherever it stands,
      removed, and the rest stripped of whitespace. */
  function EmphasisText(t: string): (r: string)
    ensures '*' !in r && '#' !in r
    ensures EndsClear(r, Whitespace)
    ensures multiset(r) <= multiset(t)
    ensures forall c :: c != '*' && c != '#' && c !in Whitespace ==> multiset(r)[c] == multiset(t)[c]
    ensures TrimmedOf(r, Replace(Replace(t, '*', ""), '#', ""), Whitespace)
  {
    var plain := Replace(Replace(t, '*', ""), '#', "");
    MarksRemoved(t, plain, Strip(plain));
    Strip(plain)
  }

  /** What trimming the line with its marks removed keeps and drops. */
  lemma MarksRemoved(t: string, plain: string, r: string)
    requires plain == Replace(Replace(t, '*', ""), '#', "") && TrimmedOf(r, plain, Whitespace)
    ensures '*' !in r && '#' !in r
    ensures multiset(r) <= multiset(t)
    ensures forall c :: c != '*' && c != '#' && c !in Whitespace ==> multiset(r)[c] == multiset(t)[c]
  {
    var noStars := Replace(t, '*', "");
    RemoveKeepsOthers(t, '*');
    RemoveKeepsOthers(noStars, '#');
    RemoveCounts(t, '*');
    RemoveCounts(noStars, '#');
    TrimmedSubMultiset(r, plain, Whitespace);
    TrimmedKeepsAll(r, plain, Whitespace);
  }

  /** Emphasis text is pinned down by the marks-free line: any whitespace
      trimming of it with clear ends is the emphasis text. */
  lemma EmphasisTextUnique(t: string, r: string)
    requires TrimmedOf(r, Replace(Replace(t, '*', ""), '#', ""), Whitespace)
    requires EndsClear(r, Whitespace)
    ensures r == EmphasisText(t)
  {
    StripCharsUnique(r, Replace(Replace(t, '*', ""), '#', ""), Whitespace);
  }

  /** The paragraph a body line becomes, if any. */
  function ParagraphOf(line: string): (r: Option<Paragraph>)
    ensures r.None? <==> CleanLine(line) == []
    ensures r.Some? ==> (r.value.style == Emphasis <==> IsEmphasisMark(CleanLine(line)[0]))
    ensures r.Some? && r.value.style == Emphasis ==>
      && r.value.level == 0
      && r.value.text == EmphasisText(CleanLine(line))
      && '*' !in r.value.text && '#' !in r.value.text
      && EndsClear(r.value.text, Whitespace)
      && multiset(r.value.text) <= multiset(CleanLine(line))
    ensures r.Some? && r.value.style == Bullet ==>
      && r.value.level == 1
      && r.value.text == CleanLine(line)
      && r.value.text != [] && !IsEmphasisMark(r.value.text[0])
  {
    var t := CleanLine(line);
    if t == [] then None
    else if t[0] == '*' || t[0] == '#' then Some(Paragraph(EmphasisText(t), Emphasis, 0))
    else Some(Paragraph(t, Bullet, 1))
  }

  /** A body line that yields a paragraph. */
  predicate HasText(line: string) {
    CleanLine(line) != []
  }

  /** The lines of a body after its first (title) line. */
  function BodyLines(body: string): seq<string> {
    Split(body, LineBreak)[1..]
  }

  /** The paragraphs of a slide body: its lines after the first, in order,
      skipping those that clean to nothing. */
  function Paragraphs(body: string): (r: seq<Paragraph>)
    ensures |r| <= |Split(body, LineBreak)| - 1
    ensures forall k :: 0 <= k < |r| ==>
      || (r[k].style == Emphasis && r[k].level == 0 && '*' !in r[k].text && '#' !in r[k].text)
      || (r[k].style == Bullet && r[k].level == 1 && r[k].text != [])
  {
    FilterMap(BodyLines(body), ParagraphOf)
  }

  // ---------------------------------------------------------------------------
  // Fragments
  // ---------------------------------------------------------------------------

  /** A fragment of the outline that becomes a slide: once stripped it is
      non-empty, starts with a digit and holds a colon. */
  predicate Kept(frag: string) {
    var t := Strip(frag);
    |t| > 0 && IsDigit(t[0]) && ':' in t
  }

  /** A fragment that is skipped. */
  predicate Dropped(frag: string) {
    !Kept(frag)
  }

  /** `t.split(":", 1)` read as a pair: the text before the first colon and
      the text after it, when there is a colon. */
  function ColonSplit(t: string): (r: Option<(string, string)>)
    ensures r.Some? <==> ':' in t
    ensures r.Some? ==>
      var before := (r.value).0;
      && |before| < |t| && before == t[..|before|] && t[|before|] == ':' && ':' !in before
      && (r.value).1 == t[|before| + 1..]
  {
    SplitOnceChar(t, ':');
    var parts := SplitOnce(t, ":");
    if |parts| < 2 then None
    else
      assert t == parts[0] + ([':'] + parts[1]);
      Some((parts[0], parts[1]))
  }

  /** The ordinal label and body of a fragment: the stripped fragment's text
      before its first colon, and the text after that colon, stripped. */
  function Header(frag: string): (r: Option<(string, string)>)
    ensures r.Some? <==> Kept(frag)
    ensures r.Some? ==>
      && ColonSplit(Strip(frag)).Some?
      && var (before, after) := ColonSplit(Strip(frag)).value;
        && r.value == (before, Strip(after))
        && before != [] && IsDigit(before[0])
  {
    var t := Strip(frag);
    if |t| == 0 || !IsDigit(t[0]) then None
    else
      match ColonSplit(t)
      case None => None
      case Some((ordinal, rest)) => Some((ordinal, Strip(rest)))
  }

  /** The slide title: the body up to its first line break, or
      "Slide <ordinal>" when the body is empty. */
  function Title(ordinal: string, body: string): (r: string)
    ensures body == [] ==> r == SlideMarker + ordinal
    ensures body != [] ==> r <= body && '\n' !in r && (r == body || body[|r|] == '\n')
  {
    if body != [] then
      SplitFirstPieceChar(body, '\n');
      Split(body, LineBreak)[0]
    else
      SlideMarker + ordinal
  }

  /** The slide a fragment becomes, if any. */
  function SlideOf(frag: string, footer: string): (r: Option<SlideRecord>)
    ensures r.Some? <==> Kept(frag)
    ensures r.Some? ==> r.value.footer == footer && r.value.title != []
  {
    match Header(frag)
    case None => None
    case Some((ordinal, body)) =>
      TitleNonEmpty(ordinal, body);
      Some(SlideRecord(Title(ordinal, body), Paragraphs(body), footer))
  }

  /** A slide always has a title: the first line of a stripped, non-empty body
      cannot be empty, and the fallback starts with "Slide ". */
  lemma TitleNonEmpty(ordinal: string, body: string)
    requires EndsClear(body, Whitespace)
    ensures Title(ordinal, body) != []
  {
    if body != [] {
      assert body[0] !in Whitespace;
    }
  }

  /** `SlideOf` for one fixed footer, as the function the fragment loop applies. */
  function SlideParser(footer: string): string -> Option<SlideRecord> {
    frag => SlideOf(frag, footer)
  }

  // ---------------------------------------------------------------------------
  // The whole outline
  // ---------------------------------------------------------------------------

  /** The footer text of every slide. */
  function Footer(brand: string): string {
    brand + FooterTag
  }

  /** The fragments of an outline: the text between consecutive "Slide "s. */
  function Fragments(content: string): (r: seq<string>)
    ensures |r| >= 1
  {
    Split(content, SlideMarker)
  }

  /** The slide records `build_pptx` renders from an outline, in order. */
  function ParseOutline(content: string, brand: string): (r: seq<SlideRecord>)
    ensures |r| <= Occurrences(content, SlideMarker) + 1
    ensures forall k :: 0 <= k < |r| ==> r[k].footer == Footer(brand) && r[k].title != []
  {
    SplitCountBound(content, SlideMarker);
    FilterMap(Fragments(content), SlideParser(Footer(brand)))
  }

  /** `build_pptx(content, outputFile, brand)`, without the file write. */
  function BuildPptx(content: string, outputFile: string, brand: string): (r: Deck)
    ensures r.path == outputFile
    ensures |r.slides| == CountWhere(Fragments(content), Kept)
  {
    FilterMapCount(Fragments(content), SlideParser(Footer(brand)), Kept);
    Deck(outputFile, ParseOutline(content, brand))
  }

  /** The deck file name for a topic: spaces become underscores, then
      "_Branded_Deck.pptx" is appended. */
  function OutputFileName(topic: string): (r: string)
    ensures |r| == |topic| + |DeckSuffix| && r[|topic|..] == DeckSuffix
    ensures ' ' !in r
    ensures forall i :: 0 <= i < |topic| ==> r[i] == if topic[i] == ' ' then '_' else topic[i]
  {
    var stem := Replace(topic, ' ', "_");
    ReplaceByCharPointwise(topic, ' ', '_');
    assert ' ' !in DeckSuffix;
    assert (stem + DeckSuffix)[|stem|..] == DeckSuffix;
    stem + DeckSuffix
  }

  /** `build_pptx(content)` with both defaults: the deck goes to
      "Branded_Slides.pptx" and every slide shows the default brand. */
  function DefaultDeck(content: string): (r: Deck)
    ensures r.path == "Branded_Slides.pptx"
    ensures |r.slides| == CountWhere(Fragments(content), Kept)
    ensures forall k :: 0 <= k < |r.slides| ==> r.slides[k].footer == "AutoDeck AI | Auto-Generated Deck"
  {
    DefaultFooterText();
    BuildPptx(content, DefaultOutputFile, DefaultBrand)
  }

  /** What the command line does with a topic once the outline is generated:
      the deck named after the topic, with the default brand on every slide. */
  function DeckForTopic(topic: string, outline: string): (r: Deck)
    ensures r.path == OutputFileName(topic) && ' ' !in r.path
    ensures forall k :: 0 <= k < |r.slides| ==> r.slides[k].footer == "AutoDeck AI | Auto-Generated Deck"
  {
    DefaultFooterText();
    BuildPptx(outline, OutputFileName(topic), DefaultBrand)
  }

  /** The footer every slide of a deck made from the command line shows. */
  lemma DefaultFooterText()
    ensures Footer(DefaultBrand) == "AutoDeck AI | Auto-Generated Deck"
  {
    assert DefaultBrand + FooterTag == "AutoDeck AI" + " | Auto-Generated Deck";
  }

  // ---------------------------------------------------------------------------
  // Properties of the parser
  // ---------------------------------------------------------------------------

  /** One slide per kept fragment: the deck has exactly as many slides as the
      outline has fragments that pass the guards. */
  lemma SlideCount(content: string, brand: string)
    ensures |ParseOutline(content, brand)| == CountWhere(Fragments(content), Kept)
  {
    FilterMapCount(Fragments(content), SlideParser(Footer(brand)), Kept);
  }

  /** An empty outline gives an empty deck: its one fragment is empty. */
  lemma EmptyOutline(brand: string)
    ensures ParseOutline("", brand) == []
  {
    assert Fragments("") == [""];
    assert Dropped("");
  }

  /** Every fragment either becomes a slide or is dropped: the slides and
      the dropped fragments together account for all fragments. */
  lemma KeptAndDropped(content: string, brand: string)
    ensures |ParseOutline(content, brand)| + CountWhere(Fragments(content), Dropped)
         == |Fragments(content)|
  {
    SlideCount(content, brand);
    CountWhereComplement(Fragments(content), Kept, Dropped);
  }

  /** Slides keep the order of their fragments: the slide made from the kept
      fragment `i` comes right after the slides of the kept fragments before it. */
  lemma SlideOrder(content: string, brand: string, i: int)
    requires 0 <= i < |Fragments(content)| && Kept(Fragments(content)[i])
    ensures var frags := Fragments(content);
      var r := ParseOutline(content, brand);
      && CountWhere(frags[..i], Kept) < |r|
      && r[CountWhere(frags[..i], Kept)] == SlideOf(frags[i], Footer(brand)).value
  {
    FilterMapOrder(Fragments(content), SlideParser(Footer(brand)), Kept, i);
  }

  /** Every slide is the slide of some kept fragment. */
  lemma SlideSources(content: string, brand: string, k: int)
    requires 0 <= k < |ParseOutline(content, brand)|
    ensures exists i ::
      && 0 <= i < |Fragments(content)| && Kept(Fragments(content)[i])
      && ParseOutline(content, brand)[k] == SlideOf(Fragments(content)[i], Footer(brand)).value
  {
    var frags := Fragments(content);
    var i :| 0 <= i < |frags| && SlideParser(Footer(brand))(frags[i]) == Some(ParseOutline(content, brand)[k]);
    assert SlideOf(frags[i], Footer(brand)).Some?;
  }

  /** Cutting at the first colon and stripping the rest loses exactly that
      one colon. */
  lemma ColonCount(t: string)
    requires ':' in t
    ensures multiset(Strip(ColonSplit(t).value.1))[':'] + 1 == multiset(t)[':']
  {
    var (ordinal, rest) := ColonSplit(t).value;
    assert t == ordinal + [':'] + rest;
    assert multiset(t) == multiset(ordinal) + multiset{':'} + multiset(rest);
    assert multiset(ordinal)[':'] == 0;
    assert ':' !in Whitespace;
    TrimmedKeeps(Strip(rest), rest, Whitespace, ':');
  }

  /** The cut of `ColonSplit` is the first colon: when the first colon of `t`
      is at index `n`, the pair is the text before and after index `n`. */
  lemma ColonSplitAt(t: string, n: int)
    requires 0 <= n < |t| && t[n] == ':' && ':' !in t[..n]
    ensures ColonSplit(t) == Some((t[..n], t[n + 1..]))
  {
    var before := ColonSplit(t).value.0;
    assert forall k :: 0 <= k < n ==> t[k] != ':' by {
      assert forall k :: 0 <= k < n ==> t[k] == t[..n][k];
    }
    assert forall k :: 0 <= k < |before| ==> t[k] != ':' by {
      assert forall k :: 0 <= k < |before| ==> t[k] == before[k];
    }
  }

  /** The label is the text before the first colon of the stripped fragment;
      every later colon stays in the body, since stripping whitespace never
      removes a colon. */
  lemma LabelAndBody(frag: string)
    requires Kept(frag)
    ensures var (ordinal, body) := Header(frag).value;
      && ordinal < Strip(frag) && Strip(frag)[|ordinal|] == ':' && ':' !in ordinal
      && multiset(body)[':'] + 1 == multiset(Strip(frag))[':']
  {
    ColonCount(Strip(frag));
  }

  /** A fragment with a colon but nothing after it still makes a slide, titled
      "Slide <ordinal>" and without paragraphs. */
  lemma EmptyBodySlide(frag: string, footer: string)
    requires Kept(frag) && Header(frag).value.1 == []
    ensures SlideOf(frag, footer) == Some(SlideRecord(SlideMarker + Header(frag).value.0, [], footer))
  {
    var h := Header(frag);
    var ordinal := h.value.0;
    assert h == Some((ordinal, []));
    EmptyBodyNoParagraphs();
    assert SlideOf(frag, footer) == Some(SlideRecord(Title(ordinal, []), Paragraphs([]), footer));
  }

  /** An empty body has no lines after the first, hence no paragraphs. */
  lemma EmptyBodyNoParagraphs()
    ensures Paragraphs([]) == []
  {
    assert Split([], LineBreak) == [[]];
    assert BodyLines([]) == [];
  }

  /** One paragraph per body line that has text after cleaning. */
  lemma ParagraphCount(body: string)
    ensures |Paragraphs(body)| == CountWhere(BodyLines(body), HasText)
  {
    FilterMapCount(BodyLines(body), ParagraphOf, HasText);
  }

  /** Paragraphs keep the order of their lines. */
  lemma ParagraphOrder(body: string, i: int)
    requires 0 <= i < |BodyLines(body)| && HasText(BodyLines(body)[i])
    ensures var lines := BodyLines(body);
      var r := Paragraphs(body);
      && CountWhere(lines[..i], HasText) < |r|
      && r[CountWhere(lines[..i], HasText)] == ParagraphOf(lines[i]).value
  {
    FilterMapOrder(BodyLines(body), ParagraphOf, HasText, i);
  }

  /** The footer names the brand: different brands give different footers. */
  lemma FooterNamesBrand(a: string, b: string)
    ensures Footer(a) == Footer(b) ==> a == b
  {
    if Footer(a) == Footer(b) {
      assert a == Footer(a)[..|Footer(a)| - |FooterTag|];
      assert b == Footer(b)[..|Footer(b)| - |FooterTag|];
    }
  }

  // ---------------------------------------------------------------------------
  // Where "Slide " can still appear
  // ---------------------------------------------------------------------------

  /** Trimming cuts out a piece of the text, so it adds no occurrence. */
  lemma FreeTrimmed(r: string, s: string, cs: set<char>, sep: string)
    requires TrimmedOf(r, s, cs) && Free(s, sep)
    ensures Free(r, sep)
  {
    var i :| TrimmedAt(r, s, cs, i);
    FreeInfix(r, s, sep, i);
  }

  /** The text after the first colon lies inside the text, so it is free of
      whatever the text is free of. */
  lemma AfterColonFree(t: string, sep: string)
    requires ':' in t && Free(t, sep)
    ensures Free(ColonSplit(t).value.1, sep)
  {
    var n := |ColonSplit(t).value.0| + 1;
    assert InfixAt(t[n..], t, n);
    FreeInfix(t[n..], t, sep, n);
  }

  /** A kept fragment free of "Slide " has a body free of it too. */
  lemma BodyFree(frag: string)
    requires Kept(frag) && Free(frag, SlideMarker)
    ensures Free(Header(frag).value.1, SlideMarker)
  {
    var t := Strip(frag);
    FreeTrimmed(t, frag, Whitespace, SlideMarker);
    AfterColonFree(t, SlideMarker);
    var after := ColonSplit(t).value.1;
    FreeTrimmed(Strip(after), after, Whitespace, SlideMarker);
  }

  /** The title of a body is free of "Slide " exactly when the body is
      non-empty: a non-empty body gives its first line, which lies inside it,
      and an empty one gives the fallback, which starts with "Slide ". */
  lemma TitleFree(ordinal: string, body: string)
    requires Free(body, SlideMarker)
    ensures Free(Title(ordinal, body), SlideMarker) <==> body != []
  {
    var r := Title(ordinal, body);
    if body != [] {
      assert InfixAt(r, body, 0);
      FreeInfix(r, body, SlideMarker, 0);
    } else {
      assert r[..|SlideMarker|] == SlideMarker;
      assert OccursAt(r, SlideMarker, 0);
    }
  }

  /** Every body line, once cleaned, lies inside the body. */
  lemma CleanLineFree(body: string, i: int, sep: string)
    requires |sep| > 0 && Free(body, sep) && 0 <= i < |BodyLines(body)|
    ensures Free(CleanLine(BodyLines(body)[i]), sep)
  {
    var line := Split(body, LineBreak)[i + 1];
    SplitPieceFree(body, LineBreak, i + 1);
    var j :| InfixAt(line, body, j);
    FreeInfix(line, body, sep, j);
    FreeTrimmed(CleanLine(line), line, BulletMarks + Whitespace, sep);
  }

  /** Bullet texts of a body free of "Slide " are free of it: each is a
      cleaned body line. */
  lemma BulletsFree(body: string)
    requires Free(body, SlideMarker)
    ensures forall k :: 0 <= k < |Paragraphs(body)| && Paragraphs(body)[k].style == Bullet ==>
      Free(Paragraphs(body)[k].text, SlideMarker)
  {
    var lines := BodyLines(body);
    var ps := Paragraphs(body);
    forall k | 0 <= k < |ps| && ps[k].style == Bullet
      ensures Free(ps[k].text, SlideMarker)
    {
      var i :| 0 <= i < |lines| && ParagraphOf(lines[i]) == Some(ps[k]);
      CleanLineFree(body, i, SlideMarker);
    }
  }

  /** "Slide " appears never in a bullet, and in a title only as the start
      of the fallback title: at most once, at its start, with the rest of
      the title free of it. An emphasis paragraph is not covered: removing
      its marks can join text into "Slide " (`*Sl*ide x` reads `Slide x`). */
  predicate MarkerOnlyInFallbackTitle(s: SlideRecord) {
    && (|| Free(s.title, SlideMarker)
        || (&& |SlideMarker| <= |s.title|
            && s.title[..|SlideMarker|] == SlideMarker
            && Free(s.title[|SlideMarker|..], SlideMarker)))
    && forall m :: 0 <= m < |s.paragraphs| && s.paragraphs[m].style == Bullet ==>
      Free(s.paragraphs[m].text, SlideMarker)
  }

  /** The label of a kept fragment free of "Slide " is free of it too. */
  lemma LabelFree(frag: string)
    requires Kept(frag) && Free(frag, SlideMarker)
    ensures Free(Header(frag).value.0, SlideMarker)
  {
    var t := Strip(frag);
    FreeTrimmed(t, frag, Whitespace, SlideMarker);
    var ordinal := Header(frag).value.0;
    assert InfixAt(ordinal, t, 0);
    FreeInfix(ordinal, t, SlideMarker, 0);
  }

  /** The slide of a kept fragment free of "Slide " shows it in no bullet
      and in a title only as the fallback, and its title is the fallback "Slide <label>" exactly
      when the body is empty. */
  lemma SlideOfFree(frag: string, footer: string)
    requires Kept(frag) && Free(frag, SlideMarker)
    ensures MarkerOnlyInFallbackTitle(SlideOf(frag, footer).value)
    ensures Free(SlideOf(frag, footer).value.title, SlideMarker) <==> Header(frag).value.1 != []
    ensures !Free(SlideOf(frag, footer).value.title, SlideMarker) ==>
      SlideOf(frag, footer).value.title == SlideMarker + Header(frag).value.0
  {
    BodyFree(frag);
    var (ordinal, body) := Header(frag).value;
    TitleFree(ordinal, body);
    BulletsFree(body);
    var title := Title(ordinal, body);
    if body == [] {
      LabelFree(frag);
      assert title[..|SlideMarker|] == SlideMarker && title[|SlideMarker|..] == ordinal;
    }
  }

  /** Because the outline is cut at every "Slide ", including one inside a
      slide's own text, no bullet of any slide holds "Slide ", and a title
      holds it only when it is the "Slide <label>" fallback of one of the
      kept fragments, and then only once, at its start. Emphasis
      paragraphs are not covered (see `MarkerOnlyInFallbackTitle`). */
  lemma NoSlideMarkerInText(content: string, brand: string, k: int)
    requires 0 <= k < |ParseOutline(content, brand)|
    ensures MarkerOnlyInFallbackTitle(ParseOutline(content, brand)[k])
    ensures !Free(ParseOutline(content, brand)[k].title, SlideMarker) ==>
      exists i :: 0 <= i < |Fragments(content)| && Kept(Fragments(content)[i])
        && ParseOutline(content, brand)[k].title == SlideMarker + Header(Fragments(content)[i]).value.0
  {
    var frags := Fragments(content);
    SlideSources(content, brand, k);
    var i :| 0 <= i < |frags| && Kept(frags[i])
      && ParseOutline(content, brand)[k] == SlideOf(frags[i], Footer(brand)).value;
    SplitPieceFree(content, SlideMarker, i);
    SlideOfFree(frags[i], Footer(brand));
  }
}
