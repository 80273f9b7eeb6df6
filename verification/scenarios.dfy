/**
 Worked outlines, end to end: a two-slide outline parsed into its slide
 records step by step, and the general facts about digit-led fragments,
 dash-led lines and line-separated bodies the steps rest on.
 */
module Scenarios {
  import opened FilterMaps
  import opened StrSplit
  import opened StrStrip
  import opened StrReplace
  import opened AutoDeck

  /** How the outline writes a bullet line: a dash and a space before the
      text. */
  const Dash: string := "- "

  /** The body of the first slide: a title line and two dash bullets. */
  const FirstBody: string := "Intro" + LineBreak + Dash + "point one" + LineBreak + Dash + "point two"

  /** The body of the second slide: a title written with emphasis marks and
      one dash bullet. */
  const SecondBody: string := "*Key Trend*" + LineBreak + Dash + "detail"

  /** The text between the two "Slide "s, line break included. */
  const FirstFragment: string := "1: " + FirstBody + LineBreak

  /** The text after the second "Slide ". */
  const SecondFragment: string := "2: " + SecondBody

  /** The outline "Slide 1: Intro\n- point one\n- point two\nSlide 2: *Key Trend*\n- detail". */
  const TwoSlides: string := SlideMarker + FirstFragment + SlideMarker + SecondFragment

  // ---------------------------------------------------------------------------
  // General steps
  // ---------------------------------------------------------------------------

  /** A text made of pieces none of which holds the separator's first
      character splits back into exactly those pieces. */
  lemma SplitOfPieces(ps: seq<string>, sep: string)
    requires |sep| > 0 && |ps| >= 1
    requires forall i :: 0 <= i < |ps| ==> sep[0] !in ps[i]
    ensures Split(Join(ps, sep), sep) == ps
  {
    SplitWhenHeadAbsent(ps, Join(ps, sep), sep);
  }

  /** Whitespace after a text whose ends are clear is all that stripping
      removes. */
  lemma StripTrailing(t: string, tail: string)
    requires EndsClear(t, Whitespace) && AllIn(tail, 0, |tail|, Whitespace)
    ensures Strip(t + tail) == t
  {
    var s := t + tail;
    assert TrimmedAt(t, s, Whitespace, 0) by {
      assert s[..|t|] == t;
      forall k | |t| <= k < |s|
        ensures s[k] in Whitespace
      {
        assert s[k] == tail[k - |t|];
      }
    }
    StripCharsUnique(t, s, Whitespace);
  }

  /** A space before a text whose ends are clear is all that stripping
      removes. */
  lemma StripLeadingSpace(t: string)
    requires EndsClear(t, Whitespace)
    ensures Strip(" " + t) == t
  {
    assert ' ' in Whitespace;
    assert TrimmedAt(t, " " + t, Whitespace, 1);
    StripCharsUnique(t, " " + t, Whitespace);
  }

  /** Stripping the fragment "<digit>: <body>" removes only what follows
      the body. */
  lemma DigitFragmentStrip(d: char, body: string, tail: string)
    requires IsDigit(d) && body != [] && EndsClear(body, Whitespace)
    requires AllIn(tail, 0, |tail|, Whitespace)
    ensures Strip([d] + ": " + body + tail) == [d] + ": " + body
  {
    var t := [d] + ": " + body;
    assert d !in Whitespace;
    assert t[|t| - 1] == body[|body| - 1];
    StripTrailing(t, tail);
  }

  /** The first colon of "<digit>: <body>" is the one after the digit. */
  lemma DigitColon(d: char, body: string)
    requires IsDigit(d)
    ensures ColonSplit([d] + ": " + body) == Some(([d], " " + body))
  {
    var t := [d] + ": " + body;
    assert t[..1] == [d] && t[2..] == " " + body;
    ColonSplitAt(t, 1);
  }

  /** A fragment "<digit>: <body>" followed only by whitespace is kept, with
      the digit as its label and the body as its stripped body. */
  lemma DigitHeader(d: char, body: string, tail: string)
    requires IsDigit(d) && body != [] && EndsClear(body, Whitespace)
    requires AllIn(tail, 0, |tail|, Whitespace)
    ensures Kept([d] + ": " + body + tail)
    ensures Header([d] + ": " + body + tail) == Some(([d], body))
  {
    DigitFragmentStrip(d, body, tail);
    DigitColon(d, body);
    StripLeadingSpace(body);
  }

  /** A line "- <text>" is a bullet with that text, when the text neither
      starts nor ends with a mark or whitespace and does not start with an
      emphasis mark. */
  lemma DashedBullet(x: string)
    requires x != [] && EndsClear(x, BulletMarks + Whitespace)
    requires !IsEmphasisMark(x[0])
    ensures ParagraphOf(Dash + x) == Some(Paragraph(x, Bullet, 1))
  {
    var line := Dash + x;
    assert x == line[2..];
    assert '-' in BulletMarks && ' ' in BulletMarks;
    assert TrimmedAt(x, line, BulletMarks, 2);
    StripCharsUnique(x, line, BulletMarks);
    StripCharsClear(x, Whitespace);
  }

  /** A text that starts and ends with a lower-case letter has nothing for
      either strip to remove and is no emphasis line. */
  lemma LetterEnds(x: string)
    requires x != [] && 'a' <= x[0] <= 'z' && 'a' <= x[|x| - 1] <= 'z'
    ensures EndsClear(x, BulletMarks + Whitespace) && !IsEmphasisMark(x[0])
  {
  }

  /** A dash-led line on its own filter-maps to its bullet. */
  lemma BulletLine(x: string)
    requires x != [] && EndsClear(x, BulletMarks + Whitespace) && !IsEmphasisMark(x[0])
    ensures FilterMap([Dash + x], ParagraphOf) == [Paragraph(x, Bullet, 1)]
  {
    DashedBullet(x);
    assert [Dash + x][1..] == [];
  }

  /** A body of a title line and one dash bullet has that one paragraph. */
  lemma OneBullet(body: string, title: string, x: string)
    requires Split(body, LineBreak) == [title, Dash + x]
    requires x != [] && EndsClear(x, BulletMarks + Whitespace) && !IsEmphasisMark(x[0])
    ensures Paragraphs(body) == [Paragraph(x, Bullet, 1)]
  {
    assert BodyLines(body) == [Dash + x];
    BulletLine(x);
  }

  /** Two dash-led lines filter-map to their two bullets, in order. */
  lemma TwoBulletLines(x: string, y: string)
    requires x != [] && EndsClear(x, BulletMarks + Whitespace) && !IsEmphasisMark(x[0])
    requires y != [] && EndsClear(y, BulletMarks + Whitespace) && !IsEmphasisMark(y[0])
    ensures FilterMap([Dash + x, Dash + y], ParagraphOf)
         == [Paragraph(x, Bullet, 1), Paragraph(y, Bullet, 1)]
  {
    assert [Dash + x, Dash + y] == [Dash + x] + [Dash + y];
    FilterMapConcat([Dash + x], [Dash + y], ParagraphOf);
    BulletLine(x);
    BulletLine(y);
  }

  /** A body of a title line and two dash bullets has those two paragraphs,
      in order. */
  lemma TwoBullets(body: string, title: string, x: string, y: string)
    requires Split(body, LineBreak) == [title, Dash + x, Dash + y]
    requires x != [] && EndsClear(x, BulletMarks + Whitespace) && !IsEmphasisMark(x[0])
    requires y != [] && EndsClear(y, BulletMarks + Whitespace) && !IsEmphasisMark(y[0])
    ensures Paragraphs(body) == [Paragraph(x, Bullet, 1), Paragraph(y, Bullet, 1)]
  {
    assert BodyLines(body) == [Dash + x, Dash + y];
    TwoBulletLines(x, y);
  }

  /** Filter-mapping a skipped element followed by two kept ones. */
  lemma SkipThenTwo<A, B>(a: A, x: A, y: A, f: A -> Option<B>)
    requires f(a).None? && f(x).Some? && f(y).Some?
    ensures FilterMap([a, x, y], f) == [f(x).value, f(y).value]
  {
    assert [y][1..] == [];
    assert FilterMap([y], f) == [f(y).value];
    assert [x, y][1..] == [y];
    assert FilterMap([x, y], f) == [f(x).value, f(y).value];
    assert [a, x, y][1..] == [x, y];
  }

  /** An outline cut into an empty lead-in and two kept fragments gives the
      two slides of those fragments, in order. */
  lemma LeadInAndTwo(content: string, brand: string, x: string, y: string)
    requires Fragments(content) == ["", x, y] && Kept(x) && Kept(y)
    ensures ParseOutline(content, brand)
         == [SlideOf(x, Footer(brand)).value, SlideOf(y, Footer(brand)).value]
  {
    var p := SlideParser(Footer(brand));
    assert p("") == None by {
      assert Dropped("");
    }
    SkipThenTwo("", x, y, p);
  }

  // ---------------------------------------------------------------------------
  // Single lines and a one-slide outline
  // ---------------------------------------------------------------------------

  /** An emphasis line made only of marks still becomes a paragraph, with
      empty text. */
  lemma MarksOnlyLine()
    ensures ParagraphOf("**") == Some(Paragraph("", Emphasis, 0))
  {
    var line := "**";
    assert '*' !in BulletMarks && '*' !in Whitespace;
    StripCharsClear(line, BulletMarks);
    StripCharsClear(line, Whitespace);
    assert CleanLine(line) == line;
    assert Replace(line, '*', "") == "" by {
      assert line[1..] == "*" && line[1..][1..] == "";
    }
    StripCharsClear("", Whitespace);
  }

  /** An emphasis line keeps its text and loses every mark, wherever it
      stands: a letter between two stars is an emphasis paragraph holding
      just that letter. */
  lemma StarredLine(c: char)
    requires 'a' <= c <= 'z'
    ensures ParagraphOf(['*', c, '*']) == Some(Paragraph([c], Emphasis, 0))
  {
    var line := ['*', c, '*'];
    assert '*' !in BulletMarks && '*' !in Whitespace;
    StripCharsClear(line, BulletMarks);
    StripCharsClear(line, Whitespace);
    assert CleanLine(line) == line;
    StarredLineText(c);
  }

  /** The text step of `StarredLine`. */
  lemma StarredLineText(c: char)
    requires 'a' <= c <= 'z'
    ensures EmphasisText(['*', c, '*']) == [c]
  {
    StarsRemoved(c);
    assert c !in Whitespace;
    EmphasisOfPlain(['*', c, '*'], [c]);
  }

  /** A line whose marks-free text already has clear ends has that text as
      its emphasis text. */
  lemma EmphasisOfPlain(t: string, plain: string)
    requires Replace(Replace(t, '*', ""), '#', "") == plain && EndsClear(plain, Whitespace)
    ensures EmphasisText(t) == plain
  {
    assert TrimmedAt(plain, plain, Whitespace, 0);
    EmphasisTextUnique(t, plain);
  }

  /** Removing the marks around a letter leaves the letter. */
  lemma StarsRemoved(c: char)
    requires 'a' <= c <= 'z'
    ensures Replace(Replace(['*', c, '*'], '*', ""), '#', "") == [c]
  {
    var line := ['*', c, '*'];
    assert Replace(['*'], '*', "") == [] by {
      assert ['*'][1..] == [];
    }
    assert Replace([c, '*'], '*', "") == [c] by {
      assert [c, '*'][1..] == ['*'];
    }
    assert line[1..] == [c, '*'];
    ReplaceAbsent([c], '#', "");
  }

  /** Removing emphasis marks can join text into "Slide ": the line
      `*Sl*ide c` holds no "Slide ", yet its emphasis paragraph reads
      `Slide c`, so the cut at every "Slide " does not keep it out of
      emphasis paragraphs. */
  lemma MarksJoinMarker(c: char)
    requires 'a' <= c <= 'z'
    ensures var line := ['*', 'S', 'l', '*', 'i', 'd', 'e', ' ', c];
      && Free(line, SlideMarker)
      && ParagraphOf(line) == Some(Paragraph(SlideMarker + [c], Emphasis, 0))
      && !Free(SlideMarker + [c], SlideMarker)
  {
    SplitWordFree(c);
    SplitWordParagraph(c);
    var plain := SlideMarker + [c];
    assert plain[..|SlideMarker|] == SlideMarker;
    assert OccursAt(plain, SlideMarker, 0);
  }

  /** The first step of `MarksJoinMarker`: the star inside the word keeps
      the line free of "Slide ". */
  lemma SplitWordFree(c: char)
    requires 'a' <= c <= 'z'
    ensures Free(['*', 'S', 'l', '*', 'i', 'd', 'e', ' ', c], SlideMarker)
  {
    var line := ['*', 'S', 'l', '*', 'i', 'd', 'e', ' ', c];
    forall j | 0 <= j < |line|
      ensures !OccursAt(line, SlideMarker, j)
    {
      if j == 1 {
        assert line[j..j + |SlideMarker|][2] != SlideMarker[2];
      } else {
        NotOccursAtChar(line, SlideMarker, j);
      }
    }
  }

  /** The second step of `MarksJoinMarker`: the line is an emphasis line
      whose text is the joined word. */
  lemma SplitWordParagraph(c: char)
    requires 'a' <= c <= 'z'
    ensures ParagraphOf(['*', 'S', 'l', '*', 'i', 'd', 'e', ' ', c])
      == Some(Paragraph(SlideMarker + [c], Emphasis, 0))
  {
    var line := ['*', 'S', 'l', '*', 'i', 'd', 'e', ' ', c];
    assert '*' !in BulletMarks && '*' !in Whitespace && c !in BulletMarks && c !in Whitespace;
    StripCharsClear(line, BulletMarks);
    StripCharsClear(line, Whitespace);
    assert CleanLine(line) == line;
    SplitWordText(c);
  }

  /** The text step of `SplitWordParagraph`. */
  lemma SplitWordText(c: char)
    requires 'a' <= c <= 'z'
    ensures EmphasisText(['*', 'S', 'l', '*', 'i', 'd', 'e', ' ', c]) == SlideMarker + [c]
  {
    var a, b := SlideMarker[..2], SlideMarker[2..] + [c];
    assert ['*', 'S', 'l', '*', 'i', 'd', 'e', ' ', c] == ['*'] + a + ['*'] + b;
    assert a + b == SlideMarker + [c];
    assert 'S' !in Whitespace && c !in Whitespace;
    EmphasisAround(a, b);
  }

  /** `*a*b`, with no marks in `a` or `b` and clear ends on `ab`, has the
      emphasis text `ab`. */
  lemma EmphasisAround(a: string, b: string)
    requires '*' !in a && '*' !in b && '#' !in a && '#' !in b
    requires EndsClear(a + b, Whitespace)
    ensures EmphasisText(['*'] + a + ['*'] + b) == a + b
  {
    MarksAround(a, b);
    EmphasisOfPlain(['*'] + a + ['*'] + b, a + b);
  }

  /** Removing the stars of `*a*b`, where `a` and `b` hold no marks, leaves
      `a` and `b` joined. */
  lemma MarksAround(a: string, b: string)
    requires '*' !in a && '*' !in b && '#' !in a && '#' !in b
    ensures Replace(Replace(['*'] + a + ['*'] + b, '*', ""), '#', "") == a + b
  {
    var star: string := ['*'];
    assert Replace(star, '*', "") == [] by {
      assert star[1..] == [];
    }
    ReplaceAbsent(a, '*', "");
    ReplaceAbsent(b, '*', "");
    ReplaceConcat(star, a, '*', "");
    assert Replace(star + a, '*', "") == a;
    ReplaceConcat(star + a, star, '*', "");
    assert Replace(star + a + star, '*', "") == a;
    ReplaceConcat(star + a + star, b, '*', "");
    assert Replace(star + a + star + b, '*', "") == a + b;
    ReplaceAbsent(a + b, '#', "");
  }

  /** Bullet marks go from both ends, so a trailing dash is dropped too. */
  lemma DashBothEnds()
    ensures CleanLine("- x-") == "x"
  {
    var line, text := "- x-", "x";
    assert '-' in BulletMarks && ' ' in BulletMarks && 'x' !in BulletMarks;
    assert text == line[2..3];
    assert TrimmedAt(text, line, BulletMarks, 2);
    assert 'x' !in Whitespace;
    assert TrimmedAt(text, text, Whitespace, 0);
    CleanLineUnique(line, text, text);
  }

  /** Bullet marks are stripped before whitespace, so a dash behind a tab
      is shielded from the first pass and stays in the bullet text. */
  lemma TabShieldsDash()
    ensures ParagraphOf("\t- x") == Some(Paragraph("- x", Bullet, 1))
  {
    TabLineCleans();
  }

  /** The cleaning step of `TabShieldsDash`. */
  lemma TabLineCleans()
    ensures CleanLine("\t- x") == "- x"
  {
    var line, text := "\t- x", "- x";
    assert '\t' !in BulletMarks && 'x' !in BulletMarks;
    StripCharsClear(line, BulletMarks);
    assert text == line[1..];
    assert '\t' in Whitespace;
    assert TrimmedAt(text, line, Whitespace, 1);
    assert '-' !in Whitespace && 'x' !in Whitespace;
    StripCharsUnique(text, line, Whitespace);
  }

  /** A one-slide outline, end to end: the text before "Slide " is an empty
      fragment and is dropped; the rest becomes a slide titled by its single
      body line, with no paragraphs. */
  lemma OneSlideOutline(brand: string)
    ensures ParseOutline("Slide 1: Intro", brand) == [SlideRecord("Intro", [], Footer(brand))]
  {
    var frag := "1: Intro";
    OneSlideFragments();
    assert Dropped("");
    OneSlideHeader();
    OneSlideBody();
    assert SlideOf(frag, Footer(brand)) == Some(SlideRecord("Intro", [], Footer(brand)));
    var f := SlideParser(Footer(brand));
    assert FilterMap([frag], f) == [SlideRecord("Intro", [], Footer(brand))];
    assert [frag] == ["", frag][1..];
  }

  /** The fragments of the one-slide outline. */
  lemma OneSlideFragments()
    ensures Fragments("Slide 1: Intro") == ["", "1: Intro"]
  {
    var s, frag := "Slide 1: Intro", "1: Intro";
    assert Join(["", frag], SlideMarker) == s;
    assert NoneBefore(frag, SlideMarker, |frag|) by {
      forall j | 0 <= j < |frag|
        ensures !OccursAt(frag, SlideMarker, j)
      {
        assert frag[j] != 'S';
        NotOccursAtChar(frag, SlideMarker, j);
      }
    }
    assert IsSplitOf(["", frag], s, SlideMarker);
    SplitUnique(["", frag], s, SlideMarker);
  }

  /** The ordinal label and body of the one-slide fragment. */
  lemma OneSlideHeader()
    ensures Kept("1: Intro") && Header("1: Intro") == Some(("1", "Intro"))
  {
    var frag := "1: Intro";
    assert '1' !in Whitespace && 'o' !in Whitespace;
    StripCharsClear(frag, Whitespace);
    OneSlideColon();
    OneSlideBodyStrip();
  }

  /** Stripping the text after the colon drops the leading space. */
  lemma OneSlideBodyStrip()
    ensures Strip(" Intro") == "Intro"
  {
    assert 'I' !in Whitespace && 'o' !in Whitespace;
    assert " Intro" == " " + "Intro";
    StripLeadingSpace("Intro");
  }

  /** The first colon of the one-slide fragment comes right after the "1". */
  lemma OneSlideColon()
    ensures ColonSplit("1: Intro") == Some(("1", " Intro"))
  {
    var frag := "1: Intro";
    assert frag[1] == ':';
    var before := ColonSplit(frag).value.0;
    assert before == frag[..1] == "1";
    assert frag[2..] == " Intro";
  }

  /** A one-line body is its own title and yields no paragraphs. */
  lemma OneSlideBody()
    ensures Title("1", "Intro") == "Intro" && Paragraphs("Intro") == []
  {
    var body := "Intro";
    assert '\n' !in body;
    assert NoneBefore(body, LineBreak, |body|) by {
      forall j | 0 <= j < |body|
        ensures !OccursAt(body, LineBreak, j)
      {
        assert body[j] != '\n';
      }
    }
    assert IsSplitOf([body], body, LineBreak);
    SplitUnique([body], body, LineBreak);
    assert BodyLines(body) == [];
  }

  // ---------------------------------------------------------------------------
  // The two-slide outline
  // ---------------------------------------------------------------------------

  /** The outline is cut into an empty lead-in and one fragment per slide. */
  lemma TwoSlideFragments()
    ensures Fragments(TwoSlides) == ["", FirstFragment, SecondFragment]
  {
    var ps := ["", FirstFragment, SecondFragment];
    assert Join(ps[1..][1..], SlideMarker) == SecondFragment;
    assert Join(ps[1..], SlideMarker) == FirstFragment + SlideMarker + SecondFragment;
    assert Join(ps, SlideMarker) == TwoSlides;
    SplitOfPieces(ps, SlideMarker);
  }

  /** The lines of the first body. */
  lemma FirstLines()
    ensures Split(FirstBody, LineBreak) == ["Intro", Dash + "point one", Dash + "point two"]
  {
    var lines := ["Intro", Dash + "point one", Dash + "point two"];
    assert Join(lines[1..], LineBreak) == Dash + "point one" + LineBreak + Dash + "point two" by {
      assert lines[1..][1..] == [Dash + "point two"];
    }
    assert Join(lines, LineBreak) == FirstBody;
    SplitOfPieces(lines, LineBreak);
  }

  /** The lines of the second body. */
  lemma SecondLines()
    ensures Split(SecondBody, LineBreak) == ["*Key Trend*", Dash + "detail"]
  {
    var lines := ["*Key Trend*", Dash + "detail"];
    assert lines[1..] == [Dash + "detail"];
    assert Join(lines, LineBreak) == SecondBody;
    SplitOfPieces(lines, LineBreak);
  }

  /** The first fragment: label "1", and the body without the trailing line
      break. */
  lemma FirstHeader()
    ensures Kept(FirstFragment) && Header(FirstFragment) == Some(("1", FirstBody))
  {
    assert 'I' !in Whitespace && 'o' !in Whitespace;
    assert '\n' in Whitespace;
    assert FirstFragment == ['1'] + ": " + FirstBody + "\n";
    DigitHeader('1', FirstBody, "\n");
  }

  /** The second fragment: label "2", and the rest as its body. */
  lemma SecondHeader()
    ensures Kept(SecondFragment) && Header(SecondFragment) == Some(("2", SecondBody))
  {
    assert '*' !in Whitespace && 'l' !in Whitespace;
    assert SecondFragment == ['2'] + ": " + SecondBody + "";
    DigitHeader('2', SecondBody, "");
  }

  /** The paragraphs of the first body: two bullets, in line order. */
  lemma FirstParagraphs()
    ensures Paragraphs(FirstBody) == [Paragraph("point one", Bullet, 1), Paragraph("point two", Bullet, 1)]
  {
    FirstLines();
    LetterEnds("point one");
    LetterEnds("point two");
    TwoBullets(FirstBody, "Intro", "point one", "point two");
  }

  /** The paragraphs of the second body: one bullet. */
  lemma SecondParagraphs()
    ensures Paragraphs(SecondBody) == [Paragraph("detail", Bullet, 1)]
  {
    SecondLines();
    LetterEnds("detail");
    OneBullet(SecondBody, "*Key Trend*", "detail");
  }

  /** The first slide: titled "Intro", with two bullets. */
  lemma FirstSlide(footer: string)
    ensures SlideOf(FirstFragment, footer) == Some(SlideRecord("Intro",
      [Paragraph("point one", Bullet, 1), Paragraph("point two", Bullet, 1)], footer))
  {
    FirstHeader();
    FirstLines();
    FirstParagraphs();
  }

  /** The second slide: its title keeps the emphasis marks, which are removed
      only from body lines, and it has one bullet. */
  lemma SecondSlide(footer: string)
    ensures SlideOf(SecondFragment, footer) == Some(SlideRecord("*Key Trend*",
      [Paragraph("detail", Bullet, 1)], footer))
  {
    SecondHeader();
    SecondLines();
    SecondParagraphs();
  }

  /** The two-slide outline gives exactly two slides, titled "Intro" and
      "*Key Trend*", with two and one bullets, each with the brand's footer. */
  lemma TwoSlideOutline(brand: string)
    ensures ParseOutline(TwoSlides, brand) == [
      SlideRecord("Intro", [Paragraph("point one", Bullet, 1), Paragraph("point two", Bullet, 1)], Footer(brand)),
      SlideRecord("*Key Trend*", [Paragraph("detail", Bullet, 1)], Footer(brand))]
  {
    TwoSlideFragments();
    FirstHeader();
    SecondHeader();
    LeadInAndTwo(TwoSlides, brand, FirstFragment, SecondFragment);
    FirstSlide(Footer(brand));
    SecondSlide(Footer(brand));
  }
}
