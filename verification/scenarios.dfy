/**
 The inputs and expected outputs that tests/unit.test.js fixes, stated about
 the model. Every text here is written as a list of pieces joined together
 (Substitution.Join); each cut falls where no occurrence can straddle it,
 and each piece is either a spelling of the target or text that cannot hold
 one, so Substitution.JoinByPieces gives the rule's result piece by piece.
 The piece facts of each text are checked one or two pieces at a time, in
 the lemmas named after the text with a `Group` suffix: each such lemma
 keeps one proof small enough for the solver, and the `PiecesBecome` lemma
 of the text puts the groups together.
 */
module Scenarios {
  import opened Substitution
  import opened Dom
  import opened Rewrite

  /* ---------------------------------------------------------------------- */
  /* Case-insensitive replacements (tests/unit.test.js:124-150)              */
  /* ---------------------------------------------------------------------- */

  /** "YALE University, Yale College, and yale medical school are all part of the same institution." */
  const MixedCasePieces := ["YALE", " University, ", "Yale", " College, and ", "yale", " medical school", " are all part", " of the same", " institution."]
  const MixedCaseRewrittenPieces := ["FALE", " University, ", "Fale", " College, and ", "fale", " medical school", " are all part", " of the same", " institution."]

  lemma MixedCaseGroup1()
    ensures forall i :: 0 <= i < 2 ==> PieceBecomes(MixedCasePieces[i], MixedCaseRewrittenPieces[i]) && (i == 0 || CleanCut(MixedCasePieces[i]))
  {
  }

  lemma MixedCaseGroup2()
    ensures forall i :: 2 <= i < 4 ==> PieceBecomes(MixedCasePieces[i], MixedCaseRewrittenPieces[i]) && (i == 0 || CleanCut(MixedCasePieces[i]))
  {
  }

  lemma MixedCaseGroup3()
    ensures forall i :: 4 <= i < 6 ==> PieceBecomes(MixedCasePieces[i], MixedCaseRewrittenPieces[i]) && (i == 0 || CleanCut(MixedCasePieces[i]))
  {
  }

  lemma MixedCaseGroup4()
    ensures forall i :: 6 <= i < 8 ==> PieceBecomes(MixedCasePieces[i], MixedCaseRewrittenPieces[i]) && (i == 0 || CleanCut(MixedCasePieces[i]))
  {
  }

  lemma MixedCaseGroup5()
    ensures forall i :: 8 <= i < 9 ==> PieceBecomes(MixedCasePieces[i], MixedCaseRewrittenPieces[i]) && (i == 0 || CleanCut(MixedCasePieces[i]))
  {
  }

  lemma MixedCasePiecesBecome()
    ensures PiecesBecome(MixedCasePieces, MixedCaseRewrittenPieces)
  {
    MixedCaseGroup1();
    MixedCaseGroup2();
    MixedCaseGroup3();
    MixedCaseGroup4();
    MixedCaseGroup5();
  }

  /** Each spelling keeps its case: "FALE University", "Fale College" and
      "fale medical school"; pass 1 puts the result in the paragraph. */
  lemma MixedCaseKeepsCase()
    ensures Substitute(Join(MixedCasePieces)) == Join(MixedCaseRewrittenPieces)
    ensures RewriteTexts(Element("p", [], [Text(Join(MixedCasePieces))]), true)
         == Element("p", [], [Text(Join(MixedCaseRewrittenPieces))])
  {
    MixedCasePiecesBecome();
    JoinByPieces(MixedCasePieces, MixedCaseRewrittenPieces);
    LeafElement("p", [], Join(MixedCasePieces), true);
  }

  /* ---------------------------------------------------------------------- */
  /* The head both pages share                                               */
  /* ---------------------------------------------------------------------- */

  function TitledHead(title: string): Node
  {
    Element("head", [], [Element("title", [], [Text(title)])])
  }

  lemma TitledHeadTexts(title: string, title2: string)
    requires Substitute(title) == title2
    ensures RewriteTexts(TitledHead(title), true) == TitledHead(title2)
  {
    var ch := TitledHead(title).children;
    forall i | 0 <= i < |ch|
      ensures RewriteTexts(ch[i], true) == TitledHead(title2).children[i]
    {
      LeafElement(ch[i].tag, ch[i].attrs, ch[i].children[0].data, true);
    }
    ElementTextsPassThrough("head", [], ch, TitledHead(title2).children, true);
  }

  lemma TitledHeadShape(title: string, title2: string)
    requires Substitute(title) == title2
    ensures RewriteNode(TitledHead(title), true) == TitledHead(title2)
  {
    var ch := TitledHead(title).children;
    forall i | 0 <= i < |ch|
      ensures RewriteNode(ch[i], true) == TitledHead(title2).children[i]
    {
      LeafElement(ch[i].tag, ch[i].attrs, ch[i].children[0].data, true);
    }
    PlainElementPassesThrough("head", [], ch, TitledHead(title2).children, true);
  }

  /** A page of one `html` element holding this head and a body without a
      `title` element reports the head's title. */
  lemma TitledPageTitle(title: string, body: Node)
    requires TitleOf(body) == ""
    ensures Title(Document([Element("html", [], [TitledHead(title), body])])) == title
  {
    TitleElementText([], title);
    TitleOfFew(TitledHead(title).children[0], body);
    TitleOfFew(TitledHead(title), body);
    TitleOfFew(Element("html", [], [TitledHead(title), body]), body);
  }

  /* ---------------------------------------------------------------------- */
  /* A page without the target (tests/unit.test.js:86-121)                   */
  /* ---------------------------------------------------------------------- */

  const QuietTitle := "Test Page"
  const QuietHeading := "Hello World"
  const QuietParagraphPieces := ["This is a", " test page", " with no", " references."]

  /** The page of the test, with its three texts as parameters. */
  function QuietBody(heading: string, paragraph: string): Node
  {
    Element("body", [], [Element("h1", [], [Text(heading)]), Element("p", [], [Text(paragraph)])])
  }

  function QuietHtml(title: string, heading: string, paragraph: string): Node
  {
    Element("html", [], [TitledHead(title), QuietBody(heading, paragraph)])
  }

  function QuietPage(title: string, heading: string, paragraph: string): Document
  {
    Document([QuietHtml(title, heading, paragraph)])
  }

  lemma QuietBodyTexts(heading: string, paragraph: string)
    requires Substitute(heading) == heading && Substitute(paragraph) == paragraph
    ensures RewriteTexts(QuietBody(heading, paragraph), true) == QuietBody(heading, paragraph)
  {
    var ch := QuietBody(heading, paragraph).children;
    forall i | 0 <= i < |ch|
      ensures RewriteTexts(ch[i], true) == ch[i]
    {
      LeafElement(ch[i].tag, ch[i].attrs, ch[i].children[0].data, true);
    }
    ElementTextsPassThrough("body", [], ch, ch, true);
  }

  lemma QuietBodyShape(heading: string, paragraph: string)
    requires Substitute(heading) == heading && Substitute(paragraph) == paragraph
    ensures RewriteNode(QuietBody(heading, paragraph), true) == QuietBody(heading, paragraph)
  {
    var ch := QuietBody(heading, paragraph).children;
    forall i | 0 <= i < |ch|
      ensures RewriteNode(ch[i], true) == ch[i]
    {
      LeafElement(ch[i].tag, ch[i].attrs, ch[i].children[0].data, true);
    }
    PlainElementPassesThrough("body", [], ch, ch, true);
  }

  lemma QuietHtmlTexts(title: string, heading: string, paragraph: string)
    requires Substitute(title) == title && Substitute(heading) == heading && Substitute(paragraph) == paragraph
    ensures RewriteTexts(QuietHtml(title, heading, paragraph), false) == QuietHtml(title, heading, paragraph)
  {
    var ch := QuietHtml(title, heading, paragraph).children;
    TitledHeadTexts(title, title);
    QuietBodyTexts(heading, paragraph);
    ElementTextsPassThrough("html", [], ch, ch, false);
  }

  lemma QuietHtmlShape(title: string, heading: string, paragraph: string)
    requires Substitute(title) == title && Substitute(heading) == heading && Substitute(paragraph) == paragraph
    ensures RewriteNode(QuietHtml(title, heading, paragraph), false) == QuietHtml(title, heading, paragraph)
  {
    var ch := QuietHtml(title, heading, paragraph).children;
    TitledHeadShape(title, title);
    QuietBodyShape(heading, paragraph);
    PlainElementPassesThrough("html", [], ch, ch, false);
  }

  lemma QuietTitleIs(title: string, heading: string, paragraph: string)
    ensures Title(QuietPage(title, heading, paragraph)) == title
  {
    var body := QuietBody(heading, paragraph);
    forall i | 0 <= i < |body.children|
      ensures !HasTag(body.children[i], "title")
    {
      LeafHasNoTitle(body.children[i]);
    }
    assert !HasTag(body, "title");
    TitledPageTitle(title, body);
  }

  /** Whatever the texts, when the rule leaves each of them alone the page is left alone. */
  lemma QuietPageShape(title: string, heading: string, paragraph: string)
    requires Substitute(title) == title && Substitute(heading) == heading && Substitute(paragraph) == paragraph
    ensures TextPass(QuietPage(title, heading, paragraph)) == QuietPage(title, heading, paragraph)
    ensures RewritePage(QuietPage(title, heading, paragraph)) == Page(QuietPage(title, heading, paragraph), title)
  {
    QuietHtmlTexts(title, heading, paragraph);
    QuietHtmlShape(title, heading, paragraph);
    PageOfOne(QuietHtml(title, heading, paragraph));
    QuietTitleIs(title, heading, paragraph);
  }

  lemma QuietTexts()
    ensures Substitute(QuietTitle) == QuietTitle
    ensures Substitute(QuietHeading) == QuietHeading
  {
    LetterMissingIsQuiet(QuietTitle);
    LetterMissingIsQuiet(QuietHeading);
  }

  lemma QuietParagraphGroup1()
    ensures forall i :: 0 <= i < 2 ==> PieceBecomes(QuietParagraphPieces[i], QuietParagraphPieces[i]) && (i == 0 || CleanCut(QuietParagraphPieces[i]))
  {
  }

  lemma QuietParagraphGroup2()
    ensures forall i :: 2 <= i < 4 ==> PieceBecomes(QuietParagraphPieces[i], QuietParagraphPieces[i]) && (i == 0 || CleanCut(QuietParagraphPieces[i]))
  {
  }

  lemma QuietParagraphPiecesBecome()
    ensures PiecesBecome(QuietParagraphPieces, QuietParagraphPieces)
  {
    QuietParagraphGroup1();
    QuietParagraphGroup2();
  }

  lemma QuietParagraph()
    ensures Substitute(Join(QuietParagraphPieces)) == Join(QuietParagraphPieces)
  {
    QuietParagraphPiecesBecome();
    JoinByPieces(QuietParagraphPieces, QuietParagraphPieces);
  }

  /** Pass 1 alone, as the test runs it, and the whole rewrite leave the page
      as it was: "<title>Test Page</title>", "<h1>Hello World</h1>" and the
      paragraph survive, and the title reads "Test Page". */
  lemma QuietPageSurvives()
    ensures var doc := QuietPage(QuietTitle, QuietHeading, Join(QuietParagraphPieces));
            TextPass(doc) == doc && RewritePage(doc) == Page(doc, QuietTitle)
  {
    QuietTexts();
    QuietParagraph();
    QuietPageShape(QuietTitle, QuietHeading, Join(QuietParagraphPieces));
  }

  /* ---------------------------------------------------------------------- */
  /* A page with the target in text and in URLs (tests/unit.test.js:19-83)   */
  /* ---------------------------------------------------------------------- */

  /* The fixture the test loads (tests/test-utils.js) is not part of this
     model; this page carries the fragments the test looks for. */

  const TitlePieces := ["Yale", " University", " Test Page"]
  const TitleRewrittenPieces := ["Fale", " University", " Test Page"]
  const HeadingPieces := ["Welcome to ", "Yale", " University"]
  const HeadingRewrittenPieces := ["Welcome to ", "Fale", " University"]
  const IntroPieces := ["Yale", " University", " is a private", " Iv", "y", " League."]
  const IntroRewrittenPieces := ["Fale", " University", " is a private", " Iv", "y", " League."]
  const HistoryPieces := ["Yale", " was founded", " in 1701."]
  const HistoryRewrittenPieces := ["Fale", " was founded", " in 1701."]
  const AboutPieces := ["About ", "Yale"]
  const AboutRewrittenPieces := ["About ", "Fale"]
  const AdmissionsPieces := ["Yale", " Admissions"]
  const AdmissionsRewrittenPieces := ["Fale", " Admissions"]
  const ContactText := "Contact us"

  const AboutHref := Attribute("href", "https://www.yale.edu/about")
  const AdmissionsHref := Attribute("href", "https://www.yale.edu/admissions")
  const MailHref := Attribute("href", "mailto:info@yale.edu")
  const LogoAttrs := [Attribute("src", "https://www.yale.edu/images/logo.png"), Attribute("alt", "Yale Logo")]

  /** The body of the page; `texts` are its six texts in document order after the title. */
  function SampleBody(texts: seq<string>): Node
    requires |texts| == 6
  {
    Element("body", [], [
      Element("h1", [], [Text(texts[0])]),
      Element("p", [], [Text(texts[1])]),
      Element("p", [], [Text(texts[2])]),
      Element("a", [AboutHref], [Text(texts[3])]),
      Element("a", [AdmissionsHref], [Text(texts[4])]),
      Element("img", LogoAttrs, []),
      Element("a", [MailHref], [Text(texts[5])])])
  }

  function SampleHtml(title: string, texts: seq<string>): Node
    requires |texts| == 6
  {
    Element("html", [], [TitledHead(title), SampleBody(texts)])
  }

  function SamplePage(title: string, texts: seq<string>): Document
    requires |texts| == 6
  {
    Document([SampleHtml(title, texts)])
  }

  lemma SampleLeaves(texts: seq<string>, rewritten: seq<string>)
    requires |texts| == 6 && |rewritten| == 6
    requires forall i :: 0 <= i < 6 ==> Substitute(texts[i]) == rewritten[i]
    ensures forall i :: 0 <= i < 7 ==> RewriteNode(SampleBody(texts).children[i], true) == SampleBody(rewritten).children[i]
  {
    var ch := SampleBody(texts).children;
    forall i | 0 <= i < 7
      ensures RewriteNode(ch[i], true) == SampleBody(rewritten).children[i]
    {
      if i == 5 {
        QuietNode(ch[i], true);
      } else {
        LeafElement(ch[i].tag, ch[i].attrs, ch[i].children[0].data, true);
      }
    }
  }

  lemma SampleBodyShape(texts: seq<string>, rewritten: seq<string>)
    requires |texts| == 6 && |rewritten| == 6
    requires forall i :: 0 <= i < 6 ==> Substitute(texts[i]) == rewritten[i]
    ensures RewriteNode(SampleBody(texts), true) == SampleBody(rewritten)
  {
    SampleLeaves(texts, rewritten);
    PlainElementPassesThrough("body", [], SampleBody(texts).children, SampleBody(rewritten).children, true);
  }

  lemma SampleHtmlShape(title: string, texts: seq<string>, title2: string, rewritten: seq<string>)
    requires |texts| == 6 && |rewritten| == 6
    requires Substitute(title) == title2
    requires forall i :: 0 <= i < 6 ==> Substitute(texts[i]) == rewritten[i]
    ensures RewriteNode(SampleHtml(title, texts), false) == SampleHtml(title2, rewritten)
  {
    var ch := SampleHtml(title, texts).children;
    var rs := SampleHtml(title2, rewritten).children;
    forall i | 0 <= i < |ch|
      ensures RewriteNode(ch[i], true) == rs[i]
    {
      if i == 0 {
        TitledHeadShape(title, title2);
      } else {
        SampleBodyShape(texts, rewritten);
      }
    }
    PlainElementPassesThrough("html", [], ch, rs, false);
  }

  lemma SampleTitle(title: string, texts: seq<string>)
    requires |texts| == 6
    ensures Title(SamplePage(title, texts)) == title
  {
    var body := SampleBody(texts);
    forall i | 0 <= i < |body.children|
      ensures !HasTag(body.children[i], "title")
    {
      LeafHasNoTitle(body.children[i]);
    }
    assert !HasTag(body, "title");
    TitledPageTitle(title, body);
  }

  /** Whatever the texts, the page comes back with each text replaced by the
      rule's result and every tag and attribute as it was. */
  lemma SamplePageShape(title: string, texts: seq<string>, title2: string, rewritten: seq<string>)
    requires |texts| == 6 && |rewritten| == 6
    requires Substitute(title) == title2
    requires forall i :: 0 <= i < 6 ==> Substitute(texts[i]) == rewritten[i]
    ensures RewritePage(SamplePage(title, texts)) == Page(SamplePage(title2, rewritten), title2)
  {
    SampleHtmlShape(title, texts, title2, rewritten);
    PageOfOne(SampleHtml(title, texts));
    SampleTitle(title2, rewritten);
  }

  function SampleTexts(): seq<string>
  {
    [Join(HeadingPieces), Join(IntroPieces), Join(HistoryPieces), Join(AboutPieces), Join(AdmissionsPieces), ContactText]
  }

  function SampleRewrittenTexts(): seq<string>
  {
    [Join(HeadingRewrittenPieces), Join(IntroRewrittenPieces), Join(HistoryRewrittenPieces),
     Join(AboutRewrittenPieces), Join(AdmissionsRewrittenPieces), ContactText]
  }

  lemma TitleGroup1()
    ensures forall i :: 0 <= i < 2 ==> PieceBecomes(TitlePieces[i], TitleRewrittenPieces[i]) && (i == 0 || CleanCut(TitlePieces[i]))
  {
  }

  lemma TitleGroup2()
    ensures forall i :: 2 <= i < 3 ==> PieceBecomes(TitlePieces[i], TitleRewrittenPieces[i]) && (i == 0 || CleanCut(TitlePieces[i]))
  {
  }

  lemma TitlePiecesBecome()
    ensures PiecesBecome(TitlePieces, TitleRewrittenPieces)
  {
    TitleGroup1();
    TitleGroup2();
  }

  lemma TitleRewritten()
    ensures Substitute(Join(TitlePieces)) == Join(TitleRewrittenPieces)
  {
    TitlePiecesBecome();
    JoinByPieces(TitlePieces, TitleRewrittenPieces);
  }

  lemma HeadingGroup1()
    ensures forall i :: 0 <= i < 2 ==> PieceBecomes(HeadingPieces[i], HeadingRewrittenPieces[i]) && (i == 0 || CleanCut(HeadingPieces[i]))
  {
  }

  lemma HeadingGroup2()
    ensures forall i :: 2 <= i < 3 ==> PieceBecomes(HeadingPieces[i], HeadingRewrittenPieces[i]) && (i == 0 || CleanCut(HeadingPieces[i]))
  {
  }

  lemma HeadingPiecesBecome()
    ensures PiecesBecome(HeadingPieces, HeadingRewrittenPieces)
  {
    HeadingGroup1();
    HeadingGroup2();
  }

  lemma HeadingRewritten()
    ensures Substitute(Join(HeadingPieces)) == Join(HeadingRewrittenPieces)
  {
    HeadingPiecesBecome();
    JoinByPieces(HeadingPieces, HeadingRewrittenPieces);
  }

  lemma IntroGroup1()
    ensures forall i :: 0 <= i < 2 ==> PieceBecomes(IntroPieces[i], IntroRewrittenPieces[i]) && (i == 0 || CleanCut(IntroPieces[i]))
  {
  }

  lemma IntroGroup2()
    ensures forall i :: 2 <= i < 4 ==> PieceBecomes(IntroPieces[i], IntroRewrittenPieces[i]) && (i == 0 || CleanCut(IntroPieces[i]))
  {
  }

  lemma IntroGroup3()
    ensures forall i :: 4 <= i < 6 ==> PieceBecomes(IntroPieces[i], IntroRewrittenPieces[i]) && (i == 0 || CleanCut(IntroPieces[i]))
  {
  }

  lemma IntroPiecesBecome()
    ensures PiecesBecome(IntroPieces, IntroRewrittenPieces)
  {
    IntroGroup1();
    IntroGroup2();
    IntroGroup3();
  }

  lemma IntroRewritten()
    ensures Substitute(Join(IntroPieces)) == Join(IntroRewrittenPieces)
  {
    IntroPiecesBecome();
    JoinByPieces(IntroPieces, IntroRewrittenPieces);
  }

  lemma HistoryGroup1()
    ensures forall i :: 0 <= i < 2 ==> PieceBecomes(HistoryPieces[i], HistoryRewrittenPieces[i]) && (i == 0 || CleanCut(HistoryPieces[i]))
  {
  }

  lemma HistoryGroup2()
    ensures forall i :: 2 <= i < 3 ==> PieceBecomes(HistoryPieces[i], HistoryRewrittenPieces[i]) && (i == 0 || CleanCut(HistoryPieces[i]))
  {
  }

  lemma HistoryPiecesBecome()
    ensures PiecesBecome(HistoryPieces, HistoryRewrittenPieces)
  {
    HistoryGroup1();
    HistoryGroup2();
  }

  lemma HistoryRewritten()
    ensures Substitute(Join(HistoryPieces)) == Join(HistoryRewrittenPieces)
  {
    HistoryPiecesBecome();
    JoinByPieces(HistoryPieces, HistoryRewrittenPieces);
  }

  lemma AboutGroup1()
    ensures forall i :: 0 <= i < 2 ==> PieceBecomes(AboutPieces[i], AboutRewrittenPieces[i]) && (i == 0 || CleanCut(AboutPieces[i]))
  {
  }

  lemma AboutPiecesBecome()
    ensures PiecesBecome(AboutPieces, AboutRewrittenPieces)
  {
    AboutGroup1();
  }

  lemma AboutRewritten()
    ensures Substitute(Join(AboutPieces)) == Join(AboutRewrittenPieces)
  {
    AboutPiecesBecome();
    JoinByPieces(AboutPieces, AboutRewrittenPieces);
  }

  lemma AdmissionsGroup1()
    ensures forall i :: 0 <= i < 2 ==> PieceBecomes(AdmissionsPieces[i], AdmissionsRewrittenPieces[i]) && (i == 0 || CleanCut(AdmissionsPieces[i]))
  {
  }

  lemma AdmissionsPiecesBecome()
    ensures PiecesBecome(AdmissionsPieces, AdmissionsRewrittenPieces)
  {
    AdmissionsGroup1();
  }

  lemma AdmissionsRewritten()
    ensures Substitute(Join(AdmissionsPieces)) == Join(AdmissionsRewrittenPieces)
  {
    AdmissionsPiecesBecome();
    JoinByPieces(AdmissionsPieces, AdmissionsRewrittenPieces);
  }

  lemma ContactUnchanged()
    ensures Substitute(ContactText) == ContactText
  {
    LetterMissingIsQuiet(ContactText);
  }

  /** The six texts after the title, each as the rule leaves it. */
  lemma SampleTextsRewritten()
    ensures |SampleTexts()| == |SampleRewrittenTexts()| == 6
    ensures forall i :: 0 <= i < 6 ==> Substitute(SampleTexts()[i]) == SampleRewrittenTexts()[i]
  {
    HeadingRewritten();
    IntroRewritten();
    HistoryRewritten();
    AboutRewritten();
    AdmissionsRewritten();
    ContactUnchanged();
  }

  /** After the whole rewrite: the title, the heading, the paragraphs and the
      link texts ("About Fale", "Fale Admissions") are rewritten; every
      `href` (with its "yale.edu"), the image's `src` and `alt="Yale Logo"`
      are as they were; the reported title is "Fale University Test Page". */
  lemma SamplePageRewritten()
    ensures RewritePage(SamplePage(Join(TitlePieces), SampleTexts()))
         == Page(SamplePage(Join(TitleRewrittenPieces), SampleRewrittenTexts()), Join(TitleRewrittenPieces))
  {
    TitleRewritten();
    SampleTextsRewritten();
    SamplePageShape(Join(TitlePieces), SampleTexts(), Join(TitleRewrittenPieces), SampleRewrittenTexts());
  }
}
