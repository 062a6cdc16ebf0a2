/**
 The three rewrite passes that app.js runs over the parsed page
 (app.js:57-92), and the title it reports (app.js:97).

 Pass 1 rewrites every text node whose parent is an element. Pass 2 takes
 each `title`/`h1`..`h6` element in document order, recomputes its whole
 text and, when the rule changes that text, replaces all of the element's
 children by one text node. Pass 3 does the same for `a` elements and
 writes each anchor's `href` back as it read it.

 cheerio runs passes 2 and 3 over a selection fixed before the loop, in
 document order. When an element's children are replaced, the selected
 elements below it are detached, and what the loop later does to them is
 never seen in the page. The recursive functions here therefore look at an
 element first and only descend when its children were kept.
 */
module Rewrite {
  import opened Substitution
  import opened Dom

  /** The selector of pass 2, "title, h1, h2, h3, h4, h5, h6". */
  const HeadingTags: set<string> := {"title", "h1", "h2", "h3", "h4", "h5", "h6"}

  /** The selector of pass 3, "a". */
  const AnchorTags: set<string> := {"a"}

  /* ---------------------------------------------------------------------- */
  /* Invariants the passes establish                                         */
  /* ---------------------------------------------------------------------- */

  /** Every text node that hangs under an element has nothing left to replace. */
  predicate TextsSettled(n: Node)
    decreases n
  {
    match n
    case Element(_, _, ch) =>
      forall i :: 0 <= i < |ch| ==> (if ch[i].Text? then HitFree(ch[i].data) else TextsSettled(ch[i]))
    case _ => true
  }

  /** Every element of n whose tag is in tags has text with nothing left to replace. */
  predicate Settled(n: Node, tags: set<string>)
    decreases n
  {
    match n
    case Element(t, _, ch) =>
      && (t in tags ==> HitFree(TextContent(n)))
      && forall i :: 0 <= i < |ch| ==> Settled(ch[i], tags)
    case _ => true
  }

  /** b is a after pass 1: the same tags, attributes, child lists and
      non-text nodes, and every text node that hangs under an element holds
      the rule's result for its old payload (inElement says whether a itself
      hangs under an element). */
  predicate PayloadsRewritten(a: Node, b: Node, inElement: bool)
    decreases a
  {
    match a
    case Text(d) => b == Text(if inElement then Substitute(d) else d)
    case Other(_) => b == a
    case Element(t, at, ch) =>
      && b.Element? && b.tag == t && b.attrs == at && |b.children| == |ch|
      && forall i :: 0 <= i < |ch| ==> PayloadsRewritten(ch[i], b.children[i], true)
  }

  /** b is a after pass 2 or 3: an element whose tag is in tags and whose text
      the rule changes holds one text node with the rewritten text; every other
      element keeps its tag, attributes and children, each visited in turn;
      text and other nodes outside such elements are not touched. */
  predicate SelectedRewritten(a: Node, b: Node, tags: set<string>)
    decreases a
  {
    match a
    case Text(_) => b == a
    case Other(_) => b == a
    case Element(t, at, ch) =>
      && b.Element? && b.tag == t && b.attrs == at
      && if t in tags && Substitute(TextContent(a)) != TextContent(a) then
           b.children == [Text(Substitute(TextContent(a)))]
         else
           && |b.children| == |ch|
           && forall i :: 0 <= i < |ch| ==> SelectedRewritten(ch[i], b.children[i], tags)
  }

  /** Children whose texts are each faded give a faded text overall. */
  lemma {:induction false} FadedChildren(ch: seq<Node>, rs: seq<Node>)
    requires |ch| == |rs|
    requires forall i :: 0 <= i < |ch| ==> Faded(TextContent(ch[i]), TextContent(rs[i]))
    ensures Faded(TextOfAll(ch), TextOfAll(rs))
    decreases |ch|
  {
    if |ch| > 0 {
      FadedChildren(ch[1..], rs[1..]);
      FadedConcat(TextContent(ch[0]), TextContent(rs[0]), TextOfAll(ch[1..]), TextOfAll(rs[1..]));
    }
  }

  /* ---------------------------------------------------------------------- */
  /* Pass 1: text nodes                                                      */
  /* ---------------------------------------------------------------------- */

  /** Pass 1 (app.js:57-68) on node n; inElement says whether n's parent is an
      element (`$("*").contents()` never reaches the children of the document
      root itself). */
  function RewriteTexts(n: Node, inElement: bool): (r: Node)
    ensures PayloadsRewritten(n, r, inElement)
    ensures SameSkeleton(n, r)
    ensures Faded(TextContent(n), TextContent(r))
    ensures inElement && n.Text? ==> HitFree(r.data)
    ensures TextsSettled(r)
    decreases n
  {
    match n
    case Text(d) =>
      if inElement then
        var newText := Substitute(d);
        ChangesOnlyInitials(d);
        ResultIsHitFree(d);
        if d != newText then Text(newText) else n
      else
        n
    case Other(_) => n
    case Element(t, a, ch) =>
      var rs := seq(|ch|, i requires 0 <= i < |ch| => RewriteTexts(ch[i], true));
      FadedChildren(ch, rs);
      Element(t, a, rs)
  }

  /* ---------------------------------------------------------------------- */
  /* Passes 2 and 3: whole text of selected elements                         */
  /* ---------------------------------------------------------------------- */

  /** `if (href) $(this).attr("href", href)` (app.js:87-91): the href is read
      and, when it is a non-empty string, written back. */
  function WriteBackHref(attrs: seq<Attribute>): (r: seq<Attribute>)
    ensures r == attrs
  {
    var href := GetAttr(attrs, "href");
    if href.Some? && href.value != "" then
      SetWhatIsRead(attrs, "href");
      SetAttr(attrs, "href", href.value)
    else
      attrs
  }

  /** An element that passes 2 and 3 keep, with its children already visited. */
  lemma KeptElement(n: Node, rs: seq<Node>, tags: set<string>)
    requires n.Element? && |rs| == |n.children|
    requires n.tag in tags ==> Substitute(TextContent(n)) == TextContent(n)
    requires forall i :: 0 <= i < |rs| ==>
               && Pruned(n.children[i], rs[i], tags)
               && Faded(TextContent(n.children[i]), TextContent(rs[i]))
               && Settled(rs[i], tags)
    ensures Pruned(n, Element(n.tag, n.attrs, rs), tags)
    ensures Faded(TextContent(n), TextContent(Element(n.tag, n.attrs, rs)))
    ensures Settled(Element(n.tag, n.attrs, rs), tags)
  {
    FadedChildren(n.children, rs);
    if n.tag in tags {
      FixedPointsAreHitFree(TextContent(n));
      FadingKeepsHitFree(TextContent(n), TextOfAll(rs));
    }
  }

  /** Pass 2 (tags = HeadingTags, app.js:71-77) or pass 3 (tags = AnchorTags,
      keepHref, app.js:80-92) on node n. */
  function RewriteSelected(n: Node, tags: set<string>, keepHref: bool): (r: Node)
    ensures SelectedRewritten(n, r, tags)
    ensures Pruned(n, r, tags)
    ensures Faded(TextContent(n), TextContent(r))
    ensures Settled(r, tags)
    decreases n
  {
    match n
    case Text(_) => n
    case Other(_) => n
    case Element(t, a, ch) =>
      var text := TextContent(n);
      var newText := Substitute(text);
      var attrs := if keepHref && t in tags then WriteBackHref(a) else a;
      ChangesOnlyInitials(text);
      if t in tags && text != newText then
        ResultIsHitFree(text);
        TextOfOne(Text(newText));
        Element(t, attrs, [Text(newText)])
      else
        var rs := seq(|ch|, i requires 0 <= i < |ch| => RewriteSelected(ch[i], tags, keepHref));
        KeptElement(n, rs, tags);
        Element(t, attrs, rs)
  }

  /* ---------------------------------------------------------------------- */
  /* What passes 2 and 3 do to one selected element                          */
  /* ---------------------------------------------------------------------- */

  /** A selected element gets one text node holding the rewritten text when
      the rule changes its text; otherwise it keeps its children (each then
      visited in turn) and its text has nothing left to replace. */
  lemma SelectedOutcome(n: Node, tags: set<string>, keepHref: bool)
    requires n.Element? && n.tag in tags
    ensures var r := RewriteSelected(n, tags, keepHref);
            && (Substitute(TextContent(n)) != TextContent(n) ==>
                  r == Element(n.tag, n.attrs, [Text(Substitute(TextContent(n)))]) && TextContent(r) == Substitute(TextContent(n)))
            && (Substitute(TextContent(n)) == TextContent(n) ==>
                  r.tag == n.tag && r.attrs == n.attrs && |r.children| == |n.children| && HitFree(TextContent(n)))
  {
    var text := TextContent(n);
    FixedPointsAreHitFree(text);
    TextOfOne(Text(Substitute(text)));
  }

  /** Passes 2 and 3 never undo what the earlier passes settled. */
  lemma {:induction false} SelectedKeepsSettled(n: Node, settled: set<string>, tags: set<string>, keepHref: bool)
    requires Settled(n, settled)
    ensures Settled(RewriteSelected(n, tags, keepHref), settled)
    decreases n
  {
    if n.Element? {
      var r := RewriteSelected(n, tags, keepHref);
      var text := TextContent(n);
      if n.tag in tags && Substitute(text) != text {
        ResultIsHitFree(text);
        TextOfOne(Text(Substitute(text)));
      } else {
        forall i | 0 <= i < |n.children|
          ensures Settled(r.children[i], settled)
        {
          SelectedKeepsSettled(n.children[i], settled, tags, keepHref);
        }
        if n.tag in settled {
          FadingKeepsHitFree(text, TextContent(r));
        }
      }
    }
  }

  lemma {:induction false} SelectedKeepsTextsSettled(n: Node, tags: set<string>, keepHref: bool)
    requires TextsSettled(n)
    ensures TextsSettled(RewriteSelected(n, tags, keepHref))
    decreases n
  {
    if n.Element? {
      var r := RewriteSelected(n, tags, keepHref);
      var text := TextContent(n);
      if n.tag in tags && Substitute(text) != text {
        ResultIsHitFree(text);
      } else {
        forall i | 0 <= i < |n.children| && !n.children[i].Text?
          ensures TextsSettled(r.children[i])
        {
          SelectedKeepsTextsSettled(n.children[i], tags, keepHref);
        }
      }
    }
  }

  /** Where everything selected is settled, passes 2 and 3 change nothing. */
  lemma {:induction false} SettledIsUnchanged(n: Node, tags: set<string>, keepHref: bool)
    requires Settled(n, tags)
    ensures RewriteSelected(n, tags, keepHref) == n
    decreases n
  {
    if n.Element? {
      var r := RewriteSelected(n, tags, keepHref);
      FixedPointsAreHitFree(TextContent(n));
      forall i | 0 <= i < |n.children|
        ensures r.children[i] == n.children[i]
      {
        SettledIsUnchanged(n.children[i], tags, keepHref);
      }
      assert r.children == n.children;
    }
  }

  /** Where every text under an element is settled, pass 1 changes nothing. */
  lemma {:induction false} TextsSettledIsUnchanged(n: Node, inElement: bool)
    requires TextsSettled(n)
    requires inElement && n.Text? ==> HitFree(n.data)
    ensures RewriteTexts(n, inElement) == n
    decreases n
  {
    match n
    case Text(d) =>
      FixedPointsAreHitFree(d);
    case Other(_) =>
    case Element(_, _, ch) =>
      var r := RewriteTexts(n, inElement);
      forall i | 0 <= i < |ch|
        ensures r.children[i] == ch[i]
      {
        TextsSettledIsUnchanged(ch[i], true);
      }
      assert r.children == ch;
  }

  /** A node whose whole text never mentions the target is left alone by every pass. */
  lemma {:induction false} QuietIsUnchanged(n: Node, inElement: bool, tags: set<string>, keepHref: bool)
    requires !MentionsTarget(TextContent(n))
    ensures RewriteTexts(n, inElement) == n
    ensures RewriteSelected(n, tags, keepHref) == n
    decreases n
  {
    match n
    case Text(d) =>
      UnchangedWithoutMention(d);
    case Other(_) =>
    case Element(_, _, ch) =>
      UnchangedWithoutMention(TextContent(n));
      var r1 := RewriteTexts(n, inElement);
      var r2 := RewriteSelected(n, tags, keepHref);
      forall i | 0 <= i < |ch|
        ensures r1.children[i] == ch[i] && r2.children[i] == ch[i]
      {
        ChildTextInside(ch, i);
        if MentionsTarget(TextContent(ch[i])) {
          MentionInside(TextOfAll(ch[..i]), TextContent(ch[i]), TextOfAll(ch[i + 1..]));
        }
        QuietIsUnchanged(ch[i], true, tags, keepHref);
      }
      assert r1.children == ch;
      assert r2.children == ch;
  }

  /* ---------------------------------------------------------------------- */
  /* The passes over the whole page                                          */
  /* ---------------------------------------------------------------------- */

  /** Pass 1 over the page. Text nodes directly under the document root are
      not children of any element and are left as they are. */
  function TextPass(doc: Document): (r: Document)
    ensures |r.nodes| == |doc.nodes|
    ensures forall i :: 0 <= i < |doc.nodes| ==> PayloadsRewritten(doc.nodes[i], r.nodes[i], false)
    ensures forall i :: 0 <= i < |doc.nodes| ==> SameSkeleton(doc.nodes[i], r.nodes[i]) && TextsSettled(r.nodes[i])
    ensures forall i :: 0 <= i < |doc.nodes| && !doc.nodes[i].Element? ==> r.nodes[i] == doc.nodes[i]
    ensures Faded(DocumentText(doc), DocumentText(r))
  {
    var rs := seq(|doc.nodes|, i requires 0 <= i < |doc.nodes| => RewriteTexts(doc.nodes[i], false));
    FadedChildren(doc.nodes, rs);
    Document(rs)
  }

  /** Pass 2 or pass 3 over the page. */
  function SelectPass(doc: Document, tags: set<string>, keepHref: bool): (r: Document)
    ensures |r.nodes| == |doc.nodes|
    ensures forall i :: 0 <= i < |doc.nodes| ==> SelectedRewritten(doc.nodes[i], r.nodes[i], tags)
    ensures forall i :: 0 <= i < |doc.nodes| ==> Pruned(doc.nodes[i], r.nodes[i], tags) && Settled(r.nodes[i], tags)
    ensures Faded(DocumentText(doc), DocumentText(r))
  {
    var rs := seq(|doc.nodes|, i requires 0 <= i < |doc.nodes| => RewriteSelected(doc.nodes[i], tags, keepHref));
    FadedChildren(doc.nodes, rs);
    Document(rs)
  }

  /* ---------------------------------------------------------------------- */
  /* The title                                                               */
  /* ---------------------------------------------------------------------- */

  /** `$("title").text()` restricted to the subtree of n: the text of every
      `title` element in document order. */
  function TitleOf(n: Node): (r: string)
    ensures !HasTag(n, "title") ==> r == ""
    ensures n.Element? && n.tag == "title" ==> TextContent(n) <= r
    decreases n, 1
  {
    match n
    case Element(t, _, ch) => (if t == "title" then TextContent(n) else "") + TitleOfAll(ch)
    case _ => ""
  }

  function TitleOfAll(ns: seq<Node>): (r: string)
    ensures (forall i :: 0 <= i < |ns| ==> !HasTag(ns[i], "title")) ==> r == ""
    decreases ns, 0
  {
    if |ns| == 0 then ""
    else
      assert forall i :: 0 <= i < |ns| - 1 ==> ns[1..][i] == ns[i + 1];
      TitleOf(ns[0]) + TitleOfAll(ns[1..])
  }

  /** The title the response reports (app.js:97): the text of every `title`
      element in document order, and the empty string when there is none. */
  function Title(doc: Document): (r: string)
    ensures (forall i :: 0 <= i < |doc.nodes| ==> !HasTag(doc.nodes[i], "title")) ==> r == ""
  {
    TitleOfAll(doc.nodes)
  }

  /** `$(tag).text()` over a list of elements in document order: the text of
      every element carrying the tag, joined in list order. This is the
      reference the title read is checked against. */
  function TextOfTagged(es: seq<Node>, tag: string): (r: string)
    ensures (forall i :: 0 <= i < |es| ==> !(es[i].Element? && es[i].tag == tag)) ==> r == ""
  {
    if |es| == 0 then ""
    else
      assert forall i :: 0 <= i < |es| - 1 ==> es[1..][i] == es[i + 1];
      (if es[0].Element? && es[0].tag == tag then TextContent(es[0]) else "") + TextOfTagged(es[1..], tag)
  }

  /** The tagged text of two lists joined is the tagged text of each, joined. */
  lemma {:induction false} TextOfTaggedConcat(a: seq<Node>, b: seq<Node>, tag: string)
    ensures TextOfTagged(a + b, tag) == TextOfTagged(a, tag) + TextOfTagged(b, tag)
  {
    if |a| == 0 {
      assert a + b == b;
    } else {
      assert (a + b)[1..] == a[1..] + b;
      TextOfTaggedConcat(a[1..], b, tag);
    }
  }

  /** The title read of a subtree is the text of its `title` elements in document order. */
  lemma {:induction false} TitleOfIsTaggedText(n: Node)
    ensures TitleOf(n) == TextOfTagged(Elements(n), "title")
    decreases n, 1
  {
    match n
    case Element(t, _, ch) =>
      TitleOfAllIsTaggedText(ch);
      TextOfTaggedConcat([n], ElementsOfAll(ch), "title");
      assert [n][1..] == [];
    case _ =>
  }

  lemma {:induction false} TitleOfAllIsTaggedText(ns: seq<Node>)
    ensures TitleOfAll(ns) == TextOfTagged(ElementsOfAll(ns), "title")
    decreases ns, 0
  {
    if |ns| > 0 {
      TitleOfIsTaggedText(ns[0]);
      TitleOfAllIsTaggedText(ns[1..]);
      TextOfTaggedConcat(Elements(ns[0]), ElementsOfAll(ns[1..]), "title");
    }
  }

  /** The title the response reports is `$("title").text()`: the text of every
      `title` element of the page, in document order. */
  lemma TitleIsTaggedText(doc: Document)
    ensures Title(doc) == TextOfTagged(ElementsOfAll(doc.nodes), "title")
  {
    TitleOfAllIsTaggedText(doc.nodes);
  }

  /** A page with exactly one `title` element reports that element's text. */
  lemma SingleTitle(doc: Document, j: nat)
    requires j < |ElementsOfAll(doc.nodes)| && ElementsOfAll(doc.nodes)[j].tag == "title"
    requires forall i :: 0 <= i < |ElementsOfAll(doc.nodes)| && i != j ==> ElementsOfAll(doc.nodes)[i].tag != "title"
    ensures Title(doc) == TextContent(ElementsOfAll(doc.nodes)[j])
  {
    var es := ElementsOfAll(doc.nodes);
    var before, after := es[..j], es[j + 1..];
    assert forall i :: 0 <= i < |before| ==> before[i] == es[i];
    assert forall i :: 0 <= i < |after| ==> after[i] == es[j + 1 + i];
    assert TextOfTagged(before, "title") == "" && TextOfTagged(after, "title") == "";
    assert es == (before + [es[j]]) + after;
    TitleIsTaggedText(doc);
    TextOfTaggedConcat(before + [es[j]], after, "title");
    TextOfTaggedConcat(before, [es[j]], "title");
    assert [es[j]][1..] == [];
  }

  /** The titles of a list of one or two nodes, node by node. */
  lemma TitleOfFew(a: Node, b: Node)
    ensures TitleOfAll([a]) == TitleOf(a)
    ensures TitleOfAll([a, b]) == TitleOf(a) + TitleOf(b)
  {
    assert [a][1..] == [];
    assert [a, b][1..] == [b];
    assert [b][1..] == [];
  }

  /** A `title` element holding only text contributes exactly its text. */
  lemma TitleElementText(attrs: seq<Attribute>, d: string)
    ensures TitleOf(Element("title", attrs, [Text(d)])) == d
  {
    TitleOfFew(Text(d), Text(d));
    TextOfOne(Text(d));
  }

  /** An element other than `title` whose children are not elements holds no `title` element. */
  lemma LeafHasNoTitle(n: Node)
    requires n.Element? && n.tag != "title"
    requires forall i :: 0 <= i < |n.children| ==> !n.children[i].Element?
    ensures !HasTag(n, "title")
  {
    forall i | 0 <= i < |n.children|
      ensures !HasTag(n.children[i], "title")
    {
    }
  }

  /* ---------------------------------------------------------------------- */
  /* The whole rewrite                                                       */
  /* ---------------------------------------------------------------------- */

  /** What the rewrite hands back: the page (serialised by the caller as
      `content`) and its title. */
  datatype Page = Page(content: Document, title: string)

  /** What the three passes together do to one top-level node. */
  lemma PassesOnNode(a: Node, b: Node, c: Node, d: Node)
    requires b == RewriteTexts(a, false)
    requires c == RewriteSelected(b, HeadingTags, false)
    requires d == RewriteSelected(c, AnchorTags, true)
    ensures Pruned(a, d, HeadingTags + AnchorTags)
    ensures TextsSettled(d) && Settled(d, HeadingTags)
  {
    SkeletonIsPruned(a, b, HeadingTags);
    PrunedTrans(a, b, c, HeadingTags, HeadingTags);
    assert HeadingTags + HeadingTags == HeadingTags;
    PrunedTrans(a, c, d, HeadingTags, AnchorTags);
    SelectedKeepsTextsSettled(b, HeadingTags, false);
    SelectedKeepsTextsSettled(c, AnchorTags, true);
    SelectedKeepsSettled(c, HeadingTags, AnchorTags, true);
  }

  /** The three passes in order, then the title read from the result (app.js:57-97). */
  function RewritePage(doc: Document): (p: Page)
    ensures |p.content.nodes| == |doc.nodes|
    ensures forall i :: 0 <= i < |doc.nodes| ==> Pruned(doc.nodes[i], p.content.nodes[i], HeadingTags + AnchorTags)
    ensures Faded(DocumentText(doc), DocumentText(p.content))
    ensures forall i :: 0 <= i < |doc.nodes| ==>
              && TextsSettled(p.content.nodes[i])
              && Settled(p.content.nodes[i], HeadingTags)
              && Settled(p.content.nodes[i], AnchorTags)
  {
    var d1 := TextPass(doc);
    var d2 := SelectPass(d1, HeadingTags, false);
    var d3 := SelectPass(d2, AnchorTags, true);
    forall i | 0 <= i < |doc.nodes|
      ensures Pruned(doc.nodes[i], d3.nodes[i], HeadingTags + AnchorTags)
      ensures TextsSettled(d3.nodes[i]) && Settled(d3.nodes[i], HeadingTags)
    {
      PassesOnNode(doc.nodes[i], d1.nodes[i], d2.nodes[i], d3.nodes[i]);
    }
    FadedTrans(DocumentText(doc), DocumentText(d1), DocumentText(d2));
    FadedTrans(DocumentText(doc), DocumentText(d2), DocumentText(d3));
    Page(d3, Title(d3))
  }

  /** Rewriting an already rewritten page changes nothing. */
  lemma RewriteIsIdempotent(doc: Document)
    ensures RewritePage(RewritePage(doc).content) == RewritePage(doc)
  {
    var c := RewritePage(doc).content;
    var d1 := TextPass(c);
    forall i | 0 <= i < |c.nodes|
      ensures d1.nodes[i] == c.nodes[i]
    {
      TextsSettledIsUnchanged(c.nodes[i], false);
    }
    assert d1 == c;
    var d2 := SelectPass(c, HeadingTags, false);
    forall i | 0 <= i < |c.nodes|
      ensures d2.nodes[i] == c.nodes[i]
    {
      SettledIsUnchanged(c.nodes[i], HeadingTags, false);
    }
    assert d2 == c;
    var d3 := SelectPass(c, AnchorTags, true);
    forall i | 0 <= i < |c.nodes|
      ensures d3.nodes[i] == c.nodes[i]
    {
      SettledIsUnchanged(c.nodes[i], AnchorTags, true);
    }
    assert d3 == c;
  }

  /** A page whose text never mentions the target comes back as it was, title included. */
  lemma QuietPageIsUnchanged(doc: Document)
    requires !MentionsTarget(DocumentText(doc))
    ensures TextPass(doc) == doc
    ensures RewritePage(doc) == Page(doc, Title(doc))
  {
    var ns := doc.nodes;
    forall i | 0 <= i < |ns|
      ensures RewriteTexts(ns[i], false) == ns[i]
      ensures RewriteSelected(ns[i], HeadingTags, false) == ns[i]
      ensures RewriteSelected(ns[i], AnchorTags, true) == ns[i]
    {
      ChildTextInside(ns, i);
      if MentionsTarget(TextContent(ns[i])) {
        MentionInside(TextOfAll(ns[..i]), TextContent(ns[i]), TextOfAll(ns[i + 1..]));
      }
      QuietIsUnchanged(ns[i], false, HeadingTags, false);
      QuietIsUnchanged(ns[i], false, AnchorTags, true);
    }
    assert TextPass(doc) == doc;
    assert SelectPass(doc, HeadingTags, false) == doc;
    assert SelectPass(doc, AnchorTags, true) == doc;
  }

  /* ---------------------------------------------------------------------- */
  /* The rewrite node by node                                                */
  /* ---------------------------------------------------------------------- */

  /** The three passes as they act on one node; inElement as for pass 1. */
  function RewriteNode(n: Node, inElement: bool): Node
  {
    RewriteSelected(RewriteSelected(RewriteTexts(n, inElement), HeadingTags, false), AnchorTags, true)
  }

  /** Each node at the top of the page is rewritten on its own. */
  lemma PageIsNodewise(doc: Document)
    ensures RewritePage(doc).content.nodes == seq(|doc.nodes|, i requires 0 <= i < |doc.nodes| => RewriteNode(doc.nodes[i], false))
    ensures RewritePage(doc).title == Title(RewritePage(doc).content)
  {
    var d1 := TextPass(doc);
    var d2 := SelectPass(d1, HeadingTags, false);
    var d3 := SelectPass(d2, AnchorTags, true);
    assert RewritePage(doc).content == d3;
    forall i | 0 <= i < |doc.nodes|
      ensures d3.nodes[i] == RewriteNode(doc.nodes[i], false)
    {
      assert d1.nodes[i] == RewriteTexts(doc.nodes[i], false);
      assert d2.nodes[i] == RewriteSelected(d1.nodes[i], HeadingTags, false);
    }
  }

  /** An element that is neither a heading nor an anchor keeps its tag and
      attributes, and its children are rewritten one by one. */
  lemma PlainElementPassesThrough(t: string, attrs: seq<Attribute>, ch: seq<Node>, rs: seq<Node>, inElement: bool)
    requires t !in HeadingTags && t !in AnchorTags
    requires |rs| == |ch| && forall i :: 0 <= i < |ch| ==> RewriteNode(ch[i], true) == rs[i]
    ensures RewriteNode(Element(t, attrs, ch), inElement) == Element(t, attrs, rs)
  {
    var r := RewriteNode(Element(t, attrs, ch), inElement);
    forall i | 0 <= i < |ch|
      ensures r.children[i] == rs[i]
    {
    }
  }

  /** Pass 1 rewrites an element's children one by one and keeps the element itself. */
  lemma ElementTextsPassThrough(t: string, attrs: seq<Attribute>, ch: seq<Node>, rs: seq<Node>, inElement: bool)
    requires |rs| == |ch| && forall i :: 0 <= i < |ch| ==> RewriteTexts(ch[i], true) == rs[i]
    ensures RewriteTexts(Element(t, attrs, ch), inElement) == Element(t, attrs, rs)
  {
  }

  /** A page with one node at the top is that node rewritten. */
  lemma PageOfOne(n: Node)
    ensures TextPass(Document([n])) == Document([RewriteTexts(n, false)])
    ensures RewritePage(Document([n])) == Page(Document([RewriteNode(n, false)]), Title(Document([RewriteNode(n, false)])))
  {
    PageIsNodewise(Document([n]));
    assert RewritePage(Document([n])).content.nodes == [RewriteNode(n, false)];
    assert TextPass(Document([n])).nodes == [RewriteTexts(n, false)];
  }

  /** An element holding one text node ends up holding the rule's result for
      that text, with its tag and attributes as they were. */
  lemma LeafElement(t: string, attrs: seq<Attribute>, d: string, inElement: bool)
    ensures RewriteTexts(Element(t, attrs, [Text(d)]), inElement) == Element(t, attrs, [Text(Substitute(d))])
    ensures RewriteNode(Element(t, attrs, [Text(d)]), inElement) == Element(t, attrs, [Text(Substitute(d))])
  {
    var r1 := RewriteTexts(Element(t, attrs, [Text(d)]), inElement);
    assert r1.children[0] == RewriteTexts(Text(d), true);
    assert r1.children[0] == Text(Substitute(d));
    assert r1 == Element(t, attrs, [Text(Substitute(d))]);
    ResultIsHitFree(d);
    TextOfOne(Text(Substitute(d)));
    SettledIsUnchanged(r1, HeadingTags, false);
    SettledIsUnchanged(r1, AnchorTags, true);
  }

  /** A node whose text never mentions the target comes through the rewrite unchanged. */
  lemma QuietNode(n: Node, inElement: bool)
    requires !MentionsTarget(TextContent(n))
    ensures RewriteNode(n, inElement) == n
  {
    QuietIsUnchanged(n, inElement, HeadingTags, false);
    QuietIsUnchanged(n, inElement, AnchorTags, true);
  }
}
