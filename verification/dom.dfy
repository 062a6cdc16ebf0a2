/**
 The parsed page the rewrite works on: the tree a cheerio load produces, as
 an immutable value. Parsing and serialising HTML are not part of the model;
 a page is given as this tree.
 */
module Dom {

  datatype Option<T> = None | Some(value: T)

  datatype Attribute = Attribute(name: string, value: string)

  /** A node of the parsed page. `Other` stands for every node that carries
      no text of its own: comments, the doctype, processing instructions. */
  datatype Node =
    | Element(tag: string, attrs: seq<Attribute>, children: seq<Node>)
    | Text(data: string)
    | Other(data: string)

  /** The children of the document root, in document order. */
  datatype Document = Document(nodes: seq<Node>)

  /* ---------------------------------------------------------------------- */
  /* Text content (cheerio `.text()`)                                        */
  /* ---------------------------------------------------------------------- */

  /** The text of a node: its payload for a text node, the text of all
      descendants in document order for an element, nothing otherwise. */
  function TextContent(n: Node): string
    decreases n, 1
  {
    match n
    case Text(d) => d
    case Other(_) => ""
    case Element(_, _, ch) => TextOfAll(ch)
  }

  function TextOfAll(ns: seq<Node>): string
    decreases ns, 0
  {
    if |ns| == 0 then "" else TextContent(ns[0]) + TextOfAll(ns[1..])
  }

  /** The text of the whole page. */
  function DocumentText(doc: Document): string
  {
    TextOfAll(doc.nodes)
  }

  /** The text of a node list is the text of its first part followed by the text of the rest. */
  lemma {:induction false} TextOfAllSplit(ns: seq<Node>, i: nat)
    requires i <= |ns|
    ensures TextOfAll(ns) == TextOfAll(ns[..i]) + TextOfAll(ns[i..])
    decreases i
  {
    if i > 0 {
      TextOfAllSplit(ns[1..], i - 1);
      assert ns[1..][..i - 1] == ns[1..i];
      assert ns[1..][i - 1..] == ns[i..];
      assert ns[..i][1..] == ns[1..i];
    } else {
      assert ns[..0] == [];
      assert ns[0..] == ns;
    }
  }

  lemma TextOfOne(n: Node)
    ensures TextOfAll([n]) == TextContent(n)
  {
    assert [n][1..] == [];
  }

  /** The text of one child sits inside the text of its siblings, between
      the text of the children before it and the text of those after it. */
  lemma ChildTextInside(ns: seq<Node>, i: nat)
    requires i < |ns|
    ensures TextOfAll(ns) == TextOfAll(ns[..i]) + TextContent(ns[i]) + TextOfAll(ns[i + 1..])
  {
    TextOfAllSplit(ns, i);
    assert ns[i..][1..] == ns[i + 1..];
  }

  /* ---------------------------------------------------------------------- */
  /* Elements in document order (what a cheerio selector walks)              */
  /* ---------------------------------------------------------------------- */

  /** The elements of a subtree in document order: each element before its
      descendants, siblings left to right. */
  function Elements(n: Node): (r: seq<Node>)
    ensures forall i :: 0 <= i < |r| ==> r[i].Element?
    ensures n.Element? <==> |r| > 0
    ensures n.Element? ==> r[0] == n
    decreases n, 1
  {
    match n
    case Element(_, _, ch) => [n] + ElementsOfAll(ch)
    case _ => []
  }

  function ElementsOfAll(ns: seq<Node>): (r: seq<Node>)
    ensures forall i :: 0 <= i < |r| ==> r[i].Element?
    decreases ns, 0
  {
    if |ns| == 0 then [] else Elements(ns[0]) + ElementsOfAll(ns[1..])
  }

  /* ---------------------------------------------------------------------- */
  /* Attributes (cheerio `.attr()`)                                          */
  /* ---------------------------------------------------------------------- */

  /** `attr(name)`: the value of the attribute called name, if there is one. */
  function GetAttr(attrs: seq<Attribute>, name: string): (r: Option<string>)
    ensures r.Some? <==> exists a :: a in attrs && a.name == name
    ensures r.Some? ==> Attribute(name, r.value) in attrs
  {
    if |attrs| == 0 then None
    else if attrs[0].name == name then Some(attrs[0].value)
    else
      assert forall a :: a in attrs <==> a == attrs[0] || a in attrs[1..];
      GetAttr(attrs[1..], name)
  }

  /** `attr(name, value)`: overwrites the value of the attribute called name
      where it stands, or adds the attribute at the end when there is none. */
  function SetAttr(attrs: seq<Attribute>, name: string, value: string): (r: seq<Attribute>)
    ensures GetAttr(r, name) == Some(value)
    ensures forall other :: other != name ==> GetAttr(r, other) == GetAttr(attrs, other)
  {
    if |attrs| == 0 then [Attribute(name, value)]
    else if attrs[0].name == name then [Attribute(name, value)] + attrs[1..]
    else [attrs[0]] + SetAttr(attrs[1..], name, value)
  }

  /** Writing back the value just read leaves the attributes exactly as they were. */
  lemma {:induction false} SetWhatIsRead(attrs: seq<Attribute>, name: string)
    requires GetAttr(attrs, name).Some?
    ensures SetAttr(attrs, name, GetAttr(attrs, name).value) == attrs
  {
    if attrs[0].name != name {
      SetWhatIsRead(attrs[1..], name);
    }
  }

  /* ---------------------------------------------------------------------- */
  /* Shape of a tree                                                         */
  /* ---------------------------------------------------------------------- */

  /** b is a with at most its text payloads changed: same tags, attributes,
      non-text nodes and child lists. */
  predicate SameSkeleton(a: Node, b: Node)
    decreases a
  {
    match a
    case Text(_) => b.Text?
    case Other(_) => b == a
    case Element(t, at, ch) =>
      && b.Element? && b.tag == t && b.attrs == at && |b.children| == |ch|
      && forall i :: 0 <= i < |ch| ==> SameSkeleton(ch[i], b.children[i])
  }

  /** b is a with text payloads possibly changed and, for some elements whose
      tag is in tags, the whole child list replaced by one text node. Every
      element that survives keeps its tag and its attributes. */
  predicate Pruned(a: Node, b: Node, tags: set<string>)
    decreases a
  {
    match a
    case Text(_) => b.Text?
    case Other(_) => b == a
    case Element(t, at, ch) =>
      && b.Element? && b.tag == t && b.attrs == at
      && (|| (|b.children| == |ch| && forall i :: 0 <= i < |ch| ==> Pruned(ch[i], b.children[i], tags))
          || (t in tags && |b.children| == 1 && b.children[0].Text?))
  }

  lemma {:induction false} SkeletonIsPruned(a: Node, b: Node, tags: set<string>)
    requires SameSkeleton(a, b)
    ensures Pruned(a, b, tags)
    decreases a
  {
    if a.Element? {
      forall i | 0 <= i < |a.children|
        ensures Pruned(a.children[i], b.children[i], tags)
      {
        SkeletonIsPruned(a.children[i], b.children[i], tags);
      }
    }
  }

  /** Pruning twice is pruning once, with the tags of both steps. */
  lemma {:induction false} PrunedTrans(a: Node, b: Node, c: Node, tags1: set<string>, tags2: set<string>)
    requires Pruned(a, b, tags1) && Pruned(b, c, tags2)
    ensures Pruned(a, c, tags1 + tags2)
    decreases a
  {
    if a.Element? {
      if |b.children| == |a.children| && forall i :: 0 <= i < |a.children| ==> Pruned(a.children[i], b.children[i], tags1) {
        if |c.children| == |b.children| && forall i :: 0 <= i < |b.children| ==> Pruned(b.children[i], c.children[i], tags2) {
          forall i | 0 <= i < |a.children|
            ensures Pruned(a.children[i], c.children[i], tags1 + tags2)
          {
            PrunedTrans(a.children[i], b.children[i], c.children[i], tags1, tags2);
          }
        }
      }
    }
  }

  /* ---------------------------------------------------------------------- */
  /* Selecting by tag name                                                   */
  /* ---------------------------------------------------------------------- */

  /** Some element in the subtree of n, n included, has the given tag. */
  predicate HasTag(n: Node, tag: string)
    decreases n
  {
    match n
    case Element(t, _, ch) => t == tag || exists i :: 0 <= i < |ch| && HasTag(ch[i], tag)
    case _ => false
  }
}
