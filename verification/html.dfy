/** The parsed page as the handler reads it: a tree of elements and text, the
    string value the HTML library gives a node, document order, the order in
    which the library walks a path starting with `//`, and attribute lookup. Parsing itself belongs to the library and is not modelled. */
module Html {
  import opened Options

  /** One attribute of an element, as written. */
  datatype Attr = Attr(name: string, value: string)

  /** An element with its tag, attributes and children, or a run of text. */
  datatype Node = Element(tag: string, attrs: seq<Attr>, children: seq<Node>) | Text(text: string)

  /** The string value of a node, which the library's Node.String() returns:
      a text node's text, or all the text inside an element, in document order. */
  function StringValue(n: Node): string
    decreases n
  {
    match n
    case Text(t) => t
    case Element(_, _, cs) => StringValues(cs)
  }

  /** The string values of a run of sibling nodes, joined. */
  function StringValues(ns: seq<Node>): string
    decreases ns
  {
    if ns == [] then [] else StringValue(ns[0]) + StringValues(ns[1..])
  }

  /** When siblings have no text between them, none of them has any. */
  lemma {:induction false} EmptyStringValues(ns: seq<Node>)
    requires StringValues(ns) == []
    ensures forall i :: 0 <= i < |ns| ==> StringValue(ns[i]) == []
  {
    if ns != [] {
      EmptyStringValues(ns[1..]);
      assert forall i :: 1 <= i < |ns| ==> ns[i] == ns[1..][i - 1];
    }
  }

  /** The children of a node; text has none. */
  function Children(n: Node): seq<Node>
  {
    if n.Element? then n.children else []
  }

  /** The nodes strictly inside n, in document order (parent before children,
      siblings left to right). */
  function Descendants(n: Node): seq<Node>
    decreases n
  {
    match n
    case Text(_) => []
    case Element(_, _, cs) => DescendantsOf(cs)
  }

  /** Each of the siblings followed by its descendants, left to right. */
  function DescendantsOf(ns: seq<Node>): seq<Node>
    decreases ns
  {
    if ns == [] then [] else [ns[0]] + Descendants(ns[0]) + DescendantsOf(ns[1..])
  }

  /** The children of each of ns, one node's children after another's. */
  function ChildrenOfEach(ns: seq<Node>): seq<Node>
  {
    if ns == [] then [] else Children(ns[0]) + ChildrenOfEach(ns[1..])
  }

  /** The nodes a path `//name` visits from root, in the order the library
      yields them. It evaluates the path one step at a time, as
      `/descendant-or-self::node()/child::name`, nesting one iterator per step
      without sorting: for each node from the root down, in document order,
      the children of that node, left to right. */
  function DescendantStep(root: Node): seq<Node>
  {
    ChildrenOfEach([root] + Descendants(root))
  }

  /** Children of joined runs of nodes are the joined children. */
  lemma {:induction false} ChildrenOfEachAppend(a: seq<Node>, b: seq<Node>)
    ensures ChildrenOfEach(a + b) == ChildrenOfEach(a) + ChildrenOfEach(b)
  {
    if a == [] {
      assert a + b == b;
    } else {
      assert (a + b)[0] == a[0] && (a + b)[1..] == a[1..] + b;
      ChildrenOfEachAppend(a[1..], b);
    }
  }

  /** The step visits exactly the nodes strictly inside root, only in another
      order. */
  lemma {:induction false} DescendantStepSameNodes(root: Node)
    ensures forall x :: x in DescendantStep(root) <==> x in Descendants(root)
    decreases root, 1
  {
    match root
    case Text(_) =>
      assert DescendantStep(root) == Children(root) + ChildrenOfEach([]);
    case Element(_, _, cs) =>
      ChildrenOfEachAppend([root], DescendantsOf(cs));
      assert ChildrenOfEach([root]) == cs;
      SiblingsStepSameNodes(cs);
  }

  /** Siblings together with the nodes a step visits below them are exactly
      the siblings and their descendants. */
  lemma {:induction false} SiblingsStepSameNodes(cs: seq<Node>)
    ensures forall x :: x in cs + ChildrenOfEach(DescendantsOf(cs)) <==> x in DescendantsOf(cs)
    decreases cs, 0
  {
    if cs != [] {
      var c, rest := cs[0], cs[1..];
      assert DescendantsOf(cs) == [c] + Descendants(c) + DescendantsOf(rest);
      ChildrenOfEachAppend([c] + Descendants(c), DescendantsOf(rest));
      DescendantStepSameNodes(c);
      SiblingsStepSameNodes(rest);
      assert cs == [c] + rest;
    }
  }

  /** The attributes of a node; text has none. */
  function Attrs(n: Node): seq<Attr>
  {
    if n.Element? then n.attrs else []
  }

  /** The value of the first attribute called name, if there is one. */
  function FirstAttr(attrs: seq<Attr>, name: string): (r: Option<string>)
    ensures r.Some? ==> Attr(name, r.value) in attrs
  {
    if attrs == [] then None
    else if attrs[0].name == name then Some(attrs[0].value)
    else FirstAttr(attrs[1..], name)
  }

  /** FirstAttr finds nothing exactly when no attribute has the name, and
      otherwise the value of the earliest one that has it. */
  lemma {:induction false} FirstAttrIsFirst(attrs: seq<Attr>, name: string)
    ensures FirstAttr(attrs, name).None? <==> forall i :: 0 <= i < |attrs| ==> attrs[i].name != name
    ensures FirstAttr(attrs, name).Some? ==>
              exists i :: (0 <= i < |attrs| && attrs[i] == Attr(name, FirstAttr(attrs, name).value) &&
                           forall j :: 0 <= j < i ==> attrs[j].name != name)
  {
    if attrs != [] && attrs[0].name != name {
      var tail := attrs[1..];
      FirstAttrIsFirst(tail, name);
      assert forall i :: 1 <= i < |attrs| ==> attrs[i] == tail[i - 1];
      if FirstAttr(tail, name).Some? {
        var i :| 0 <= i < |tail| && tail[i] == Attr(name, FirstAttr(tail, name).value) &&
                 forall j :: 0 <= j < i ==> tail[j].name != name;
        assert attrs[i + 1] == tail[i];
      }
    }
  }

  /** A path `@name` read as a string, as the library's Path.String does: the
      first such attribute's value, or nothing. */
  function AttrValue(n: Node, name: string): Option<string>
  {
    FirstAttr(Attrs(n), name)
  }

  /** The path predicate `[@name='value']`: some attribute of that name has
      that value. */
  predicate HasAttr(n: Node, name: string, value: string)
  {
    Attr(name, value) in Attrs(n)
  }

  /** An element with the given tag. */
  predicate IsElement(n: Node, tag: string)
  {
    n.Element? && n.tag == tag
  }
}
