/** The parsed document the proxy rewrites: the tree the HTML parser builds, taken as given.
    An element has a tag name, its attributes in source order and its ordered children;
    text and comment nodes carry their data. A document is the sequence of its top-level
    nodes. A node is addressed by its path, the child indexes from the top level down. */
module Dom {

  datatype Attr = Attr(name: string, value: string)

  datatype Node =
    | Element(tag: string, attrs: seq<Attr>, children: seq<Node>)
    | Text(data: string)
    | Comment(data: string)

  type Path = seq<nat>

  /** p leads to a node of d. */
  predicate ValidPath(d: seq<Node>, p: Path)
    decreases p
  {
    |p| > 0 && p[0] < |d| &&
    (|p| > 1 ==> d[p[0]].Element? && ValidPath(d[p[0]].children, p[1..]))
  }

  /** The node at path p. */
  function At(d: seq<Node>, p: Path): Node
    requires ValidPath(d, p)
    decreases p
  {
    if |p| == 1 then d[p[0]] else At(d[p[0]].children, p[1..])
  }

  /** d with the node at path p replaced by n. */
  function ReplaceAt(d: seq<Node>, p: Path, n: Node): (r: seq<Node>)
    requires ValidPath(d, p)
    ensures |r| == |d|
    decreases p
  {
    var c := d[p[0]];
    if |p| == 1 then d[p[0] := n]
    else d[p[0] := Element(c.tag, c.attrs, ReplaceAt(c.children, p[1..], n))]
  }

  /** The tree with the data of every text node erased: elements with their tags, attributes
      and children, comments, and the position of each text node. */
  function Shape(n: Node): Node
  {
    match n
    case Element(t, a, ch) => Element(t, a, Shapes(ch))
    case Text(_) => Text("")
    case Comment(_) => n
  }

  function Shapes(d: seq<Node>): seq<Node>
  {
    seq(|d|, i requires 0 <= i < |d| => Shape(d[i]))
  }

  /** The number of nodes of a tree and of a document. */
  function Count(n: Node): nat
  {
    match n
    case Element(_, _, ch) => 1 + Counts(ch)
    case _ => 1
  }

  function Counts(d: seq<Node>): nat
  {
    if d == [] then 0 else Counts(d[..|d| - 1]) + Count(d[|d| - 1])
  }

  // ---------------------------------------------------------------------------
  // Paths

  /** A path into the children of the element at the head of p. */
  lemma PathStep(d: seq<Node>, p: Path)
    requires ValidPath(d, p) && |p| > 1
    ensures d[p[0]].Element? && ValidPath(d[p[0]].children, p[1..])
    ensures At(d, p) == At(d[p[0]].children, p[1..])
  {
  }

  /** Replacing a text node changes no shape. */
  lemma {:induction false} ReplaceTextShape(d: seq<Node>, p: Path, t: string)
    requires ValidPath(d, p) && At(d, p).Text?
    ensures Shapes(ReplaceAt(d, p, Text(t))) == Shapes(d)
    decreases p
  {
    if |p| > 1 {
      var c := d[p[0]];
      ReplaceTextShape(c.children, p[1..], t);
      assert Shape(Element(c.tag, c.attrs, ReplaceAt(c.children, p[1..], Text(t)))) == Shape(c);
    }
  }

  /** Documents of one shape have the same paths, and the nodes at them have one shape. */
  lemma {:induction false} ShapePaths(a: seq<Node>, b: seq<Node>, q: Path)
    requires Shapes(a) == Shapes(b) && ValidPath(a, q)
    ensures ValidPath(b, q) && Shape(At(a, q)) == Shape(At(b, q))
    decreases q
  {
    assert Shape(a[q[0]]) == Shapes(a)[q[0]] == Shapes(b)[q[0]] == Shape(b[q[0]]);
    if |q| > 1 {
      ShapePaths(a[q[0]].children, b[q[0]].children, q[1..]);
    }
  }

  /** Replacing the text node at p by another text node leaves every other text and comment
      node where it was. */
  lemma {:induction false} ReplaceTextElsewhere(d: seq<Node>, p: Path, t: string, q: Path)
    requires ValidPath(d, p) && At(d, p).Text? && ValidPath(d, q)
    ensures ValidPath(ReplaceAt(d, p, Text(t)), q)
    ensures !At(d, q).Element? ==> At(ReplaceAt(d, p, Text(t)), q) == if q == p then Text(t) else At(d, q)
    decreases p
  {
    ReplaceTextShape(d, p, t);
    ShapePaths(d, ReplaceAt(d, p, Text(t)), q);
    if |p| > 1 && |q| > 1 && p[0] == q[0] {
      ReplaceTextElsewhere(d[p[0]].children, p[1..], t, q[1..]);
      assert q == p <==> q[1..] == p[1..];
    }
  }

  /** Two documents of one shape whose text nodes agree are equal. */
  lemma {:induction false} ShapeAndTextDetermine(a: seq<Node>, b: seq<Node>)
    requires Shapes(a) == Shapes(b)
    requires forall q :: ValidPath(a, q) && At(a, q).Text? ==> ValidPath(b, q) && At(b, q) == At(a, q)
    ensures a == b
    decreases a
  {
    assert |a| == |Shapes(a)| == |Shapes(b)| == |b|;
    forall i | 0 <= i < |a| ensures a[i] == b[i] {
      assert Shape(a[i]) == Shapes(a)[i] == Shapes(b)[i] == Shape(b[i]);
      match a[i]
      case Text(_) =>
        assert ValidPath(a, [i]) && At(a, [i]) == a[i];
      case Comment(_) =>
      case Element(tg, at, ch) =>
        var ch' := b[i].children;
        assert Shapes(ch) == Shapes(ch');
        forall q | ValidPath(ch, q) && At(ch, q).Text? ensures ValidPath(ch', q) && At(ch', q) == At(ch, q) {
          var q' := [i] + q;
          assert q'[1..] == q;
          assert ValidPath(a, q') && At(a, q') == At(ch, q);
          PathStep(b, q');
        }
        ShapeAndTextDetermine(ch, ch');
    }
  }

  /** Erasing text data keeps the number of nodes. */
  lemma {:induction false} CountsOfShapes(d: seq<Node>)
    ensures Counts(Shapes(d)) == Counts(d)
    decreases d, 1
  {
    if d != [] {
      var m := |d| - 1;
      assert Shapes(d)[..m] == Shapes(d[..m]);
      CountsOfShapes(d[..m]);
      CountOfShape(d[m]);
    }
  }

  lemma {:induction false} CountOfShape(n: Node)
    ensures Count(Shape(n)) == Count(n)
    decreases n, 0
  {
    if n.Element? {
      CountsOfShapes(n.children);
    }
  }

  /** Documents of one shape have as many nodes. */
  lemma SameShapeSameCount(a: seq<Node>, b: seq<Node>)
    requires Shapes(a) == Shapes(b)
    ensures Counts(a) == Counts(b)
  {
    CountsOfShapes(a);
    CountsOfShapes(b);
  }

  /** In documents of one shape, the element at a path has the same tag, the same attributes
      and as many children. */
  lemma SameShapeElements(a: seq<Node>, b: seq<Node>, q: Path)
    requires Shapes(a) == Shapes(b) && ValidPath(a, q) && At(a, q).Element?
    ensures ValidPath(b, q) && At(b, q).Element?
    ensures At(b, q).tag == At(a, q).tag && At(b, q).attrs == At(a, q).attrs
    ensures |At(b, q).children| == |At(a, q).children|
  {
    ShapePaths(a, b, q);
    assert |Shapes(At(a, q).children)| == |Shapes(At(b, q).children)|;
  }
}
