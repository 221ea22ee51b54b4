/** The document walk of `modifyHTML`: every text node whose parent element lies inside
    `<body>` (the selector `body *`, then each match's children, kept when they are text
    nodes) is run through the substitution and replaced in place when it changed; then the
    combined text of the `<title>` elements is substituted and written back to them. The
    substitution is a parameter, so either mode can be plugged in. */
module Walk {
  import opened Dom

  /** Where a child list sits relative to `<body>`: its owner is outside every body, is a
      body that is itself outside every body, or is an element strictly inside a body. */
  datatype Scope = Outside | BodyChildren | InsideBody

  /** The scope of the children of an element with the given tag that sits in a list of
      scope sc. */
  function ChildScope(sc: Scope, tag: string): Scope {
    if sc != Outside then InsideBody
    else if tag == "body" then BodyChildren
    else Outside
  }

  /** The scope of the list that holds the node at path q of a list of scope sc. */
  function ScopeAt(d: seq<Node>, sc: Scope, q: Path): Scope
    requires ValidPath(d, q)
    decreases q
  {
    if |q| == 1 then sc
    else ScopeAt(d[q[0]].children, ChildScope(sc, d[q[0]].tag), q[1..])
  }

  /** The node at q is a text node of a list of scope sc that lies strictly inside body. */
  predicate CandidateIn(d: seq<Node>, sc: Scope, q: Path) {
    ValidPath(d, q) && At(d, q).Text? && ScopeAt(d, sc, q) == InsideBody
  }

  /** The node at q of the document is one the walk visits. */
  predicate IsCandidate(doc: seq<Node>, q: Path) {
    CandidateIn(doc, Outside, q)
  }

  /** Each path of ps, behind the child index i. */
  function Prefixed(i: nat, ps: seq<Path>): (r: seq<Path>)
    ensures |r| == |ps|
    ensures forall k :: 0 <= k < |ps| ==> r[k] == [i] + ps[k]
  {
    seq(|ps|, k requires 0 <= k < |ps| => [i] + ps[k])
  }

  /** The paths of the visited text nodes in a list of scope sc, in document order. */
  function CandidatesIn(d: seq<Node>, sc: Scope): seq<Path>
    decreases d
  {
    if d == [] then []
    else CandidatesIn(d[..|d| - 1], sc) + Prefixed(|d| - 1, CandidatesOf(d[|d| - 1], sc))
  }

  /** The paths, from n, of the visited text nodes at or below a node n of a list of scope sc. */
  function CandidatesOf(n: Node, sc: Scope): seq<Path>
    decreases n
  {
    match n
    case Text(_) => if sc == InsideBody then [[]] else []
    case Comment(_) => []
    case Element(t, _, ch) => CandidatesIn(ch, ChildScope(sc, t))
  }

  /** The node at path p is a `<body>` element. */
  predicate IsBodyAt(d: seq<Node>, p: Path) {
    ValidPath(d, p) && At(d, p).Element? && At(d, p).tag == "body"
  }

  /** The reading of the selector: some ancestor of the node at q, above its parent, is a
      `<body>` element, so that the parent matches `body *`. */
  ghost predicate BelowBodyElement(d: seq<Node>, q: Path) {
    exists j :: 1 <= j < |q| - 1 && IsBodyAt(d, q[..j])
  }

  /** A text node of the document is one the walk visits exactly when its parent is an
      element with a `<body>` ancestor: the children of `body *` that are text nodes. */
  lemma CandidateMeansBelowBody(doc: seq<Node>, q: Path)
    ensures IsCandidate(doc, q) <==>
      ValidPath(doc, q) && At(doc, q).Text? && BelowBodyElement(doc, q)
  {
    if ValidPath(doc, q) {
      ScopeInsideIff(doc, Outside, q);
    }
  }

  /** The prefixes of a path are paths, and behind the first step they are paths of the
      first node's children. */
  lemma PrefixPath(d: seq<Node>, q: Path, j: nat)
    requires ValidPath(d, q) && 1 <= j <= |q|
    ensures ValidPath(d, q[..j])
    ensures j >= 2 ==> q[1..][..j - 1] == q[..j][1..] && At(d, q[..j]) == At(d[q[0]].children, q[1..][..j - 1])
    decreases q
  {
    if j >= 2 {
      PrefixPath(d[q[0]].children, q[1..], j - 1);
      assert q[1..][..j - 1] == q[..j][1..];
    }
  }

  /** The scope of the list holding the node at q, by the ancestors of that node. */
  lemma {:induction false} ScopeInsideIff(d: seq<Node>, sc: Scope, q: Path)
    requires ValidPath(d, q)
    ensures ScopeAt(d, sc, q) == InsideBody <==>
      sc == InsideBody || (sc == BodyChildren && |q| >= 2) || BelowBodyElement(d, q)
    decreases q
  {
    if |q| > 1 {
      var e := d[q[0]];
      var ch, cs, q' := e.children, ChildScope(sc, e.tag), q[1..];
      ScopeInsideIff(ch, cs, q');
      if sc == Outside {
        if BelowBodyElement(d, q) {
          var j :| 1 <= j < |q| - 1 && IsBodyAt(d, q[..j]);
          PrefixPath(d, q, j);
          if j == 1 {
            assert q[..1] == [q[0]];
          } else {
            assert IsBodyAt(ch, q'[..j - 1]);
          }
        }
        if BelowBodyElement(ch, q') {
          var j' :| 1 <= j' < |q'| - 1 && IsBodyAt(ch, q'[..j']);
          PrefixPath(d, q, j' + 1);
          assert IsBodyAt(d, q[..j' + 1]);
        }
        if cs == BodyChildren && |q'| >= 2 {
          PrefixPath(d, q, 1);
          assert q[..1] == [q[0]];
          assert IsBodyAt(d, q[..1]);
        }
      }
    }
  }

  // ---------------------------------------------------------------------------
  // The list of visited nodes

  /** In a prefix of a list, paths, nodes and scopes are those of the whole list. */
  lemma InPrefix(d: seq<Node>, m: nat, sc: Scope, q: Path)
    requires m <= |d| && |q| > 0 && q[0] < m
    ensures ValidPath(d[..m], q) <==> ValidPath(d, q)
    ensures ValidPath(d, q) ==> At(d[..m], q) == At(d, q) && ScopeAt(d[..m], sc, q) == ScopeAt(d, sc, q)
  {
    assert d[..m][q[0]] == d[q[0]];
  }

  /** A path listed by CandidatesIn leads to a visited text node, and every visited text
      node is listed. */
  lemma {:induction false} CandidatesInIff(d: seq<Node>, sc: Scope, q: Path)
    ensures q in CandidatesIn(d, sc) <==> CandidateIn(d, sc, q)
    decreases d, 1
  {
    if d != [] {
      var m := |d| - 1;
      var ps := CandidatesOf(d[m], sc);
      assert CandidatesIn(d, sc) == CandidatesIn(d[..m], sc) + Prefixed(m, ps);
      CandidatesInIff(d[..m], sc, q);
      if |q| > 0 && q[0] < m {
        InPrefix(d, m, sc, q);
        assert q !in Prefixed(m, ps);
      } else if |q| > 0 && q[0] == m {
        assert !ValidPath(d[..m], q);
        CandidatesOfIff(d[m], sc, q[1..]);
        assert q in Prefixed(m, ps) <==> q[1..] in ps by {
          assert q == [m] + q[1..];
        }
        if |q| > 1 && d[m].Element? {
          assert ValidPath(d, q) <==> ValidPath(d[m].children, q[1..]);
        }
      } else {
        assert q !in Prefixed(m, ps);
      }
    }
  }

  lemma {:induction false} CandidatesOfIff(n: Node, sc: Scope, q: Path)
    ensures q in CandidatesOf(n, sc) <==>
      (q == [] && n.Text? && sc == InsideBody) ||
      (q != [] && n.Element? && CandidateIn(n.children, ChildScope(sc, n.tag), q))
    decreases n, 0
  {
    if n.Element? {
      CandidatesInIff(n.children, ChildScope(sc, n.tag), q);
    }
  }

  /** No path occurs twice in ps. */
  predicate Distinct(ps: seq<Path>) {
    forall i, j :: 0 <= i < j < |ps| ==> ps[i] != ps[j]
  }

  /** Each visited text node is listed once. */
  lemma {:induction false} CandidatesInDistinct(d: seq<Node>, sc: Scope)
    ensures Distinct(CandidatesIn(d, sc))
    decreases d, 1
  {
    if d != [] {
      var m := |d| - 1;
      var a, ps := CandidatesIn(d[..m], sc), CandidatesOf(d[m], sc);
      var b := Prefixed(m, ps);
      CandidatesInDistinct(d[..m], sc);
      CandidatesOfDistinct(d[m], sc);
      forall i, j | 0 <= i < j < |b| ensures b[i] != b[j] {
        assert b[i][1..] == ps[i] && b[j][1..] == ps[j];
      }
      forall i | 0 <= i < |a| ensures |a[i]| > 0 && a[i][0] < m {
        CandidatesInIff(d[..m], sc, a[i]);
      }
      var c := a + b;
      forall i, j | 0 <= i < j < |c| ensures c[i] != c[j] {
        if i < |a| && |a| <= j {
          assert c[j] == b[j - |a|] && c[j][0] == m;
        }
      }
    }
  }

  lemma {:induction false} CandidatesOfDistinct(n: Node, sc: Scope)
    ensures Distinct(CandidatesOf(n, sc))
    decreases n, 0
  {
    if n.Element? {
      CandidatesInDistinct(n.children, ChildScope(sc, n.tag));
    }
  }

  // ---------------------------------------------------------------------------
  // What the walk computes

  /** The node n of a list of scope sc after the walk: a text node strictly inside body
      holds the substitution of its text. */
  function RewriteNode(n: Node, sc: Scope, sub: string -> string): Node
    decreases n
  {
    match n
    case Text(s) => if sc == InsideBody then Text(sub(s)) else n
    case Comment(_) => n
    case Element(t, a, ch) => Element(t, a, RewriteList(ch, ChildScope(sc, t), sub))
  }

  /** A list of scope sc after the walk. */
  function RewriteList(d: seq<Node>, sc: Scope, sub: string -> string): (r: seq<Node>)
    ensures |r| == |d|
    decreases d
  {
    seq(|d|, i requires 0 <= i < |d| => RewriteNode(d[i], sc, sub))
  }

  /** The walk keeps the shape of the tree: every element with its tag, its attributes and
      the number and order of its children, every comment and the place of every text node. */
  lemma {:induction false} RewriteListShape(d: seq<Node>, sc: Scope, sub: string -> string)
    ensures Shapes(RewriteList(d, sc, sub)) == Shapes(d)
    decreases d, 1
  {
    forall i | 0 <= i < |d| ensures Shape(RewriteNode(d[i], sc, sub)) == Shape(d[i]) {
      RewriteNodeShape(d[i], sc, sub);
    }
  }

  lemma {:induction false} RewriteNodeShape(n: Node, sc: Scope, sub: string -> string)
    ensures Shape(RewriteNode(n, sc, sub)) == Shape(n)
    decreases n, 0
  {
    if n.Element? {
      RewriteListShape(n.children, ChildScope(sc, n.tag), sub);
    }
  }

  /** After the walk, the text node at q holds the substitution of its text when it was
      visited, and its old text otherwise. */
  lemma {:induction false} RewriteListAt(d: seq<Node>, sc: Scope, sub: string -> string, q: Path)
    requires ValidPath(d, q) && At(d, q).Text?
    ensures ValidPath(RewriteList(d, sc, sub), q)
    ensures At(RewriteList(d, sc, sub), q) ==
      if CandidateIn(d, sc, q) then Text(sub(At(d, q).data)) else At(d, q)
    decreases q
  {
    if |q| > 1 {
      var c := d[q[0]];
      RewriteListAt(c.children, ChildScope(sc, c.tag), sub, q[1..]);
    }
  }

  /** The paths of ps that lead to a text node of doc whose substitution differs from it. */
  function Changed(doc: seq<Node>, ps: seq<Path>, sub: string -> string): seq<Path>
  {
    if ps == [] then []
    else
      var p := ps[|ps| - 1];
      Changed(doc, ps[..|ps| - 1], sub) +
      if ValidPath(doc, p) && At(doc, p).Text? && sub(At(doc, p).data) != At(doc, p).data then [p] else []
  }

  /** Taking one more element of a sequence. */
  lemma TakeOneMore(ps: seq<Path>, k: nat)
    requires k < |ps|
    ensures ps[..k + 1] == ps[..k] + [ps[k]]
  {
  }

  /** Listing one more path adds it to the changed ones exactly when its text changes. */
  lemma ChangedSnoc(doc: seq<Node>, ps: seq<Path>, p: Path, sub: string -> string)
    ensures Changed(doc, ps + [p], sub) == Changed(doc, ps, sub) +
      if ValidPath(doc, p) && At(doc, p).Text? && sub(At(doc, p).data) != At(doc, p).data then [p] else []
  {
    assert (ps + [p])[..|ps|] == ps;
  }

  // ---------------------------------------------------------------------------
  // The walk

  /** tree is doc with the text nodes at the paths of done, and only those, replaced by the
      substitution of their text. */
  ghost predicate WalkedUpTo(doc: seq<Node>, tree: seq<Node>, done: seq<Path>, sub: string -> string) {
    Shapes(tree) == Shapes(doc) &&
    forall q :: ValidPath(doc, q) && At(doc, q).Text? ==>
      ValidPath(tree, q) && At(tree, q) == if q in done then Text(sub(At(doc, q).data)) else At(doc, q)
  }

  lemma WalkedNone(doc: seq<Node>, sub: string -> string)
    ensures WalkedUpTo(doc, doc, [], sub)
  {
  }

  /** One step of the loop: a text node not yet visited still holds its old text, and
      replacing it (or keeping it, when the substitution does not change it) visits it. */
  lemma WalkedStep(doc: seq<Node>, tree: seq<Node>, done: seq<Path>, p: Path, sub: string -> string)
    requires WalkedUpTo(doc, tree, done, sub)
    requires ValidPath(doc, p) && At(doc, p).Text? && p !in done
    ensures ValidPath(tree, p) && At(tree, p) == At(doc, p)
    ensures WalkedUpTo(doc, ReplaceAt(tree, p, Text(sub(At(doc, p).data))), done + [p], sub)
    ensures sub(At(doc, p).data) == At(doc, p).data ==> WalkedUpTo(doc, tree, done + [p], sub)
  {
    var t := sub(At(doc, p).data);
    var after := ReplaceAt(tree, p, Text(t));
    ReplaceTextShape(tree, p, t);
    forall q | ValidPath(doc, q) && At(doc, q).Text?
      ensures ValidPath(after, q) && At(after, q) == if q in done + [p] then Text(sub(At(doc, q).data)) else At(doc, q)
    {
      ReplaceTextElsewhere(tree, p, t, q);
    }
  }

  /** Once every visited node is done, the tree is what the walk computes. */
  lemma WalkedAll(doc: seq<Node>, tree: seq<Node>, sub: string -> string)
    requires WalkedUpTo(doc, tree, CandidatesIn(doc, Outside), sub)
    ensures tree == RewriteList(doc, Outside, sub)
  {
    var spec := RewriteList(doc, Outside, sub);
    RewriteListShape(doc, Outside, sub);
    forall q | ValidPath(spec, q) && At(spec, q).Text? ensures ValidPath(tree, q) && At(tree, q) == At(spec, q) {
      ShapePaths(spec, doc, q);
      RewriteListAt(doc, Outside, sub, q);
      CandidatesInIff(doc, Outside, q);
    }
    ShapeAndTextDetermine(spec, tree);
  }

  /** The loop of `modifyHTML` over the text nodes inside body: it returns the walked tree
      and the paths of the nodes it replaced, in the order it replaced them. */
  method WalkBody(doc: seq<Node>, sub: string -> string) returns (tree: seq<Node>, rewritten: seq<Path>)
    ensures tree == RewriteList(doc, Outside, sub)
    ensures rewritten == Changed(doc, CandidatesIn(doc, Outside), sub)
  {
    var nodes := CandidatesIn(doc, Outside);
    CandidatesInDistinct(doc, Outside);
    tree, rewritten := doc, [];
    WalkedNone(doc, sub);
    var k := 0;
    while k < |nodes|
      invariant 0 <= k <= |nodes|
      invariant WalkedUpTo(doc, tree, nodes[..k], sub)
      invariant rewritten == Changed(doc, nodes[..k], sub)
    {
      var p := nodes[k];
      CandidatesInIff(doc, Outside, p);
      TakeOneMore(nodes, k);
      WalkedStep(doc, tree, nodes[..k], p, sub);
      ChangedSnoc(doc, nodes[..k], p, sub);
      var text := At(tree, p).data;
      var newText := sub(text);
      if text != newText {
        tree := ReplaceAt(tree, p, Text(newText));
        rewritten := rewritten + [p];
      }
      k := k + 1;
    }
    assert nodes[..k] == nodes;
    WalkedAll(doc, tree, sub);
  }

  // ---------------------------------------------------------------------------
  // Properties of the walk

  /** A path is reported as replaced exactly when it is listed and its text node changes
      under the substitution. */
  lemma {:induction false} ChangedIff(doc: seq<Node>, ps: seq<Path>, sub: string -> string, q: Path)
    ensures q in Changed(doc, ps, sub) <==>
      q in ps && ValidPath(doc, q) && At(doc, q).Text? && sub(At(doc, q).data) != At(doc, q).data
    decreases |ps|
  {
    if ps != [] {
      var m := |ps| - 1;
      ChangedIff(doc, ps[..m], sub, q);
      assert ps == ps[..m] + [ps[m]];
    }
  }

  /** The walk replaces a node exactly when it is a visited text node whose substitution
      differs from its text. */
  lemma RewrittenIff(doc: seq<Node>, sub: string -> string, q: Path)
    ensures q in Changed(doc, CandidatesIn(doc, Outside), sub) <==>
      IsCandidate(doc, q) && sub(At(doc, q).data) != At(doc, q).data
  {
    ChangedIff(doc, CandidatesIn(doc, Outside), sub, q);
    CandidatesInIff(doc, Outside, q);
  }

  /** The walk keeps the number of nodes and every element with its tag, attributes and
      number of children; every text and comment node keeps its place. */
  lemma WalkKeepsStructure(doc: seq<Node>, sub: string -> string, q: Path)
    requires ValidPath(doc, q)
    ensures Counts(RewriteList(doc, Outside, sub)) == Counts(doc)
    ensures ValidPath(RewriteList(doc, Outside, sub), q)
    ensures At(doc, q).Element? ==>
      && At(RewriteList(doc, Outside, sub), q).Element?
      && At(RewriteList(doc, Outside, sub), q).tag == At(doc, q).tag
      && At(RewriteList(doc, Outside, sub), q).attrs == At(doc, q).attrs
      && |At(RewriteList(doc, Outside, sub), q).children| == |At(doc, q).children|
    ensures At(doc, q).Comment? ==> At(RewriteList(doc, Outside, sub), q) == At(doc, q)
    ensures At(doc, q).Text? ==> At(RewriteList(doc, Outside, sub), q).Text?
  {
    var r := RewriteList(doc, Outside, sub);
    RewriteListShape(doc, Outside, sub);
    SameShapeSameCount(r, doc);
    ShapePaths(doc, r, q);
    if At(doc, q).Element? {
      SameShapeElements(doc, r, q);
    }
  }

  /** A visited text node holds the substitution of its text; every other text node keeps
      its text. */
  lemma WalkText(doc: seq<Node>, sub: string -> string, q: Path)
    requires ValidPath(doc, q) && At(doc, q).Text?
    ensures ValidPath(RewriteList(doc, Outside, sub), q)
    ensures BelowBodyElement(doc, q) ==> At(RewriteList(doc, Outside, sub), q) == Text(sub(At(doc, q).data))
    ensures !BelowBodyElement(doc, q) ==> At(RewriteList(doc, Outside, sub), q) == At(doc, q)
  {
    RewriteListAt(doc, Outside, sub, q);
    CandidateMeansBelowBody(doc, q);
  }

  /** A text node that is a child of an outermost `<body>` is not visited and keeps its text. */
  lemma BodyChildTextKept(doc: seq<Node>, sub: string -> string, q: Path)
    requires ValidPath(doc, q) && At(doc, q).Text? && |q| >= 2
    requires IsBodyAt(doc, q[..|q| - 1])
    requires forall j :: 1 <= j < |q| - 1 ==> !IsBodyAt(doc, q[..j])
    ensures !IsCandidate(doc, q)
    ensures ValidPath(RewriteList(doc, Outside, sub), q)
    ensures At(RewriteList(doc, Outside, sub), q) == At(doc, q)
  {
    WalkText(doc, sub, q);
    CandidateMeansBelowBody(doc, q);
  }

  /** When the substitution changes no visited text, the walk changes nothing and replaces
      no node. */
  lemma WalkNoChange(doc: seq<Node>, sub: string -> string)
    requires forall q :: IsCandidate(doc, q) ==> sub(At(doc, q).data) == At(doc, q).data
    ensures RewriteList(doc, Outside, sub) == doc
    ensures Changed(doc, CandidatesIn(doc, Outside), sub) == []
  {
    var r := RewriteList(doc, Outside, sub);
    RewriteListShape(doc, Outside, sub);
    forall q | ValidPath(r, q) && At(r, q).Text? ensures ValidPath(doc, q) && At(doc, q) == At(r, q) {
      ShapePaths(r, doc, q);
      RewriteListAt(doc, Outside, sub, q);
    }
    ShapeAndTextDetermine(r, doc);
    var ch := Changed(doc, CandidatesIn(doc, Outside), sub);
    if ch != [] {
      RewrittenIff(doc, sub, ch[0]);
      assert false;
    }
  }

  // ---------------------------------------------------------------------------
  // The title

  /** The text content of a node: the data of its text nodes in document order, comments
      left out. */
  function TextContent(n: Node): string
    decreases n
  {
    match n
    case Text(s) => s
    case Comment(_) => ""
    case Element(_, _, ch) => TextContents(ch)
  }

  function TextContents(d: seq<Node>): string
    decreases d
  {
    if d == [] then "" else TextContents(d[..|d| - 1]) + TextContent(d[|d| - 1])
  }

  /** `$('title').text()`: the text contents of all `<title>` elements of the document, in
      document order (a title inside another one is counted again on its own). */
  function TitleText(d: seq<Node>): string
    decreases d
  {
    if d == [] then "" else TitleText(d[..|d| - 1]) + TitleTextOf(d[|d| - 1])
  }

  function TitleTextOf(n: Node): string
    decreases n
  {
    match n
    case Element(t, _, ch) => (if t == "title" then TextContents(ch) else "") + TitleText(ch)
    case _ => ""
  }

  /** `$('title').text(t)`: every `<title>` element gets the single child Text(t) in place of
      its children. A title inside another one is detached along with its old children, so
      only the outermost titles keep the new text. */
  function SetTitle(d: seq<Node>, t: string): (r: seq<Node>)
    ensures |r| == |d|
    decreases d
  {
    seq(|d|, i requires 0 <= i < |d| => SetTitleOf(d[i], t))
  }

  function SetTitleOf(n: Node, t: string): Node
    decreases n
  {
    match n
    case Element(tag, a, ch) =>
      if tag == "title" then Element(tag, a, [Text(t)]) else Element(tag, a, SetTitle(ch, t))
    case _ => n
  }

  /** The number of outermost `<title>` elements. */
  function TitleCount(d: seq<Node>): nat
    decreases d
  {
    if d == [] then 0 else TitleCount(d[..|d| - 1]) + TitleCountOf(d[|d| - 1])
  }

  function TitleCountOf(n: Node): nat
    decreases n
  {
    match n
    case Element(tag, _, ch) => if tag == "title" then 1 else TitleCount(ch)
    case _ => 0
  }

  /** t written k times. */
  function Repeat(t: string, k: nat): string {
    if k == 0 then "" else Repeat(t, k - 1) + t
  }

  lemma {:induction false} RepeatAdd(t: string, a: nat, b: nat)
    ensures Repeat(t, a) + Repeat(t, b) == Repeat(t, a + b)
    decreases b
  {
    if b > 0 {
      RepeatAdd(t, a, b - 1);
    }
  }

  /** After the title is set to t, the combined title text is t once per outermost title. */
  lemma {:induction false} SetTitleText(d: seq<Node>, t: string)
    ensures TitleText(SetTitle(d, t)) == Repeat(t, TitleCount(d))
    decreases d, 1
  {
    if d != [] {
      var m := |d| - 1;
      assert SetTitle(d, t)[..m] == SetTitle(d[..m], t);
      assert SetTitle(d, t)[m] == SetTitleOf(d[m], t);
      SetTitleText(d[..m], t);
      SetTitleTextOf(d[m], t);
      RepeatAdd(t, TitleCount(d[..m]), TitleCountOf(d[m]));
    }
  }

  lemma {:induction false} SetTitleTextOf(n: Node, t: string)
    ensures TitleTextOf(SetTitleOf(n, t)) == Repeat(t, TitleCountOf(n))
    decreases n, 0
  {
    match n
    case Element(tag, a, ch) =>
      if tag == "title" {
        var one := [Text(t)];
        assert one[..0] == [];
        assert TextContents(one) == t;
        assert TitleText(one) == "";
        assert Repeat(t, 1) == t;
      } else {
        SetTitleText(ch, t);
      }
    case _ =>
  }

  /** With a single title, its text afterwards is exactly t. */
  lemma OneTitle(d: seq<Node>, t: string)
    requires TitleCount(d) == 1
    ensures TitleText(SetTitle(d, t)) == t
  {
    SetTitleText(d, t);
  }

  /** Without a title element, setting the title changes nothing. */
  lemma {:induction false} NoTitle(d: seq<Node>, t: string)
    requires TitleCount(d) == 0
    ensures SetTitle(d, t) == d
    decreases d, 1
  {
    if d != [] {
      forall i | 0 <= i < |d| ensures SetTitleOf(d[i], t) == d[i] {
        TitleCountPart(d, i);
        NoTitleOf(d[i], t);
      }
    }
  }

  lemma {:induction false} NoTitleOf(n: Node, t: string)
    requires TitleCountOf(n) == 0
    ensures SetTitleOf(n, t) == n
    decreases n, 0
  {
    if n.Element? && n.tag != "title" {
      NoTitle(n.children, t);
    }
  }

  /** The node at path p is a `<title>` element. */
  predicate IsTitleAt(d: seq<Node>, p: Path) {
    ValidPath(d, p) && At(d, p).Element? && At(d, p).tag == "title"
  }

  /** No ancestor of the node at q is a `<title>` element. */
  predicate OutsideTitles(d: seq<Node>, q: Path) {
    forall j :: 1 <= j < |q| ==> !IsTitleAt(d, q[..j])
  }

  /** What setting the title leaves alone: every node that lies in no `<title>` is still
      there; a text or comment node is unchanged, an element keeps its tag and attributes, an
      element other than a title keeps its number of children, and a node with no title at
      or below it is unchanged. */
  lemma {:induction false} SetTitleFrame(d: seq<Node>, t: string, q: Path)
    requires ValidPath(d, q) && OutsideTitles(d, q)
    ensures ValidPath(SetTitle(d, t), q)
    ensures !At(d, q).Element? ==> At(SetTitle(d, t), q) == At(d, q)
    ensures At(d, q).Element? ==>
      && At(SetTitle(d, t), q).Element?
      && At(SetTitle(d, t), q).tag == At(d, q).tag
      && At(SetTitle(d, t), q).attrs == At(d, q).attrs
      && (At(d, q).tag != "title" ==> |At(SetTitle(d, t), q).children| == |At(d, q).children|)
    ensures TitleCountOf(At(d, q)) == 0 ==> At(SetTitle(d, t), q) == At(d, q)
    decreases q
  {
    var e := d[q[0]];
    if |q| == 1 {
      if TitleCountOf(e) == 0 {
        NoTitleOf(e, t);
      }
    } else {
      assert q[..1] == [q[0]];
      assert !IsTitleAt(d, q[..1]);
      var q' := q[1..];
      assert OutsideTitles(e.children, q') by {
        forall j | 1 <= j < |q'| ensures !IsTitleAt(e.children, q'[..j]) {
          PrefixPath(d, q, j + 1);
          assert !IsTitleAt(d, q[..j + 1]);
        }
      }
      SetTitleFrame(e.children, t, q');
    }
  }

  /** Each node of a list counts towards the list's titles. */
  lemma {:induction false} TitleCountPart(d: seq<Node>, i: nat)
    requires i < |d|
    ensures TitleCountOf(d[i]) <= TitleCount(d)
    decreases |d|
  {
    var m := |d| - 1;
    if i < m {
      TitleCountPart(d[..m], i);
      assert d[..m][i] == d[i];
    }
  }

  // ---------------------------------------------------------------------------
  // modifyHTML

  /** The document `modifyHTML` produces: the walked tree, with its title set to the
      substitution of the walked tree's combined title text. */
  function Transform(doc: seq<Node>, sub: string -> string): seq<Node> {
    var body := RewriteList(doc, Outside, sub);
    SetTitle(body, sub(TitleText(body)))
  }

  /** `modifyHTML` on an already parsed document: the walk over the text nodes inside body,
      then the title. It also returns the paths of the text nodes the walk replaced. */
  method ModifyHtml(doc: seq<Node>, sub: string -> string) returns (out: seq<Node>, rewritten: seq<Path>)
    ensures out == Transform(doc, sub)
    ensures forall q :: q in rewritten <==> IsCandidate(doc, q) && sub(At(doc, q).data) != At(doc, q).data
  {
    var body;
    body, rewritten := WalkBody(doc, sub);
    forall q ensures q in rewritten <==> IsCandidate(doc, q) && sub(At(doc, q).data) != At(doc, q).data {
      RewrittenIff(doc, sub, q);
    }
    var title := sub(TitleText(body));
    out := SetTitle(body, title);
  }

  /** No element anywhere in d is a `<body>`. */
  predicate NoBody(d: seq<Node>)
    decreases d
  {
    forall i :: 0 <= i < |d| ==> d[i].Element? ==> d[i].tag != "body" && NoBody(d[i].children)
  }

  /** Every `<title>` element of a list of scope sc lies outside every body and holds no body:
      the layout the HTML parser gives, with the title in the head. */
  predicate TitlesOutsideBody(d: seq<Node>, sc: Scope)
    decreases d
  {
    forall i :: 0 <= i < |d| ==> d[i].Element? ==>
      (d[i].tag == "title" ==> sc == Outside && NoBody(d[i].children)) &&
      TitlesOutsideBody(d[i].children, ChildScope(sc, d[i].tag))
  }

  /** Outside every body, and with no body below, the walk changes nothing. */
  lemma {:induction false} NoBodyUnwalked(d: seq<Node>, sub: string -> string)
    requires NoBody(d)
    ensures RewriteList(d, Outside, sub) == d
    decreases d
  {
    forall i | 0 <= i < |d| ensures RewriteNode(d[i], Outside, sub) == d[i] {
      if d[i].Element? {
        NoBodyUnwalked(d[i].children, sub);
      }
    }
  }

  /** The walk keeps the title text of a document whose titles lie outside body and hold no
      body. */
  lemma {:induction false} WalkKeepsTitleText(d: seq<Node>, sc: Scope, sub: string -> string)
    requires TitlesOutsideBody(d, sc)
    ensures TitleText(RewriteList(d, sc, sub)) == TitleText(d)
    decreases d, 1
  {
    if d != [] {
      var m := |d| - 1;
      assert RewriteList(d, sc, sub)[..m] == RewriteList(d[..m], sc, sub);
      assert TitlesOutsideBody(d[..m], sc) by {
        forall i | 0 <= i < m ensures d[..m][i] == d[i] { }
      }
      WalkKeepsTitleText(d[..m], sc, sub);
      WalkKeepsTitleTextOf(d[m], sc, sub);
    }
  }

  lemma {:induction false} WalkKeepsTitleTextOf(n: Node, sc: Scope, sub: string -> string)
    requires n.Element? ==>
      (n.tag == "title" ==> sc == Outside && NoBody(n.children)) &&
      TitlesOutsideBody(n.children, ChildScope(sc, n.tag))
    ensures TitleTextOf(RewriteNode(n, sc, sub)) == TitleTextOf(n)
    decreases n, 0
  {
    if n.Element? {
      if n.tag == "title" {
        NoBodyUnwalked(n.children, sub);
      } else {
        WalkKeepsTitleText(n.children, ChildScope(sc, n.tag), sub);
      }
    }
  }

  /** Erasing text data keeps the number of titles. */
  lemma {:induction false} TitleCountOfShapes(d: seq<Node>)
    ensures TitleCount(Shapes(d)) == TitleCount(d)
    decreases d, 1
  {
    if d != [] {
      var m := |d| - 1;
      assert Shapes(d)[..m] == Shapes(d[..m]);
      TitleCountOfShapes(d[..m]);
      TitleCountOfShape(d[m]);
    }
  }

  lemma {:induction false} TitleCountOfShape(n: Node)
    ensures TitleCountOf(Shape(n)) == TitleCountOf(n)
    decreases n, 0
  {
    if n.Element? {
      TitleCountOfShapes(n.children);
    }
  }

  /** The walk keeps the `<title>` elements where they are. */
  lemma WalkKeepsTitlePlaces(doc: seq<Node>, sub: string -> string, q: Path)
    requires ValidPath(doc, q) && OutsideTitles(doc, q)
    ensures ValidPath(RewriteList(doc, Outside, sub), q) && OutsideTitles(RewriteList(doc, Outside, sub), q)
  {
    var r := RewriteList(doc, Outside, sub);
    RewriteListShape(doc, Outside, sub);
    ShapePaths(doc, r, q);
    forall j | 1 <= j < |q| ensures !IsTitleAt(r, q[..j]) {
      PrefixPath(doc, q, j);
      if IsTitleAt(r, q[..j]) {
        SameShapeElements(r, doc, q[..j]);
        assert false;
      }
    }
  }

  /** What `modifyHTML` returns, at every node that lies in no `<title>`: the node is still
      there; each element keeps its tag and attributes (so `href` and `alt` stay as they
      were), and one other than a title its number of children; each comment is kept; a text node visited by the walk holds the substitution of
      its text, and every other text node keeps its text. */
  lemma TransformAt(doc: seq<Node>, sub: string -> string, q: Path)
    requires ValidPath(doc, q) && OutsideTitles(doc, q)
    ensures ValidPath(Transform(doc, sub), q)
    ensures At(doc, q).Element? ==>
      && At(Transform(doc, sub), q).Element?
      && At(Transform(doc, sub), q).tag == At(doc, q).tag
      && At(Transform(doc, sub), q).attrs == At(doc, q).attrs
    ensures At(doc, q).Element? && At(doc, q).tag != "title" ==>
      |At(Transform(doc, sub), q).children| == |At(doc, q).children|
    ensures At(doc, q).Comment? ==> At(Transform(doc, sub), q) == At(doc, q)
    ensures At(doc, q).Text? ==>
      At(Transform(doc, sub), q) == if IsCandidate(doc, q) then Text(sub(At(doc, q).data)) else At(doc, q)
  {
    var body := RewriteList(doc, Outside, sub);
    WalkKeepsStructure(doc, sub, q);
    WalkKeepsTitlePlaces(doc, sub, q);
    SetTitleFrame(body, sub(TitleText(body)), q);
    if At(doc, q).Text? {
      RewriteListAt(doc, Outside, sub, q);
    }
  }

  /** With one title, outside body and holding no body, the title text after `modifyHTML`
      is the substitution of the title text before it. */
  lemma TitleAfterModify(doc: seq<Node>, sub: string -> string)
    requires TitleCount(doc) == 1 && TitlesOutsideBody(doc, Outside)
    ensures TitleText(Transform(doc, sub)) == sub(TitleText(doc))
  {
    var body := RewriteList(doc, Outside, sub);
    RewriteListShape(doc, Outside, sub);
    TitleCountOfShapes(doc);
    TitleCountOfShapes(body);
    WalkKeepsTitleText(doc, Outside, sub);
    OneTitle(body, sub(TitleText(body)));
  }
}
