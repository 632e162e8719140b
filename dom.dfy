/** The parsed document as BeautifulSoup presents it to the translation passes: tags
    with a name, an attribute dictionary and an ordered list of children, and strings.
    The document itself is a tag named `[document]` whose children are the top-level
    nodes. A node is addressed by its path of child indices from the document. */
module Dom {
  datatype Node =
    | Element(name: string, attrs: map<string, string>, children: seq<Node>)
    | Text(text: string)

  /** The name BeautifulSoup gives the document itself. */
  const DocumentName := "[document]"

  /** The parsed document holding the given top-level nodes. */
  function Soup(top: seq<Node>): Node
  {
    Element(DocumentName, map[], top)
  }

  /** Child indices from the document down to a node; `[]` is the document itself. */
  type Path = seq<nat>

  predicate ValidPath(t: Node, p: Path)
    decreases |p|
  {
    p == [] || (t.Element? && p[0] < |t.children| && ValidPath(t.children[p[0]], p[1..]))
  }

  function At(t: Node, p: Path): Node
    requires ValidPath(t, p)
    decreases |p|
  {
    if p == [] then t else At(t.children[p[0]], p[1..])
  }

  /** `node.parent.name`: the name of the tag that holds the node at `p`. */
  function ParentName(t: Node, p: Path): string
    requires ValidPath(t, p) && p != []
    decreases |p|
  {
    if |p| == 1 then t.name else ParentName(t.children[p[0]], p[1..])
  }

  /** The tree with the node at `p` replaced by `n`, everything else as it was. */
  function ReplaceAt(t: Node, p: Path, n: Node): Node
    requires ValidPath(t, p)
    decreases |p|
  {
    if p == [] then n
    else t.(children := t.children[p[0] := ReplaceAt(t.children[p[0]], p[1..], n)])
  }

  /** What the passes never change: the kind of every node, every tag's name and the
      number and order of its children. */
  datatype Shape = TextShape | ElementShape(name: string, kids: seq<Shape>)

  function ShapeOf(t: Node): Shape
  {
    match t
    case Text(_) => TextShape
    case Element(name, _, kids) =>
      ElementShape(name, seq(|kids|, i requires 0 <= i < |kids| => ShapeOf(kids[i])))
  }

  /** A node without its children: a string, or a tag's name and attributes. */
  function Bare(n: Node): Node
  {
    match n
    case Text(_) => n
    case Element(name, attrs, _) => Element(name, attrs, [])
  }

  /** `a` may stand in for `b`: same kind and, for tags, same name and same children. */
  predicate SameFrame(a: Node, b: Node)
  {
    a.Text? == b.Text? && (a.Element? ==> a.name == b.name && a.children == b.children)
  }

  /** Paths that address proper descendants of the document, all in the tree. */
  predicate AllIn(t: Node, ps: seq<Path>)
  {
    forall k :: 0 <= k < |ps| ==> ps[k] != [] && ValidPath(t, ps[k])
  }

  /** Trees of the same shape have the same paths, and the same parent names along them. */
  lemma {:induction false} ShapeDecidesPaths(a: Node, b: Node, p: Path)
    requires ShapeOf(a) == ShapeOf(b)
    ensures ValidPath(a, p) <==> ValidPath(b, p)
    ensures ValidPath(a, p) ==> ShapeOf(At(a, p)) == ShapeOf(At(b, p))
    ensures ValidPath(a, p) && p != [] ==> ParentName(a, p) == ParentName(b, p)
    decreases |p|
  {
    if p != [] && a.Element? {
      assert b.Element? && |a.children| == |b.children|;
      if p[0] < |a.children| {
        assert ShapeOf(a).kids[p[0]] == ShapeOf(a.children[p[0]]);
        assert ShapeOf(b).kids[p[0]] == ShapeOf(b.children[p[0]]);
        ShapeDecidesPaths(a.children[p[0]], b.children[p[0]], p[1..]);
      }
    } else if p != [] {
      assert b.Text?;
    }
  }

  /** Paths valid in `a` stay valid in any tree of the same shape. */
  lemma ShapeKeepsAllIn(a: Node, b: Node, ps: seq<Path>)
    requires ShapeOf(a) == ShapeOf(b) && AllIn(a, ps)
    ensures AllIn(b, ps)
  {
    forall k | 0 <= k < |ps| ensures ValidPath(b, ps[k]) {
      ShapeDecidesPaths(a, b, ps[k]);
    }
  }

  /** Replacing a node by one that may stand in for it keeps the shape of the tree. */
  lemma {:induction false} ReplaceKeepsShape(t: Node, p: Path, n: Node)
    requires ValidPath(t, p) && SameFrame(n, At(t, p))
    ensures ShapeOf(ReplaceAt(t, p, n)) == ShapeOf(t)
    decreases |p|
  {
    if p != [] {
      var c := t.children[p[0]];
      ReplaceKeepsShape(c, p[1..], n);
      var u := ReplaceAt(t, p, n);
      assert |u.children| == |t.children|;
      forall i | 0 <= i < |t.children| ensures ShapeOf(u.children[i]) == ShapeOf(t.children[i]) {
      }
      assert ShapeOf(u).kids == ShapeOf(t).kids;
    } else {
      var m := At(t, p);
      if n.Element? {
        assert ShapeOf(n).kids == ShapeOf(m).kids;
      }
    }
  }

  /** After replacing the node at `p`, the node at `p` is the new one and every other
      node keeps its name, attributes or text (its children may differ only along `p`). */
  lemma {:induction false} ReplaceAtPointwise(t: Node, p: Path, n: Node, q: Path)
    requires ValidPath(t, p) && ValidPath(t, q) && SameFrame(n, At(t, p))
    ensures ValidPath(ReplaceAt(t, p, n), q)
    ensures Bare(At(ReplaceAt(t, p, n), q)) == if q == p then Bare(n) else Bare(At(t, q))
    decreases |p|
  {
    var u := ReplaceAt(t, p, n);
    if p == [] {
      if q != [] {
        assert At(u, q) == At(t.children[q[0]], q[1..]) == At(t, q);
      }
    } else if q != [] {
      if q[0] == p[0] {
        ReplaceAtPointwise(t.children[p[0]], p[1..], n, q[1..]);
        assert q == p <==> q[1..] == p[1..];
      } else {
        assert u.children[q[0]] == t.children[q[0]];
      }
    }
  }

  /** `ParentName` is the name of the immediate parent, the node one step up the path;
      no other ancestor is consulted. */
  lemma {:induction false} ParentNameIsImmediate(t: Node, p: Path)
    requires ValidPath(t, p) && p != []
    ensures ValidPath(t, p[..|p| - 1])
    ensures At(t, p[..|p| - 1]).Element? && ParentName(t, p) == At(t, p[..|p| - 1]).name
    decreases |p|
  {
    if |p| > 1 {
      ParentNameIsImmediate(t.children[p[0]], p[1..]);
      assert p[..|p| - 1][0] == p[0] && p[..|p| - 1][1..] == p[1..][..|p[1..]| - 1];
    } else {
      assert p[..|p| - 1] == [];
    }
  }
}
