/** BeautifulSoup's `find_all` for the three searches the translation passes make: every
    descendant of the document that matches, as a list, in document order (a tag comes
    before its descendants, and they before its later siblings). */
module Select {
  import opened Dom

  datatype Query =
    | MetaByName  // meta tags whose `name` attribute is `description` or `keywords`
    | ImgWithAlt  // img tags that carry an `alt` attribute, whatever its value
    | AnyText     // every string

  predicate Selected(query: Query, n: Node)
  {
    match query
    case MetaByName =>
      n.Element? && n.name == "meta" && "name" in n.attrs
      && (n.attrs["name"] == "description" || n.attrs["name"] == "keywords")
    case ImgWithAlt => n.Element? && n.name == "img" && "alt" in n.attrs
    case AnyText => n.Text?
  }

  /** Whether a node matches does not depend on its children. */
  lemma SelectedSeesBareNode(query: Query, a: Node, b: Node)
    requires Bare(a) == Bare(b)
    ensures Selected(query, a) == Selected(query, b)
  {
    assert a.Text? <==> b.Text?;
    if a.Element? {
      assert a.name == b.name && a.attrs == b.attrs;
    }
  }

  /** The paths `ps`, each below child `i`. */
  function Under(i: nat, ps: seq<Path>): (r: seq<Path>)
    ensures |r| == |ps|
    ensures forall k :: 0 <= k < |ps| ==> r[k] == [i] + ps[k]
  {
    seq(|ps|, k requires 0 <= k < |ps| => [i] + ps[k])
  }

  /** The matching proper descendants of `t`, in document order. */
  function Found(query: Query, t: Node): seq<Path>
    decreases t, 1
  {
    if t.Text? then [] else FoundFrom(query, t, 0)
  }

  /** The matches among the children of `t` from the `i`-th on and their descendants. */
  function FoundFrom(query: Query, t: Node, i: nat): seq<Path>
    requires t.Element? && i <= |t.children|
    decreases t, 0, |t.children| - i
  {
    if i == |t.children| then []
    else
      (if Selected(query, t.children[i]) then [[i]] else [])
      + Under(i, Found(query, t.children[i]))
      + FoundFrom(query, t, i + 1)
  }

  /** Document order on paths: an ancestor comes first, then siblings by index. */
  predicate Precedes(a: Path, b: Path)
    decreases |a|
  {
    b != [] && (a == [] || a[0] < b[0] || (a[0] == b[0] && Precedes(a[1..], b[1..])))
  }

  predicate Ordered(ps: seq<Path>)
  {
    forall i, j :: 0 <= i < j < |ps| ==> Precedes(ps[i], ps[j])
  }

  predicate Distinct(ps: seq<Path>)
  {
    forall i, j :: 0 <= i < j < |ps| ==> ps[i] != ps[j]
  }

  lemma {:induction false} PrecedesIrreflexive(a: Path)
    ensures !Precedes(a, a)
    decreases |a|
  {
    if a != [] {
      PrecedesIrreflexive(a[1..]);
    }
  }

  /** A list in document order names no node twice. */
  lemma OrderedDistinct(ps: seq<Path>)
    requires Ordered(ps)
    ensures Distinct(ps)
  {
    forall i, j | 0 <= i < j < |ps| ensures ps[i] != ps[j] {
      PrecedesIrreflexive(ps[i]);
    }
  }

  lemma OrderedConcat(xs: seq<Path>, ys: seq<Path>)
    requires Ordered(xs) && Ordered(ys)
    requires forall i, j :: 0 <= i < |xs| && 0 <= j < |ys| ==> Precedes(xs[i], ys[j])
    ensures Ordered(xs + ys)
  {
    var zs := xs + ys;
    forall i, j | 0 <= i < j < |zs| ensures Precedes(zs[i], zs[j]) {
      if j < |xs| {
        assert zs[i] == xs[i] && zs[j] == xs[j];
      } else if i >= |xs| {
        assert zs[i] == ys[i - |xs|] && zs[j] == ys[j - |xs|];
      } else {
        assert zs[i] == xs[i] && zs[j] == ys[j - |xs|];
      }
    }
  }

  lemma UnderOrdered(i: nat, ps: seq<Path>)
    requires Ordered(ps) && forall k :: 0 <= k < |ps| ==> ps[k] != []
    ensures Ordered(Under(i, ps))
    ensures forall k :: 0 <= k < |ps| ==> Precedes([i], Under(i, ps)[k])
  {
    var us := Under(i, ps);
    forall a, b | 0 <= a < b < |us| ensures Precedes(us[a], us[b]) {
      assert us[a][1..] == ps[a] && us[b][1..] == ps[b];
    }
    forall k | 0 <= k < |us| ensures Precedes([i], us[k]) {
      assert us[k][1..] == ps[k];
      assert [i][1..] == [];
    }
  }

  /** A path is below child `i` exactly when it starts with `i` and continues with one
      of `ps`. */
  lemma UnderMembers(i: nat, ps: seq<Path>, p: Path)
    ensures p in Under(i, ps) <==> p != [] && p[0] == i && p[1..] in ps
  {
    var us := Under(i, ps);
    if p in us {
      var k :| 0 <= k < |us| && us[k] == p;
      assert p[1..] == ps[k];
    }
    if p != [] && p[0] == i && p[1..] in ps {
      var k :| 0 <= k < |ps| && ps[k] == p[1..];
      assert us[k] == p;
    }
  }

  /** Membership: a path is found exactly when it addresses a matching proper
      descendant, and the list is in document order. */
  lemma {:induction false} FoundSpec(query: Query, t: Node)
    ensures forall p :: p in Found(query, t) <==> (p != [] && ValidPath(t, p) && Selected(query, At(t, p)))
    ensures Ordered(Found(query, t))
    ensures AllIn(t, Found(query, t)) && Distinct(Found(query, t))
    decreases t, 1
  {
    if t.Element? {
      FoundFromSpec(query, t, 0);
    }
    var f := Found(query, t);
    assert AllIn(t, f) by {
      forall k | 0 <= k < |f| ensures f[k] != [] && ValidPath(t, f[k]) {
        assert f[k] in f;
      }
    }
    OrderedDistinct(f);
  }

  /** `FoundFrom(t, i)` finds the matches below children `i` onwards, in document order. */
  lemma {:induction false} FoundFromSpec(query: Query, t: Node, i: nat)
    requires t.Element? && i <= |t.children|
    ensures forall p :: p in FoundFrom(query, t, i) <==>
              (p != [] && p[0] >= i && ValidPath(t, p) && Selected(query, At(t, p)))
    ensures Ordered(FoundFrom(query, t, i))
    decreases t, 0, |t.children| - i
  {
    if i < |t.children| {
      var c := t.children[i];
      FoundSpec(query, c);
      FoundFromSpec(query, t, i + 1);
      forall p ensures p in FoundFrom(query, t, i) <==>
                       (p != [] && p[0] >= i && ValidPath(t, p) && Selected(query, At(t, p))) {
        FoundFromStep(query, t, i, p);
      }
      FoundFromStepOrdered(query, t, i);
    }
  }

  /** One step of `FoundFromSpec`'s membership, given its facts for the child and for
      the later children. */
  lemma FoundFromStep(query: Query, t: Node, i: nat, p: Path)
    requires t.Element? && i < |t.children|
    requires forall p :: p in Found(query, t.children[i]) <==>
               (p != [] && ValidPath(t.children[i], p) && Selected(query, At(t.children[i], p)))
    requires forall p :: p in FoundFrom(query, t, i + 1) <==>
               (p != [] && p[0] >= i + 1 && ValidPath(t, p) && Selected(query, At(t, p)))
    ensures p in FoundFrom(query, t, i) <==> (p != [] && p[0] >= i && ValidPath(t, p) && Selected(query, At(t, p)))
  {
    var c := t.children[i];
    var head := if Selected(query, c) then [[i]] else [];
    var inner := Found(query, c);
    var rest := FoundFrom(query, t, i + 1);
    assert FoundFrom(query, t, i) == head + Under(i, inner) + rest;
    UnderMembers(i, inner, p);
    if p != [] && p[0] == i {
      assert p == [i] + p[1..];
      assert ValidPath(t, p) <==> ValidPath(c, p[1..]);
      assert ValidPath(t, p) ==> At(t, p) == At(c, p[1..]);
      if p[1..] == [] {
        assert [] !in inner;
        assert p == [i];
        assert At(t, p) == At(c, []) == c;
      } else {
        assert p !in head;
      }
      assert p !in rest;
    } else {
      assert p !in head;
    }
  }

  lemma FoundFromStepOrdered(query: Query, t: Node, i: nat)
    requires t.Element? && i < |t.children|
    requires forall p :: p in Found(query, t.children[i]) ==> p != []
    requires Ordered(Found(query, t.children[i]))
    requires forall p :: p in FoundFrom(query, t, i + 1) ==> p != [] && p[0] >= i + 1
    requires Ordered(FoundFrom(query, t, i + 1))
    ensures Ordered(FoundFrom(query, t, i))
  {
    var c := t.children[i];
    var head := if Selected(query, c) then [[i]] else [];
    var inner := Found(query, c);
    var below := Under(i, inner);
    var rest := FoundFrom(query, t, i + 1);
    assert FoundFrom(query, t, i) == head + below + rest;
    assert forall k :: 0 <= k < |inner| ==> inner[k] != [] by {
      forall k | 0 <= k < |inner| ensures inner[k] != [] {
        assert inner[k] in inner;
      }
    }
    UnderOrdered(i, inner);
    OrderedConcat(head, below);
    forall a, b | 0 <= a < |head + below| && 0 <= b < |rest| ensures Precedes((head + below)[a], rest[b]) {
      var r := rest[b];
      assert r in FoundFrom(query, t, i + 1);
      assert r != [] && r[0] >= i + 1;
      var x := (head + below)[a];
      assert x[0] == i by {
        if a >= |head| {
          assert x == below[a - |head|];
        }
      }
    }
    OrderedConcat(head + below, rest);
  }

  /** Two trees of the same shape whose nodes agree, path by path, on whether they
      match give the same search result. */
  lemma {:induction false} FoundAgree(query: Query, t: Node, u: Node)
    requires ShapeOf(t) == ShapeOf(u)
    requires forall p :: ValidPath(t, p) ==> ValidPath(u, p) && (Selected(query, At(t, p)) <==> Selected(query, At(u, p)))
    ensures Found(query, t) == Found(query, u)
    decreases t, 1
  {
    if t.Element? {
      FoundFromAgree(query, t, u, 0);
    }
  }

  lemma {:induction false} FoundFromAgree(query: Query, t: Node, u: Node, i: nat)
    requires t.Element? && i <= |t.children|
    requires ShapeOf(t) == ShapeOf(u)
    requires forall p :: ValidPath(t, p) ==> ValidPath(u, p) && (Selected(query, At(t, p)) <==> Selected(query, At(u, p)))
    ensures u.Element? && i <= |u.children| && FoundFrom(query, t, i) == FoundFrom(query, u, i)
    decreases t, 0, |t.children| - i
  {
    assert ShapeOf(t).kids == ShapeOf(u).kids;
    assert |t.children| == |u.children|;
    if i < |t.children| {
      var c, d := t.children[i], u.children[i];
      assert ShapeOf(c) == ShapeOf(t).kids[i] == ShapeOf(u).kids[i] == ShapeOf(d);
      forall p | ValidPath(c, p)
        ensures ValidPath(d, p) && (Selected(query, At(c, p)) <==> Selected(query, At(d, p)))
      {
        var q := [i] + p;
        assert q[0] == i && q[1..] == p;
        assert ValidPath(t, q);
      }
      assert ValidPath(c, []);
      assert Selected(query, c) <==> Selected(query, d);
      FoundAgree(query, c, d);
      FoundFromAgree(query, t, u, i + 1);
      assert FoundFrom(query, t, i) == (if Selected(query, c) then [[i]] else [])
        + Under(i, Found(query, c)) + FoundFrom(query, t, i + 1);
      assert FoundFrom(query, u, i) == (if Selected(query, d) then [[i]] else [])
        + Under(i, Found(query, d)) + FoundFrom(query, u, i + 1);
    }
  }
}
