/** The body shared by every translation loop: for each node in a list found earlier,
    read what it asks to have translated, send that to the translator, and write the
    answer back into the node in place. The translator's failures never escape: the
    text of the exception takes the place of the translation. */
module Passes {
  import opened Wrappers
  import opened Strings
  import opened Dom
  import opened Select

  /** One translator call: the text, and the `content_type` hint when one is passed. */
  datatype Request = Request(text: string, contentType: Option<string>)

  /** What the chat service did with a request: answered, or raised with a message. */
  datatype Reply = Answer(text: string) | Raised(message: string)

  /** The service, as a function of the request. */
  type Translator = Request -> Reply

  /** `send_text_to_openai`: the answer's text, or `str(e)` when the call raised. */
  function Send(tr: Translator, r: Request): string
  {
    match tr(r)
    case Answer(text) => text
    case Raised(message) => message
  }

  /** The loop bodies: meta `content` and img `alt` (only in save_page.py), and the
      text-node loops of save_page.py and of app.py. */
  datatype Pass = MetaContent | ImgAlt | SaveText | AppText

  /** Parent names whose text save_page.py never translates. */
  const SaveExcluded: set<string> := {"script", "style", "head", "meta", "[document]"}

  /** Parent names whose text app.py never collects; `title` is the one addition. */
  const AppExcluded: set<string> := {"script", "style", "head", "title", "meta", "[document]"}

  /** The request a loop body makes for the node, or `None` when its guard skips it. */
  function Ask(pass: Pass, parent: string, n: Node): Option<Request>
  {
    match pass
    case MetaContent =>
      if n.Element? && "content" in n.attrs then Some(Request(n.attrs["content"], Some("meta"))) else None
    case ImgAlt =>
      if n.Element? && "alt" in n.attrs && Strip(n.attrs["alt"]) != [] then Some(Request(n.attrs["alt"], Some("img")))
      else None
    case SaveText =>
      if n.Text? && parent !in SaveExcluded && Strip(n.text) != [] then Some(Request(n.text, Some("element")))
      else None
    case AppText =>
      if n.Text? && Strip(n.text) != [] then Some(Request(n.text, None)) else None
  }

  /** The node with the translation written back: an attribute assignment on a tag, or
      `replace_with` on a string. Either way the node stays where it is, of the same
      kind, with the same name and the same children. */
  function Deliver(pass: Pass, n: Node, answer: string): (r: Node)
    ensures SameFrame(r, n)
  {
    match pass
    case MetaContent => if n.Element? then n.(attrs := n.attrs["content" := answer]) else n
    case ImgAlt => if n.Element? then n.(attrs := n.attrs["alt" := answer]) else n
    case SaveText => if n.Text? then Text(answer) else n
    case AppText => if n.Text? then Text(answer) else n
  }

  /** What one iteration makes of a node. */
  function Step(pass: Pass, tr: Translator, parent: string, n: Node): Node
  {
    match Ask(pass, parent, n)
    case None => n
    case Some(r) => Deliver(pass, n, Send(tr, r))
  }

  /** The tree after the loop and the requests it sent, in order. */
  datatype Outcome = Outcome(tree: Node, calls: seq<Request>)

  /** The loop over the found paths, each iteration working on the previous one's tree. */
  function Fold(pass: Pass, tr: Translator, t: Node, ps: seq<Path>): Outcome
    requires AllIn(t, ps)
    decreases |ps|
  {
    if ps == [] then Outcome(t, [])
    else
      var p := ps[0];
      var n := At(t, p);
      match Ask(pass, ParentName(t, p), n)
      case None => Fold(pass, tr, t, ps[1..])
      case Some(r) =>
        var u := ReplaceAt(t, p, Deliver(pass, n, Send(tr, r)));
        ReplaceKeepsShape(t, p, Deliver(pass, n, Send(tr, r)));
        ShapeKeepsAllIn(t, u, ps[1..]);
        var o := Fold(pass, tr, u, ps[1..]);
        Outcome(o.tree, [r] + o.calls)
  }

  /** The loop: the found list is fixed before it starts, and every iteration edits the
      current tree in place at the node the list names. */
  method RunPass(pass: Pass, tr: Translator, doc: Node, found: seq<Path>) returns (t: Node, calls: seq<Request>)
    requires AllIn(doc, found)
    ensures Outcome(t, calls) == Fold(pass, tr, doc, found)
  {
    t, calls := doc, [];
    assert found[0..] == found;
    for i := 0 to |found|
      invariant AllIn(t, found[i..])
      invariant Resume(pass, tr, t, calls, found[i..]) == Fold(pass, tr, doc, found)
    {
      assert found[i..][0] == found[i] && found[i..][1..] == found[i + 1..];
      ResumeFirst(pass, tr, t, calls, found[i..]);
      var p := found[i];
      var node := At(t, p);
      match Ask(pass, ParentName(t, p), node) {
        case None =>
        case Some(r) =>
          var answer := Send(tr, r);
          t := ReplaceAt(t, p, Deliver(pass, node, answer));
          calls := calls + [r];
      }
    }
  }

  /** Where the loop ends when it has made `calls` so far and still has `ps` to visit. */
  function Resume(pass: Pass, tr: Translator, t: Node, calls: seq<Request>, ps: seq<Path>): Outcome
    requires AllIn(t, ps)
  {
    var o := Fold(pass, tr, t, ps);
    Outcome(o.tree, calls + o.calls)
  }

  /** One iteration of the loop: a node without a request is skipped; otherwise the tree
      is edited at that node and the request is added to those made so far. */
  lemma ResumeFirst(pass: Pass, tr: Translator, t: Node, calls: seq<Request>, ps: seq<Path>)
    requires AllIn(t, ps) && ps != []
    ensures Ask(pass, ParentName(t, ps[0]), At(t, ps[0])).None? ==>
              AllIn(t, ps[1..]) && Resume(pass, tr, t, calls, ps) == Resume(pass, tr, t, calls, ps[1..])
    ensures Ask(pass, ParentName(t, ps[0]), At(t, ps[0])).Some? ==>
              var r := Ask(pass, ParentName(t, ps[0]), At(t, ps[0])).value;
              var u := ReplaceAt(t, ps[0], Deliver(pass, At(t, ps[0]), Send(tr, r)));
              AllIn(u, ps[1..]) && Resume(pass, tr, t, calls, ps) == Resume(pass, tr, u, calls + [r], ps[1..])
  {
    var n := At(t, ps[0]);
    match Ask(pass, ParentName(t, ps[0]), n)
    case None =>
    case Some(r) =>
      var u := ReplaceAt(t, ps[0], Deliver(pass, n, Send(tr, r)));
      ReplaceKeepsShape(t, ps[0], Deliver(pass, n, Send(tr, r)));
      ShapeKeepsAllIn(t, u, ps[1..]);
      var o := Fold(pass, tr, u, ps[1..]);
      assert calls + ([r] + o.calls) == (calls + [r]) + o.calls;
  }

  /** The requests the loop makes, each read from the tree as it was before the loop. */
  function RequestsAt(pass: Pass, t: Node, ps: seq<Path>): seq<Request>
    requires AllIn(t, ps)
    decreases |ps|
  {
    if ps == [] then []
    else
      (match Ask(pass, ParentName(t, ps[0]), At(t, ps[0])) case None => [] case Some(r) => [r])
      + RequestsAt(pass, t, ps[1..])
  }

  /** A node's request and what the loop makes of it depend only on its parent's name
      and on the node without its children. */
  lemma AskSeesBareNode(pass: Pass, parent: string, a: Node, b: Node)
    requires Bare(a) == Bare(b)
    ensures Ask(pass, parent, a) == Ask(pass, parent, b)
  {
    assert a.Text? <==> b.Text?;
    if a.Element? {
      assert a.attrs == Bare(a).attrs == Bare(b).attrs == b.attrs;
    }
  }

  lemma StepSeesBareNode(pass: Pass, tr: Translator, parent: string, a: Node, b: Node)
    requires Bare(a) == Bare(b)
    ensures Bare(Step(pass, tr, parent, a)) == Bare(Step(pass, tr, parent, b))
  {
    AskSeesBareNode(pass, parent, a, b);
    if a.Element? {
      assert a.attrs == Bare(a).attrs == Bare(b).attrs == b.attrs;
    }
  }

  /** Requests read at the same paths of two trees of the same shape, whose nodes there
      agree without their children, are the same. */
  lemma {:induction false} RequestsAgree(pass: Pass, t: Node, u: Node, ps: seq<Path>)
    requires ShapeOf(t) == ShapeOf(u) && AllIn(t, ps)
    requires forall k :: 0 <= k < |ps| ==> ValidPath(u, ps[k]) && Bare(At(t, ps[k])) == Bare(At(u, ps[k]))
    ensures AllIn(u, ps) && RequestsAt(pass, t, ps) == RequestsAt(pass, u, ps)
    decreases |ps|
  {
    ShapeKeepsAllIn(t, u, ps);
    if ps != [] {
      ShapeDecidesPaths(t, u, ps[0]);
      AskSeesBareNode(pass, ParentName(t, ps[0]), At(t, ps[0]), At(u, ps[0]));
      RequestsAgree(pass, t, u, ps[1..]);
    }
  }

  /** A list without repetition: its tail has none either and omits its head. */
  lemma DistinctTail(ps: seq<Path>)
    requires ps != [] && Distinct(ps)
    ensures Distinct(ps[1..]) && ps[0] !in ps[1..]
  {
    var rest := ps[1..];
    forall i, j | 0 <= i < j < |rest| ensures rest[i] != rest[j] {
      assert rest[i] == ps[i + 1] && rest[j] == ps[j + 1];
    }
    forall k | 0 <= k < |rest| ensures rest[k] != ps[0] {
      assert rest[k] == ps[k + 1];
    }
  }

  /** The loop over distinct paths, in one statement: the tree keeps its shape; every
      listed node becomes what one iteration makes of it in the original tree; every
      other node keeps its name, attributes or text; and the requests sent are the
      ones read from the original tree, one per listed node whose guard passes, in
      list order. */
  lemma {:induction false} FoldPointwise(pass: Pass, tr: Translator, t: Node, ps: seq<Path>)
    requires AllIn(t, ps) && Distinct(ps)
    ensures ShapeOf(Fold(pass, tr, t, ps).tree) == ShapeOf(t)
    ensures forall q :: ValidPath(t, q) ==>
              ValidPath(Fold(pass, tr, t, ps).tree, q)
              && Bare(At(Fold(pass, tr, t, ps).tree, q))
                 == if q in ps then Bare(Step(pass, tr, ParentName(t, q), At(t, q))) else Bare(At(t, q))
    ensures Fold(pass, tr, t, ps).calls == RequestsAt(pass, t, ps)
    decreases |ps|
  {
    if ps != [] {
      var p, rest := ps[0], ps[1..];
      var n := At(t, p);
      var parent := ParentName(t, p);
      var u := if Ask(pass, parent, n).None? then t else ReplaceAt(t, p, Step(pass, tr, parent, n));
      if Ask(pass, parent, n).Some? {
        ReplaceKeepsShape(t, p, Step(pass, tr, parent, n));
      }
      ShapeKeepsAllIn(t, u, rest);
      DistinctTail(ps);
      assert Fold(pass, tr, t, ps).tree == Fold(pass, tr, u, rest).tree;
      FoldPointwise(pass, tr, u, rest);
      FoldPointwiseStep(pass, tr, t, ps, u);
    }
  }

  /** The step of `FoldPointwise`: what the rest of the loop does to the tree after the
      first iteration, read back against the tree before it. */
  lemma FoldPointwiseStep(pass: Pass, tr: Translator, t: Node, ps: seq<Path>, u: Node)
    requires AllIn(t, ps) && ps != [] && ps[0] !in ps[1..]
    requires u == if Ask(pass, ParentName(t, ps[0]), At(t, ps[0])).None? then t
                  else ReplaceAt(t, ps[0], Step(pass, tr, ParentName(t, ps[0]), At(t, ps[0])))
    requires ShapeOf(u) == ShapeOf(t) && AllIn(u, ps[1..])
    requires forall q :: ValidPath(u, q) ==>
               ValidPath(Fold(pass, tr, u, ps[1..]).tree, q)
               && Bare(At(Fold(pass, tr, u, ps[1..]).tree, q))
                  == if q in ps[1..] then Bare(Step(pass, tr, ParentName(u, q), At(u, q))) else Bare(At(u, q))
    requires Fold(pass, tr, u, ps[1..]).calls == RequestsAt(pass, u, ps[1..])
    requires Fold(pass, tr, t, ps).tree == Fold(pass, tr, u, ps[1..]).tree
    ensures forall q :: ValidPath(t, q) ==>
              ValidPath(Fold(pass, tr, t, ps).tree, q)
              && Bare(At(Fold(pass, tr, t, ps).tree, q))
                 == if q in ps then Bare(Step(pass, tr, ParentName(t, q), At(t, q))) else Bare(At(t, q))
    ensures Fold(pass, tr, t, ps).calls == RequestsAt(pass, t, ps)
  {
    var p, rest := ps[0], ps[1..];
    var n := At(t, p);
    var parent := ParentName(t, p);
    forall q | ValidPath(t, q) && q != p
      ensures ValidPath(u, q) && Bare(At(u, q)) == Bare(At(t, q))
    {
      if Ask(pass, parent, n).Some? {
        ReplaceAtPointwise(t, p, Step(pass, tr, parent, n), q);
      }
    }
    var final := Fold(pass, tr, t, ps).tree;
    forall q | ValidPath(t, q)
      ensures ValidPath(final, q)
              && Bare(At(final, q)) == if q in ps then Bare(Step(pass, tr, ParentName(t, q), At(t, q))) else Bare(At(t, q))
    {
      ShapeDecidesPaths(t, u, q);
      assert ValidPath(u, q);
      if q == p {
        if Ask(pass, parent, n).Some? {
          ReplaceAtPointwise(t, p, Step(pass, tr, parent, n), q);
        }
      } else if q in rest {
        StepSeesBareNode(pass, tr, ParentName(t, q), At(t, q), At(u, q));
      }
    }
    RequestsAgree(pass, u, t, rest) by {
      forall k | 0 <= k < |rest| ensures ValidPath(t, rest[k]) && Bare(At(u, rest[k])) == Bare(At(t, rest[k])) {
        assert rest[k] == ps[k + 1] && rest[k] != p;
      }
    }
  }


  /** The output depends on the translator only through its replies to the requests
      the loop actually sends. */
  lemma {:induction false} FoldDependsOnReplies(pass: Pass, tr1: Translator, tr2: Translator, t: Node, ps: seq<Path>)
    requires AllIn(t, ps)
    requires forall r :: r in Fold(pass, tr1, t, ps).calls ==> Send(tr1, r) == Send(tr2, r)
    ensures Fold(pass, tr1, t, ps) == Fold(pass, tr2, t, ps)
    decreases |ps|
  {
    if ps != [] {
      var p := ps[0];
      var n := At(t, p);
      match Ask(pass, ParentName(t, p), n)
      case None =>
        FoldDependsOnReplies(pass, tr1, tr2, t, ps[1..]);
      case Some(r) =>
        assert r in Fold(pass, tr1, t, ps).calls;
        var u := ReplaceAt(t, p, Deliver(pass, n, Send(tr1, r)));
        ReplaceKeepsShape(t, p, Deliver(pass, n, Send(tr1, r)));
        ShapeKeepsAllIn(t, u, ps[1..]);
        FoldDependsOnReplies(pass, tr1, tr2, u, ps[1..]);
    }
  }

  /** The img, save_page text and app text loops never send blank text: a blank `alt`
      or string causes no call. */
  lemma {:induction false} NoBlankRequests(pass: Pass, t: Node, ps: seq<Path>)
    requires pass != MetaContent && AllIn(t, ps)
    ensures forall r :: r in RequestsAt(pass, t, ps) ==> Strip(r.text) != []
    decreases |ps|
  {
    if ps != [] {
      NoBlankRequests(pass, t, ps[1..]);
    }
  }

  /** What a search followed by its loop makes of one node: a match becomes what the
      loop body makes of it, anything else stays. */
  function Visit(pass: Pass, query: Query, tr: Translator, parent: string, n: Node): Node
  {
    if Selected(query, n) then Step(pass, tr, parent, n) else n
  }

  /** A search followed by a loop over its result: the list is computed first, the
      loop then edits the tree. */
  function RunQuery(pass: Pass, query: Query, tr: Translator, t: Node): Outcome
  {
    FoundSpec(query, t);
    Fold(pass, tr, t, Found(query, t))
  }

  lemma VisitSeesBareNode(pass: Pass, query: Query, tr: Translator, parent: string, a: Node, b: Node)
    requires Bare(a) == Bare(b)
    ensures Bare(Visit(pass, query, tr, parent, a)) == Bare(Visit(pass, query, tr, parent, b))
  {
    SelectedSeesBareNode(query, a, b);
    StepSeesBareNode(pass, tr, parent, a, b);
  }

  /** A search and its loop, node by node: the document keeps its shape and its own
      name and attributes; every other node becomes what `Visit` makes of it in the
      original tree; the requests are read from the original tree, in document order. */
  lemma QueryPointwise(pass: Pass, query: Query, tr: Translator, t: Node)
    ensures ShapeOf(RunQuery(pass, query, tr, t).tree) == ShapeOf(t)
    ensures Bare(RunQuery(pass, query, tr, t).tree) == Bare(t)
    ensures forall q :: ValidPath(t, q) && q != [] ==>
              ValidPath(RunQuery(pass, query, tr, t).tree, q)
              && Bare(At(RunQuery(pass, query, tr, t).tree, q)) == Bare(Visit(pass, query, tr, ParentName(t, q), At(t, q)))
    ensures AllIn(t, Found(query, t)) && RunQuery(pass, query, tr, t).calls == RequestsAt(pass, t, Found(query, t))
  {
    FoundSpec(query, t);
    var ps := Found(query, t);
    FoldPointwise(pass, tr, t, ps);
    var u := RunQuery(pass, query, tr, t).tree;
    assert ValidPath(t, []) && [] !in ps;
    forall q | ValidPath(t, q) && q != []
      ensures ValidPath(u, q) && Bare(At(u, q)) == Bare(Visit(pass, query, tr, ParentName(t, q), At(t, q)))
    {
      assert q in ps <==> Selected(query, At(t, q));
    }
  }
}
