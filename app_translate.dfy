/** `translate_html_content` of app.py: parse the page, collect the strings whose
    parent is not `script`, `style`, `head`, `title`, `meta` or the document itself,
    then translate each collected string that is not blank. Attributes are never
    translated. A page the parser rejects comes back as it was. */
module AppTranslate {
  import opened Wrappers
  import opened Strings
  import opened Dom
  import opened Select
  import opened Passes
  import SaveTranslate

  /** The strings the collection loop keeps, in the order found. */
  function Collected(t: Node, ps: seq<Path>): (r: seq<Path>)
    requires AllIn(t, ps)
    decreases |ps|
  {
    if ps == [] then []
    else (if ParentName(t, ps[0]) !in AppExcluded then [ps[0]] else []) + Collected(t, ps[1..])
  }

  /** The collection loop: appends each string whose parent is not excluded. */
  method CollectTextNodes(soup: Node, strings: seq<Path>) returns (textNodes: seq<Path>)
    requires AllIn(soup, strings)
    ensures textNodes == Collected(soup, strings)
  {
    textNodes := [];
    assert strings[0..] == strings;
    for i := 0 to |strings|
      invariant AllIn(soup, strings[i..])
      invariant textNodes + Collected(soup, strings[i..]) == Collected(soup, strings)
    {
      assert strings[i..][0] == strings[i] && strings[i..][1..] == strings[i + 1..];
      CollectedFirst(soup, strings[i..], textNodes);
      if ParentName(soup, strings[i]) !in AppExcluded {
        textNodes := textNodes + [strings[i]];
      }
    }
  }

  /** One iteration of the collection loop: the first path is appended to what was
      collected so far exactly when its parent is not excluded. */
  lemma CollectedFirst(t: Node, ps: seq<Path>, acc: seq<Path>)
    requires AllIn(t, ps) && ps != []
    ensures AllIn(t, ps[1..])
    ensures ParentName(t, ps[0]) in AppExcluded ==> acc + Collected(t, ps) == acc + Collected(t, ps[1..])
    ensures ParentName(t, ps[0]) !in AppExcluded ==> acc + Collected(t, ps) == (acc + [ps[0]]) + Collected(t, ps[1..])
  {
    assert forall k :: 0 <= k < |ps[1..]| ==> ps[1..][k] == ps[k + 1];
    if ParentName(t, ps[0]) !in AppExcluded {
      assert acc + ([ps[0]] + Collected(t, ps[1..])) == (acc + [ps[0]]) + Collected(t, ps[1..]);
    } else {
      assert [] + Collected(t, ps[1..]) == Collected(t, ps[1..]);
    }
  }

  /** The collected list holds exactly the listed paths whose parent is not excluded,
      in the same relative order. */
  lemma {:induction false} CollectedSpec(t: Node, ps: seq<Path>)
    requires AllIn(t, ps)
    ensures forall p :: p in Collected(t, ps) <==> p in ps && ParentName(t, p) !in AppExcluded
    ensures AllIn(t, Collected(t, ps))
    ensures Ordered(ps) ==> Ordered(Collected(t, ps))
    decreases |ps|
  {
    if ps != [] {
      CollectedFirst(t, ps, []);
      CollectedSpec(t, ps[1..]);
      CollectedMembersStep(t, ps);
      if Ordered(ps) {
        OrderedTail(ps);
        CollectedOrderedStep(t, ps);
      }
    }
  }

  /** The membership step of `CollectedSpec`: the head is collected exactly when its
      parent is not excluded, and the rest as the rest is. */
  lemma CollectedMembersStep(t: Node, ps: seq<Path>)
    requires AllIn(t, ps) && ps != [] && AllIn(t, ps[1..])
    requires forall p :: p in Collected(t, ps[1..]) <==> p in ps[1..] && ParentName(t, p) !in AppExcluded
    ensures forall p :: p in Collected(t, ps) <==> p in ps && ParentName(t, p) !in AppExcluded
    ensures AllIn(t, Collected(t, ps))
  {
    var rest := ps[1..];
    var head := if ParentName(t, ps[0]) !in AppExcluded then [ps[0]] else [];
    var tail := Collected(t, rest);
    assert Collected(t, ps) == head + tail;
    assert forall p :: p in ps <==> p == ps[0] || p in rest by {
      assert ps == [ps[0]] + rest;
    }
    var c := Collected(t, ps);
    forall k | 0 <= k < |c| ensures c[k] != [] && ValidPath(t, c[k]) {
      assert c[k] in c;
      var j :| 0 <= j < |ps| && ps[j] == c[k];
    }
  }

  lemma OrderedTail(ps: seq<Path>)
    requires ps != [] && Ordered(ps)
    ensures Ordered(ps[1..])
  {
    var rest := ps[1..];
    forall i, j | 0 <= i < j < |rest| ensures Precedes(rest[i], rest[j]) {
      assert rest[i] == ps[i + 1] && rest[j] == ps[j + 1];
    }
  }

  /** The ordering step of `CollectedSpec`: the head, when kept, precedes everything
      collected from the rest. */
  lemma CollectedOrderedStep(t: Node, ps: seq<Path>)
    requires AllIn(t, ps) && ps != [] && Ordered(ps)
    requires forall p :: p in Collected(t, ps[1..]) ==> p in ps[1..]
    requires Ordered(Collected(t, ps[1..]))
    ensures Ordered(Collected(t, ps))
  {
    var rest := ps[1..];
    var head := if ParentName(t, ps[0]) !in AppExcluded then [ps[0]] else [];
    var tail := Collected(t, rest);
    assert Collected(t, ps) == head + tail;
    forall a, b | 0 <= a < |head| && 0 <= b < |tail| ensures Precedes(head[a], tail[b]) {
      assert tail[b] in rest;
      var k :| 0 <= k < |rest| && rest[k] == tail[b];
      assert rest[k] == ps[k + 1];
    }
    OrderedConcat(head, tail);
  }

  /** The collected strings, translated in a second loop. */
  function AppTranslated(tr: Translator, doc: Node): Outcome
  {
    FoundSpec(AnyText, doc);
    CollectedSpec(doc, Found(AnyText, doc));
    Fold(AppText, tr, doc, Collected(doc, Found(AnyText, doc)))
  }

  /** The text `translate_html_content` returns. `parse` stands for the
      HTML parser: the top-level nodes of the page, or `None` when it raises;
      `serialize` for turning the document back into text, or `None` when that
      raises. Either failure returns the page as it was. */
  function TranslatedHtml(parse: string -> Option<seq<Node>>, serialize: Node -> Option<string>, tr: Translator, html: string): string
  {
    match parse(html)
    case None => html
    case Some(top) =>
      match serialize(AppTranslated(tr, Soup(top)).tree)
      case None => html
      case Some(text) => text
  }

  method TranslateHtmlContent(parse: string -> Option<seq<Node>>, serialize: Node -> Option<string>, tr: Translator, html: string)
    returns (out: string, calls: seq<Request>)
    ensures out == TranslatedHtml(parse, serialize, tr, html)
    ensures parse(html).None? ==> out == html && calls == []
    ensures parse(html).Some? ==> calls == AppTranslated(tr, Soup(parse(html).value)).calls
    ensures parse(html).Some? && serialize(AppTranslated(tr, Soup(parse(html).value)).tree).None? ==> out == html
  {
    match parse(html) {
      case None =>
        out, calls := html, [];
      case Some(top) =>
        var soup := Soup(top);
        FoundSpec(AnyText, soup);
        var textNodes := CollectTextNodes(soup, Found(AnyText, soup));
        CollectedSpec(soup, Found(AnyText, soup));
        var t;
        t, calls := RunPass(AppText, tr, soup, textNodes);
        match serialize(t) {
          case None => out := html;
          case Some(text) => out := text;
        }
    }
  }

  /** What the two loops make of one node whose parent is named `parent`. */
  function AppNode(tr: Translator, parent: string, n: Node): Node
  {
    if n.Text? && parent !in AppExcluded then Step(AppText, tr, parent, n) else n
  }

  /** The selection rules, node by node: a string is replaced by the translation of its
      text, sent without a content type, exactly when its immediate parent is not
      excluded and it is not blank; a failed call leaves the error's text. No tag
      changes, so meta `content` and img `alt` keep their text. */
  lemma AppNodeRules(tr: Translator, parent: string, n: Node)
    ensures n.Text? ==>
              AppNode(tr, parent, n)
              == if parent !in AppExcluded && Strip(n.text) != []
                 then Text(Send(tr, Request(n.text, None)))
                 else n
    ensures n.Text? && parent !in AppExcluded && Strip(n.text) != [] && tr(Request(n.text, None)).Raised? ==>
              AppNode(tr, parent, n) == Text(tr(Request(n.text, None)).message)
    ensures n.Element? ==> AppNode(tr, parent, n) == n
  {
  }

  /** The translated document, node by node, and the requests: the document keeps its
      shape and the document node itself is unchanged; every other node is what
      `AppNode` makes of the node at the same place; the
      requests are the non-blank collected strings' texts, in document order. */
  lemma AppPointwise(tr: Translator, doc: Node)
    ensures ShapeOf(AppTranslated(tr, doc).tree) == ShapeOf(doc)
    ensures Bare(AppTranslated(tr, doc).tree) == Bare(doc)
    ensures forall q :: ValidPath(doc, q) && q != [] ==>
              ValidPath(AppTranslated(tr, doc).tree, q)
              && Bare(At(AppTranslated(tr, doc).tree, q)) == Bare(AppNode(tr, ParentName(doc, q), At(doc, q)))
    ensures AllIn(doc, Found(AnyText, doc)) && AllIn(doc, Collected(doc, Found(AnyText, doc)))
    ensures AppTranslated(tr, doc).calls == RequestsAt(AppText, doc, Collected(doc, Found(AnyText, doc)))
    ensures forall r :: r in AppTranslated(tr, doc).calls ==> Strip(r.text) != [] && r.contentType == None
  {
    FoundSpec(AnyText, doc);
    var strings := Found(AnyText, doc);
    CollectedSpec(doc, strings);
    var ps := Collected(doc, strings);
    OrderedDistinct(ps);
    FoldPointwise(AppText, tr, doc, ps);
    NoBlankRequests(AppText, doc, ps);
    AppRequestsUntyped(doc, ps);
    assert ValidPath(doc, []) && [] !in ps;
    forall q | ValidPath(doc, q) && q != []
      ensures Bare(At(AppTranslated(tr, doc).tree, q)) == Bare(AppNode(tr, ParentName(doc, q), At(doc, q)))
    {
      assert q in ps <==> At(doc, q).Text? && ParentName(doc, q) !in AppExcluded;
    }
  }

  lemma {:induction false} AppRequestsUntyped(t: Node, ps: seq<Path>)
    requires AllIn(t, ps)
    ensures forall r :: r in RequestsAt(AppText, t, ps) ==> r.contentType == None
    decreases |ps|
  {
    if ps != [] {
      AppRequestsUntyped(t, ps[1..]);
    }
  }

  /** For a deterministic translator the translated page is determined by the replies
      to the requests actually sent. */
  lemma AppDependsOnReplies(tr1: Translator, tr2: Translator, doc: Node)
    requires forall r :: r in AppTranslated(tr1, doc).calls ==> Send(tr1, r) == Send(tr2, r)
    ensures AppTranslated(tr1, doc) == AppTranslated(tr2, doc)
  {
    FoundSpec(AnyText, doc);
    CollectedSpec(doc, Found(AnyText, doc));
    FoldDependsOnReplies(AppText, tr1, tr2, doc, Collected(doc, Found(AnyText, doc)));
  }

  /** The two variants differ on strings whose parent is `title`: save_page.py
      translates a non-blank one, app.py leaves it; and on attributes, which only
      save_page.py translates. */
  lemma VariantsDifferOnTitle(tr: Translator, s: string)
    requires Strip(s) != []
    ensures SaveTranslate.SaveNode(tr, "title", Text(s)) == Text(Send(tr, Request(s, Some("element"))))
    ensures AppNode(tr, "title", Text(s)) == Text(s)
  {
    SaveTranslate.SaveNodeRules(tr, "title", Text(s));
  }

  /** A string directly inside the document (outside any tag) is never translated. */
  lemma TopLevelTextKept(tr: Translator, top: seq<Node>, i: nat)
    requires i < |top| && top[i].Text?
    ensures ValidPath(AppTranslated(tr, Soup(top)).tree, [i]) && At(AppTranslated(tr, Soup(top)).tree, [i]) == top[i]
  {
    var doc := Soup(top);
    assert ValidPath(doc, [i]) && [i][1..] == [];
    assert ParentName(doc, [i]) == DocumentName;
    assert At(doc, [i]) == top[i];
    AppPointwise(tr, doc);
    AppNodeRules(tr, DocumentName, top[i]);
    var u := AppTranslated(tr, doc).tree;
    assert At(u, [i]).Text? ==> Bare(At(u, [i])) == At(u, [i]);
  }
}
