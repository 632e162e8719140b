/** `translate_html_content` of save_page.py: parse the page, then three loops in
    order, each over a list that `find_all` returns before the loop starts:
    1. meta tags named `description` or `keywords`: their `content`, when present;
    2. img tags with an `alt`: the `alt`, when it is not blank;
    3. every string: its text, when its parent is not `script`, `style`, `head`,
       `meta` or the document itself and it is not blank.
    A page the parser rejects, or whose translation cannot be turned back into
    text, comes back as it was. */
module SaveTranslate {
  import opened Wrappers
  import opened Strings
  import opened Dom
  import opened Select
  import opened Passes

  /** The three passes, one after the other, with the requests of all three in order. */
  function SaveTranslated(tr: Translator, doc: Node): Outcome
  {
    var o1 := RunQuery(MetaContent, MetaByName, tr, doc);
    var o2 := RunQuery(ImgAlt, ImgWithAlt, tr, o1.tree);
    var o3 := RunQuery(SaveText, AnyText, tr, o2.tree);
    Outcome(o3.tree, o1.calls + o2.calls + o3.calls)
  }

  /** The document after the meta and img passes, as the string search sees it. */
  function SaveTwoPasses(tr: Translator, doc: Node): Node
  {
    RunQuery(ImgAlt, ImgWithAlt, tr, RunQuery(MetaContent, MetaByName, tr, doc).tree).tree
  }

  /** `parse` stands for the HTML parser: the top-level nodes of the page, or `None` when
      it raises; `serialize` for turning the document back into text, or `None` when
      that raises. Either failure returns the page as it was, after whatever requests
      were already sent. */
  method TranslateHtmlContent(parse: string -> Option<seq<Node>>, serialize: Node -> Option<string>, tr: Translator, html: string)
    returns (out: string, calls: seq<Request>)
    ensures parse(html).None? ==> out == html && calls == []
    ensures parse(html).Some? ==>
              var o := SaveTranslated(tr, Soup(parse(html).value));
              calls == o.calls
              && out == (if serialize(o.tree).Some? then serialize(o.tree).value else html)
  {
    match parse(html) {
      case None =>
        out, calls := html, [];
      case Some(top) =>
        var soup := Soup(top);
        FoundSpec(MetaByName, soup);
        var metas := Found(MetaByName, soup);
        var t1, c1 := RunPass(MetaContent, tr, soup, metas);
        FoundSpec(ImgWithAlt, t1);
        var imgs := Found(ImgWithAlt, t1);
        var t2, c2 := RunPass(ImgAlt, tr, t1, imgs);
        FoundSpec(AnyText, t2);
        var strings := Found(AnyText, t2);
        var t3, c3 := RunPass(SaveText, tr, t2, strings);
        calls := c1 + c2 + c3;
        match serialize(t3) {
          case None => out := html;
          case Some(text) => out := text;
        }
    }
  }

  /** What the three passes make of one node whose parent is named `parent`. */
  function SaveNode(tr: Translator, parent: string, n: Node): Node
  {
    var n1 := Visit(MetaContent, MetaByName, tr, parent, n);
    var n2 := Visit(ImgAlt, ImgWithAlt, tr, parent, n1);
    Visit(SaveText, AnyText, tr, parent, n2)
  }

  /** The selection rules, node by node. A string is replaced by the translation of its
      text exactly when its immediate parent is not excluded and it is not blank. A
      meta tag named `description` or `keywords` gets its `content` translated when it
      has one, blank or not; no other meta tag changes. An img's `alt` is translated
      when it is present and not blank. Every other tag is left alone, and no tag ever
      gains or loses an attribute. A failed call leaves the error's text in place. */
  lemma SaveNodeRules(tr: Translator, parent: string, n: Node)
    ensures n.Text? ==>
              SaveNode(tr, parent, n)
              == if parent !in SaveExcluded && Strip(n.text) != []
                 then Text(Send(tr, Request(n.text, Some("element"))))
                 else n
    ensures n.Element? && n.name == "meta" ==>
              SaveNode(tr, parent, n)
              == if "name" in n.attrs && n.attrs["name"] in {"description", "keywords"} && "content" in n.attrs
                 then n.(attrs := n.attrs["content" := Send(tr, Request(n.attrs["content"], Some("meta")))])
                 else n
    ensures n.Element? && n.name == "img" ==>
              SaveNode(tr, parent, n)
              == if "alt" in n.attrs && Strip(n.attrs["alt"]) != []
                 then n.(attrs := n.attrs["alt" := Send(tr, Request(n.attrs["alt"], Some("img")))])
                 else n
    ensures n.Element? && n.name != "meta" && n.name != "img" ==> SaveNode(tr, parent, n) == n
    ensures n.Element? ==> SaveNode(tr, parent, n).Element? && SaveNode(tr, parent, n).attrs.Keys == n.attrs.Keys
    ensures n.Text? && parent !in SaveExcluded && Strip(n.text) != [] && tr(Request(n.text, Some("element"))).Raised? ==>
              SaveNode(tr, parent, n) == Text(tr(Request(n.text, Some("element"))).message)
  {
  }

  /** The translated document, node by node: it has the shape of the parsed one, the
      document keeps its name and attributes, and every other node is what `SaveNode`
      makes of the node at the same place in the parsed document. */
  lemma SavePointwise(tr: Translator, doc: Node)
    ensures ShapeOf(SaveTranslated(tr, doc).tree) == ShapeOf(doc)
    ensures Bare(SaveTranslated(tr, doc).tree) == Bare(doc)
    ensures forall q :: ValidPath(doc, q) && q != [] ==>
              ValidPath(SaveTranslated(tr, doc).tree, q)
              && Bare(At(SaveTranslated(tr, doc).tree, q)) == Bare(SaveNode(tr, ParentName(doc, q), At(doc, q)))
  {
    var o1 := RunQuery(MetaContent, MetaByName, tr, doc);
    var o2 := RunQuery(ImgAlt, ImgWithAlt, tr, o1.tree);
    var o3 := RunQuery(SaveText, AnyText, tr, o2.tree);
    QueryPointwise(MetaContent, MetaByName, tr, doc);
    QueryPointwise(ImgAlt, ImgWithAlt, tr, o1.tree);
    QueryPointwise(SaveText, AnyText, tr, o2.tree);
    forall q | ValidPath(doc, q) && q != []
      ensures ValidPath(o3.tree, q)
              && Bare(At(o3.tree, q)) == Bare(SaveNode(tr, ParentName(doc, q), At(doc, q)))
    {
      var parent := ParentName(doc, q);
      ShapeDecidesPaths(doc, o1.tree, q);
      ShapeDecidesPaths(doc, o2.tree, q);
      var n1 := Visit(MetaContent, MetaByName, tr, parent, At(doc, q));
      var n2 := Visit(ImgAlt, ImgWithAlt, tr, parent, n1);
      VisitSeesBareNode(ImgAlt, ImgWithAlt, tr, parent, At(o1.tree, q), n1);
      VisitSeesBareNode(SaveText, AnyText, tr, parent, At(o2.tree, q), n2);
    }
  }

  /** The first pass changes only meta tags and the second only img tags, so the later
      searches find what they would have found in the parsed document, and read the
      same requests there: every request is read from the page as parsed, meta tags
      first, then img tags, then strings, each group in document order. Only the meta
      requests may be blank. */
  lemma SaveRequests(tr: Translator, doc: Node)
    ensures AllIn(doc, Found(MetaByName, doc)) && AllIn(doc, Found(ImgWithAlt, doc)) && AllIn(doc, Found(AnyText, doc))
    ensures SaveTranslated(tr, doc).calls
            == RequestsAt(MetaContent, doc, Found(MetaByName, doc))
               + RequestsAt(ImgAlt, doc, Found(ImgWithAlt, doc))
               + RequestsAt(SaveText, doc, Found(AnyText, doc))
    ensures forall r :: r in RequestsAt(ImgAlt, doc, Found(ImgWithAlt, doc)) + RequestsAt(SaveText, doc, Found(AnyText, doc))
              ==> Strip(r.text) != []
  {
    var o1 := RunQuery(MetaContent, MetaByName, tr, doc);
    var o2 := RunQuery(ImgAlt, ImgWithAlt, tr, o1.tree);
    QueryPointwise(MetaContent, MetaByName, tr, doc);
    QueryPointwise(ImgAlt, ImgWithAlt, tr, o1.tree);
    QueryPointwise(SaveText, AnyText, tr, o2.tree);
    ImgSearchUnchanged(tr, doc);
    TextSearchUnchanged(tr, doc);
    NoBlankRequests(ImgAlt, doc, Found(ImgWithAlt, doc));
    NoBlankRequests(SaveText, doc, Found(AnyText, doc));
  }

  /** After the meta pass, the img search finds the same tags and reads the same
      requests as in the parsed document. */
  lemma ImgSearchUnchanged(tr: Translator, doc: Node)
    ensures AllIn(doc, Found(ImgWithAlt, doc))
    ensures Found(ImgWithAlt, RunQuery(MetaContent, MetaByName, tr, doc).tree) == Found(ImgWithAlt, doc)
    ensures AllIn(RunQuery(MetaContent, MetaByName, tr, doc).tree, Found(ImgWithAlt, doc))
    ensures RequestsAt(ImgAlt, RunQuery(MetaContent, MetaByName, tr, doc).tree, Found(ImgWithAlt, doc))
            == RequestsAt(ImgAlt, doc, Found(ImgWithAlt, doc))
  {
    FoundSpec(ImgWithAlt, doc);
    var o1 := RunQuery(MetaContent, MetaByName, tr, doc);
    QueryPointwise(MetaContent, MetaByName, tr, doc);
    forall p | ValidPath(doc, p)
      ensures ValidPath(o1.tree, p) && (Selected(ImgWithAlt, At(doc, p)) <==> Selected(ImgWithAlt, At(o1.tree, p)))
    {
      ShapeDecidesPaths(doc, o1.tree, p);
      if p == [] {
        SelectedSeesBareNode(ImgWithAlt, doc, o1.tree);
      } else {
        var n1 := Visit(MetaContent, MetaByName, tr, ParentName(doc, p), At(doc, p));
        SelectedSeesBareNode(ImgWithAlt, At(o1.tree, p), n1);
      }
    }
    FoundAgree(ImgWithAlt, doc, o1.tree);
    var imgs := Found(ImgWithAlt, doc);
    RequestsAgree(ImgAlt, doc, o1.tree, imgs) by {
      forall k | 0 <= k < |imgs| ensures ValidPath(o1.tree, imgs[k]) && Bare(At(doc, imgs[k])) == Bare(At(o1.tree, imgs[k])) {
        assert imgs[k] in imgs;
        ShapeDecidesPaths(doc, o1.tree, imgs[k]);
      }
    }
  }

  /** After the meta and img passes, the string search finds the same strings and reads
      the same requests as in the parsed document. */
  lemma TextSearchUnchanged(tr: Translator, doc: Node)
    ensures AllIn(doc, Found(AnyText, doc))
    ensures Found(AnyText, SaveTwoPasses(tr, doc)) == Found(AnyText, doc)
    ensures AllIn(SaveTwoPasses(tr, doc), Found(AnyText, doc))
    ensures RequestsAt(SaveText, SaveTwoPasses(tr, doc), Found(AnyText, doc))
            == RequestsAt(SaveText, doc, Found(AnyText, doc))
  {
    FoundSpec(AnyText, doc);
    var o1 := RunQuery(MetaContent, MetaByName, tr, doc);
    var u := SaveTwoPasses(tr, doc);
    QueryPointwise(MetaContent, MetaByName, tr, doc);
    QueryPointwise(ImgAlt, ImgWithAlt, tr, o1.tree);
    forall p | ValidPath(doc, p)
      ensures ValidPath(u, p) && (Selected(AnyText, At(doc, p)) <==> Selected(AnyText, At(u, p)))
    {
      ShapeDecidesPaths(doc, o1.tree, p);
      ShapeDecidesPaths(doc, u, p);
    }
    FoundAgree(AnyText, doc, u);
    var strings := Found(AnyText, doc);
    RequestsAgree(SaveText, doc, u, strings) by {
      forall k | 0 <= k < |strings| ensures ValidPath(u, strings[k]) && Bare(At(doc, strings[k])) == Bare(At(u, strings[k])) {
        assert strings[k] in strings;
        ShapeDecidesPaths(doc, o1.tree, strings[k]);
        ShapeDecidesPaths(doc, u, strings[k]);
      }
    }
  }

  /** For a deterministic translator the translated page is determined: two
      translators that give the same text for every request sent yield the same tree
      and the same requests. */
  lemma SaveDependsOnReplies(tr1: Translator, tr2: Translator, doc: Node)
    requires forall r :: r in SaveTranslated(tr1, doc).calls ==> Send(tr1, r) == Send(tr2, r)
    ensures SaveTranslated(tr1, doc) == SaveTranslated(tr2, doc)
  {
    var o1 := RunQuery(MetaContent, MetaByName, tr1, doc);
    FoundSpec(MetaByName, doc);
    FoldDependsOnReplies(MetaContent, tr1, tr2, doc, Found(MetaByName, doc));
    var o2 := RunQuery(ImgAlt, ImgWithAlt, tr1, o1.tree);
    FoundSpec(ImgWithAlt, o1.tree);
    FoldDependsOnReplies(ImgAlt, tr1, tr2, o1.tree, Found(ImgWithAlt, o1.tree));
    FoundSpec(AnyText, o2.tree);
    FoldDependsOnReplies(SaveText, tr1, tr2, o2.tree, Found(AnyText, o2.tree));
  }

  /** A string directly inside the document (outside any tag) is never translated. */
  lemma TopLevelTextKept(tr: Translator, top: seq<Node>, i: nat)
    requires i < |top| && top[i].Text?
    ensures ValidPath(SaveTranslated(tr, Soup(top)).tree, [i]) && At(SaveTranslated(tr, Soup(top)).tree, [i]) == top[i]
  {
    var doc := Soup(top);
    assert ValidPath(doc, [i]) && [i][1..] == [];
    assert ParentName(doc, [i]) == DocumentName;
    assert At(doc, [i]) == top[i];
    SavePointwise(tr, doc);
    SaveNodeRules(tr, DocumentName, top[i]);
    var u := SaveTranslated(tr, doc).tree;
    assert At(u, [i]).Text? ==> Bare(At(u, [i])) == At(u, [i]);
  }
}
