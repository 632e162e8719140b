# tkr_save_page, modelled in Dafny

tkr_save_page saves a web page for offline reading and produces a Spanish version of
it. A browser renders the page and lists the URLs of its stylesheets, scripts and
images. The page is saved in a directory named after its host. Each asset is downloaded
into `assets/`, and every occurrence of its absolute URL in the HTML is rewritten to
the local copy. The rewritten page is written as `webpage.html`. A chat-completion
service then translates the page's text, and the result is written as
`webpage_translated.html`. Failures go to an append-only error log, `errors.md`.

The repository holds two near-identical scripts, `save_page.py` and `app.py`. This
project models the logic that belongs to the repository itself, and proves its
properties:

- `strings.dfy`: Python's `str.replace` and `str.strip`.
- `urls.dfy`: the parts of `urlparse`, `os.path.basename` and `os.path.join` that the
  scripts rely on.
- `hostdir.dfy`: `url_to_dirname` and the page directory.
- `assets.dfy`: the asset loop, as a method over an abstract environment, proved
  equal to a left fold over the per-URL outcomes.
- `dom.dfy`, `select.dfy`, `passes.dfy`: the parsed document, the `find_all` searches,
  and the shared translation loop. That loop is a method that edits the tree in
  place at each found path. It is proved equal to a fold, and the fold is
  characterised node by node.
- `save_translate.dfy`: save_page.py's `translate_html_content`. It makes three passes:
  meta `content`, then img `alt`, then strings.
- `app_translate.dfy`: app.py's `translate_html_content`. It collects strings first,
  then translates them. Its exclusion set adds `title`.
- `pipeline.dfy`: app.py's `save_page_with_assets`. It writes `webpage.html`,
  translates, then writes `webpage_translated.html`.

The browser, the network, the file system, the HTML parser and serialiser, and the
translation service are parameters:

- resolving, fetching and writing are functions returning a result or an error text;
- the translator is a function from a request to an answer or a raised message.

Some behaviour of the code that a reader might not expect:

- The directory name is the network location with every `www.` deleted, wherever it
  occurs, and with `.` mapped to `_`. The case of the host is not changed
  (`UpperCaseKept`, `InnerWwwDeleted`).
- There are no hash-based fallback file names, no handling of inline `data:` assets
  and no longest-reference-first substitution order.
- Two assets whose paths end in the same segment are written to the same file, and
  the later one wins (`LastWriteWins`).

## Model

| member | source | states |
|---|---|---|
| `Strings.ReplaceAtFirstOccurrence` | save_page.py:28 | `replace` keeps the text before the leftmost occurrence, emits the replacement, and continues after the occurrence |
| `Strings.ReplaceSkipsPrefix` | save_page.py:28 | `replace` copies unchanged a prefix in which no occurrence of the pattern starts |
| `Strings.ReplaceWithoutFirstChar` | save_page.py:28 | a text without the pattern's first character comes back unchanged |
| `Strings.ReplaceSingleOccurrence` | save_page.py:28 | an occurrence of the pattern between `a` and `b` is replaced and `a` and `b` are kept, provided the pattern's first character occurs in neither `a` nor `b` (so that this is the only occurrence) |
| `Strings.ReplaceAbsent` | save_page.py:28 | when the pattern does not occur, `replace` returns its input |
| `Strings.ReplaceOneChar` | save_page.py:28 | replacing one character by one character maps the text character by character and keeps its length |
| `Strings.ReplaceKeepsOtherChars` | save_page.py:28 | a character in neither the pattern nor the replacement occurs as often after `replace` as before |
| `Strings.StripEmptyIffBlank` | save_page.py:155 | the stripped text is empty exactly when the text is empty or all whitespace |
| `Urls.Netloc` | save_page.py:27 | the network location holds no `/`, `?` or `#` |
| `Urls.SplitNetloc` | save_page.py:27 | the network location split off after `//` holds no `/`, `?` or `#` |
| `Urls.SplitPath` | save_page.py:76 | the path split off holds no `?` or `#` |
| `Urls.UrlPath` | save_page.py:76-77 | the parsed path holds neither query nor fragment, and for the schemes with parameters its last segment holds no `;params` |
| `Urls.StripParams` | save_page.py:76 | the parameters are cut from the last segment only: the result is a prefix of the path that keeps every directory and the last `/`, ends at a `;` or at the end of the path, and whose last segment has no `;`, so the cut is at the first `;` of the last segment |
| `Urls.ParamsCut` | save_page.py:76 | the cut position is after the last `/`, on a `;` unless it is the end of the path, with no `;` between the last `/` and it |
| `Urls.BasenameIsLastSegment` | save_page.py:77 | the basename is the last segment: a suffix of the path with no `/`, preceded by a `/` unless it is the whole path |
| `Urls.JoinSingleComponent` | app.py:42 | joining a base with a `/`-free name gives the base, at most one separator, then the name |
| `HostDir.DirNameMapsDots` | save_page.py:18-28 | the directory name is the host with `www.` deleted, then every `.` mapped to `_`, position by position; it holds no `.` |
| `HostDir.DeletesEveryWww` | save_page.py:28 | every `www.` is deleted wherever it stands, leftmost first, not only a leading one |
| `HostDir.DirNameKeepsOtherChars` | save_page.py:27-28 | every character other than `w`, `.`, `_` (port `:`, user-information `@`, upper-case letters) occurs as often in the name as in the host |
| `HostDir.DirNameHasNoSlash` | app.py:27-28 | the directory name holds no `/` |
| `HostDir.DirNameIdempotent` | app.py:28 | applying the host transformation to its own output changes nothing |
| `HostDir.UpperCaseKept` | app.py:28 | an upper-case `WWW.` is not deleted and letter case is kept |
| `HostDir.InnerWwwDeleted` | save_page.py:28 | a `www.` in the middle of the host is deleted, and a port passes through |
| `HostDir.SavePathInsideBase` | app.py:41-42 | the page directory is the base directory, at most one separator, then a name with no `/` and no `.` |
| `Assets.Attempts` | save_page.py:71 | definition: one attempt per discovered URL, in discovery order; properties in `RewriteAssets`, `ApplyAllHtml`, `ApplyAllLog` |
| `Assets.RewriteAssets` | save_page.py:71-90 | the asset loop (also app.py:74-93) ends in the state the fold over the per-URL outcomes gives, in discovery order |
| `Assets.StoredOnlyAfterWrite` | save_page.py:73-85 | an asset is stored, and its reference rewritten, only after resolving, fetching and writing all succeeded; it is then saved at the assets directory joined with the basename of its path, and referenced as `assets/` plus that basename |
| `Assets.FailureNamesItsUrl` | save_page.py:86-90 | an attempt fails exactly when resolving, fetching or writing raised; the log line names the URL as discovered if resolving failed, and the resolved URL otherwise, with the text of the resolve, fetch or write error that stopped it |
| `Assets.ApplyAllAppend` | save_page.py:71-85 | each step works on the previous step's output: folding two lists in a row is folding their concatenation |
| `Assets.ApplyAllHtml` | save_page.py:85 | the final HTML is the initial HTML with each stored asset's resolved URL replaced by its reference, one at a time, in discovery order; failed assets replace nothing |
| `Assets.ApplyAllLog` | save_page.py:86-90 | the log grows by exactly one line per failed asset, in order, and every URL is either stored or logged |
| `Assets.ApplyAllKeepsOtherPaths` | save_page.py:79-82 | attempts that store nothing at a path leave that file as it was |
| `Assets.LastWriteWins` | save_page.py:77-82 | two assets whose paths end in the same segment share one file, which holds what the last of them fetched |
| `Assets.LocalReferenceShape` | app.py:80-88 | the file name that follows `assets/` in the local reference is one segment holding no `/`, `?` or `#` |
| `Dom.Soup` | save_page.py:143 | definition: the parsed document is a tag named `[document]` holding the top-level nodes; properties in `SaveTranslate.TopLevelTextKept`, `AppTranslate.TopLevelTextKept` |
| `Dom.ShapeDecidesPaths` | save_page.py:160-164 | trees of the same shape have the same paths and the same parent names |
| `Dom.ReplaceKeepsShape` | save_page.py:164 | replacing a node by one of the same kind, name and children keeps the tree's shape |
| `Dom.ReplaceAtPointwise` | save_page.py:164 | after an in-place replacement, the node at that place is the new one and every other node keeps its name, attributes or text |
| `Dom.ParentNameIsImmediate` | save_page.py:161 | the parent name consulted is the name of the node one step up, not any other ancestor |
| `Select.FoundSpec` | save_page.py:146-160 | a search returns exactly the matching proper descendants of the document, in document order and without repetition |
| `Select.FoundAgree` | save_page.py:153-160 | two trees of the same shape whose nodes agree on matching give the same search result |
| `Passes.Deliver` | save_page.py:150-164 | writing a translation back keeps the node's kind, name and children |
| `Passes.RunPass` | save_page.py:160-164 | the loop over a list found beforehand, editing the tree in place, ends with the tree and calls of the fold |
| `Passes.FoldPointwise` | save_page.py:160-164 | over distinct paths, the tree keeps its shape; each listed node is edited from its original content; every other node is untouched; requests are read from the original tree, one per listed node whose guard passes, in list order |
| `Passes.FoldDependsOnReplies` | save_page.py:160-164 | the output depends on the translator only through its replies to the requests actually sent |
| `Passes.NoBlankRequests` | save_page.py:155-162 | the img and string loops never send blank text |
| `Passes.QueryPointwise` | save_page.py:146-164 | a search and its loop leave the document's own tag alone and edit exactly the matching nodes, each from its original content |
| `SaveTranslate.TranslateHtmlContent` | save_page.py:132-169 | the three passes run meta, img, then strings, and the result is the serialised tree; a page the parser rejects comes back unchanged with no call made; when serialising raises, the page comes back unchanged after the calls already made |
| `SaveTranslate.SaveNodeRules` | save_page.py:146-164 | selection rules, node by node. A string is translated iff its immediate parent is not script, style, head, meta or the document and it is not blank. A meta named description or keywords with a content gets content translated. An img's non-blank alt is translated. Other tags are unchanged. No attribute is added or removed. A failed call leaves its message. |
| `SaveTranslate.SavePointwise` | save_page.py:142-166 | the translated document has the parsed one's shape, and each node is what `SaveNode` makes of the parsed node at the same place |
| `SaveTranslate.SaveRequests` | save_page.py:145-164 | the requests are read from the page as parsed: metas, then imgs, then strings, each in document order; only meta requests may be blank |
| `SaveTranslate.ImgSearchUnchanged` | save_page.py:145-157 | after the meta loop, the img search finds the same tags and reads the same alt requests as in the page as parsed |
| `SaveTranslate.TextSearchUnchanged` | save_page.py:145-163 | after the meta and img loops, the string search finds the same strings and reads the same requests as in the page as parsed |
| `SaveTranslate.SaveDependsOnReplies` | save_page.py:142-166 | for a deterministic translator the output is determined by the replies to the requests sent |
| `SaveTranslate.TopLevelTextKept` | save_page.py:161 | a string directly inside the document is never translated |
| `AppTranslate.CollectTextNodes` | app.py:129-134 | the collection loop keeps the found strings whose parent is not excluded, in order |
| `AppTranslate.CollectedSpec` | app.py:132-134 | a path is collected iff it was found and its parent is not script, style, head, title, meta or the document; order is kept |
| `AppTranslate.TranslateHtmlContent` | app.py:117-146 | all strings are collected before any is translated; the result is the serialised tree, or the input when the parser rejects it or serialising raises |
| `AppTranslate.AppNodeRules` | app.py:133-141 | a string is translated, without content type, iff its parent is not excluded and it is not blank; a failed call leaves its message; tags, and so meta content and img alt, never change |
| `AppTranslate.AppPointwise` | app.py:128-143 | the document keeps its shape, the document node itself is unchanged, and every other node is what `AppNode` makes of it. The requests are the non-blank collected strings, in document order, with no content type. |
| `AppTranslate.AppRequestsUntyped` | app.py:140 | app.py's requests carry no content type |
| `AppTranslate.AppDependsOnReplies` | app.py:136-143 | for a deterministic translator the output is determined by the replies to the requests sent |
| `AppTranslate.VariantsDifferOnTitle` | app.py:133 | a non-blank string under `title` is translated by save_page.py and left alone by app.py |
| `AppTranslate.TopLevelTextKept` | app.py:133 | a string directly inside the document is never collected, so never translated |
| `Pipeline.SavePageWithAssets` | app.py:41-112 | the run ends in the state `SavedPage` describes: render, rewrite assets, write the page, translate, write the translation; the first step that raises logs one `Failed to save page` line |
| `Pipeline.SavedPageFiles` | app.py:96-106 | when all steps succeed, `webpage.html` holds the asset-rewritten, untranslated page; `webpage_translated.html`, a different file, holds the translation of exactly that text; the log holds one line per failed asset |
| `Pipeline.PageFilesDiffer` | app.py:96-103 | the page and its translation are different files of the page directory |
| `Pipeline.RenderFailureLogsOnce` | app.py:56-112 | a page that cannot be rendered leaves the files alone and logs one line naming it |
| `HostDir.HostToDirName` | save_page.py:28 | definition: every `www.` deleted, then `.` mapped to `_`; properties in `DirNameMapsDots`, `DeletesEveryWww`, `DirNameKeepsOtherChars` |
| `HostDir.UrlToDirname` | save_page.py:18-28 | definition: `HostToDirName` of the network location; the same function is app.py:18-28; properties in `DirNameHasNoSlash`, `DirNameIdempotent`, `InnerWwwDeleted` |
| `HostDir.SavePath` | app.py:41-42 | definition: the base directory joined with the page's directory name; properties in `SavePathInsideBase` |
| `Strings.Replace` | save_page.py:85 | definition of `str.replace`, leftmost occurrence first, without overlap; properties in `ReplaceAtFirstOccurrence`, `ReplaceSkipsPrefix`, `ReplaceAbsent` |
| `Strings.Strip` | save_page.py:155 | definition of `str.strip` on Python whitespace; properties in `StripEmptyIffBlank` |
| `Urls.UrlSplit` | save_page.py:76 | definition of `urlsplit` as far as scheme, network location, path, query and fragment; properties in `SplitNetloc`, `SplitPath` |
| `Urls.Basename` | save_page.py:77 | definition of POSIX `os.path.basename`; properties in `BasenameIsLastSegment` |
| `Urls.PathJoin` | save_page.py:79 | definition of POSIX `os.path.join` of two components; properties in `JoinSingleComponent` |
| `Assets.TryAsset` | save_page.py:72-90 | definition: one iteration's outcome, stored or one log line; properties in `StoredOnlyAfterWrite`, `FailureNamesItsUrl` |
| `Assets.ApplyAll` | save_page.py:71-90 | definition: the loop as a left fold over the outcomes; properties in `ApplyAllHtml`, `ApplyAllLog`, `LastWriteWins` |
| `Select.Found` | save_page.py:146-160 | definition of `find_all` in document order; properties in `FoundSpec`, `FoundAgree` |
| `Passes.Send` | save_page.py:121-130 | definition: the translator's answer, or the text of the raised error; the same fallback is app.py:158-167; properties in `SaveNodeRules`, `AppNodeRules` |
| `Passes.Ask` | save_page.py:147-163 | definition: the request a pass sends for one node, if any; properties in `NoBlankRequests`, `SaveNodeRules` |
| `Passes.Step` | save_page.py:147-164 | definition: one node after its pass, sending `Ask`'s request and writing back the answer; properties in `SaveNodeRules`, `AppNodeRules` |
| `Passes.Fold` | save_page.py:146-164 | definition: a pass over a precomputed list of paths, as a fold; properties in `RunPass`, `FoldPointwise`, `FoldDependsOnReplies` |
| `SaveTranslate.SaveNode` | save_page.py:146-164 | definition: one node after all three passes; properties in `SaveNodeRules` |
| `SaveTranslate.SaveTranslated` | save_page.py:143-164 | definition: the three passes in order over the parsed document; properties in `SavePointwise`, `SaveRequests`, `SaveDependsOnReplies` |
| `AppTranslate.Collected` | app.py:131-134 | definition: the found strings whose parent is not excluded, in order; properties in `CollectTextNodes`, `CollectedSpec` |
| `AppTranslate.AppNode` | app.py:131-141 | definition: one node after app.py's translation; properties in `AppNodeRules` |
| `AppTranslate.AppTranslated` | app.py:128-141 | definition: collect, then translate each collected string; properties in `AppPointwise`, `AppRequestsUntyped`, `AppDependsOnReplies` |
| `AppTranslate.TranslatedHtml` | app.py:117-146 | definition: parse, translate and serialise, or the input unchanged when parsing or serialising raises; properties in `TranslateHtmlContent`, `SavedPageFiles` |
| `Pipeline.SavedPage` | app.py:30-112 | definition: render, asset loop, page write, translation, translation write, with the error log; properties in `SavePageWithAssets`, `SavedPageFiles`, `RenderFailureLogsOnce` |

## Left out

- Browser rendering, navigation and the in-page asset discovery are not modelled. The rendered HTML and the URL list are the result of a `render` parameter, and each asset's fetch is a `fetch` parameter.
- `urljoin` is a `resolve` parameter. `urlparse` is modelled only as far as the network location and the path. Its validation errors, such as a malformed IPv6 host, are not modelled, so `Urls.UrlPath` never fails.
- File writes are a `write` parameter that either stores the whole file or raises. Nothing forces it to raise for a path that names a directory. An asset URL whose path ends in `/` has an empty file name, so the source opens the assets directory itself and always logs a failure. The model allows that write to succeed, which would rewrite the reference to a bare `assets/`. A write that fails after truncating or creating the file is not modelled.
- `os.makedirs`, the existence checks and `AppPaths` are not modelled. The error log is the sequence of lines appended to `errors.md`. A failure to append to the log itself is not modelled.
- The chat-completion call is the `Translator` parameter, a function of the request. A service that answers the same request differently within one run is not modelled. The two prompts, and an answer whose content is missing, are not modelled.
- HTML parsing and serialisation are parameters, each of which either succeeds or raises; a raise returns the input page. Exceptions raised by the library's searches or by `replace_with` in the middle of a pass are not modelled. Comments, doctypes and CDATA sections, which the library also returns as strings, are not part of the node model. Multi-valued attributes are not modelled either: every attribute value is one string.
- The in-place edits of the parsed tree are modelled as replacement at a path in an immutable tree value. Positions never move, because no pass adds or removes nodes.
- save_page.py's outer `save_page_with_assets`, `save_dir_info` and `translate_page` are not modelled. They are file and browser glue around the modelled loop and translation. This includes save_page.py's return of a value that is never bound when rendering fails.
- The logger calls and the module-level example runs are not modelled. `_setup.py` is not part of this model.
- Every `await` runs in sequence, so there is no concurrency to model.
