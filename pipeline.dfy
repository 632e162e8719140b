/** `save_page_with_assets` of app.py: the page directory is the base directory joined
    with the page's directory name. The browser renders the page and lists its asset
    URLs; each asset is downloaded into `assets/` and its references rewritten; the
    rewritten page is written as `webpage.html`; only then is it translated, and the
    translation written as `webpage_translated.html`. The error log is the sequence
    of lines appended to `errors.md` in the page directory. */
module Pipeline {
  import opened Wrappers
  import opened Strings
  import opened Urls
  import opened HostDir
  import opened Assets
  import opened Dom
  import opened Passes
  import opened AppTranslate

  /** What the browser yields once the page has loaded: `page.content()` and the URLs
      that the page's stylesheet links, scripts and images name, in document order. */
  datatype Page = Page(html: string, assetUrls: seq<string>)

  /** The error-log line for a page that could not be saved. */
  function SaveFailure(url: string, error: string): string
  {
    "Failed to save page " + url + ": " + error + "\n"
  }

  const PageFile := "webpage.html"
  const TranslatedFile := "webpage_translated.html"

  /** The files and the error log after saving the page. */
  datatype Saved = Saved(files: map<string, File>, log: seq<string>)

  /** The effect of `save_page_with_assets`, step by step: render; rewrite the assets;
      write the rewritten page; translate it; write the translation. The first step
      that raises ends the run with one `Failed to save page` line. */
  function SavedPage(env: Env, render: string -> Result<Page, string>, parse: string -> Option<seq<Node>>,
                     serialize: Node -> Option<string>, tr: Translator, url: string, basePath: string,
                     files0: map<string, File>, log0: seq<string>): Saved
  {
    var savePath := SavePath(basePath, url);
    match render(url)
    case Failure(e) => Saved(files0, log0 + [SaveFailure(url, e)])
    case Success(page) =>
      var s := ApplyAll(Snapshot(page.html, files0, log0), Attempts(env, PathJoin(savePath, "assets"), page.assetUrls));
      var htmlPath := PathJoin(savePath, PageFile);
      match env.write(htmlPath, Document(s.html))
      case Some(e) => Saved(s.files, s.log + [SaveFailure(url, e)])
      case None =>
        var translated := TranslatedHtml(parse, serialize, tr, s.html);
        var translatedPath := PathJoin(savePath, TranslatedFile);
        match env.write(translatedPath, Document(translated))
        case Some(e) => Saved(s.files[htmlPath := Document(s.html)], s.log + [SaveFailure(url, e)])
        case None => Saved(s.files[htmlPath := Document(s.html)][translatedPath := Document(translated)], s.log)
  }

  method SavePageWithAssets(env: Env, render: string -> Result<Page, string>, parse: string -> Option<seq<Node>>,
                            serialize: Node -> Option<string>, tr: Translator, url: string, basePath: string,
                            files0: map<string, File>, log0: seq<string>)
    returns (files: map<string, File>, log: seq<string>)
    ensures Saved(files, log) == SavedPage(env, render, parse, serialize, tr, url, basePath, files0, log0)
  {
    var dirName := UrlToDirname(url);
    var savePath := PathJoin(basePath, dirName);
    files, log := files0, log0;
    match render(url) {
      case Failure(e) =>
        log := log + [SaveFailure(url, e)];
      case Success(page) =>
        var assetsDir := PathJoin(savePath, "assets");
        var html;
        html, files, log := RewriteAssets(env, assetsDir, page.html, files, log, page.assetUrls);
        var htmlPath := PathJoin(savePath, PageFile);
        match env.write(htmlPath, Document(html)) {
          case Some(e) =>
            log := log + [SaveFailure(url, e)];
          case None =>
            files := files[htmlPath := Document(html)];
            var translated, _ := TranslateHtmlContent(parse, serialize, tr, html);
            var translatedPath := PathJoin(savePath, TranslatedFile);
            match env.write(translatedPath, Document(translated)) {
              case Some(e) =>
                log := log + [SaveFailure(url, e)];
              case None =>
                files := files[translatedPath := Document(translated)];
            }
        }
    }
  }

  /** When every step succeeds, `webpage.html` holds the page with its assets rewritten
      and untranslated, `webpage_translated.html` holds the translation of exactly that
      text, the two are different files directly inside the page directory, and the
      error log holds one line per failed asset. */
  lemma SavedPageFiles(env: Env, render: string -> Result<Page, string>, parse: string -> Option<seq<Node>>,
                       serialize: Node -> Option<string>, tr: Translator, url: string, basePath: string,
                       files0: map<string, File>, log0: seq<string>)
    requires render(url).Success?
    requires var savePath := SavePath(basePath, url);
             var page := render(url).value;
             var s := ApplyAll(Snapshot(page.html, files0, log0), Attempts(env, PathJoin(savePath, "assets"), page.assetUrls));
             env.write(PathJoin(savePath, PageFile), Document(s.html)).None?
             && env.write(PathJoin(savePath, TranslatedFile), Document(TranslatedHtml(parse, serialize, tr, s.html))).None?
    ensures var savePath := SavePath(basePath, url);
            var page := render(url).value;
            var attempts := Attempts(env, PathJoin(savePath, "assets"), page.assetUrls);
            var rewritten := ReplaceEach(page.html, Substitutions(attempts));
            var out := SavedPage(env, render, parse, serialize, tr, url, basePath, files0, log0);
            PathJoin(savePath, PageFile) != PathJoin(savePath, TranslatedFile)
            && out.files[PathJoin(savePath, PageFile)] == Document(rewritten)
            && out.files[PathJoin(savePath, TranslatedFile)] == Document(TranslatedHtml(parse, serialize, tr, rewritten))
            && out.log == log0 + FailureLines(attempts)
  {
    var savePath := SavePath(basePath, url);
    var page := render(url).value;
    var attempts := Attempts(env, PathJoin(savePath, "assets"), page.assetUrls);
    var start := Snapshot(page.html, files0, log0);
    ApplyAllHtml(start, attempts);
    ApplyAllLog(start, attempts);
    PageFilesDiffer(savePath);
  }

  /** The page and its translation go to two different files of the same directory. */
  lemma PageFilesDiffer(dir: string)
    ensures PathJoin(dir, PageFile) != PathJoin(dir, TranslatedFile)
  {
    JoinSingleComponent(dir, PageFile);
    JoinSingleComponent(dir, TranslatedFile);
    var sep := if dir == [] || dir[|dir| - 1] == '/' then "" else "/";
    assert (dir + sep + PageFile)[|dir + sep| + 7] == '.';
    assert (dir + sep + TranslatedFile)[|dir + sep| + 7] == '_';
  }

  /** A page that cannot be rendered leaves the files as they were and logs one line
      naming the page. */
  lemma RenderFailureLogsOnce(env: Env, render: string -> Result<Page, string>, parse: string -> Option<seq<Node>>,
                              serialize: Node -> Option<string>, tr: Translator, url: string, basePath: string,
                              files0: map<string, File>, log0: seq<string>)
    requires render(url).Failure?
    ensures SavedPage(env, render, parse, serialize, tr, url, basePath, files0, log0)
            == Saved(files0, log0 + [SaveFailure(url, render(url).error)])
  {
  }
}
