/** The asset loop of `save_page_with_assets`: for each discovered asset URL, in
    discovery order, resolve it against the page URL, fetch it, write its body to the
    assets directory under the last segment of its path, and only then replace every
    occurrence of the resolved URL in the page's HTML by `assets/<name>`. Any failure
    on the way appends one `Failed to download` line to the error log and leaves the
    HTML and the written files as they were. */
module Assets {
  import opened Wrappers
  import opened Strings
  import opened Urls

  /** What a write puts on disk: raw bytes (an asset) or text (an HTML document). */
  datatype File = Binary(data: seq<bv8>) | Document(text: string)

  /** The effects the loop consumes, as functions of their inputs. A `Failure` or a
      `Some` carries the text of the exception raised.
      - resolve: `urljoin(page_url, asset_url)`;
      - fetch: `page.goto(resolved)` followed by `response.body()`;
      - write: opening `path` for writing and writing the file. */
  datatype Env = Env(
    resolve: string -> Result<string, string>,
    fetch: string -> Result<seq<bv8>, string>,
    write: (string, File) -> Option<string>)

  /** The file an asset is saved under: the last segment of its resolved URL's path. */
  function AssetFileName(resolved: string): string
  {
    Basename(UrlPath(resolved))
  }

  /** The reference that replaces the resolved URL in the HTML. */
  function LocalReference(resolved: string): string
  {
    "assets/" + AssetFileName(resolved)
  }

  /** The error-log line for an asset that could not be saved. */
  function DownloadFailure(subject: string, error: string): string
  {
    "Failed to download " + subject + ": " + error + "\n"
  }

  /** The outcome of one iteration: the asset was stored, or one log line explains why
      not. The subject of the line is the resolved URL once resolution succeeded, and
      the URL as discovered otherwise. */
  datatype Attempt = Stored(resolved: string, reference: string, path: string, file: File) | Failed(line: string)

  function TryAsset(env: Env, assetsDir: string, assetUrl: string): Attempt
  {
    match env.resolve(assetUrl)
    case Failure(e) => Failed(DownloadFailure(assetUrl, e))
    case Success(resolved) =>
      match env.fetch(resolved)
      case Failure(e) => Failed(DownloadFailure(resolved, e))
      case Success(body) =>
        var name := AssetFileName(resolved);
        var path := PathJoin(assetsDir, name);
        match env.write(path, Binary(body))
        case Some(e) => Failed(DownloadFailure(resolved, e))
        case None => Stored(resolved, "assets/" + name, path, Binary(body))
  }

  /** The loop's state: the HTML text, the files written so far, the error log. */
  datatype Snapshot = Snapshot(html: string, files: map<string, File>, log: seq<string>)

  function Apply(s: Snapshot, attempt: Attempt): Snapshot
  {
    match attempt
    case Stored(resolved, reference, path, file) =>
      Snapshot(Replace(s.html, resolved, reference), s.files[path := file], s.log)
    case Failed(line) => s.(log := s.log + [line])
  }

  /** The outcome of every discovered URL, in discovery order. */
  function Attempts(env: Env, assetsDir: string, urls: seq<string>): seq<Attempt>
  {
    seq(|urls|, k requires 0 <= k < |urls| => TryAsset(env, assetsDir, urls[k]))
  }

  /** The loop as a left fold over the outcomes. */
  function ApplyAll(s: Snapshot, attempts: seq<Attempt>): Snapshot
    decreases |attempts|
  {
    if attempts == [] then s else ApplyAll(Apply(s, attempts[0]), attempts[1..])
  }

  method RewriteAssets(env: Env, assetsDir: string, html0: string, files0: map<string, File>,
                       log0: seq<string>, urls: seq<string>)
    returns (html: string, files: map<string, File>, log: seq<string>)
    ensures Snapshot(html, files, log) == ApplyAll(Snapshot(html0, files0, log0), Attempts(env, assetsDir, urls))
  {
    ghost var attempts := Attempts(env, assetsDir, urls);
    html, files, log := html0, files0, log0;
    for i := 0 to |urls|
      invariant ApplyAll(Snapshot(html, files, log), attempts[i..]) == ApplyAll(Snapshot(html0, files0, log0), attempts)
    {
      ghost var before := Snapshot(html, files, log);
      var assetUrl := urls[i];
      match env.resolve(assetUrl) {
        case Failure(e) =>
          log := log + [DownloadFailure(assetUrl, e)];
        case Success(resolved) =>
          match env.fetch(resolved) {
            case Failure(e) =>
              log := log + [DownloadFailure(resolved, e)];
            case Success(body) =>
              var fileName := Basename(UrlPath(resolved));
              var filePath := PathJoin(assetsDir, fileName);
              match env.write(filePath, Binary(body)) {
                case Some(e) =>
                  log := log + [DownloadFailure(resolved, e)];
                case None =>
                  files := files[filePath := Binary(body)];
                  html := Replace(html, resolved, "assets/" + fileName);
              }
          }
      }
      assert attempts[i] == TryAsset(env, assetsDir, urls[i]);
      assert Snapshot(html, files, log) == Apply(before, attempts[i]);
      assert attempts[i..][1..] == attempts[i + 1..];
    }
  }

  /** An asset is stored only once it was resolved, fetched and written without error,
      and then under the last segment of its resolved URL's path. */
  lemma StoredOnlyAfterWrite(env: Env, dir: string, assetUrl: string)
    ensures var a := TryAsset(env, dir, assetUrl);
            a.Stored? ==> env.resolve(assetUrl) == Success(a.resolved)
                          && env.fetch(a.resolved).Success?
                          && a.file == Binary(env.fetch(a.resolved).value)
                          && a.reference == LocalReference(a.resolved)
                          && a.path == PathJoin(dir, AssetFileName(a.resolved))
                          && env.write(a.path, a.file) == None
  {
  }

  /** Every failure is logged under the resolved URL, or under the URL as discovered
      when resolution itself failed, with the text of the error; nothing else fails. */
  lemma FailureNamesItsUrl(env: Env, dir: string, assetUrl: string)
    ensures var a := TryAsset(env, dir, assetUrl);
            a.Failed? <==> (env.resolve(assetUrl).Failure?
                            || env.fetch(env.resolve(assetUrl).value).Failure?
                            || env.write(PathJoin(dir, AssetFileName(env.resolve(assetUrl).value)),
                                         Binary(env.fetch(env.resolve(assetUrl).value).value)).Some?)
    ensures var a := TryAsset(env, dir, assetUrl);
            env.resolve(assetUrl).Failure? ==> a.line == DownloadFailure(assetUrl, env.resolve(assetUrl).error)
    ensures var a := TryAsset(env, dir, assetUrl);
            env.resolve(assetUrl).Success? && env.fetch(env.resolve(assetUrl).value).Failure? ==>
              a.line == DownloadFailure(env.resolve(assetUrl).value, env.fetch(env.resolve(assetUrl).value).error)
    ensures var a := TryAsset(env, dir, assetUrl);
            env.resolve(assetUrl).Success? && env.fetch(env.resolve(assetUrl).value).Success? && a.Failed? ==>
              var r := env.resolve(assetUrl).value;
              a.line == DownloadFailure(r, env.write(PathJoin(dir, AssetFileName(r)), Binary(env.fetch(r).value)).value)
  {
  }

  /** Folding over two lists in a row is folding over their concatenation: each step
      works on the previous step's output. */
  lemma {:induction false} ApplyAllAppend(s: Snapshot, xs: seq<Attempt>, ys: seq<Attempt>)
    ensures ApplyAll(s, xs + ys) == ApplyAll(ApplyAll(s, xs), ys)
    decreases |xs|
  {
    if xs != [] {
      var s1 := Apply(s, xs[0]);
      assert (xs + ys)[0] == xs[0];
      assert (xs + ys)[1..] == xs[1..] + ys;
      ApplyAllAppend(s1, xs[1..], ys);
    } else {
      assert xs + ys == ys;
    }
  }

  /** The (resolved URL, local reference) pairs of the stored assets, in order. */
  function Substitutions(attempts: seq<Attempt>): seq<(string, string)>
    decreases |attempts|
  {
    if attempts == [] then []
    else (if attempts[0].Stored? then [(attempts[0].resolved, attempts[0].reference)] else [])
         + Substitutions(attempts[1..])
  }

  /** The log lines of the failed assets, in order. */
  function FailureLines(attempts: seq<Attempt>): seq<string>
    decreases |attempts|
  {
    if attempts == [] then []
    else (if attempts[0].Failed? then [attempts[0].line] else []) + FailureLines(attempts[1..])
  }

  /** Replacing, in order, each resolved URL by its local reference. */
  function ReplaceEach(html: string, subs: seq<(string, string)>): string
    decreases |subs|
  {
    if subs == [] then html
    else ReplaceEach(Replace(html, subs[0].0, subs[0].1), subs[1..])
  }

  /** The final HTML is the initial HTML with the stored assets' URLs replaced one at a
      time, in discovery order; a failed asset contributes no replacement. */
  lemma {:induction false} ApplyAllHtml(s: Snapshot, attempts: seq<Attempt>)
    ensures ApplyAll(s, attempts).html == ReplaceEach(s.html, Substitutions(attempts))
    decreases |attempts|
  {
    if attempts != [] {
      var a := attempts[0];
      ApplyAllHtml(Apply(s, a), attempts[1..]);
      var rest := Substitutions(attempts[1..]);
      if a.Stored? {
        assert ([(a.resolved, a.reference)] + rest)[0] == (a.resolved, a.reference);
        assert ([(a.resolved, a.reference)] + rest)[1..] == rest;
      } else {
        assert [] + rest == rest;
      }
    }
  }

  /** The log only grows, by exactly one line per failed asset, in order, and every
      asset is either stored or logged. */
  lemma {:induction false} ApplyAllLog(s: Snapshot, attempts: seq<Attempt>)
    ensures ApplyAll(s, attempts).log == s.log + FailureLines(attempts)
    ensures |FailureLines(attempts)| + |Substitutions(attempts)| == |attempts|
    decreases |attempts|
  {
    if attempts != [] {
      var a := attempts[0];
      ApplyAllLog(Apply(s, a), attempts[1..]);
      var rest := FailureLines(attempts[1..]);
      if a.Failed? {
        assert s.log + [a.line] + rest == s.log + ([a.line] + rest);
      } else {
        assert [] + rest == rest;
      }
    }
  }

  /** A stretch of outcomes none of which stores at `path` leaves that file as it was. */
  lemma {:induction false} ApplyAllKeepsOtherPaths(s: Snapshot, attempts: seq<Attempt>, path: string)
    requires forall k :: 0 <= k < |attempts| ==> !(attempts[k].Stored? && attempts[k].path == path)
    ensures path in ApplyAll(s, attempts).files <==> path in s.files
    ensures path in s.files ==> ApplyAll(s, attempts).files[path] == s.files[path]
    decreases |attempts|
  {
    if attempts != [] {
      assert !(attempts[0].Stored? && attempts[0].path == path);
      ApplyAllKeepsOtherPaths(Apply(s, attempts[0]), attempts[1..], path);
    }
  }

  /** Two assets whose paths end in the same segment go to the same file, and the later
      write wins: a file holds what the last asset stored at its path fetched. */
  lemma LastWriteWins(s: Snapshot, attempts: seq<Attempt>, j: nat)
    requires j < |attempts| && attempts[j].Stored?
    requires forall k :: j < k < |attempts| ==> !(attempts[k].Stored? && attempts[k].path == attempts[j].path)
    ensures attempts[j].path in ApplyAll(s, attempts).files
    ensures ApplyAll(s, attempts).files[attempts[j].path] == attempts[j].file
  {
    var a := attempts[j];
    var upto, later := attempts[..j + 1], attempts[j + 1..];
    assert attempts == upto + later;
    assert upto == attempts[..j] + [a];
    ApplyAllAppend(s, upto, later);
    ApplyAllAppend(s, attempts[..j], [a]);
    var mid := Apply(ApplyAll(s, attempts[..j]), a);
    assert ApplyAll(s, upto) == mid;
    ApplyAllKeepsOtherPaths(mid, later, a.path);
  }

  /** The local reference is `assets/` followed by one path segment that holds neither a
      `/`, nor the URL's query or fragment. */
  lemma LocalReferenceShape(resolved: string)
    ensures '/' !in AssetFileName(resolved) && '?' !in AssetFileName(resolved) && '#' !in AssetFileName(resolved)
  {
    var path := UrlPath(resolved);
    BasenameIsLastSegment(path);
    var name := Basename(path);
    assert name == path[|path| - |name|..];
    assert '?' !in path && '#' !in path;
    assert forall c :: c in name ==> c in path;
  }
}
