/** The parts of Python's `urllib.parse.urlparse` and `os.path` (POSIX) that the page
    saver uses: the network location (authority) and the path of a URL, the last
    segment of a path, and the joining of two path components. */
module Urls {
  import opened Strings

  /** Index of the first character of `s` at or after `from` that is in `cs`, or `|s|`. */
  function FindAny(s: string, cs: set<char>, from: nat): (i: nat)
    requires from <= |s|
    ensures from <= i <= |s|
    ensures i < |s| ==> s[i] in cs
    ensures forall k :: from <= k < i ==> s[k] !in cs
    decreases |s| - from
  {
    if from == |s| || s[from] in cs then from else FindAny(s, cs, from + 1)
  }

  /** Index of the last `c` in `s`, or -1 (`str.rfind`). */
  function FindLast(s: string, c: char): (i: int)
    ensures -1 <= i < |s|
    ensures i >= 0 ==> s[i] == c
    ensures forall k :: i < k < |s| ==> s[k] != c
  {
    if s == [] then -1
    else if s[|s| - 1] == c then |s| - 1
    else FindLast(s[..|s| - 1], c)
  }

  predicate IsAsciiLetter(c: char)
  {
    'a' <= c <= 'z' || 'A' <= c <= 'Z'
  }

  predicate IsSchemeChar(c: char)
  {
    IsAsciiLetter(c) || '0' <= c <= '9' || c == '+' || c == '-' || c == '.'
  }

  function LowerAscii(s: string): string
  {
    seq(|s|, k requires 0 <= k < |s| =>
      if 'A' <= s[k] <= 'Z' then (s[k] as int + 32) as char else s[k])
  }

  /** Python drops leading C0 control characters and spaces, then every tab, CR and LF. */
  function Sanitize(url: string): string
  {
    var trimmed := TrimC0(url);
    Replace(Replace(Replace(trimmed, "\t", ""), "\r", ""), "\n", "")
  }

  function TrimC0(s: string): string
  {
    if s != [] && s[0] as int <= 32 then TrimC0(s[1..]) else s
  }

  /** The scheme and what follows it: the text before the first `:` is a scheme when it
      is non-empty, starts with an ASCII letter and uses only scheme characters; it is
      lower-cased. Otherwise there is no scheme and the whole text remains. */
  function SplitScheme(url: string): (string, string)
  {
    var colon := FindAny(url, {':'}, 0);
    if 0 < colon < |url| && IsAsciiLetter(url[0])
       && forall k :: 0 <= k < colon ==> IsSchemeChar(url[k])
    then (LowerAscii(url[..colon]), url[colon + 1..])
    else ("", url)
  }

  /** The network location follows a leading `//` and runs up to the first `/`, `?` or `#`. */
  function SplitNetloc(rest: string): (r: (string, string))
    ensures '/' !in r.0 && '?' !in r.0 && '#' !in r.0
  {
    if |rest| >= 2 && rest[..2] == "//" then
      var delim := FindAny(rest, {'/', '?', '#'}, 2);
      assert forall k :: 0 <= k < delim - 2 ==> rest[2..delim][k] == rest[k + 2];
      (rest[2..delim], rest[delim..])
    else ("", rest)
  }

  /** The fragment follows the first `#`; the query the first `?` before it; the path is
      what precedes both. */
  function SplitPath(rest: string): (r: (string, string, string))
    ensures '?' !in r.0 && '#' !in r.0
  {
    var hash := FindAny(rest, {'#'}, 0);
    var beforeFragment := rest[..hash];
    var fragment := if hash < |rest| then rest[hash + 1..] else "";
    var question := FindAny(beforeFragment, {'?'}, 0);
    var query := if question < |beforeFragment| then beforeFragment[question + 1..] else "";
    assert forall k :: 0 <= k < question ==> beforeFragment[..question][k] == rest[k];
    (beforeFragment[..question], query, fragment)
  }

  datatype SplitUrl = SplitUrl(scheme: string, netloc: string, path: string, query: string, fragment: string)

  /** `urlsplit(url)`. */
  function UrlSplit(raw: string): SplitUrl
  {
    var (scheme, rest) := SplitScheme(Sanitize(raw));
    var (netloc, afterNetloc) := SplitNetloc(rest);
    var (path, query, fragment) := SplitPath(afterNetloc);
    SplitUrl(scheme, netloc, path, query, fragment)
  }

  /** The schemes for which `urlparse` separates `;params` from the path. */
  const UsesParams: set<string> := {"", "ftp", "hdl", "prospero", "http", "imap", "https",
    "shttp", "rtsp", "rtsps", "rtspu", "sip", "sips", "mms", "sftp", "tel"}

  /** `_splitparams(path)[0]`: the path before the first `;` that follows its last `/`
      (before the first `;` at all when there is no `/`). What remains is a prefix of
      the path that keeps every directory and the last `/`, ends where a `;` begins
      (or at the end of the path), and whose last segment holds no `;`. */
  function StripParams(path: string): (r: string)
    ensures |r| <= |path| && r == path[..|r|]
    ensures FindLast(path, '/') < |r|
    ensures |r| < |path| ==> path[|r|] == ';'
    ensures ';' !in Basename(r)
  {
    var cut := ParamsCut(path);
    LastSegmentBeforeCut(path, FindLast(path, '/'), cut);
    path[..cut]
  }

  /** Where `_splitparams` cuts: the first `;` after the last `/`, or the end. */
  function ParamsCut(path: string): (i: nat)
    ensures FindLast(path, '/') < i <= |path|
    ensures i < |path| ==> path[i] == ';'
    ensures forall k :: FindLast(path, '/') < k < i ==> path[k] != ';'
  {
    var slash := FindLast(path, '/');
    FindAny(path, {';'}, if slash < 0 then 0 else slash)
  }

  /** Cutting a path after its last `/` and before any `;` that follows it leaves a last
      segment without `;`. */
  lemma LastSegmentBeforeCut(path: string, slash: int, cut: nat)
    requires -1 <= slash < cut <= |path|
    requires slash >= 0 ==> path[slash] == '/'
    requires forall k :: slash < k < |path| ==> path[k] != '/'
    requires forall k :: slash < k < cut ==> path[k] != ';'
    ensures ';' !in Basename(path[..cut])
  {
    var r := path[..cut];
    forall k | slash < k < |r| ensures r[k] != '/' && r[k] != ';' {
      assert r[k] == path[k];
    }
    var i := FindLast(r, '/');
    assert i == slash by {
      if slash >= 0 {
        assert r[slash] == '/';
      }
    }
    var b := Basename(r);
    forall k | 0 <= k < |b| ensures b[k] != ';' {
      assert b[k] == r[i + 1 + k];
    }
  }

  /** `urlparse(url).netloc`. */
  function Netloc(url: string): (r: string)
    ensures '/' !in r && '?' !in r && '#' !in r
  {
    UrlSplit(url).netloc
  }

  /** `urlparse(url).path`: never holds the query or the fragment, and for the schemes
      that separate parameters its last segment holds no `;params`. */
  function UrlPath(url: string): (r: string)
    ensures '?' !in r && '#' !in r
    ensures UrlSplit(url).scheme in UsesParams ==> ';' !in Basename(r)
  {
    var parts := UrlSplit(url);
    if parts.scheme in UsesParams && ';' in parts.path then
      var r := StripParams(parts.path);
      assert forall k :: 0 <= k < |r| ==> r[k] == parts.path[k];
      r
    else parts.path
  }

  /** `os.path.basename(path)`: what follows the last `/`. */
  function Basename(path: string): string
  {
    path[FindLast(path, '/') + 1..]
  }

  /** `os.path.join(a, b)` on POSIX. */
  function PathJoin(a: string, b: string): string
  {
    if |b| > 0 && b[0] == '/' then b
    else if a == [] || a[|a| - 1] == '/' then a + b
    else a + "/" + b
  }

  /** The last segment of a path holds no `/`, it is a suffix of the path, and it is the
      longest such suffix: unless it is the whole path, a `/` comes right before it. */
  lemma BasenameIsLastSegment(path: string)
    ensures '/' !in Basename(path)
    ensures |Basename(path)| <= |path|
    ensures Basename(path) == path[|path| - |Basename(path)|..]
    ensures |Basename(path)| < |path| ==> path[|path| - |Basename(path)| - 1] == '/'
  {
    var i := FindLast(path, '/');
    var b := path[i + 1..];
    forall k | 0 <= k < |b| ensures b[k] != '/' {
      assert b[k] == path[i + 1 + k];
    }
  }

  /** Joining a base with a component that has no `/` places the component directly
      inside the base: the base, at most one separator, the component. */
  lemma JoinSingleComponent(base: string, name: string)
    requires '/' !in name
    ensures PathJoin(base, name) == base + (if base == [] || base[|base| - 1] == '/' then "" else "/") + name
  {
    if |name| > 0 {
      assert name[0] in name;
    }
  }
}
