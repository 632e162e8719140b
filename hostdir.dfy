/** `url_to_dirname`: the directory a saved page goes to is named after the network
    location (authority) of its URL, with every `www.` deleted and every remaining `.`
    turned into `_`. Nothing lower-cases the host and nothing limits the deletion to
    a leading `www.`. */
module HostDir {
  import opened Strings
  import opened Urls

  /** The two chained `str.replace` calls applied to the network location. */
  function HostToDirName(host: string): string
  {
    Replace(Replace(host, "www.", ""), ".", "_")
  }

  function UrlToDirname(url: string): string
  {
    HostToDirName(Netloc(url))
  }

  /** The directory name is the host with its `www.` occurrences deleted and then every
      `.` mapped to `_`, character by character; in particular it holds no `.`. */
  lemma DirNameMapsDots(host: string)
    ensures var deleted := Replace(host, "www.", "");
            |HostToDirName(host)| == |deleted|
            && forall k :: 0 <= k < |deleted| ==>
                 HostToDirName(host)[k] == if deleted[k] == '.' then '_' else deleted[k]
    ensures '.' !in HostToDirName(host)
  {
    var deleted := Replace(host, "www.", "");
    ReplaceOneChar(deleted, ".", "_");
  }

  /** Each `www.` occurrence is deleted wherever it stands, the leftmost first: the text
      before it is kept and the rest of the host is processed after it. */
  lemma DeletesEveryWww(host: string, i: nat)
    requires OccursAt(host, "www.", i)
    requires forall j: nat :: j < i ==> !OccursAt(host, "www.", j)
    ensures HostToDirName(host) == Replace(host[..i] + Replace(host[i + 4..], "www.", ""), ".", "_")
  {
    ReplaceAtFirstOccurrence(host, "www.", "", i);
    DropEmptyMiddle(host[..i], Replace(host[i + 4..], "www.", ""));
  }

  /** Sequence bookkeeping: an empty replacement adds nothing. */
  lemma DropEmptyMiddle(a: string, b: string)
    ensures a + "" + b == a + b
  {
  }

  /** Every character other than `w`, `.` and `_` occurs in the directory name exactly as
      often as in the host: port and user-information characters such as `:` and `@`,
      and letters in their original case, pass through. */
  lemma DirNameKeepsOtherChars(host: string, c: char)
    requires c != 'w' && c != '.' && c != '_'
    ensures multiset(HostToDirName(host))[c] == multiset(host)[c]
  {
    ReplaceKeepsOtherChars(host, "www.", "", c);
    ReplaceKeepsOtherChars(Replace(host, "www.", ""), ".", "_", c);
  }

  /** The directory name never holds a `/`, since the network location does not. */
  lemma DirNameHasNoSlash(url: string)
    ensures '/' !in UrlToDirname(url)
  {
    var host := Netloc(url);
    DirNameKeepsOtherChars(host, '/');
    assert multiset(host)['/'] == 0;
  }

  /** Applying the transformation to its own output changes nothing. */
  lemma DirNameIdempotent(host: string)
    ensures HostToDirName(HostToDirName(host)) == HostToDirName(host)
  {
    var d := HostToDirName(host);
    DirNameMapsDots(host);
    forall i: nat | i <= |d| ensures !OccursAt(d, "www.", i) {
      if i + 4 <= |d| {
        assert d[i..i + 4][3] == d[i + 3];
      }
    }
    ReplaceAbsent(d, "www.", "");
    forall i: nat | i <= |d| ensures !OccursAt(d, ".", i) {
      if i + 1 <= |d| {
        assert d[i..i + 1][0] == d[i];
      }
    }
    ReplaceAbsent(d, ".", "_");
  }

  /** The page directory: the directory name joined onto the base directory. */
  function SavePath(base: string, url: string): string
  {
    PathJoin(base, UrlToDirname(url))
  }

  /** The page directory is the base, at most one separator, then the directory name,
      which holds no `/` and is neither `.` nor `..`. When the name is empty (a URL
      without a network location, or one that is only `www.`), this is the base
      directory itself, with a trailing separator. */
  lemma SavePathInsideBase(base: string, url: string)
    ensures SavePath(base, url)
            == base + (if base == [] || base[|base| - 1] == '/' then "" else "/") + UrlToDirname(url)
    ensures '/' !in UrlToDirname(url) && '.' !in UrlToDirname(url)
  {
    DirNameHasNoSlash(url);
    DirNameMapsDots(Netloc(url));
    JoinSingleComponent(base, UrlToDirname(url));
  }

  /** Letter case is kept: an upper-case `WWW.` is not deleted. */
  lemma UpperCaseKept()
    ensures HostToDirName("WWW.Ex") == "WWW_Ex"
  {
    ReplaceWithoutFirstChar("WWW.Ex", "www.", "");
    DotsToUnderscores("WWW.Ex", "WWW_Ex");
  }

  /** A `www.` is deleted wherever it stands, not only at the front, and a port passes
      through. */
  lemma InnerWwwDeleted()
    ensures HostToDirName("a.www.b:80") == "a_b:80"
  {
    assert "a." + "www." + "b:80" == "a.www.b:80";
    ReplaceSingleOccurrence("a.", "b:80", "www.", "");
    assert "a." + "" + "b:80" == "a.b:80";
    DotsToUnderscores("a.b:80", "a_b:80");
  }

  /** The second `replace` on a concrete text, through its character-wise reading. */
  lemma DotsToUnderscores(s: string, expected: string)
    requires |expected| == |s|
    requires forall k :: 0 <= k < |s| ==> expected[k] == if s[k] == '.' then '_' else s[k]
    ensures Replace(s, ".", "_") == expected
  {
    ReplaceOneChar(s, ".", "_");
  }
}
