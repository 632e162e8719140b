/** The few operations of Python's `str` that the page saver relies on:
    `str.replace` (all non-overlapping occurrences, scanned left to right)
    and `str.strip()` with no argument (Unicode whitespace, as `str.isspace`). */
module Strings {

  /** `pat` occurs in `s` starting at index `i`. */
  predicate OccursAt(s: string, pat: string, i: nat)
  {
    i + |pat| <= |s| && s[i..i + |pat|] == pat
  }

  /** `pat` occurs somewhere in `s`. */
  predicate Occurs(s: string, pat: string)
  {
    exists i: nat | i <= |s| :: OccursAt(s, pat, i)
  }

  /** Python's `s.replace(pat, rep)`: every non-overlapping occurrence of `pat`,
      found scanning from the left, is replaced by `rep`. An empty `pat` matches
      before every character and at the end (`"ab".replace("", "-") == "-a-b-"`). */
  function Replace(s: string, pat: string, rep: string): string
    decreases |s|
  {
    if pat == [] then
      if s == [] then rep else rep + [s[0]] + Replace(s[1..], pat, rep)
    else if |s| < |pat| then s
    else if s[..|pat|] == pat then rep + Replace(s[|pat|..], pat, rep)
    else [s[0]] + Replace(s[1..], pat, rep)
  }

  /** When the (non-empty) pattern does not occur, `replace` returns its input. */
  lemma {:induction false} ReplaceAbsent(s: string, pat: string, rep: string)
    requires pat != [] && !Occurs(s, pat)
    ensures Replace(s, pat, rep) == s
    decreases |s|
  {
    if |s| >= |pat| {
      assert !OccursAt(s, pat, 0);
      assert s[..|pat|] != pat;
      forall i: nat | i <= |s[1..]| && OccursAt(s[1..], pat, i) ensures false {
        assert s[1..][i..i + |pat|] == s[i + 1..i + 1 + |pat|];
        assert OccursAt(s, pat, i + 1);
      }
      ReplaceAbsent(s[1..], pat, rep);
    }
  }

  lemma ReplaceMatchHere(s: string, pat: string, rep: string)
    requires pat != [] && OccursAt(s, pat, 0)
    ensures Replace(s, pat, rep) == rep + Replace(s[|pat|..], pat, rep)
  {
    assert s[..|pat|] == pat;
  }

  lemma ReplaceNoMatchHere(s: string, pat: string, rep: string)
    requires pat != [] && s != [] && !OccursAt(s, pat, 0)
    ensures Replace(s, pat, rep) == [s[0]] + Replace(s[1..], pat, rep)
  {
  }

  /** `replace` copies a prefix in which no occurrence starts. */
  lemma {:induction false} ReplaceSkipsPrefix(s: string, pat: string, rep: string, i: nat)
    requires pat != [] && i <= |s|
    requires forall j: nat :: j < i ==> !OccursAt(s, pat, j)
    ensures Replace(s, pat, rep) == s[..i] + Replace(s[i..], pat, rep)
    decreases i
  {
    if i == 0 {
      assert s[0..] == s;
      PrependNothing(s, Replace(s, pat, rep));
    } else {
      ReplaceSkipsPrefix(s, pat, rep, i - 1);
      ReplaceSkipsOneMore(s, pat, rep, i);
    }
  }

  /** The step of `ReplaceSkipsPrefix`: with no occurrence at `i - 1` either, the copied
      prefix grows by one character. */
  lemma ReplaceSkipsOneMore(s: string, pat: string, rep: string, i: nat)
    requires pat != [] && 0 < i <= |s| && !OccursAt(s, pat, i - 1)
    requires Replace(s, pat, rep) == s[..i - 1] + Replace(s[i - 1..], pat, rep)
    ensures Replace(s, pat, rep) == s[..i] + Replace(s[i..], pat, rep)
  {
    ReplaceSkipsOne(s, pat, rep, i - 1);
    PrefixGrows(s, i, Replace(s, pat, rep), Replace(s[i - 1..], pat, rep), Replace(s[i..], pat, rep));
  }

  /** Sequence bookkeeping: an empty prefix of `s` adds nothing. */
  lemma PrependNothing(s: string, x: string)
    ensures s[..0] + x == x
  {
    assert s[..0] == [];
  }

  /** Sequence bookkeeping for `ReplaceSkipsPrefix`: one more character of `s` moves
      into the copied prefix. */
  lemma PrefixGrows(s: string, i: nat, whole: string, fromPrev: string, fromHere: string)
    requires 0 < i <= |s|
    requires whole == s[..i - 1] + fromPrev && fromPrev == [s[i - 1]] + fromHere
    ensures whole == s[..i] + fromHere
  {
    assert s[..i - 1] + ([s[i - 1]] + fromHere) == (s[..i - 1] + [s[i - 1]]) + fromHere;
    assert s[..i - 1] + [s[i - 1]] == s[..i];
  }

  /** No occurrence starts at `k`, so `replace` from `k` on copies `s[k]`. */
  lemma ReplaceSkipsOne(s: string, pat: string, rep: string, k: nat)
    requires pat != [] && k < |s| && !OccursAt(s, pat, k)
    ensures Replace(s[k..], pat, rep) == [s[k]] + Replace(s[k + 1..], pat, rep)
  {
    var t := s[k..];
    if |pat| <= |t| {
      assert t[..|pat|] == s[k..k + |pat|];
    }
    assert !OccursAt(t, pat, 0);
    ReplaceNoMatchHere(t, pat, rep);
    assert t[1..] == s[k + 1..];
  }

  /** Python's algorithm for `replace`: find the leftmost occurrence at `i`, keep what
      precedes it, emit `rep`, and continue after the occurrence. */
  lemma ReplaceAtFirstOccurrence(s: string, pat: string, rep: string, i: nat)
    requires pat != [] && OccursAt(s, pat, i)
    requires forall j: nat :: j < i ==> !OccursAt(s, pat, j)
    ensures Replace(s, pat, rep) == s[..i] + rep + Replace(s[i + |pat|..], pat, rep)
  {
    ReplaceSkipsPrefix(s, pat, rep, i);
    ReplaceMatchesAt(s, pat, rep, i);
    Regroup(Replace(s, pat, rep), s[..i], Replace(s[i..], pat, rep), rep, Replace(s[i + |pat|..], pat, rep));
  }

  /** Sequence bookkeeping: a text split as `a + mid`, with `mid` split as `b + c`. */
  lemma Regroup(whole: string, a: string, mid: string, b: string, c: string)
    requires whole == a + mid && mid == b + c
    ensures whole == a + b + c
  {
  }

  /** An occurrence at `i`: `replace` from `i` on emits `rep` and continues after it. */
  lemma ReplaceMatchesAt(s: string, pat: string, rep: string, i: nat)
    requires pat != [] && OccursAt(s, pat, i)
    ensures Replace(s[i..], pat, rep) == rep + Replace(s[i + |pat|..], pat, rep)
  {
    var t := s[i..];
    assert t[..|pat|] == s[i..i + |pat|];
    ReplaceMatchHere(t, pat, rep);
    assert t[|pat|..] == s[i + |pat|..];
  }

  /** A prefix holding no first character of `pat` is copied as it is. */
  lemma {:induction false} ReplaceSkipsFree(a: string, x: string, pat: string, rep: string)
    requires pat != [] && pat[0] !in a
    ensures Replace(a + x, pat, rep) == a + Replace(x, pat, rep)
    decreases |a|
  {
    if a == [] {
      assert a + x == x;
    } else {
      assert a == [a[0]] + a[1..];
      ReplaceSkipsFree(a[1..], x, pat, rep);
      ReplaceSkipsFreeStep(a, x, pat, rep);
    }
  }

  /** The step of `ReplaceSkipsFree`: the first character of `a` is copied. */
  lemma ReplaceSkipsFreeStep(a: string, x: string, pat: string, rep: string)
    requires pat != [] && a != [] && a[0] != pat[0]
    requires Replace(a[1..] + x, pat, rep) == a[1..] + Replace(x, pat, rep)
    ensures Replace(a + x, pat, rep) == a + Replace(x, pat, rep)
  {
    var s := a + x;
    assert s[0] == a[0] && s[1..] == a[1..] + x;
    assert !OccursAt(s, pat, 0) by {
      if |pat| <= |s| {
        assert s[0..|pat|][0] == s[0];
      }
    }
    ReplaceNoMatchHere(s, pat, rep);
    HeadRegroup(a, Replace(x, pat, rep));
  }

  /** Sequence bookkeeping: the first character of `a`, then the rest of `a`, then `x`. */
  lemma HeadRegroup(a: string, x: string)
    requires a != []
    ensures [a[0]] + (a[1..] + x) == a + x
  {
    assert a == [a[0]] + a[1..];
  }

  /** A text in which the first character of `pat` never appears comes back unchanged. */
  lemma ReplaceWithoutFirstChar(s: string, pat: string, rep: string)
    requires pat != [] && pat[0] !in s
    ensures Replace(s, pat, rep) == s
  {
    ReplaceSkipsFree(s, [], pat, rep);
    assert s + [] == s;
  }

  /** A single occurrence, with the first character of `pat` nowhere else, is replaced
      and everything around it is kept. */
  lemma ReplaceSingleOccurrence(a: string, b: string, pat: string, rep: string)
    requires pat != [] && pat[0] !in a && pat[0] !in b
    ensures Replace(a + pat + b, pat, rep) == a + rep + b
  {
    assert a + pat + b == a + (pat + b);
    ReplaceSkipsFree(a, pat + b, pat, rep);
    assert OccursAt(pat + b, pat, 0) by {
      assert (pat + b)[..|pat|] == pat;
    }
    ReplaceMatchHere(pat + b, pat, rep);
    assert (pat + b)[|pat|..] == b;
    ReplaceWithoutFirstChar(b, pat, rep);
    assert a + (rep + b) == a + rep + b;
  }

  /** Replacing one character by one character is a pointwise map: the length is kept,
      every `pat` character becomes the `rep` character and every other character stays. */
  lemma {:induction false} ReplaceOneChar(s: string, pat: string, rep: string)
    requires |pat| == 1 && |rep| == 1
    ensures |Replace(s, pat, rep)| == |s|
    ensures forall k :: 0 <= k < |s| ==>
      Replace(s, pat, rep)[k] == if s[k] == pat[0] then rep[0] else s[k]
    decreases |s|
  {
    if s != [] {
      ReplaceOneChar(s[1..], pat, rep);
      ReplaceOneCharHead(s, pat, rep);
      MapHead(s, pat[0], rep[0], Replace(s[1..], pat, rep), Replace(s, pat, rep));
    }
  }

  /** The first step of a one-character `replace`: the first character, mapped, then the
      rest. */
  lemma ReplaceOneCharHead(s: string, pat: string, rep: string)
    requires |pat| == 1 && |rep| == 1 && s != []
    ensures Replace(s, pat, rep) == [if s[0] == pat[0] then rep[0] else s[0]] + Replace(s[1..], pat, rep)
  {
    if s[0] == pat[0] {
      assert s[0..1] == pat;
      ReplaceMatchHere(s, pat, rep);
      assert s[|pat|..] == s[1..] && rep == [rep[0]];
    } else {
      assert !OccursAt(s, pat, 0);
      ReplaceNoMatchHere(s, pat, rep);
    }
  }

  /** Sequence bookkeeping for `ReplaceOneChar`: a mapped first character in front of the
      mapped rest is the mapped text. */
  lemma MapHead(s: string, a: char, b: char, rest: string, out: string)
    requires s != [] && |rest| == |s| - 1
    requires forall k :: 0 <= k < |rest| ==> rest[k] == if s[k + 1] == a then b else s[k + 1]
    requires out == [if s[0] == a then b else s[0]] + rest
    ensures |out| == |s| && forall k :: 0 <= k < |s| ==> out[k] == if s[k] == a then b else s[k]
  {
    forall k | 0 < k < |s| ensures out[k] == if s[k] == a then b else s[k] {
      assert out[k] == rest[k - 1];
    }
  }

  /** A character that belongs neither to the pattern nor to the replacement occurs
      exactly as often after `replace` as before. */
  lemma {:induction false} ReplaceKeepsOtherChars(s: string, pat: string, rep: string, c: char)
    requires c !in pat && c !in rep
    ensures multiset(Replace(s, pat, rep))[c] == multiset(s)[c]
    decreases |s|
  {
    if s == [] || (pat != [] && |s| < |pat|) {
    } else if pat != [] && OccursAt(s, pat, 0) {
      ReplaceKeepsOtherChars(s[|pat|..], pat, rep, c);
      CountAfterMatch(s, pat, rep, c);
    } else if pat == [] {
      ReplaceKeepsOtherChars(s[1..], pat, rep, c);
      CountAfterInsert(s, rep, c);
    } else {
      ReplaceKeepsOtherChars(s[1..], pat, rep, c);
      CountAfterChar(s, pat, rep, c);
    }
  }

  /** The step of `ReplaceKeepsOtherChars` where `pat` is replaced at the front. */
  lemma CountAfterMatch(s: string, pat: string, rep: string, c: char)
    requires c !in pat && c !in rep && pat != [] && OccursAt(s, pat, 0)
    requires multiset(Replace(s[|pat|..], pat, rep))[c] == multiset(s[|pat|..])[c]
    ensures multiset(Replace(s, pat, rep))[c] == multiset(s)[c]
  {
    ReplaceMatchHere(s, pat, rep);
    CountPrefix(rep, Replace(s[|pat|..], pat, rep), c);
    assert s == pat + s[|pat|..];
    CountPrefix(pat, s[|pat|..], c);
  }

  /** The step of `ReplaceKeepsOtherChars` where the first character is kept. */
  lemma CountAfterChar(s: string, pat: string, rep: string, c: char)
    requires pat != [] && s != [] && !OccursAt(s, pat, 0)
    requires multiset(Replace(s[1..], pat, rep))[c] == multiset(s[1..])[c]
    ensures multiset(Replace(s, pat, rep))[c] == multiset(s)[c]
  {
    ReplaceNoMatchHere(s, pat, rep);
    CountHead(s, Replace(s[1..], pat, rep), c);
  }

  /** The step of `ReplaceKeepsOtherChars` for an empty pattern: `rep` goes in front of
      the first character. */
  lemma CountAfterInsert(s: string, rep: string, c: char)
    requires c !in rep && s != []
    requires multiset(Replace(s[1..], [], rep))[c] == multiset(s[1..])[c]
    ensures multiset(Replace(s, [], rep))[c] == multiset(s)[c]
  {
    var r := Replace(s[1..], [], rep);
    assert Replace(s, [], rep) == rep + ([s[0]] + r);
    CountPrefix(rep, [s[0]] + r, c);
    CountHead(s, r, c);
  }

  /** A prefix without `c` adds no occurrence of `c`. */
  lemma CountPrefix(a: string, b: string, c: char)
    requires c !in a
    ensures multiset(a + b)[c] == multiset(b)[c]
  {
    assert multiset(a + b) == multiset(a) + multiset(b);
  }

  /** Putting back the first character of `s` in front of a text that counts `c` as the
      rest of `s` does counts it as `s` does. */
  lemma CountHead(s: string, r: string, c: char)
    requires s != [] && multiset(r)[c] == multiset(s[1..])[c]
    ensures multiset([s[0]] + r)[c] == multiset(s)[c]
  {
    assert s == [s[0]] + s[1..];
    assert multiset([s[0]] + r) == multiset([s[0]]) + multiset(r);
    assert multiset(s) == multiset([s[0]]) + multiset(s[1..]);
  }

  /** The characters Python's `str.isspace` accepts, which `str.strip()` removes. */
  predicate IsSpace(c: char)
  {
    var n := c as int;
    (9 <= n <= 13) || (28 <= n <= 32) || n == 0x85 || n == 0xA0 || n == 0x1680
    || (0x2000 <= n <= 0x200A) || n == 0x2028 || n == 0x2029 || n == 0x202F
    || n == 0x205F || n == 0x3000
  }

  function TrimLeft(s: string): string
    decreases |s|
  {
    if s != [] && IsSpace(s[0]) then TrimLeft(s[1..]) else s
  }

  function TrimRight(s: string): string
    decreases |s|
  {
    if s != [] && IsSpace(s[|s| - 1]) then TrimRight(s[..|s| - 1]) else s
  }

  /** Python's `s.strip()`. */
  function Strip(s: string): string
  {
    TrimRight(TrimLeft(s))
  }

  /** Every character of `s` is whitespace (the empty string included). */
  predicate IsBlank(s: string)
  {
    forall k :: 0 <= k < |s| ==> IsSpace(s[k])
  }

  lemma {:induction false} TrimLeftEmpty(s: string)
    ensures TrimLeft(s) == [] <==> IsBlank(s)
    decreases |s|
  {
    if s != [] && IsSpace(s[0]) {
      TrimLeftEmpty(s[1..]);
      assert IsBlank(s[1..]) ==> IsBlank(s) by {
        if IsBlank(s[1..]) {
          forall k | 0 <= k < |s| ensures IsSpace(s[k]) {
            if k > 0 { assert s[k] == s[1..][k - 1]; }
          }
        }
      }
    }
  }

  lemma {:induction false} TrimRightEmpty(s: string)
    ensures TrimRight(s) == [] <==> IsBlank(s)
    decreases |s|
  {
    if s != [] && IsSpace(s[|s| - 1]) {
      TrimRightEmpty(s[..|s| - 1]);
      assert IsBlank(s[..|s| - 1]) ==> IsBlank(s) by {
        if IsBlank(s[..|s| - 1]) {
          forall k | 0 <= k < |s| ensures IsSpace(s[k]) {
            if k < |s| - 1 { assert s[k] == s[..|s| - 1][k]; }
          }
        }
      }
    }
  }

  lemma {:induction false} TrimLeftBlank(s: string)
    ensures IsBlank(TrimLeft(s)) <==> IsBlank(s)
    decreases |s|
  {
    if s != [] && IsSpace(s[0]) {
      TrimLeftBlank(s[1..]);
      assert IsBlank(s[1..]) ==> IsBlank(s) by {
        if IsBlank(s[1..]) {
          forall k | 0 <= k < |s| ensures IsSpace(s[k]) {
            if k > 0 { assert s[k] == s[1..][k - 1]; }
          }
        }
      }
    }
  }

  /** The whitespace guard, which skips a text whose stripped form is empty, fails exactly on blank strings: those
      that are empty or made only of whitespace. */
  lemma StripEmptyIffBlank(s: string)
    ensures Strip(s) == [] <==> IsBlank(s)
  {
    TrimRightEmpty(TrimLeft(s));
    TrimLeftBlank(s);
  }
}
