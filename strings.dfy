/**
  Character classes and string operations shared by the content scripts.

  Python strings are modelled as `seq<char>` over an ASCII reading of the
  built-ins they use: `str.lower()` only folds 'A'..'Z', `str.isspace()` and
  the regex class `\s` are the ASCII whitespace characters, and `\w` is the
  ASCII letters, digits and '_'.
 */
module Strings {

  /** `str.isspace()` (and the regex class `\s`) on ASCII: space, \t \n \v \f \r and 0x1C-0x1F. */
  predicate IsSpace(c: char) {
    c == ' ' || 9 <= c as int <= 13 || 28 <= c as int <= 31
  }

  predicate IsUpper(c: char) {
    'A' <= c <= 'Z'
  }

  predicate IsDigit(c: char) {
    '0' <= c <= '9'
  }

  /** The class `[a-zA-Z0-9]`. */
  predicate IsAlnum(c: char) {
    'a' <= c <= 'z' || IsUpper(c) || IsDigit(c)
  }

  /** The characters of the slugs and clean names the scripts build: a-z, 0-9 and '-'. */
  predicate IsSlugChar(c: char) {
    'a' <= c <= 'z' || IsDigit(c) || c == '-'
  }

  predicate IsHexDigit(c: char) {
    IsDigit(c) || 'a' <= c <= 'f'
  }

  predicate IsHyphen(c: char) {
    c == '-'
  }

  /** The lower-case letters and the digits: what is left of `[a-zA-Z0-9]` after `str.lower()`. */
  predicate IsLowerAlnum(c: char) {
    'a' <= c <= 'z' || IsDigit(c)
  }

  /** `hashlib.md5(...).hexdigest()`: 32 lower-case hexadecimal digits. */
  type Digest = s: string | |s| == 32 && forall i | 0 <= i < |s| :: IsHexDigit(s[i])
    witness "00000000000000000000000000000000"

  predicate AllSlugChars(s: string) {
    forall i | 0 <= i < |s| :: IsSlugChar(s[i])
  }

  /** No two hyphens side by side. */
  predicate NoDoubleHyphen(s: string) {
    forall i | 0 <= i < |s| - 1 :: !(s[i] == '-' && s[i + 1] == '-')
  }

  predicate StartsWith(s: string, prefix: string) {
    prefix <= s
  }

  predicate EndsWith(s: string, suffix: string) {
    |suffix| <= |s| && s[|s| - |suffix|..] == suffix
  }

  /** Python's `t in s` on strings: `t` occurs in `s` at some position. Nothing longer than `s`
      occurs in it; see `ContainsEnds` for the prefixes and suffixes, which do. */
  predicate Contains(s: string, t: string): (found: bool)
    ensures found ==> |t| <= |s|
  {
    exists i | 0 <= i <= |s| :: t <= s[i..]
  }

  /** A prefix and a suffix of `s` occur in it, the empty string included. */
  lemma ContainsEnds(s: string, t: string)
    ensures StartsWith(s, t) ==> Contains(s, t)
    ensures EndsWith(s, t) ==> Contains(s, t)
  {
    assert s[0..] == s;
    if EndsWith(s, t) {
      assert t <= s[|s| - |t|..];
    }
  }

  /** Python's `any(k in s for k in keys)`: some key, in order, occurs in `s`; never with no keys. */
  predicate ContainsAny(s: string, keys: seq<string>): (found: bool)
    ensures found <==> exists k | 0 <= k < |keys| :: Contains(s, keys[k])
    ensures found ==> keys != []
  {
    exists k | k in keys :: Contains(s, k)
  }

  function LowerChar(c: char): (d: char)
    ensures !IsUpper(d)
    ensures IsUpper(c) ==> 'a' <= d <= 'z' && d as int == c as int + 32
    ensures !IsUpper(c) ==> d == c
  {
    if IsUpper(c) then (c as int + 32) as char else c
  }

  /** `str.lower()`. */
  function Lower(s: string): (r: string)
    ensures |r| == |s|
    ensures forall i | 0 <= i < |s| :: r[i] == LowerChar(s[i])
  {
    seq(|s|, i requires 0 <= i < |s| => LowerChar(s[i]))
  }

  /** Drops the longest prefix whose characters all satisfy `drop`. */
  function TrimStart(s: string, drop: char -> bool): (r: string)
    ensures |r| <= |s| && r == s[|s| - |r|..]
    ensures r == [] || !drop(r[0])
    ensures forall i | 0 <= i < |s| - |r| :: drop(s[i])
  {
    if s != [] && drop(s[0]) then
      var r := TrimStart(s[1..], drop);
      assert s[1..][|s| - 1 - |r|..] == s[|s| - |r|..];
      assert forall i | 1 <= i < |s| - |r| :: s[i] == s[1..][i - 1];
      r
    else s
  }

  /** Drops the longest suffix whose characters all satisfy `drop`. */
  function TrimEnd(s: string, drop: char -> bool): (r: string)
    ensures |r| <= |s| && r == s[..|r|]
    ensures r == [] || !drop(r[|r| - 1])
    ensures forall i | |r| <= i < |s| :: drop(s[i])
  {
    if s != [] && drop(s[|s| - 1]) then
      var r := TrimEnd(s[..|s| - 1], drop);
      assert s[..|s| - 1][..|r|] == s[..|r|];
      assert forall i | |r| <= i < |s| - 1 :: s[i] == s[..|s| - 1][i];
      r
    else s
  }

  /** `r` is `s` with some characters satisfying `drop` removed from its front and its back, and
      nothing else changed. */
  predicate TrimmedFrom(r: string, s: string, drop: char -> bool) {
    exists i | 0 <= i <= |s| - |r| :: TrimmedAt(r, s, drop, i)
  }

  /** `r` is `s[i..i + |r|]`, and every character of `s` outside that slice satisfies `drop`. */
  predicate TrimmedAt(r: string, s: string, drop: char -> bool, i: nat)
    requires i <= |s| - |r|
  {
    r == s[i..i + |r|] && (forall k | 0 <= k < i :: drop(s[k])) && (forall k | i + |r| <= k < |s| :: drop(s[k]))
  }

  /** Trimming both ends removes only characters satisfying `drop`, and only at the ends. */
  lemma TrimBoth(s: string, drop: char -> bool)
    ensures TrimmedFrom(TrimEnd(TrimStart(s, drop), drop), s, drop)
  {
    var t := TrimStart(s, drop);
    var r := TrimEnd(t, drop);
    var i := |s| - |t|;
    TrimmedParts(s, t, r, drop, i);
  }

  lemma TrimmedParts(s: string, t: string, r: string, drop: char -> bool, i: nat)
    requires i == |s| - |t| && t == s[i..] && |r| <= |t| && r == t[..|r|]
    requires forall k | 0 <= k < i :: drop(s[k])
    requires forall k | |r| <= k < |t| :: drop(t[k])
    ensures TrimmedFrom(r, s, drop)
  {
    assert r == s[i..i + |r|];
    forall k | i + |r| <= k < |s|
      ensures drop(s[k])
    {
      assert s[k] == t[k - i];
    }
    assert TrimmedAt(r, s, drop, i);
  }

  /** `str.strip()`: the middle of `s`, with the whitespace at both ends removed. */
  function Strip(s: string): (r: string)
    ensures |r| <= |s|
    ensures r == [] || (!IsSpace(r[0]) && !IsSpace(r[|r| - 1]))
    ensures TrimmedFrom(r, s, IsSpace)
    ensures forall i | 0 <= i < |r| :: r[i] in s
  {
    TrimBoth(s, IsSpace);
    TrimmedMembers(TrimEnd(TrimStart(s, IsSpace), IsSpace), s, IsSpace);
    TrimEnd(TrimStart(s, IsSpace), IsSpace)
  }

  /** Trimming keeps only characters of the original. */
  lemma TrimmedMembers(r: string, s: string, drop: char -> bool)
    requires TrimmedFrom(r, s, drop)
    ensures forall k | 0 <= k < |r| :: r[k] in s
  {
    var i :| 0 <= i <= |s| - |r| && TrimmedAt(r, s, drop, i);
    forall k | 0 <= k < |r|
      ensures r[k] in s
    {
      assert r[k] == s[i + k];
    }
  }

  /** `re.sub('[^...]', '', s)`: keeps the characters that satisfy `keep`, in order. */
  function Filter(s: string, keep: char -> bool): (r: string)
    ensures |r| <= |s|
    ensures forall i | 0 <= i < |r| :: keep(r[i]) && r[i] in s
  {
    if s == [] then []
    else (if keep(s[0]) then [s[0]] else []) + Filter(s[1..], keep)
  }

  /** Length of the longest prefix of `s` whose characters all satisfy `sep`. */
  function RunLength(s: string, sep: char -> bool): (n: nat)
    ensures n <= |s|
    ensures forall i | 0 <= i < n :: sep(s[i])
    ensures n < |s| ==> !sep(s[n])
  {
    if s != [] && sep(s[0]) then 1 + RunLength(s[1..], sep) else 0
  }

  /** `re.sub('[...]+', '-', s)`: every maximal run of `sep` characters becomes one '-'. */
  function CollapseRuns(s: string, sep: char -> bool): (r: string)
    ensures (r == []) == (s == [])
    ensures r != [] ==> r[0] == (if sep(s[0]) then '-' else s[0])
    ensures forall i | 0 <= i < |r| :: r[i] == '-' || (r[i] in s && !sep(r[i]))
    ensures sep('-') ==> NoDoubleHyphen(r)
    decreases |s|
  {
    if s == [] then []
    else if sep(s[0]) then
      var rest := s[RunLength(s, sep)..];
      var tail := CollapseRuns(rest, sep);
      assert forall c | c in rest :: c in s;
      "-" + tail
    else
      var tail := CollapseRuns(s[1..], sep);
      assert forall c | c in s[1..] :: c in s;
      [s[0]] + tail
  }

  /** `re.sub('[...]+', '-', s)` read one character at a time: a separator that starts a run becomes
      '-', a separator right after another one is dropped, and every other character is kept. */
  function CollapseByChar(s: string, sep: char -> bool, afterSep: bool): string {
    if s == [] then []
    else if sep(s[0]) then (if afterSep then "" else "-") + CollapseByChar(s[1..], sep, true)
    else [s[0]] + CollapseByChar(s[1..], sep, false)
  }

  /** Characters that are not separators are kept as they are in front of the rest. */
  lemma {:induction false} CollapseByCharWord(word: string, rest: string, sep: char -> bool)
    requires forall k | 0 <= k < |word| :: !sep(word[k])
    ensures CollapseByChar(word + rest, sep, false) == word + CollapseByChar(rest, sep, false)
  {
    if word == [] {
      assert word + rest == rest;
    } else {
      var later := CollapseByChar(rest, sep, false);
      assert (word + rest)[0] == word[0];
      assert (word + rest)[1..] == word[1..] + rest;
      CollapseByCharWord(word[1..], rest, sep);
      assert [word[0]] + (word[1..] + later) == word + later;
    }
  }

  /** Every maximal run of separators becomes exactly one '-', and nothing else changes. */
  lemma {:induction false} CollapseRunsByChar(s: string, sep: char -> bool)
    ensures CollapseRuns(s, sep) == CollapseByChar(s, sep, false)
    decreases |s|
  {
    if s != [] {
      if sep(s[0]) {
        var n := RunLength(s, sep);
        var rest := s[n..];
        SkipRun(s[1..], sep, n - 1);
        assert s[1..][n - 1..] == rest;
        CollapseRunsByChar(rest, sep);
      } else {
        CollapseRunsByChar(s[1..], sep);
      }
    }
  }

  /** Inside a run the separators that follow its first one add nothing. */
  lemma {:induction false} SkipRun(t: string, sep: char -> bool, m: nat)
    requires m <= |t|
    requires forall k | 0 <= k < m :: sep(t[k])
    requires m == |t| || !sep(t[m])
    ensures CollapseByChar(t, sep, true) == CollapseByChar(t[m..], sep, false)
    decreases m
  {
    if m > 0 {
      assert t[1..][m - 1..] == t[m..];
      SkipRun(t[1..], sep, m - 1);
    }
  }

  /** Collapsing separator runs keeps every character `keep` selects, in order, provided `keep`
      selects no separator and not '-'. */
  lemma {:induction false} FilterCollapse(s: string, sep: char -> bool, keep: char -> bool)
    requires !keep('-')
    requires forall c :: keep(c) ==> !sep(c)
    ensures Filter(CollapseRuns(s, sep), keep) == Filter(s, keep)
  {
    CollapseRunsByChar(s, sep);
    FilterCollapseByChar(s, sep, keep, false);
  }

  lemma {:induction false} FilterCollapseByChar(s: string, sep: char -> bool, keep: char -> bool, afterSep: bool)
    requires !keep('-')
    requires forall c :: keep(c) ==> !sep(c)
    ensures Filter(CollapseByChar(s, sep, afterSep), keep) == Filter(s, keep)
    decreases |s|
  {
    if s != [] {
      var after := sep(s[0]);
      var head := if sep(s[0]) then (if afterSep then "" else "-") else [s[0]];
      FilterCollapseByChar(s[1..], sep, keep, after);
      FilterConcat(head, CollapseByChar(s[1..], sep, after), keep);
    }
  }

  lemma {:induction false} FilterConcat(a: string, b: string, keep: char -> bool)
    ensures Filter(a + b, keep) == Filter(a, keep) + Filter(b, keep)
  {
    if a == [] {
      assert a + b == b;
    } else {
      assert (a + b)[1..] == a[1..] + b;
      FilterConcat(a[1..], b, keep);
    }
  }

  /** Filtering twice with a stricter second test is filtering once with it. */
  lemma {:induction false} FilterFilter(s: string, first: char -> bool, second: char -> bool)
    requires forall c :: second(c) ==> first(c)
    ensures Filter(Filter(s, first), second) == Filter(s, second)
  {
    if s != [] {
      FilterFilter(s[1..], first, second);
      FilterConcat(if first(s[0]) then [s[0]] else [], Filter(s[1..], first), second);
    }
  }

  lemma {:induction false} FilterNone(s: string, keep: char -> bool)
    requires forall k | 0 <= k < |s| :: !keep(s[k])
    ensures Filter(s, keep) == []
  {
    if s != [] {
      FilterNone(s[1..], keep);
    }
  }

  /** Trimming ends that `keep` rejects changes nothing `keep` selects. */
  lemma FilterTrimmed(r: string, s: string, drop: char -> bool, keep: char -> bool)
    requires TrimmedFrom(r, s, drop)
    requires forall c :: drop(c) ==> !keep(c)
    ensures Filter(r, keep) == Filter(s, keep)
  {
    var i :| 0 <= i <= |s| - |r| && TrimmedAt(r, s, drop, i);
    var j := i + |r|;
    assert s == s[..i] + r + s[j..];
    FilterNone(s[..i], keep);
    FilterNone(s[j..], keep);
    FilterConcat(s[..i] + r, s[j..], keep);
    FilterConcat(s[..i], r, keep);
  }

  /** What a prefix of `s` keeps is a prefix of what `s` keeps. */
  lemma FilterPrefix(s: string, n: nat, keep: char -> bool)
    requires n <= |s|
    ensures Filter(s[..n], keep) <= Filter(s, keep)
  {
    assert s == s[..n] + s[n..];
    FilterConcat(s[..n], s[n..], keep);
  }

  /** The extensions both scrapers keep; anything else is saved as ".jpg". */
  const ImageExtensions: seq<string> := [".jpg", ".jpeg", ".png", ".webp", ".gif"]

  /** The lower-cased file suffix if it is an image extension the scrapers keep, otherwise ".jpg". */
  function NormalizeExtension(suffix: string): (ext: string)
    ensures ext in ImageExtensions
    ensures Lower(suffix) in ImageExtensions ==> ext == Lower(suffix)
    ensures Lower(suffix) !in ImageExtensions ==> ext == ".jpg"
  {
    var e := Lower(suffix);
    if e in ImageExtensions then e else ".jpg"
  }

  /** The folder under which both scrapers' images are served. */
  const ScrapedRoot: string := "/images/scraped/"

  /** The site path `/images/scraped/{folder}/{filename}` of a scraped image: the folder and the
      file name can be read back from it. */
  function ScrapedPath(folder: string, filename: string): (path: string)
    ensures StartsWith(path, ScrapedRoot) && EndsWith(path, "/" + filename)
    ensures |path| == |ScrapedRoot| + |folder| + 1 + |filename|
    ensures path[|ScrapedRoot|..|path| - |filename| - 1] == folder
  {
    var path := ScrapedRoot + folder + "/" + filename;
    assert path[..|ScrapedRoot|] == ScrapedRoot;
    assert path[|path| - |filename| - 1..] == "/" + filename;
    assert path[|ScrapedRoot|..|path| - |filename| - 1] == folder;
    path
  }

  // ---------------------------------------------------------------------------
  // Facts about the operations above, used by the scripts' models.

  /** A piece of a slug is a slug. */
  lemma SliceKeepsSlug(s: string, i: nat, j: nat)
    requires i <= j <= |s|
    ensures AllSlugChars(s) ==> AllSlugChars(s[i..j])
    ensures NoDoubleHyphen(s) ==> NoDoubleHyphen(s[i..j])
  {
    assert forall k | 0 <= k < j - i :: s[i..j][k] == s[i + k];
  }

  /** A prefix of an MD5 digest is made of slug characters. */
  lemma DigestPrefix(d: Digest, n: nat)
    requires n <= |d|
    ensures AllSlugChars(d[..n]) && d[..n] <= d
  {
    forall k | 0 <= k < n
      ensures IsSlugChar(d[..n][k])
    {
      assert d[..n][k] == d[k] && IsHexDigit(d[k]);
    }
  }

  /** A string built as `head + mid + tail` starts with `head` and ends with `tail`. */
  lemma ConcatEnds(head: string, mid: string, tail: string)
    ensures StartsWith(head + mid + tail, head) && EndsWith(head + mid + tail, tail)
  {
    assert (head + mid + tail)[..|head|] == head;
    assert (head + mid + tail)[|head| + |mid|..] == tail;
  }

  /** Putting the same text in front of a string and of its prefix keeps it a prefix. */
  lemma StartsWithPrefixed(front: string, s: string, prefix: string)
    requires StartsWith(s, prefix)
    ensures StartsWith(front + s, front + prefix)
  {
    assert (front + s)[..|front| + |prefix|] == front + prefix;
  }

  lemma LowerConcat(a: string, b: string)
    ensures Lower(a + b) == Lower(a) + Lower(b)
  {
  }

  lemma LowerIdentity(s: string)
    requires forall i | 0 <= i < |s| :: !IsUpper(s[i])
    ensures Lower(s) == s
  {
  }

  lemma LowerIdempotent(s: string)
    ensures Lower(Lower(s)) == Lower(s)
  {
    LowerIdentity(Lower(s));
  }

  /** A substring stays a substring when text is added on either side. */
  lemma ContainsWithin(s: string, t: string, before: string, after: string)
    requires Contains(s, t)
    ensures Contains(before + s + after, t)
  {
    var i :| 0 <= i <= |s| && t <= s[i..];
    var big := before + s + after;
    assert big[|before| + i..][..|t|] == s[i..][..|t|];
    assert t <= big[|before| + i..];
  }

  /** A string contains itself wherever it is put. */
  lemma ContainsMiddle(before: string, t: string, mid: string, after: string)
    ensures Contains(before + t + mid + after, t)
  {
    var s := before + t + mid + after;
    assert s[|before|..][..|t|] == t;
  }

  lemma ContainsAnyWithin(s: string, keys: seq<string>, before: string, after: string)
    requires ContainsAny(s, keys)
    ensures ContainsAny(before + s + after, keys)
  {
    var k :| k in keys && Contains(s, k);
    ContainsWithin(s, k, before, after);
  }

  lemma TrimStartNoop(s: string, drop: char -> bool)
    requires s == [] || !drop(s[0])
    ensures TrimStart(s, drop) == s
  {
  }

  lemma TrimEndNoop(s: string, drop: char -> bool)
    requires s == [] || !drop(s[|s| - 1])
    ensures TrimEnd(s, drop) == s
  {
  }

  lemma StripNoop(s: string)
    requires forall i | 0 <= i < |s| :: !IsSpace(s[i])
    ensures Strip(s) == s
  {
    TrimStartNoop(s, IsSpace);
    TrimEndNoop(s, IsSpace);
  }

  lemma {:induction false} CollapseRunsNoSeparator(s: string, sep: char -> bool)
    requires forall i | 0 <= i < |s| :: !sep(s[i])
    ensures CollapseRuns(s, sep) == s
    decreases |s|
  {
    if s != [] {
      CollapseRunsNoSeparator(s[1..], sep);
    }
  }

  /** Normalising an extension a second time changes nothing. */
  lemma NormalizeExtensionIdempotent(suffix: string)
    ensures NormalizeExtension(NormalizeExtension(suffix)) == NormalizeExtension(suffix)
  {
    var ext := NormalizeExtension(suffix);
    LowerIdentity(ext);
  }

  lemma {:induction false} FilterNoop(s: string, keep: char -> bool)
    requires forall i | 0 <= i < |s| :: keep(s[i])
    ensures Filter(s, keep) == s
  {
    if s != [] {
      FilterNoop(s[1..], keep);
    }
  }

  /** A string with no run of two or more separators is left as it is, provided '-' is itself a separator
      and no other separator occurs in it. */
  lemma {:induction false} CollapseRunsNoop(s: string, sep: char -> bool)
    requires sep('-')
    requires forall i | 0 <= i < |s| :: sep(s[i]) ==> s[i] == '-'
    requires NoDoubleHyphen(s)
    ensures CollapseRuns(s, sep) == s
    decreases |s|
  {
    if s != [] {
      if sep(s[0]) {
        assert RunLength(s, sep) == 1 by {
          if |s| > 1 {
            assert s[1] != '-';
          }
        }
        CollapseRunsNoop(s[1..], sep);
      } else {
        CollapseRunsNoop(s[1..], sep);
      }
    }
  }
}
