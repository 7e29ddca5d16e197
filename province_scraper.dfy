/**
  The naming and URL rules of the province-website scraper: the slug made
  from a piece of text, the file name an image is saved under, the absolute
  URL an image is fetched from, and the site path `download_image` returns.
 */
module ProvinceScraper {
  import opened Wrappers
  import opened Strings

  /** The site every relative link is resolved against. */
  const BaseUrl: string := "https://siquijorprovince.com"

  /** The longest slug `slugify` returns. */
  const MaxSlugLength: nat := 50

  // ---------------------------------------------------------------------------
  // slugify

  /** The regex class `\w`: ASCII letters, digits and '_'. */
  predicate IsWordChar(c: char) {
    IsAlnum(c) || c == '_'
  }

  /** Characters kept by `re.sub(r'[^\w\s-]', '', ...)`. */
  predicate KeptBySlugify(c: char) {
    IsWordChar(c) || IsSpace(c) || c == '-'
  }

  /** The class `[\s_-]` whose runs `slugify` turns into one '-'. */
  predicate IsSlugSeparator(c: char) {
    IsSpace(c) || c == '_' || c == '-'
  }

  /** The text lower-cased and stripped, with every character outside `\w`, `\s` and '-' removed. */
  function SlugKept(text: string): (kept: string)
    ensures forall k | 0 <= k < |kept| :: KeptBySlugify(kept[k]) && !IsUpper(kept[k])
  {
    var stripped := Strip(Lower(text));
    StripKeepsNoUpper(Lower(text));
    Filter(stripped, KeptBySlugify)
  }

  lemma StripKeepsNoUpper(s: string)
    requires forall k | 0 <= k < |s| :: !IsUpper(s[k])
    ensures forall k | 0 <= k < |Strip(s)| :: !IsUpper(Strip(s)[k])
  {
  }

  /** `SlugKept` with every run of whitespace, '_' and '-' turned into a single '-'. */
  function SlugWords(text: string): (words: string)
    ensures AllSlugChars(words)
    ensures NoDoubleHyphen(words)
  {
    CollapseRuns(SlugKept(text), IsSlugSeparator)
  }

  /** `re.sub(r'^-+|-+$', '', ...)`: the middle of `s`, with the hyphens at both ends removed. */
  function TrimHyphens(s: string): (t: string)
    ensures t == [] || (t[0] != '-' && t[|t| - 1] != '-')
    ensures AllSlugChars(s) ==> AllSlugChars(t)
    ensures NoDoubleHyphen(s) ==> NoDoubleHyphen(t)
    ensures TrimmedFrom(t, s, IsHyphen)
  {
    var front := TrimStart(s, IsHyphen);
    var t := TrimEnd(front, IsHyphen);
    TrimmedKeepsSlug(s, front, t);
    TrimBoth(s, IsHyphen);
    t
  }

  /** `slugify`: a URL-friendly slug of at most 50 characters. */
  function Slugify(text: string): (slug: string)
    ensures |slug| <= MaxSlugLength
    ensures AllSlugChars(slug)
    ensures NoDoubleHyphen(slug)
    ensures slug == [] || slug[0] != '-'
    ensures slug != [] && slug[|slug| - 1] == '-' ==> |slug| == MaxSlugLength
  {
    var t := TrimHyphens(SlugWords(text));
    SliceKeepsSlug(t, 0, if |t| <= MaxSlugLength then |t| else MaxSlugLength);
    if |t| <= MaxSlugLength then t else t[..MaxSlugLength]
  }

  lemma TrimmedKeepsSlug(s: string, front: string, t: string)
    requires |t| <= |front| <= |s|
    requires front == s[|s| - |front|..] && t == front[..|t|]
    ensures AllSlugChars(s) ==> AllSlugChars(t)
    ensures NoDoubleHyphen(s) ==> NoDoubleHyphen(t)
  {
    var i := |s| - |front|;
    assert t == s[i..i + |t|];
    SliceKeepsSlug(s, i, i + |t|);
  }

  /** Text made only of kept, non-upper-case characters that does not start or end with whitespace
      passes the first three steps of `slugify` unchanged. */
  lemma SlugKeptFixes(s: string)
    requires forall k | 0 <= k < |s| :: KeptBySlugify(s[k]) && !IsUpper(s[k])
    requires s == [] || (!IsSpace(s[0]) && !IsSpace(s[|s| - 1]))
    ensures SlugKept(s) == s
  {
    assert Lower(s) == s by {
      LowerIdentity(s);
    }
    assert Strip(s) == s by {
      TrimStartNoop(s, IsSpace);
      TrimEndNoop(s, IsSpace);
    }
    FilterNoop(s, KeptBySlugify);
  }

  lemma SlugWordsFixes(s: string)
    requires AllSlugChars(s) && NoDoubleHyphen(s)
    ensures SlugWords(s) == s
  {
    SlugKeptOfSlug(s);
    CollapseOfSlug(s);
  }

  lemma SlugKeptOfSlug(s: string)
    requires AllSlugChars(s)
    ensures SlugKept(s) == s
  {
    SlugCharsPass(s);
    SlugKeptFixes(s);
  }

  lemma CollapseOfSlug(s: string)
    requires AllSlugChars(s) && NoDoubleHyphen(s)
    ensures CollapseRuns(s, IsSlugSeparator) == s
  {
    SlugCharsPass(s);
    CollapseRunsNoop(s, IsSlugSeparator);
  }

  /** Slug characters pass `slugify`'s filter, are not whitespace, and only '-' among them separates words. */
  lemma SlugCharsPass(s: string)
    requires AllSlugChars(s)
    ensures forall k | 0 <= k < |s| :: KeptBySlugify(s[k]) && !IsUpper(s[k])
    ensures s == [] || (!IsSpace(s[0]) && !IsSpace(s[|s| - 1]))
    ensures forall k | 0 <= k < |s| :: IsSlugSeparator(s[k]) ==> s[k] == '-'
  {
    forall k | 0 <= k < |s|
      ensures KeptBySlugify(s[k]) && !IsUpper(s[k]) && !IsSpace(s[k])
      ensures IsSlugSeparator(s[k]) ==> s[k] == '-'
    {
      SlugCharSeparator(s[k]);
    }
  }

  /** A slug character survives `slugify`'s filter, is not whitespace, and is a separator only if it is '-'. */
  lemma SlugCharSeparator(c: char)
    requires IsSlugChar(c)
    ensures KeptBySlugify(c) && !IsUpper(c) && !IsSpace(c)
    ensures IsSlugSeparator(c) ==> c == '-'
  {
  }

  lemma TrimHyphensFixes(s: string)
    requires s == [] || (s[0] != '-' && s[|s| - 1] != '-')
    ensures TrimHyphens(s) == s
  {
    TrimStartNoop(s, IsHyphen);
    TrimEndNoop(s, IsHyphen);
  }

  lemma TrimHyphensDropsLast(s: string)
    requires |s| >= 2 && s[0] != '-' && s[|s| - 1] == '-' && s[|s| - 2] != '-'
    ensures TrimHyphens(s) == s[..|s| - 1]
  {
    var front := s[..|s| - 1];
    assert TrimStart(s, IsHyphen) == s by {
      TrimStartNoop(s, IsHyphen);
    }
    assert TrimEnd(s, IsHyphen) == TrimEnd(front, IsHyphen);
    assert TrimEnd(front, IsHyphen) == front by {
      TrimEndNoop(front, IsHyphen);
    }
  }

  /** Before the cut, the slug holds exactly the letters and digits of the text, lower-cased and in
      order: the filters, the collapsing and the trimming only remove or replace other characters. */
  lemma SlugWordsLetters(text: string)
    ensures Filter(TrimHyphens(SlugWords(text)), IsLowerAlnum) == Filter(Lower(text), IsLowerAlnum)
  {
    var kept := SlugKept(text);
    var words := SlugWords(text);
    var t := TrimHyphens(words);
    assert Filter(t, IsLowerAlnum) == Filter(words, IsLowerAlnum) by {
      FilterTrimmed(t, words, IsHyphen, IsLowerAlnum);
    }
    assert Filter(words, IsLowerAlnum) == Filter(kept, IsLowerAlnum) by {
      FilterCollapse(kept, IsSlugSeparator, IsLowerAlnum);
    }
    SlugKeptLetters(text);
  }

  lemma SlugKeptLetters(text: string)
    ensures Filter(SlugKept(text), IsLowerAlnum) == Filter(Lower(text), IsLowerAlnum)
  {
    var lower := Lower(text);
    var stripped := Strip(lower);
    FilterFilter(stripped, KeptBySlugify, IsLowerAlnum);
    FilterTrimmed(stripped, lower, IsSpace, IsLowerAlnum);
  }

  /** The slug's letters and digits are the text's, lower-cased and in order: all of them when the
      slug is shorter than 50 characters, and otherwise the ones the cut kept. */
  lemma SlugifyLetters(text: string)
    ensures Filter(Slugify(text), IsLowerAlnum) <= Filter(Lower(text), IsLowerAlnum)
    ensures |Slugify(text)| < MaxSlugLength ==> Filter(Slugify(text), IsLowerAlnum) == Filter(Lower(text), IsLowerAlnum)
  {
    var t := TrimHyphens(SlugWords(text));
    SlugWordsLetters(text);
    if |t| > MaxSlugLength {
      FilterPrefix(t, MaxSlugLength, IsLowerAlnum);
    }
  }

  /** A slug that does not end in '-' is its own slug. */
  lemma SlugifyFixes(s: string)
    requires |s| <= MaxSlugLength && AllSlugChars(s) && NoDoubleHyphen(s)
    requires s == [] || (s[0] != '-' && s[|s| - 1] != '-')
    ensures Slugify(s) == s
  {
    SlugWordsFixes(s);
    TrimHyphensFixes(s);
  }

  /** `slugify` is idempotent, except when the cut to 50 characters left a trailing hyphen:
      a second pass then removes that one hyphen, and a third pass changes nothing. */
  lemma SlugifyTwice(text: string)
    ensures var slug := Slugify(text);
      Slugify(slug) == if slug != [] && slug[|slug| - 1] == '-' then slug[..|slug| - 1] else slug
  {
    var slug := Slugify(text);
    if slug != [] && slug[|slug| - 1] == '-' {
      SlugWordsFixes(slug);
      TrimHyphensDropsLast(slug);
    } else {
      SlugifyFixes(slug);
    }
  }

  /** The 50-character cut can leave a trailing hyphen: 49 letters followed by " b" give the
      49 letters and a hyphen. */
  lemma TrailingHyphenAfterCut(word: string)
    requires |word| == 49 && forall k | 0 <= k < |word| :: 'a' <= word[k] <= 'z'
    ensures Slugify(word + " b") == word + "-"
  {
    SpaceBecomesHyphen(word);
    DashedTrimmed(word);
    SlugifyOfWords(word + " b", word + "-b");
    CutLast(word);
  }

  lemma DashedTrimmed(word: string)
    requires word != [] && 'a' <= word[0] <= 'z'
    ensures TrimHyphens(word + "-b") == word + "-b"
  {
    var dashed := word + "-b";
    assert dashed[0] == word[0] && dashed[|dashed| - 1] == 'b';
    TrimHyphensFixes(dashed);
  }

  lemma SlugifyOfWords(text: string, words: string)
    requires SlugWords(text) == words && TrimHyphens(words) == words
    ensures Slugify(text) == if |words| <= MaxSlugLength then words else words[..MaxSlugLength]
  {
  }

  lemma SpaceBecomesHyphen(word: string)
    requires word != []
    requires forall k | 0 <= k < |word| :: 'a' <= word[k] <= 'z'
    ensures SlugWords(word + " b") == word + "-b"
  {
    calc {
      SlugWords(word + " b");
    == { LettersKept(word); }
      CollapseRuns(word + " b", IsSlugSeparator);
    == { LettersNotSeparators(word); CollapseRunsWord(word, " b"); }
      word + CollapseRuns(" b", IsSlugSeparator);
    == { CollapseSpaceB(); }
      word + "-b";
    }
  }

  lemma LettersNotSeparators(word: string)
    requires forall k | 0 <= k < |word| :: 'a' <= word[k] <= 'z'
    ensures forall k | 0 <= k < |word| :: !IsSlugSeparator(word[k])
  {
    forall k | 0 <= k < |word|
      ensures !IsSlugSeparator(word[k])
    {
      LetterInSlug(word[k]);
    }
  }

  lemma LettersKept(word: string)
    requires word != []
    requires forall k | 0 <= k < |word| :: 'a' <= word[k] <= 'z'
    ensures SlugKept(word + " b") == word + " b"
  {
    var text := word + " b";
    forall k | 0 <= k < |text|
      ensures KeptBySlugify(text[k]) && !IsUpper(text[k])
    {
      if k < |word| {
        LetterInSlug(word[k]);
      }
    }
    assert text[0] == word[0];
    LetterInSlug(word[0]);
    SlugKeptFixes(text);
  }

  lemma CutLast(word: string)
    requires |word| == 49
    ensures (word + "-b")[..50] == word + "-"
  {
    assert forall k | 0 <= k < 50 :: (word + "-b")[k] == (word + "-")[k];
  }

  lemma LetterInSlug(c: char)
    requires 'a' <= c <= 'z'
    ensures KeptBySlugify(c) && !IsUpper(c) && !IsSlugSeparator(c)
  {
  }

  lemma CollapseSpaceB()
    ensures CollapseRuns(" b", IsSlugSeparator) == "-b"
  {
    assert RunLength("b", IsSlugSeparator) == 0;
    assert RunLength(" b", IsSlugSeparator) == 1 by {
      assert " b"[1..] == "b";
    }
    assert CollapseRuns("b", IsSlugSeparator) == "b" by {
      assert "b"[1..] == "";
    }
    assert " b"[1..] == "b";
  }

  lemma {:induction false} CollapseRunsWord(word: string, rest: string)
    requires forall k | 0 <= k < |word| :: !IsSlugSeparator(word[k])
    ensures CollapseRuns(word + rest, IsSlugSeparator) == word + CollapseRuns(rest, IsSlugSeparator)
    decreases |word|
  {
    CollapseRunsByChar(word + rest, IsSlugSeparator);
    CollapseByCharWord(word, rest, IsSlugSeparator);
    CollapseRunsByChar(rest, IsSlugSeparator);
  }

  // ---------------------------------------------------------------------------
  // Image file names

  /** The description part of a file name: the slug of the alt text when it is not blank,
      otherwise the first 8 hex digits of the URL's MD5. */
  function ImageDesc(altText: string, urlDigest: Digest): (desc: string)
    ensures |desc| <= MaxSlugLength
    ensures AllSlugChars(desc)
    ensures Strip(altText) == [] ==> |desc| == 8 && desc <= urlDigest
    ensures Strip(altText) != [] ==> desc == Slugify(altText)
  {
    if Strip(altText) != [] then Slugify(altText)
    else
      DigestPrefix(urlDigest, 8);
      urlDigest[..8]
  }

  /** `get_image_filename`: `{section}-{desc}-{date}{ext}`, where `urlDigest` is the MD5 of the
      URL, `suffix` the suffix of its path and `date` the current date as YYYYMMDD. */
  function ImageFilename(section: string, altText: string, urlDigest: Digest, suffix: string, date: string)
    : (filename: string)
    ensures StartsWith(filename, section + "-")
    ensures EndsWith(filename, "-" + date + NormalizeExtension(suffix))
  {
    var head := section + "-";
    var tail := "-" + date + NormalizeExtension(suffix);
    var desc := ImageDesc(altText, urlDigest);
    ConcatEnds(head, desc, tail);
    head + desc + tail
  }

  /** The description read back out of a file name whose section, date and extension are known. */
  function DescOf(filename: string, section: string, date: string, ext: string): string
    requires |section| + |date| + |ext| + 2 <= |filename|
  {
    filename[|section| + 1..|filename| - |date| - |ext| - 1]
  }

  /** The file name is determined by its parts: reading the description back out of it gives the
      slug of the alt text, or the hash prefix. */
  lemma ImageFilenameDesc(section: string, altText: string, urlDigest: Digest, suffix: string, date: string)
    ensures var filename := ImageFilename(section, altText, urlDigest, suffix, date);
      var ext := NormalizeExtension(suffix);
      |section| + |date| + |ext| + 2 <= |filename| &&
      DescOf(filename, section, date, ext) == ImageDesc(altText, urlDigest)
  {
    var desc := ImageDesc(altText, urlDigest);
    var head := section + "-";
    var tail := "-" + date + NormalizeExtension(suffix);
    var filename := head + desc + tail;
    assert filename[|head|..|filename| - |tail|] == desc;
  }

  // ---------------------------------------------------------------------------
  // download_image

  /** The absolute URL an image is fetched from: "https:" before a protocol-relative URL, the base
      URL before a root-relative one, an "http..." URL as it is, and otherwise `joined`, the result
      of `urljoin(BASE_URL, url)`. */
  function AbsoluteUrl(url: string, joined: string): (absolute: string)
    ensures StartsWith(url, "//") ==> absolute == "https:" + url
    ensures !StartsWith(url, "//") && StartsWith(url, "/") ==> absolute == BaseUrl + url
    ensures !StartsWith(url, "/") && StartsWith(url, "http") ==> absolute == url
    ensures !StartsWith(url, "/") && !StartsWith(url, "http") ==> absolute == joined
  {
    if StartsWith(url, "//") then "https:" + url
    else if StartsWith(url, "/") then BaseUrl + url
    else if StartsWith(url, "http") then url
    else joined
  }

  /** Except in the `urljoin` branch, the URL ends up starting with "http" and is kept whole at its end. */
  lemma AbsoluteUrlIsHttp(url: string, joined: string)
    requires StartsWith(url, "/") || StartsWith(url, "http")
    ensures StartsWith(AbsoluteUrl(url, joined), "http")
    ensures EndsWith(AbsoluteUrl(url, joined), url)
  {
    var absolute := AbsoluteUrl(url, joined);
    assert absolute[|absolute| - |url|..] == url;
    if StartsWith(url, "//") {
      assert absolute[..4] == "http";
    } else if StartsWith(url, "/") {
      assert absolute[..4] == "http";
    }
  }

  /** Making an absolute URL absolute again changes nothing. */
  lemma AbsoluteUrlIdempotent(url: string, joined: string, joinedAgain: string)
    requires StartsWith(url, "/") || StartsWith(url, "http") || StartsWith(joined, "http")
    ensures AbsoluteUrl(AbsoluteUrl(url, joined), joinedAgain) == AbsoluteUrl(url, joined)
  {
    var absolute := AbsoluteUrl(url, joined);
    if StartsWith(url, "/") || StartsWith(url, "http") {
      AbsoluteUrlIsHttp(url, joined);
    }
    assert absolute[..4] == "http";
    assert !StartsWith(absolute, "/") by {
      assert absolute[0] == 'h';
    }
  }

  /** The path-returning part of `download_image`. `joined` is `urljoin(BASE_URL, url)`,
      `md5` and `suffixOf` give the hex MD5 of a URL and the suffix of its path, `date` is the
      current date, `alreadySaved` whether the file is already on disk and `downloaded` whether
      fetching and saving it succeeded. The result is the site path of the image, or None on failure. */
  function DownloadImage(url: string, section: string, altText: string, joined: string,
                         md5: string -> Digest, suffixOf: string -> string, date: string,
                         alreadySaved: bool, downloaded: bool)
    : (path: Option<string>)
    ensures path.Some? <==> alreadySaved || downloaded
    ensures var absolute := AbsoluteUrl(url, joined);
      path.Some? ==> path.value == ScrapedPath(section, ImageFilename(section, altText, md5(absolute), suffixOf(absolute), date))
  {
    var absolute := AbsoluteUrl(url, joined);
    var filename := ImageFilename(section, altText, md5(absolute), suffixOf(absolute), date);
    if alreadySaved then Some(ScrapedPath(section, filename))
    else if downloaded then Some(ScrapedPath(section, filename))
    else None
  }

  /** A returned path names the image's section folder and a file of that section. */
  lemma DownloadImagePath(url: string, section: string, altText: string, joined: string,
                          md5: string -> Digest, suffixOf: string -> string, date: string,
                          alreadySaved: bool, downloaded: bool)
    requires alreadySaved || downloaded
    ensures var path := DownloadImage(url, section, altText, joined, md5, suffixOf, date, alreadySaved, downloaded);
      path.Some? && StartsWith(path.value, "/images/scraped/" + section + "/" + section + "-")
  {
    var absolute := AbsoluteUrl(url, joined);
    var filename := ImageFilename(section, altText, md5(absolute), suffixOf(absolute), date);
    var folder := "/images/scraped/" + section + "/";
    StartsWithPrefixed(folder, filename, section + "-");
    assert ScrapedPath(section, filename) == folder + filename;
    assert folder + (section + "-") == "/images/scraped/" + section + "/" + section + "-";
  }
}
