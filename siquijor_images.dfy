/**
  Image triage and naming of the Siquijor blog scraper: which image URLs are
  kept, which images are about Siquijor, which of the eight location folders
  an image goes to, and the file name it is saved under.
 */
module SiquijorImages {
  import opened Wrappers
  import opened Strings

  /** An image is about Siquijor when its alt text or URL mentions one of these. */
  const SiquijorKeywords: seq<string> := [
    "siquijor", "cambugahay", "salagdoong", "paliton", "lazi", "san juan",
    "balete tree", "enchanted", "healers", "mananambal", "tubod", "apo island",
    "cliff jumping", "waterfall", "beach", "diving", "snorkeling"
  ]

  /** A location folder and the keywords that send an image to it. */
  datatype Location = Location(name: string, keywords: seq<string>)

  /** The location table, in the order the classifier tries it. */
  const LocationKeywords: seq<Location> := [
    Location("cambugahay-falls", ["cambugahay", "falls", "waterfall", "turquoise", "rope swing"]),
    Location("salagdoong-beach", ["salagdoong", "cliff jump", "cliff diving", "maria"]),
    Location("paliton-beach", ["paliton", "sunset", "palm tree", "beach"]),
    Location("balete-tree", ["balete", "enchanted tree", "old tree", "fish spa"]),
    Location("lazi-church", ["lazi", "church", "convent", "heritage"]),
    Location("apo-island", ["apo island", "turtle", "snorkeling", "diving"]),
    Location("tubod-sanctuary", ["tubod", "marine sanctuary", "coral"]),
    Location("siquijor-general", ["siquijor", "island", "mystical", "coastal road"])
  ]

  /** The folder used when no location keyword matches. */
  const GeneralCategory: string := "siquijor-general"

  /** URL fragments of logos, icons, ads, share buttons and trackers. */
  const SkipPatterns: seq<string> := [
    "logo", "icon", "avatar", "favicon", "widget", "ad-", "advertisement",
    "banner", "button", "arrow", "social", "share", "pinterest", "facebook",
    "twitter", "instagram", "youtube", "email", "subscribe", "footer",
    "header-logo", "sprite", "placeholder", "loading", "lazy", "1x1",
    "pixel", "tracking", "analytics", "gravatar"
  ]

  /** The lower-cased `f"{alt_text} {src}"` that both the topic filter and the classifier search. */
  function CombinedText(altText: string, src: string): (text: string)
    ensures text == Lower(altText) + " " + Lower(src)
    ensures |text| == |altText| + 1 + |src|
  {
    LowerConcat(altText, " ");
    LowerConcat(altText + " ", src);
    Lower(altText + " " + src)
  }

  predicate Mentions(text: string, location: Location) {
    ContainsAny(text, location.keywords)
  }

  // ---------------------------------------------------------------------------
  // Filters

  /** An image URL is kept when it is non-empty and contains no skip pattern, ignoring case. */
  predicate IsValidImageUrl(url: string): (valid: bool)
    ensures valid <==> url != "" && forall k | 0 <= k < |SkipPatterns| :: !Contains(Lower(url), SkipPatterns[k])
  {
    url != "" && !ContainsAny(Lower(url), SkipPatterns)
  }

  /** An image is about Siquijor when its lower-cased alt text and URL mention a Siquijor keyword;
      a keyword in the alt text alone, or in the URL alone, is enough. */
  predicate IsSiquijorRelated(altText: string, src: string): (related: bool)
    ensures related <==> exists k | 0 <= k < |SiquijorKeywords| :: Contains(CombinedText(altText, src), SiquijorKeywords[k])
    ensures ContainsAny(Lower(altText), SiquijorKeywords) ==> related
    ensures ContainsAny(Lower(src), SiquijorKeywords) ==> related
  {
    CombinedParts(altText, src, SiquijorKeywords);
    ContainsAny(CombinedText(altText, src), SiquijorKeywords)
  }

  /** A keyword found in the alt text or in the URL is found in their combination. */
  lemma CombinedParts(altText: string, src: string, keys: seq<string>)
    ensures ContainsAny(Lower(altText), keys) ==> ContainsAny(CombinedText(altText, src), keys)
    ensures ContainsAny(Lower(src), keys) ==> ContainsAny(CombinedText(altText, src), keys)
  {
    LowerConcat(altText, " ");
    LowerConcat(altText + " ", src);
    var front := Lower(altText) + Lower(" ");
    if ContainsAny(Lower(altText), keys) {
      ContainsAnyWithin(Lower(altText), keys, [], Lower(" ") + Lower(src));
      assert [] + Lower(altText) + (Lower(" ") + Lower(src)) == CombinedText(altText, src);
    }
    if ContainsAny(Lower(src), keys) {
      ContainsAnyWithin(Lower(src), keys, front, []);
      assert front + Lower(src) + [] == CombinedText(altText, src);
    }
  }

  /** The URL filter ignores case. */
  lemma ValidUrlIgnoresCase(url: string)
    ensures IsValidImageUrl(Lower(url)) == IsValidImageUrl(url)
  {
    LowerIdempotent(url);
  }

  /** A rejected non-empty URL stays rejected whatever text surrounds it. */
  lemma RejectedUrlStaysRejected(url: string, before: string, after: string)
    requires url != "" && !IsValidImageUrl(url)
    ensures !IsValidImageUrl(before + url + after)
  {
    LowerConcat(before, url);
    LowerConcat(before + url, after);
    ContainsAnyWithin(Lower(url), SkipPatterns, Lower(before), Lower(after));
  }

  /** The topic filter ignores case in both the alt text and the URL. */
  lemma RelatedIgnoresCase(altText: string, src: string)
    ensures IsSiquijorRelated(Lower(altText), Lower(src)) == IsSiquijorRelated(altText, src)
  {
    LowerConcat(altText, " ");
    LowerConcat(altText + " ", src);
    LowerConcat(Lower(altText), " ");
    LowerConcat(Lower(altText) + " ", Lower(src));
    LowerIdempotent(altText);
    LowerIdempotent(src);
  }

  /** Adding text before the alt text or after the URL never makes a Siquijor image unrelated. */
  lemma RelatedSurvivesMoreText(altText: string, src: string, before: string, after: string)
    requires IsSiquijorRelated(altText, src)
    ensures IsSiquijorRelated(before + altText, src + after)
  {
    var inner := altText + " " + src;
    assert (before + altText) + " " + (src + after) == before + inner + after;
    LowerConcat(before, inner);
    LowerConcat(before + inner, after);
    ContainsAnyWithin(Lower(inner), SiquijorKeywords, Lower(before), Lower(after));
  }

  // ---------------------------------------------------------------------------
  // Classification

  /** The position of the first location, in table order, one of whose keywords occurs in `text`. */
  function FirstLocation(text: string, locations: seq<Location>): (r: Option<nat>)
    ensures r.Some? ==> r.value < |locations| && Mentions(text, locations[r.value])
    ensures r.Some? ==> forall j | 0 <= j < r.value :: !Mentions(text, locations[j])
    ensures r.None? ==> forall j | 0 <= j < |locations| :: !Mentions(text, locations[j])
  {
    if locations == [] then None
    else if Mentions(text, locations[0]) then Some(0)
    else
      match FirstLocation(text, locations[1..])
      case None => None
      case Some(k) => Some(k + 1)
  }

  /** The location folder of an image: the first location in table order with a keyword in the
      lower-cased alt text and URL, and "siquijor-general" when there is none. */
  function CategorizeImage(altText: string, src: string): (category: string)
    ensures exists i | 0 <= i < |LocationKeywords| :: category == LocationKeywords[i].name
    ensures (forall j | 0 <= j < |LocationKeywords| :: !Mentions(CombinedText(altText, src), LocationKeywords[j]))
      ==> category == GeneralCategory
    ensures forall i | 0 <= i < |LocationKeywords| ::
      (Mentions(CombinedText(altText, src), LocationKeywords[i]) &&
       forall j | 0 <= j < i :: !Mentions(CombinedText(altText, src), LocationKeywords[j]))
      ==> category == LocationKeywords[i].name
  {
    match FirstLocation(CombinedText(altText, src), LocationKeywords)
    case Some(i) => LocationKeywords[i].name
    case None =>
      assert GeneralCategory == LocationKeywords[7].name;
      GeneralCategory
  }

  /** "salagdoong beach" goes to the Salagdoong folder although "beach" is a Paliton keyword:
      the Salagdoong row comes first. */
  lemma SalagdoongBeforePaliton(altText: string, src: string)
    requires Contains(CombinedText(altText, src), "salagdoong")
    requires Contains(CombinedText(altText, src), "beach")
    requires !Mentions(CombinedText(altText, src), LocationKeywords[0])
    ensures Mentions(CombinedText(altText, src), LocationKeywords[2])
    ensures CategorizeImage(altText, src) == "salagdoong-beach"
  {
    var text := CombinedText(altText, src);
    assert "salagdoong" in LocationKeywords[1].keywords;
    assert "beach" in LocationKeywords[2].keywords;
    assert Mentions(text, LocationKeywords[1]);
    assert forall j | 0 <= j < 1 :: !Mentions(text, LocationKeywords[j]);
  }

  // ---------------------------------------------------------------------------
  // File names

  /** Characters kept by `re.sub(r'[^a-zA-Z0-9\s-]', '', ...)`. */
  predicate KeptByCleanName(c: char) {
    IsAlnum(c) || IsSpace(c) || c == '-'
  }

  /** The file-name part derived from non-empty alt text: lower-cased, stripped of every character
      outside letters, digits, whitespace and '-', trimmed, each whitespace run turned into '-',
      and cut to 50 characters. Runs of '-' are kept as they are. */
  function CleanAltText(altText: string): (clean: string)
    ensures |clean| <= 50
    ensures AllSlugChars(clean)
  {
    var dashed := DashedAltText(altText);
    if |dashed| <= 50 then dashed
    else
      SliceKeepsSlug(dashed, 0, 50);
      dashed[..50]
  }

  /** The alt text before the cut to 50 characters. */
  function DashedAltText(altText: string): (dashed: string)
    ensures AllSlugChars(dashed)
  {
    var kept := Filter(Lower(altText), KeptByCleanName);
    KeptNotUpper(altText);
    var stripped := Strip(kept);
    StrippedClean(kept);
    CleanedSlugChars(stripped);
    CollapseRuns(stripped, IsSpace)
  }

  lemma KeptNotUpper(altText: string)
    ensures var kept := Filter(Lower(altText), KeptByCleanName);
      forall k | 0 <= k < |kept| :: KeptByCleanName(kept[k]) && !IsUpper(kept[k])
  {
    var lower := Lower(altText);
    var kept := Filter(lower, KeptByCleanName);
    forall k | 0 <= k < |kept|
      ensures !IsUpper(kept[k])
    {
      var j :| 0 <= j < |lower| && lower[j] == kept[k];
      assert lower[j] == LowerChar(altText[j]);
    }
  }

  lemma StrippedClean(kept: string)
    requires forall k | 0 <= k < |kept| :: KeptByCleanName(kept[k]) && !IsUpper(kept[k])
    ensures forall k | 0 <= k < |Strip(kept)| :: KeptByCleanName(Strip(kept)[k]) && !IsUpper(Strip(kept)[k])
  {
  }

  /** Collapsing the whitespace of cleaned text leaves only slug characters. */
  lemma CleanedSlugChars(stripped: string)
    requires forall k | 0 <= k < |stripped| :: KeptByCleanName(stripped[k]) && !IsUpper(stripped[k])
    ensures AllSlugChars(CollapseRuns(stripped, IsSpace))
  {
    var r := CollapseRuns(stripped, IsSpace);
    forall i | 0 <= i < |r|
      ensures IsSlugChar(r[i])
    {
      if r[i] != '-' {
        var j :| 0 <= j < |stripped| && stripped[j] == r[i];
        CleanCharIsSlug(r[i]);
      }
    }
  }

  lemma CleanCharIsSlug(c: char)
    requires KeptByCleanName(c) && !IsUpper(c) && !IsSpace(c)
    ensures IsSlugChar(c)
  {
  }

  /** Before the cut, the clean name holds exactly the letters and digits of the alt text,
      lower-cased and in order. */
  lemma DashedAltTextLetters(altText: string)
    ensures Filter(DashedAltText(altText), IsLowerAlnum) == Filter(Lower(altText), IsLowerAlnum)
  {
    var lower := Lower(altText);
    var kept := Filter(lower, KeptByCleanName);
    var stripped := Strip(kept);
    assert DashedAltText(altText) == CollapseRuns(stripped, IsSpace);
    FilterCollapse(stripped, IsSpace, IsLowerAlnum);
    FilterTrimmed(stripped, kept, IsSpace, IsLowerAlnum);
    FilterFilter(lower, KeptByCleanName, IsLowerAlnum);
  }

  /** The clean name's letters and digits are the alt text's, lower-cased and in order: all of them
      when the name is shorter than 50 characters, and otherwise the ones the cut kept. */
  lemma CleanAltTextLetters(altText: string)
    ensures Filter(CleanAltText(altText), IsLowerAlnum) <= Filter(Lower(altText), IsLowerAlnum)
    ensures |CleanAltText(altText)| < 50 ==> Filter(CleanAltText(altText), IsLowerAlnum) == Filter(Lower(altText), IsLowerAlnum)
  {
    var dashed := DashedAltText(altText);
    DashedAltTextLetters(altText);
    if |dashed| > 50 {
      FilterPrefix(dashed, 50, IsLowerAlnum);
    }
  }

  /** Alt text already made of a-z, 0-9 and '-' only is just cut to 50 characters: in particular
      "a--b" stays "a--b", because only whitespace runs are collapsed. */
  lemma CleanAltTextKeepsSlugs(altText: string)
    requires AllSlugChars(altText)
    ensures CleanAltText(altText) == if |altText| <= 50 then altText else altText[..50]
  {
    LowerIdentity(altText);
    FilterNoop(altText, KeptByCleanName);
    assert Filter(Lower(altText), KeptByCleanName) == altText;
    StripNoop(altText);
    CollapseRunsNoSeparator(altText, IsSpace);
    assert DashedAltText(altText) == altText;
  }

  /** Cleaning a clean name again changes nothing. */
  lemma CleanAltTextIdempotent(altText: string)
    ensures CleanAltText(CleanAltText(altText)) == CleanAltText(altText)
  {
    CleanAltTextKeepsSlugs(CleanAltText(altText));
  }

  /** The middle part of a saved image's name: the cleaned alt text, or the first 12 hex digits
      of the MD5 of the image URL `src` when the alt text is empty. `md5` is the hex MD5 digest. */
  function CleanName(altText: string, src: string, md5: string -> Digest): (name: string)
    ensures |name| <= 50
    ensures AllSlugChars(name)
    ensures altText == "" ==> |name| == 12 && name <= md5(src)
    ensures altText != "" ==> name == CleanAltText(altText)
  {
    if altText != "" then CleanAltText(altText)
    else
      var digest := md5(src);
      DigestPrefix(digest, 12);
      digest[..12]
  }

  /** The saved file name `{category}-{clean}-{timestamp}{ext}` of the image at URL `src`, where
      `md5` gives the hex MD5 of a URL, `suffixOf` the suffix of a URL's path and `timestamp` is the
      date as YYYYMMDD. */
  function GenerateFilename(altText: string, src: string, category: string,
                            md5: string -> Digest, suffixOf: string -> string, timestamp: string)
    : (filename: string)
    ensures StartsWith(filename, category + "-")
    ensures EndsWith(filename, "-" + timestamp + NormalizeExtension(suffixOf(src)))
    ensures |category| + |timestamp| + 6 <= |filename| <= |category| + |timestamp| + 57
  {
    var ext := NormalizeExtension(suffixOf(src));
    var tail := "-" + timestamp + ext;
    var clean := CleanName(altText, src, md5);
    ExtensionLength(ext);
    ConcatEnds(category + "-", clean, tail);
    category + "-" + clean + tail
  }

  /** The name is determined by its parts: between the category and the timestamp lies exactly the
      clean name. */
  lemma GenerateFilenameClean(altText: string, src: string, category: string,
                              md5: string -> Digest, suffixOf: string -> string, timestamp: string)
    ensures var filename := GenerateFilename(altText, src, category, md5, suffixOf, timestamp);
      var ext := NormalizeExtension(suffixOf(src));
      |category| + |timestamp| + |ext| + 2 <= |filename| &&
      filename[|category| + 1..|filename| - |timestamp| - |ext| - 1] == CleanName(altText, src, md5)
  {
    var head := category + "-";
    var clean := CleanName(altText, src, md5);
    var tail := "-" + timestamp + NormalizeExtension(suffixOf(src));
    var filename := head + clean + tail;
    assert filename[|head|..|filename| - |tail|] == clean;
  }

  lemma ExtensionLength(ext: string)
    requires ext in ImageExtensions
    ensures 4 <= |ext| <= 5
  {
  }
}
