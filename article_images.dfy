/**
  The hero-image updater for the travel articles: picks the largest scraped
  image of a location folder, rewrites the quoted `src` of an article's
  `heroImage` block to point at it.

  The file system is a parameter: a category folder is an optional list of
  (name, size) entries, and the articles are a map from slug to text.
 */
module ArticleImages {
  import opened Wrappers
  import opened Strings

  // ---------------------------------------------------------------------------
  // Choosing the image of a category

  /** A file of a category folder and its size in bytes. */
  datatype FileEntry = FileEntry(name: string, size: nat)

  /** Every file of `matched` is a file of `files` whose name ends with `ext`. */
  predicate MatchedFrom(matched: seq<FileEntry>, files: seq<FileEntry>, ext: string) {
    forall k | 0 <= k < |matched| :: matched[k] in files && EndsWith(matched[k].name, ext)
  }

  /** The files of `files`, in folder order, whose name ends with `ext`. */
  function Globbed(files: seq<FileEntry>, ext: string): (matched: seq<FileEntry>)
    ensures |matched| <= |files|
    ensures MatchedFrom(matched, files, ext)
  {
    if files == [] then []
    else (if EndsWith(files[0].name, ext) then [files[0]] else []) + Globbed(files[1..], ext)
  }

  lemma {:induction false} GlobbedMembership(files: seq<FileEntry>, ext: string, f: FileEntry)
    ensures f in Globbed(files, ext) <==> f in files && EndsWith(f.name, ext)
  {
    if files != [] {
      GlobbedMembership(files[1..], ext, f);
      assert files == [files[0]] + files[1..];
    }
  }

  /** A name matched by one of the patterns `*.jpg`, `*.jpeg`, `*.png` and `*.webp`. */
  predicate IsGlobbedImage(name: string) {
    EndsWith(name, ".jpg") || EndsWith(name, ".jpeg") || EndsWith(name, ".png") || EndsWith(name, ".webp")
  }

  /** The images scanned for a category: the .jpg files, then .jpeg, then .png, then .webp,
      each group in folder order. No file is scanned twice, since a name ends with at most one of
      the four suffixes. */
  function Candidates(files: seq<FileEntry>): (images: seq<FileEntry>)
    ensures |images| <= |files|
  {
    GlobCount(files);
    Globbed(files, ".jpg") + Globbed(files, ".jpeg") + Globbed(files, ".png") + Globbed(files, ".webp")
  }

  /** The second-to-last character tells the four suffixes apart: 'p', 'e', 'n' and 'b'. */
  lemma SecondLast(name: string, ext: string)
    requires |ext| >= 2
    ensures EndsWith(name, ext) ==> name[|name| - 2] == ext[|ext| - 2]
  {
    if EndsWith(name, ext) {
      assert name[|name| - 2] == name[|name| - |ext|..][|ext| - 2];
    }
  }

  /** A name ends with at most one of `.jpg`, `.jpeg`, `.png` and `.webp`. */
  lemma SuffixesExclusive(name: string)
    ensures EndsWith(name, ".jpeg") ==> !EndsWith(name, ".jpg")
    ensures EndsWith(name, ".png") ==> !EndsWith(name, ".jpg") && !EndsWith(name, ".jpeg")
    ensures EndsWith(name, ".webp") ==> !EndsWith(name, ".jpg") && !EndsWith(name, ".jpeg") && !EndsWith(name, ".png")
  {
    SecondLast(name, ".jpg");
    SecondLast(name, ".jpeg");
    SecondLast(name, ".png");
    SecondLast(name, ".webp");
  }

  /** The four globs together match no more files than the folder holds. */
  lemma {:induction false} GlobCount(files: seq<FileEntry>)
    ensures |Globbed(files, ".jpg")| + |Globbed(files, ".jpeg")| + |Globbed(files, ".png")| + |Globbed(files, ".webp")| <= |files|
  {
    if files != [] {
      GlobCount(files[1..]);
      SuffixesExclusive(files[0].name);
    }
  }

  /** Which of the four globs matches `name`, counted in scan order: 0 for `*.jpg`, 1 for `*.jpeg`,
      2 for `*.png`, 3 for `*.webp`. */
  function GlobRank(name: string): nat {
    if EndsWith(name, ".jpg") then 0
    else if EndsWith(name, ".jpeg") then 1
    else if EndsWith(name, ".png") then 2
    else 3
  }

  /** The candidates come glob by glob: every .jpg file is scanned before every .jpeg file, which
      comes before every .png file, which comes before every .webp file. */
  lemma CandidatesInScanOrder(files: seq<FileEntry>)
    ensures forall i, j | 0 <= i < j < |Candidates(files)| ::
      GlobRank(Candidates(files)[i].name) <= GlobRank(Candidates(files)[j].name)
  {
    forall i, j | 0 <= i < j < |Candidates(files)|
      ensures GlobRank(Candidates(files)[i].name) <= GlobRank(Candidates(files)[j].name)
    {
      RankAt(files, i);
      RankAt(files, j);
    }
  }

  /** The rank of the candidate at `k` is the glob group `k` falls in. */
  lemma RankAt(files: seq<FileEntry>, k: nat)
    requires k < |Candidates(files)|
    ensures var a := |Globbed(files, ".jpg")|;
      var b := a + |Globbed(files, ".jpeg")|;
      var c := b + |Globbed(files, ".png")|;
      GlobRank(Candidates(files)[k].name) == if k < a then 0 else if k < b then 1 else if k < c then 2 else 3
  {
    var A, B, C, D := Globbed(files, ".jpg"), Globbed(files, ".jpeg"), Globbed(files, ".png"), Globbed(files, ".webp");
    var images := Candidates(files);
    assert images == A + B + C + D;
    var name := images[k].name;
    SuffixesExclusive(name);
    if k < |A| {
      assert images[k] == A[k];
    } else if k < |A| + |B| {
      assert images[k] == B[k - |A|];
    } else if k < |A| + |B| + |C| {
      assert images[k] == C[k - |A| - |B|];
    } else {
      assert images[k] == D[k - |A| - |B| - |C|];
    }
  }

  /** Within one glob the folder order is kept: the candidates with one of the four suffixes are
      the folder's files with that suffix, in folder order. */
  lemma CandidatesOfOneGlob(files: seq<FileEntry>, k: nat)
    requires k < |ImageGlobs|
    ensures Globbed(Candidates(files), ImageGlobs[k]) == Globbed(files, ImageGlobs[k])
  {
    assert Candidates(files) == Globbed(files, ImageGlobs[0]) + Globbed(files, ImageGlobs[1])
      + Globbed(files, ImageGlobs[2]) + Globbed(files, ImageGlobs[3]);
    KeepOne(files, ImageGlobs, k);
  }

  /** Of the files the four globs matched, in order, the glob `globs[k]` keeps exactly its own,
      when its suffix's second-to-last character is not that of any other glob. */
  lemma KeepOne(files: seq<FileEntry>, globs: seq<string>, k: nat)
    requires |globs| == 4 && k < 4
    requires forall i | 0 <= i < 4 && i != k :: Apart(globs[i], globs[k])
    ensures Globbed(Globbed(files, globs[0]) + Globbed(files, globs[1]) + Globbed(files, globs[2])
      + Globbed(files, globs[3]), globs[k]) == Globbed(files, globs[k])
  {
    var ext := globs[k];
    var A, B, C, D := Globbed(files, globs[0]), Globbed(files, globs[1]), Globbed(files, globs[2]), Globbed(files, globs[3]);
    GlobbedConcat4(A, B, C, D, ext);
    GlobbedTwice(files, ext);
    if k == 0 {
      GlobbedApartOf(files, globs[1], ext);
      GlobbedApartOf(files, globs[2], ext);
      GlobbedApartOf(files, globs[3], ext);
      assert A + [] + [] + [] == A;
    } else if k == 1 {
      GlobbedApartOf(files, globs[0], ext);
      GlobbedApartOf(files, globs[2], ext);
      GlobbedApartOf(files, globs[3], ext);
      assert [] + B + [] + [] == B;
    } else if k == 2 {
      GlobbedApartOf(files, globs[0], ext);
      GlobbedApartOf(files, globs[1], ext);
      GlobbedApartOf(files, globs[3], ext);
      assert [] + [] + C + [] == C;
    } else {
      GlobbedApartOf(files, globs[0], ext);
      GlobbedApartOf(files, globs[1], ext);
      GlobbedApartOf(files, globs[2], ext);
      assert [] + [] + [] + D == D;
    }
  }

  /** Two suffixes with different second-to-last characters: no name ends with both. */
  predicate Apart(ext: string, other: string) {
    |ext| >= 2 && |other| >= 2 && ext[|ext| - 2] != other[|other| - 2]
  }

  /** The files one glob matched include none that a glob with a different second-to-last character matches. */
  lemma GlobbedApartOf(files: seq<FileEntry>, ext: string, other: string)
    requires Apart(ext, other)
    ensures Globbed(Globbed(files, ext), other) == []
  {
    GlobbedApart(Globbed(files, ext), ext, other);
  }

  /** The suffixes of the four globs, in scan order. */
  const ImageGlobs: seq<string> := [".jpg", ".jpeg", ".png", ".webp"]

  lemma GlobbedConcat4(a: seq<FileEntry>, b: seq<FileEntry>, c: seq<FileEntry>, d: seq<FileEntry>, ext: string)
    ensures Globbed(a + b + c + d, ext) == Globbed(a, ext) + Globbed(b, ext) + Globbed(c, ext) + Globbed(d, ext)
  {
    GlobbedConcat(a + b + c, d, ext);
    GlobbedConcat(a + b, c, ext);
    GlobbedConcat(a, b, ext);
  }

  lemma {:induction false} GlobbedConcat(a: seq<FileEntry>, b: seq<FileEntry>, ext: string)
    ensures Globbed(a + b, ext) == Globbed(a, ext) + Globbed(b, ext)
  {
    if a != [] {
      GlobbedConcat(a[1..], b, ext);
      assert (a + b)[1..] == a[1..] + b;
    } else {
      assert a + b == b;
    }
  }

  lemma {:induction false} GlobbedTwice(files: seq<FileEntry>, ext: string)
    ensures Globbed(Globbed(files, ext), ext) == Globbed(files, ext)
  {
    if files != [] {
      GlobbedTwice(files[1..], ext);
      var head := if EndsWith(files[0].name, ext) then [files[0]] else [];
      GlobbedConcat(head, Globbed(files[1..], ext), ext);
    }
  }

  /** Files that all end with `ext` have none ending with a suffix whose second-to-last character differs. */
  lemma {:induction false} GlobbedApart(files: seq<FileEntry>, ext: string, other: string)
    requires |ext| >= 2 && |other| >= 2 && ext[|ext| - 2] != other[|other| - 2]
    requires forall k | 0 <= k < |files| :: EndsWith(files[k].name, ext)
    ensures Globbed(files, other) == []
  {
    if files != [] {
      SecondLast(files[0].name, ext);
      SecondLast(files[0].name, other);
      GlobbedApart(files[1..], ext, other);
    }
  }

  /** The candidates are exactly the folder's .jpg, .jpeg, .png and .webp files. */
  lemma CandidateMembership(files: seq<FileEntry>, f: FileEntry)
    ensures f in Candidates(files) <==> f in files && IsGlobbedImage(f.name)
  {
    GlobbedMembership(files, ".jpg", f);
    GlobbedMembership(files, ".jpeg", f);
    GlobbedMembership(files, ".png", f);
    GlobbedMembership(files, ".webp", f);
  }

  /** A .gif file is never a candidate. */
  lemma GifNeverCandidate(files: seq<FileEntry>, f: FileEntry)
    requires EndsWith(f.name, ".gif")
    ensures f !in Candidates(files)
  {
    assert f.name[|f.name| - 1] == 'f';
    CandidateMembership(files, f);
  }

  /** The largest size in `images`, 0 when there is none. */
  function MaxSize(images: seq<FileEntry>): (m: nat)
    ensures forall j | 0 <= j < |images| :: images[j].size <= m
    ensures m == 0 || exists j | 0 <= j < |images| :: images[j].size == m
  {
    if images == [] then 0
    else
      var n := |images| - 1;
      var rest := MaxSize(images[..n]);
      assert forall j | 0 <= j < n :: images[j] == images[..n][j];
      if images[n].size > rest then images[n].size else rest
  }

  /** The position of the first image of size `m`. */
  function FirstOfSize(images: seq<FileEntry>, m: nat): (k: nat)
    requires exists j | 0 <= j < |images| :: images[j].size == m
    ensures k < |images| && images[k].size == m
    ensures forall j | 0 <= j < k :: images[j].size != m
  {
    if images[0].size == m then 0
    else
      assert exists j | 0 <= j < |images[1..]| :: images[1..][j].size == m by {
        var j :| 0 <= j < |images| && images[j].size == m;
        assert images[1..][j - 1] == images[j];
      }
      1 + FirstOfSize(images[1..], m)
  }

  /** The image `get_best_image` keeps: the first of the largest ones, or none when every
      candidate is empty (the running best starts at size 0 and is only replaced by a
      strictly larger file). */
  function BestIndex(images: seq<FileEntry>): (best: Option<nat>)
    ensures best.None? <==> forall j | 0 <= j < |images| :: images[j].size == 0
    ensures best.Some? ==> IsFirstLargest(images, best.value)
  {
    var m := MaxSize(images);
    if m == 0 then None else Some(FirstOfSize(images, m))
  }

  /** `k` is a non-empty image no other image is larger than, and every image before it is smaller. */
  predicate IsFirstLargest(images: seq<FileEntry>, k: nat) {
    k < |images| && images[k].size > 0 &&
    (forall j | 0 <= j < |images| :: images[j].size <= images[k].size) &&
    (forall j | 0 <= j < k :: images[j].size < images[k].size)
  }

  /** At most one position is the first of the largest images. */
  lemma FirstLargestUnique(images: seq<FileEntry>, k: nat, l: nat)
    requires IsFirstLargest(images, k) && IsFirstLargest(images, l)
    ensures k == l
  {
  }

  /** Scanning one more image: it becomes the best exactly when it is strictly larger than every
      image before it. */
  lemma BestIndexStep(images: seq<FileEntry>, i: nat)
    requires i < |images|
    ensures BestIndex(images[..i + 1]) ==
      if images[i].size > MaxSize(images[..i]) then Some(i) else BestIndex(images[..i])
    ensures MaxSize(images[..i + 1]) ==
      if images[i].size > MaxSize(images[..i]) then images[i].size else MaxSize(images[..i])
  {
    var before := images[..i];
    var after := images[..i + 1];
    PrefixStep(images, i);
    assert MaxSize(after) == if images[i].size > MaxSize(before) then images[i].size else MaxSize(before);
    if images[i].size > MaxSize(before) {
      NewLargest(before, after);
    } else {
      SameLargest(before, after);
    }
  }

  /** A last image larger than all before it is the first of the largest. */
  lemma NewLargest(before: seq<FileEntry>, after: seq<FileEntry>)
    requires |after| == |before| + 1 && forall j | 0 <= j < |before| :: after[j] == before[j]
    requires after[|before|].size > MaxSize(before)
    ensures BestIndex(after) == Some(|before|)
  {
    var i := |before|;
    assert IsFirstLargest(after, i);
    FirstLargestUnique(after, BestIndex(after).value, i);
  }

  /** A last image no larger than the largest before it changes nothing. */
  lemma SameLargest(before: seq<FileEntry>, after: seq<FileEntry>)
    requires |after| == |before| + 1 && forall j | 0 <= j < |before| :: after[j] == before[j]
    requires after[|before|].size <= MaxSize(before)
    ensures BestIndex(after) == BestIndex(before)
  {
    var i := |before|;
    match BestIndex(before)
    case None =>
      assert forall j | 0 <= j <= i :: after[j].size == 0;
    case Some(k) =>
      LargestIsMax(before, k);
      assert after[k] == before[k];
      forall j | 0 <= j < |after|
        ensures after[j].size <= after[k].size
      {
        if j < i {
          assert after[j] == before[j];
        } else {
          assert j == i;
        }
      }
      assert IsFirstLargest(after, k);
      FirstLargestUnique(after, BestIndex(after).value, k);
  }

  /** The first of the largest images has the largest size. */
  lemma LargestIsMax(images: seq<FileEntry>, k: nat)
    requires IsFirstLargest(images, k)
    ensures MaxSize(images) == images[k].size
  {
    var j :| 0 <= j < |images| && images[j].size == MaxSize(images);
  }

  lemma PrefixStep(images: seq<FileEntry>, i: nat)
    requires i < |images|
    ensures |images[..i + 1]| == i + 1 && images[..i + 1][i] == images[i]
    ensures images[..i + 1][..i] == images[..i]
    ensures forall j | 0 <= j < i :: images[..i + 1][j] == images[..i][j]
  {
  }

  /** `get_best_image` as a function of the category folder (None when the folder is missing). */
  function BestImage(category: string, folder: Option<seq<FileEntry>>): (path: Option<string>)
    ensures path.None? <==> folder.None? || forall f | f in Candidates(folder.value) :: f.size == 0
    ensures path.Some? ==> exists f | f in Candidates(folder.value) :: f.size > 0 && path.value == ScrapedPath(category, f.name)
  {
    match folder
    case None => None
    case Some(files) =>
      var images := Candidates(files);
      match BestIndex(images)
      case None => None
      case Some(k) => Some(ScrapedPath(category, images[k].name))
  }

  /** `get_best_image`: scans the candidates keeping the strictly largest one seen so far. */
  method GetBestImage(category: string, folder: Option<seq<FileEntry>>) returns (path: Option<string>)
    ensures path == BestImage(category, folder)
    ensures path.Some? ==> exists k | 0 <= k < |Candidates(folder.value)| ::
      IsFirstLargest(Candidates(folder.value), k) && path.value == ScrapedPath(category, Candidates(folder.value)[k].name)
  {
    if folder.None? {
      return None;
    }
    var images := Candidates(folder.value);
    if images == [] {
      return None;
    }
    var best: Option<nat> := None;
    var bestSize := 0;
    for i := 0 to |images|
      invariant bestSize == MaxSize(images[..i])
      invariant best == BestIndex(images[..i])
    {
      BestIndexStep(images, i);
      if images[i].size > bestSize {
        bestSize := images[i].size;
        best := Some(i);
      }
    }
    assert images[..|images|] == images;
    if best.Some? {
      return Some(ScrapedPath(category, images[best.value].name));
    }
    return None;
  }

  // ---------------------------------------------------------------------------
  // Rewriting the hero image of an article

  /** Every character of `text[lo..hi]` is whitespace. */
  predicate AllSpace(text: string, lo: nat, hi: nat) {
    lo <= hi <= |text| && forall k | lo <= k < hi :: IsSpace(text[k])
  }

  /** No character of `text[lo..hi]` is '"'. */
  predicate NoQuote(text: string, lo: nat, hi: nat) {
    lo <= hi <= |text| && forall k | lo <= k < hi :: text[k] != '"'
  }

  /** The number of whitespace characters starting at `i`: the length of the longest whitespace
      run there (`SpaceRunMaximal`). */
  function SpaceRun(text: string, i: nat): (n: nat)
    requires i <= |text|
    ensures i + n <= |text|
    decreases |text| - i
  {
    if i < |text| && IsSpace(text[i]) then 1 + SpaceRun(text, i + 1) else 0
  }

  /** The run `SpaceRun` measures is all whitespace and stops at a non-whitespace character or the end. */
  lemma {:induction false} SpaceRunMaximal(text: string, i: nat)
    requires i <= |text|
    ensures AllSpace(text, i, i + SpaceRun(text, i))
    ensures i + SpaceRun(text, i) == |text| || !IsSpace(text[i + SpaceRun(text, i)])
    decreases |text| - i
  {
    if i < |text| && IsSpace(text[i]) {
      SpaceRunMaximal(text, i + 1);
    }
  }

  /** The number of characters other than '"' starting at `i`: the length of the longest run
      without '"' there (`NonQuoteRunMaximal`). */
  function NonQuoteRun(text: string, i: nat): (n: nat)
    requires i <= |text|
    ensures i + n <= |text|
    decreases |text| - i
  {
    if i < |text| && text[i] != '"' then 1 + NonQuoteRun(text, i + 1) else 0
  }

  /** The run `NonQuoteRun` measures has no '"' and stops at a '"' or the end. */
  lemma {:induction false} NonQuoteRunMaximal(text: string, i: nat)
    requires i <= |text|
    ensures NoQuote(text, i, i + NonQuoteRun(text, i))
    ensures i + NonQuoteRun(text, i) == |text| || text[i + NonQuoteRun(text, i)] == '"'
    decreases |text| - i
  {
    if i < |text| && text[i] != '"' {
      NonQuoteRunMaximal(text, i + 1);
    }
  }

  /** Some character of `text[lo..hi]` is a newline. */
  predicate NewlineBefore(text: string, lo: nat, hi: int)
    requires hi <= |text|
    decreases hi - lo
  {
    lo < hi && (text[lo] == '\n' || NewlineBefore(text, lo + 1, hi))
  }

  /** `text[i..]` starts with `word`. */
  predicate WordAt(text: string, i: nat, word: string) {
    i <= |text| && StartsWith(text[i..], word)
  }

  /** Where the quoted value of a match lies: from `valueStart` up to the closing quote at `valueEnd`. */
  datatype HeroMatch = HeroMatch(valueStart: nat, valueEnd: nat)

  /** The key that opens the pattern, and the key of the line after it. */
  const HeroKey: string := "heroImage:"
  const SrcKey: string := "src:"

  /** A match of `(heroImage:\s*\n\s+src:\s*")[^"]+(")` starting at `p`: "heroImage:" there, then
      the rest as `SrcAt` reads it. */
  function HeroAt(text: string, p: nat): (m: Option<HeroMatch>)
    requires p <= |text|
    ensures m.Some? ==> p + 15 < m.value.valueStart < m.value.valueEnd < |text|
    ensures m.Some? ==> WordAt(text, p, HeroKey) && text[m.value.valueStart - 1] == '"' && text[m.value.valueEnd] == '"'
    ensures m.Some? ==> NoQuote(text, m.value.valueStart, m.value.valueEnd)
  {
    if !WordAt(text, p, HeroKey) then None else SrcAt(text, p + 10)
  }

  /** The `\s*\n\s+src:` part of the pattern read from `q`: the whitespace run there must hold a
      newline with at least one more whitespace character after it, and "src:" must follow; the
      quoted value follows as `ValueAt` reads it. */
  function SrcAt(text: string, q: nat): (m: Option<HeroMatch>)
    requires q <= |text|
    ensures m.Some? ==> q + 5 < m.value.valueStart < m.value.valueEnd < |text|
    ensures m.Some? ==> text[m.value.valueStart - 1] == '"' && text[m.value.valueEnd] == '"'
    ensures m.Some? ==> NoQuote(text, m.value.valueStart, m.value.valueEnd)
  {
    var r := q + SpaceRun(text, q);
    if !NewlineBefore(text, q, r - 1) then None
    else if !WordAt(text, r, SrcKey) then None
    else ValueAt(text, r + 4)
  }

  /** The `\s*")[^"]+(")` part of the pattern read from `s`: whitespace, an opening quote, a
      non-empty value without '"', and the closing quote. */
  function ValueAt(text: string, s: nat): (m: Option<HeroMatch>)
    requires s <= |text|
    ensures m.Some? ==> s < m.value.valueStart < m.value.valueEnd < |text|
    ensures m.Some? ==> text[m.value.valueStart - 1] == '"' && text[m.value.valueEnd] == '"'
    ensures m.Some? ==> NoQuote(text, m.value.valueStart, m.value.valueEnd)
  {
    var t := s + SpaceRun(text, s);
    if !(t < |text| && text[t] == '"') then None
    else
      var v0 := t + 1;
      var v1 := v0 + NonQuoteRun(text, v0);
      NonQuoteRunMaximal(text, v0);
      if v0 < v1 < |text| then Some(HeroMatch(v0, v1)) else None
  }

  // The pattern read declaratively, piece by piece.

  /** `\s*\n\s+src:` from `q`: whitespace from `q` up to `r`, with '\n' at `n` and at least one
      more whitespace character after it, and "src:" at `r`. */
  predicate GapShape(text: string, q: nat, n: nat, r: nat) {
    q <= n && n + 1 < r && AllSpace(text, q, r) && text[n] == '\n' && WordAt(text, r, SrcKey)
  }

  /** `\s*")[^"]+(")` from `s`: whitespace and '"' up to the value, a non-empty value without '"'
      from `valueStart` to `valueEnd`, and '"' at `valueEnd`. */
  predicate QuoteShape(text: string, s: nat, valueStart: nat, valueEnd: nat) {
    s < valueStart < valueEnd < |text| &&
    AllSpace(text, s, valueStart - 1) && text[valueStart - 1] == '"' &&
    NoQuote(text, valueStart, valueEnd) && text[valueEnd] == '"'
  }

  /** `\s*\n\s+src:\s*")[^"]+(")` matches from `q` with its value at `[valueStart, valueEnd)`. */
  ghost predicate IsSrcMatch(text: string, q: nat, valueStart: nat, valueEnd: nat) {
    exists n: nat, r: nat :: GapShape(text, q, n, r) && QuoteShape(text, r + 4, valueStart, valueEnd)
  }

  /** `(heroImage:\s*\n\s+src:\s*")[^"]+(")` matches at `p` with its value at `[valueStart, valueEnd)`. */
  ghost predicate IsHeroMatch(text: string, p: nat, valueStart: nat, valueEnd: nat) {
    WordAt(text, p, HeroKey) && IsSrcMatch(text, p + 10, valueStart, valueEnd)
  }

  /** `HeroAt` finds exactly the matches of the pattern: it reports the value at `[valueStart, valueEnd)`
      if and only if the pattern matches there. */
  lemma HeroAtIsMatch(text: string, p: nat, valueStart: nat, valueEnd: nat)
    requires p <= |text|
    ensures HeroAt(text, p) == Some(HeroMatch(valueStart, valueEnd)) <==> IsHeroMatch(text, p, valueStart, valueEnd)
  {
    if WordAt(text, p, HeroKey) {
      assert p + 10 <= |text|;
      SrcAtIsMatch(text, p + 10, valueStart, valueEnd);
    }
  }

  /** A front-matter block as the articles write it is matched, with the quoted path as its value. */
  lemma HeroBlockMatched()
    ensures HeroAt("heroImage:\n  src: \"a.jpg\"", 0) == Some(HeroMatch(19, 24))
  {
    var text := "heroImage:\n  src: \"a.jpg\"";
    assert GapShape(text, 10, 10, 13) && QuoteShape(text, 17, 19, 24);
    HeroAtIsMatch(text, 0, 19, 24);
  }

  /** `SrcAt` reports the value at `[valueStart, valueEnd)` if and only if the rest of the pattern
      matches from `q` with that value. */
  lemma SrcAtIsMatch(text: string, q: nat, valueStart: nat, valueEnd: nat)
    requires q <= |text|
    ensures SrcAt(text, q) == Some(HeroMatch(valueStart, valueEnd)) <==> IsSrcMatch(text, q, valueStart, valueEnd)
  {
    if SrcAt(text, q) == Some(HeroMatch(valueStart, valueEnd)) {
      var n, r := SrcFound(text, q, valueStart, valueEnd);
    }
    if IsSrcMatch(text, q, valueStart, valueEnd) {
      var n: nat, r: nat :| GapShape(text, q, n, r) && QuoteShape(text, r + 4, valueStart, valueEnd);
      GapRead(text, q, n, r);
      ValueAtIsQuote(text, r + 4, valueStart, valueEnd);
      SrcAtSteps(text, q, r);
    }
  }

  /** `ValueAt` reports the value at `[valueStart, valueEnd)` if and only if `\s*")[^"]+(")` matches
      from `s` with that value. */
  lemma ValueAtIsQuote(text: string, s: nat, valueStart: nat, valueEnd: nat)
    requires s <= |text|
    ensures ValueAt(text, s) == Some(HeroMatch(valueStart, valueEnd)) <==> QuoteShape(text, s, valueStart, valueEnd)
  {
    if ValueAt(text, s) == Some(HeroMatch(valueStart, valueEnd)) {
      SpaceRunMaximal(text, s);
      assert valueStart - 1 == s + SpaceRun(text, s);
    }
    if QuoteShape(text, s, valueStart, valueEnd) {
      SpaceRunEnds(text, s, valueStart - 1);
      NonQuoteRunEnds(text, valueStart, valueEnd);
      ValueAtSteps(text, s, valueStart - 1, valueEnd);
    }
  }

  lemma SrcFound(text: string, q: nat, valueStart: nat, valueEnd: nat) returns (n: nat, r: nat)
    requires q <= |text| && SrcAt(text, q) == Some(HeroMatch(valueStart, valueEnd))
    ensures GapShape(text, q, n, r) && QuoteShape(text, r + 4, valueStart, valueEnd)
  {
    r := q + SpaceRun(text, q);
    SpaceRunMaximal(text, q);
    n := NewlineWitness(text, q, r - 1);
    assert SrcAt(text, q) == ValueAt(text, r + 4);
    ValueAtIsQuote(text, r + 4, valueStart, valueEnd);
  }

  /** The whitespace run from `q` ends at "src:" and holds the newline. */
  lemma GapRead(text: string, q: nat, n: nat, r: nat)
    requires GapShape(text, q, n, r)
    ensures q + SpaceRun(text, q) == r && NewlineBefore(text, q, r - 1)
  {
    assert text[r] == 's' by { assert text[r..][0] == SrcKey[0]; }
    SpaceRunEnds(text, q, r);
    NewlineAt(text, q, n, r - 1);
  }

  /** `SrcAt` when its newline and "src:" steps succeed. */
  lemma SrcAtSteps(text: string, q: nat, r: nat)
    requires q <= r <= |text|
    requires q + SpaceRun(text, q) == r && NewlineBefore(text, q, r - 1)
    requires WordAt(text, r, SrcKey)
    ensures SrcAt(text, q) == ValueAt(text, r + 4)
  {
  }

  /** `ValueAt` when its opening quote and value steps succeed. */
  lemma ValueAtSteps(text: string, s: nat, t: nat, valueEnd: nat)
    requires s <= t < |text| && s + SpaceRun(text, s) == t && text[t] == '"'
    requires t + 1 + NonQuoteRun(text, t + 1) == valueEnd && t + 1 < valueEnd < |text|
    ensures ValueAt(text, s) == Some(HeroMatch(t + 1, valueEnd))
  {
  }

  /** A whitespace run ending before a non-whitespace character (or the end) is the whole run. */
  lemma SpaceRunEnds(text: string, i: nat, j: nat)
    requires AllSpace(text, i, j) && (j == |text| || !IsSpace(text[j]))
    ensures SpaceRun(text, i) == j - i
  {
    SpaceRunMaximal(text, i);
  }

  /** A run without '"' ending at a '"' is the whole run. */
  lemma NonQuoteRunEnds(text: string, i: nat, j: nat)
    requires NoQuote(text, i, j) && j < |text| && text[j] == '"'
    ensures NonQuoteRun(text, i) == j - i
  {
    NonQuoteRunMaximal(text, i);
  }

  lemma {:induction false} NewlineAt(text: string, lo: nat, n: nat, hi: int)
    requires lo <= n < hi <= |text| && text[n] == '\n'
    ensures NewlineBefore(text, lo, hi)
    decreases n - lo
  {
    if lo < n {
      NewlineAt(text, lo + 1, n, hi);
    }
  }

  lemma {:induction false} NewlineWitness(text: string, lo: nat, hi: int) returns (n: nat)
    requires hi <= |text| && NewlineBefore(text, lo, hi)
    ensures lo <= n < hi && text[n] == '\n'
    decreases hi - lo
  {
    if text[lo] == '\n' {
      n := lo;
    } else {
      n := NewlineWitness(text, lo + 1, hi);
    }
  }

  /** The match starting at each position of `text`. */
  function Matches(text: string): (ms: seq<Option<HeroMatch>>)
    ensures |ms| == |text|
    ensures WellPlaced(text, ms)
  {
    var ms := seq(|text|, k requires 0 <= k < |text| => HeroAt(text, k));
    assert forall k | 0 <= k < |ms| :: ms[k] == HeroAt(text, k);
    ms
  }

  lemma MatchAt(text: string, k: nat)
    requires k < |text|
    ensures Matches(text)[k] == HeroAt(text, k)
  {
  }

  /** Every match of the table lies after its start and inside the text. */
  predicate WellPlaced(text: string, ms: seq<Option<HeroMatch>>) {
    |ms| == |text| &&
    forall k | 0 <= k < |ms| :: ms[k].Some? ==> k < ms[k].value.valueStart < ms[k].value.valueEnd < |text|
  }

  /** The first position at or after `p` where a match starts. */
  function FirstMatch(ms: seq<Option<HeroMatch>>, p: nat): (k: Option<nat>)
    requires p <= |ms|
    ensures k.Some? ==> p <= k.value < |ms| && ms[k.value].Some?
    ensures k.Some? ==> forall j | p <= j < k.value :: ms[j].None?
    ensures k.None? ==> forall j | p <= j < |ms| :: ms[j].None?
    decreases |ms| - p
  {
    if p == |ms| then None
    else if ms[p].Some? then Some(p)
    else FirstMatch(ms, p + 1)
  }

  /** No match starts at `p` or after it. */
  predicate NoMatchFrom(ms: seq<Option<HeroMatch>>, p: nat) {
    forall j | p <= j < |ms| :: ms[j].None?
  }

  /** `re.sub` of the pattern from position `p` on, given the table of matches: every match, left
      to right and without overlap, keeps its prefix and closing quote and has its value replaced by
      `image`. */
  function SubFrom(text: string, ms: seq<Option<HeroMatch>>, image: string, p: nat): (r: string)
    requires WellPlaced(text, ms) && p <= |text|
    ensures NoMatchFrom(ms, p) ==> r == text[p..]
    decreases |text| - p
  {
    if p == |text| then []
    else match ms[p]
      case Some(m) => text[p..m.valueStart] + image + "\"" + SubFrom(text, ms, image, m.valueEnd + 1)
      case None =>
        var rest := SubFrom(text, ms, image, p + 1);
        assert [text[p]] + text[p + 1..] == text[p..];
        [text[p]] + rest
  }

  /** `update_article_image` on the article's text: whether the pattern occurs, and the new text.
      `image` is inserted as it is. */
  function UpdateArticleImage(text: string, image: string): (result: (bool, string))
    ensures result.0 <==> exists k | 0 <= k < |text| :: HeroAt(text, k).Some?
    ensures !result.0 ==> result.1 == text
    ensures result.0 ==> Contains(result.1, image)
    ensures result.0 ==> result.1 == SubFrom(text, Matches(text), image, 0)
  {
    var ms := Matches(text);
    match FirstMatch(ms, 0)
    case None =>
      NoHeroAnywhere(text);
      (false, text)
    case Some(k) =>
      MatchAt(text, k);
      RewrittenContainsImage(text, ms, image, k);
      (true, SubFrom(text, ms, image, 0))
  }

  lemma NoHeroAnywhere(text: string)
    requires forall j | 0 <= j < |text| :: Matches(text)[j].None?
    ensures forall j | 0 <= j < |text| :: HeroAt(text, j).None?
  {
    forall j | 0 <= j < |text|
      ensures HeroAt(text, j).None?
    {
      MatchAt(text, j);
    }
  }

  /** Text before the next match is copied unchanged. */
  lemma {:induction false} CopiedUpToMatch(text: string, ms: seq<Option<HeroMatch>>, image: string, p: nat, k: nat)
    requires WellPlaced(text, ms) && p <= k < |text|
    requires forall j | p <= j < k :: ms[j].None?
    ensures SubFrom(text, ms, image, p) == text[p..k] + SubFrom(text, ms, image, k)
    decreases k - p
  {
    if p < k {
      var rest := SubFrom(text, ms, image, k);
      calc {
        SubFrom(text, ms, image, p);
        [text[p]] + SubFrom(text, ms, image, p + 1);
        { CopiedUpToMatch(text, ms, image, p + 1, k); }
        [text[p]] + (text[p + 1..k] + rest);
        ([text[p]] + text[p + 1..k]) + rest;
        { assert text[p..k] == [text[p]] + text[p + 1..k]; }
        text[p..k] + rest;
      }
    } else {
      assert text[p..k] == [];
    }
  }

  /** The first match: everything before its value, the opening quote included, is kept; the
      value becomes `image`; the closing quote is kept; the rest is rewritten the same way. */
  lemma FirstMatchRewritten(text: string, ms: seq<Option<HeroMatch>>, image: string, k: nat)
    requires WellPlaced(text, ms) && FirstMatch(ms, 0) == Some(k)
    ensures var m := ms[k].value;
      SubFrom(text, ms, image, 0) == text[..m.valueStart] + image + "\"" + SubFrom(text, ms, image, m.valueEnd + 1)
  {
    var m := ms[k].value;
    var rest := SubFrom(text, ms, image, m.valueEnd + 1);
    MatchRewritten(text, ms, image, k);
    CopiedUpToMatch(text, ms, image, 0, k);
    JoinAtMatch(text, k, m.valueStart, image, rest);
  }

  /** A match keeps the text up to its value, replaces the value and keeps the closing quote. */
  lemma MatchRewritten(text: string, ms: seq<Option<HeroMatch>>, image: string, k: nat)
    requires WellPlaced(text, ms) && k < |text| && ms[k].Some?
    ensures var m := ms[k].value;
      SubFrom(text, ms, image, k) == text[k..m.valueStart] + image + "\"" + SubFrom(text, ms, image, m.valueEnd + 1)
  {
  }

  /** The text copied before a match, joined with the text from the match on. */
  lemma JoinAtMatch(text: string, k: nat, start: nat, image: string, rest: string)
    requires k <= start <= |text|
    ensures text[0..k] + (text[k..start] + image + "\"" + rest) == text[..start] + image + "\"" + rest
  {
    assert text[0..k] + text[k..start] == text[..start];
  }

  /** Once the pattern matches, the new text contains the image. */
  lemma RewrittenContainsImage(text: string, ms: seq<Option<HeroMatch>>, image: string, k: nat)
    requires WellPlaced(text, ms) && FirstMatch(ms, 0) == Some(k)
    ensures Contains(SubFrom(text, ms, image, 0), image)
  {
    var m := ms[k].value;
    FirstMatchRewritten(text, ms, image, k);
    ContainsMiddle(text[..m.valueStart], image, "\"", SubFrom(text, ms, image, m.valueEnd + 1));
  }
}
