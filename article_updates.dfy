/**
  The main loop of the hero-image updater: for every article of the fixed
  table, in table order, the article is looked up by slug, the best image of
  its category is chosen, and its hero image is rewritten unless the article
  already mentions that image. The loop counts the updated and the skipped
  articles.
 */
module ArticleUpdates {
  import opened Wrappers
  import opened Strings
  import opened ArticleImages

  // ---------------------------------------------------------------------------
  // Updating every mapped article

  /** An article slug and the location folder its hero image is taken from. */
  datatype ArticleEntry = ArticleEntry(slug: string, category: string)

  /** The articles whose hero image is replaced, in the order they are processed. */
  const ArticleImageMap: seq<ArticleEntry> := [
    ArticleEntry("cliff-jumping-salagdoong", "salagdoong-beach"),
    ArticleEntry("night-diving-siquijor", "apo-island"),
    ArticleEntry("cantabon-cave-spelunking", "siquijor-general"),
    ArticleEntry("motorcycle-routes-island-loop", "siquijor-general"),
    ArticleEntry("stand-up-paddleboarding", "paliton-beach"),
    ArticleEntry("cambugahay-falls-photography", "cambugahay-falls"),
    ArticleEntry("sunset-locations-guide", "paliton-beach"),
    ArticleEntry("sunrise-photography-spots", "paliton-beach"),
    ArticleEntry("underwater-photography", "apo-island"),
    ArticleEntry("instagram-spots-siquijor", "siquijor-general"),
    ArticleEntry("food-guide-local-cuisine", "paliton-beach"),
    ArticleEntry("traditional-healers-mananambal", "siquijor-general"),
    ArticleEntry("artisan-workshops", "siquijor-general"),
    ArticleEntry("fishermen-experience", "paliton-beach"),
    ArticleEntry("best-time-to-visit", "paliton-beach"),
    ArticleEntry("rainy-season-guide", "cambugahay-falls"),
    ArticleEntry("full-moon-experiences", "paliton-beach"),
    ArticleEntry("holy-week-siquijor", "lazi-church"),
    ArticleEntry("solo-travel-guide", "paliton-beach"),
    ArticleEntry("safety-guide", "siquijor-general"),
    ArticleEntry("siquijor-vs-bohol", "cambugahay-falls"),
    ArticleEntry("siquijor-vs-apo-island", "apo-island"),
    ArticleEntry("siquijor-itinerary", "paliton-beach"),
    ArticleEntry("couples-honeymoon-guide", "paliton-beach"),
    ArticleEntry("wellness-yoga-retreats", "paliton-beach"),
    ArticleEntry("digital-nomad-guide", "paliton-beach")
  ]

  predicate DistinctSlugs(entries: seq<ArticleEntry>) {
    forall i, j | 0 <= i < j < |entries| :: entries[i].slug != entries[j].slug
  }

  /** The table has 26 articles and no slug twice, so no article is handled twice. */
  lemma ArticleImageMapDistinct()
    ensures |ArticleImageMap| == 26
    ensures DistinctSlugs(ArticleImageMap)
  {
    assert forall i, j | 0 <= i < j < |ArticleImageMap| :: ArticleImageMap[i].slug != ArticleImageMap[j].slug;
  }

  /** What happens to one mapped article. */
  datatype Outcome =
    | NotFound              // no article file with that slug
    | NoImage               // the category folder is missing or has no non-empty image
    | AlreadyUsed           // the article text already mentions the chosen image
    | Rewritten(text: string)
    | NoHeroImage           // the heroImage pattern does not occur

  predicate IsSkip(o: Outcome) {
    o.NoImage? || o.AlreadyUsed? || o.NoHeroImage?
  }

  /** The category folder, None when it does not exist. */
  function FolderOf(folders: map<string, seq<FileEntry>>, category: string): Option<seq<FileEntry>> {
    if category in folders then Some(folders[category]) else None
  }

  /** The outcome for a found article: skipped for want of an image exactly when its category has
      none, skipped as already done exactly when it mentions the chosen image, left alone when it
      has no hero-image field, and otherwise rewritten so that it mentions the image. */
  function ArticleOutcome(category: string, content: string, folders: map<string, seq<FileEntry>>)
    : (o: Outcome)
    ensures var best := BestImage(category, FolderOf(folders, category));
      !o.NotFound? &&
      (o.NoImage? <==> best.None?) &&
      (o.AlreadyUsed? <==> best.Some? && Contains(content, best.value)) &&
      (o.NoHeroImage? <==> best.Some? && !Contains(content, best.value) &&
                           forall k | 0 <= k < |content| :: HeroAt(content, k).None?) &&
      (o.Rewritten? ==> !Contains(content, best.value) && Contains(o.text, best.value)) &&
      (o.Rewritten? ==> UpdateArticleImage(content, best.value) == (true, o.text))
  {
    var image := BestImage(category, FolderOf(folders, category));
    if image.None? then NoImage
    else if Contains(content, image.value) then AlreadyUsed
    else
      var (changed, text) := UpdateArticleImage(content, image.value);
      if changed then Rewritten(text) else NoHeroImage
  }

  /** The outcome for one table entry, given the article texts by slug: an article whose slug has
      no text is not found. */
  function OutcomeOf(entry: ArticleEntry, articles: map<string, string>, folders: map<string, seq<FileEntry>>)
    : (o: Outcome)
    ensures o.NotFound? <==> entry.slug !in articles
  {
    if entry.slug !in articles then NotFound else ArticleOutcome(entry.category, articles[entry.slug], folders)
  }

  /** The body of `main`'s loop for an article that was found. */
  method ProcessArticle(category: string, content: string, folders: map<string, seq<FileEntry>>)
    returns (o: Outcome)
    ensures o == ArticleOutcome(category, content, folders)
  {
    var image := GetBestImage(category, FolderOf(folders, category));
    if image.None? {
      o := NoImage;
    } else if Contains(content, image.value) {
      o := AlreadyUsed;
    } else {
      var (changed, text) := UpdateArticleImage(content, image.value);
      o := if changed then Rewritten(text) else NoHeroImage;
    }
  }

  /** The outcome of every entry, all computed from the same article texts. */
  function Outcomes(entries: seq<ArticleEntry>, articles: map<string, string>, folders: map<string, seq<FileEntry>>)
    : (outcomes: seq<Outcome>)
    ensures |outcomes| == |entries|
  {
    if entries == [] then []
    else Outcomes(entries[..|entries| - 1], articles, folders) + [OutcomeOf(entries[|entries| - 1], articles, folders)]
  }

  lemma OutcomesStep(entries: seq<ArticleEntry>, articles: map<string, string>, folders: map<string, seq<FileEntry>>, i: nat)
    requires i < |entries|
    ensures Outcomes(entries[..i + 1], articles, folders)
      == Outcomes(entries[..i], articles, folders) + [OutcomeOf(entries[i], articles, folders)]
  {
    assert entries[..i + 1][..i] == entries[..i];
  }

  lemma {:induction false} OutcomeAt(entries: seq<ArticleEntry>, articles: map<string, string>,
                                     folders: map<string, seq<FileEntry>>, i: nat)
    requires i < |entries|
    ensures Outcomes(entries, articles, folders)[i] == OutcomeOf(entries[i], articles, folders)
  {
    var n := |entries| - 1;
    if i < n {
      OutcomeAt(entries[..n], articles, folders, i);
    }
  }

  /** The number of rewritten articles. */
  function CountUpdated(outcomes: seq<Outcome>): nat {
    if outcomes == [] then 0
    else CountUpdated(outcomes[..|outcomes| - 1]) + (if outcomes[|outcomes| - 1].Rewritten? then 1 else 0)
  }

  /** The number of articles found but skipped. */
  function CountSkipped(outcomes: seq<Outcome>): nat {
    if outcomes == [] then 0
    else CountSkipped(outcomes[..|outcomes| - 1]) + (if IsSkip(outcomes[|outcomes| - 1]) then 1 else 0)
  }

  /** The number of articles not found. */
  function CountNotFound(outcomes: seq<Outcome>): nat {
    if outcomes == [] then 0
    else CountNotFound(outcomes[..|outcomes| - 1]) + (if outcomes[|outcomes| - 1].NotFound? then 1 else 0)
  }

  lemma CountsStep(outcomes: seq<Outcome>, o: Outcome)
    ensures CountUpdated(outcomes + [o]) == CountUpdated(outcomes) + (if o.Rewritten? then 1 else 0)
    ensures CountSkipped(outcomes + [o]) == CountSkipped(outcomes) + (if IsSkip(o) then 1 else 0)
  {
    assert (outcomes + [o])[..|outcomes|] == outcomes;
  }

  /** Every article is counted once: as not found, as updated or as skipped. */
  lemma {:induction false} CountsPartition(outcomes: seq<Outcome>)
    ensures CountUpdated(outcomes) + CountSkipped(outcomes) + CountNotFound(outcomes) == |outcomes|
  {
    if outcomes != [] {
      CountsPartition(outcomes[..|outcomes| - 1]);
    }
  }

  /** The article texts after processing: each rewritten article gets its new text. */
  function Applied(entries: seq<ArticleEntry>, outcomes: seq<Outcome>, articles: map<string, string>)
    : map<string, string>
    requires |outcomes| == |entries|
  {
    if entries == [] then articles
    else
      var n := |entries| - 1;
      var before := Applied(entries[..n], outcomes[..n], articles);
      match outcomes[n]
      case Rewritten(text) => before[entries[n].slug := text]
      case _ => before
  }

  lemma AppliedStep(entries: seq<ArticleEntry>, outcomes: seq<Outcome>, articles: map<string, string>, i: nat)
    requires |outcomes| == |entries| && i < |entries|
    ensures Applied(entries[..i + 1], outcomes[..i + 1], articles) ==
      match outcomes[i]
      case Rewritten(text) => Applied(entries[..i], outcomes[..i], articles)[entries[i].slug := text]
      case _ => Applied(entries[..i], outcomes[..i], articles)
  {
    assert entries[..i + 1][..i] == entries[..i];
    assert outcomes[..i + 1][..i] == outcomes[..i];
  }

  /** An article no entry names keeps its text. */
  lemma {:induction false} Untouched(entries: seq<ArticleEntry>, outcomes: seq<Outcome>, articles: map<string, string>,
                                     slug: string)
    requires |outcomes| == |entries|
    requires forall j | 0 <= j < |entries| :: entries[j].slug != slug
    ensures slug in Applied(entries, outcomes, articles) <==> slug in articles
    ensures slug in articles ==> Applied(entries, outcomes, articles)[slug] == articles[slug]
  {
    if entries != [] {
      var n := |entries| - 1;
      Untouched(entries[..n], outcomes[..n], articles, slug);
    }
  }

  /** The text of article `i` after processing: its rewritten text, or its old one. */
  lemma {:induction false} AppliedAt(entries: seq<ArticleEntry>, outcomes: seq<Outcome>, articles: map<string, string>,
                                     i: nat)
    requires |outcomes| == |entries| && DistinctSlugs(entries) && i < |entries|
    ensures entries[i].slug in Applied(entries, outcomes, articles) <==>
      entries[i].slug in articles || outcomes[i].Rewritten?
    ensures entries[i].slug in Applied(entries, outcomes, articles) ==>
      Applied(entries, outcomes, articles)[entries[i].slug] ==
        if outcomes[i].Rewritten? then outcomes[i].text else articles[entries[i].slug]
  {
    var n := |entries| - 1;
    var front := entries[..n];
    assert forall j | 0 <= j < n :: front[j] == entries[j];
    if i == n {
      Untouched(front, outcomes[..n], articles, entries[i].slug);
    } else {
      AppliedAt(front, outcomes[..n], articles, i);
    }
  }

  // ---------------------------------------------------------------------------
  // Running the script a second time

  /** After a run, an article that was rewritten now mentions its image and is skipped as already
      updated; every other article has the outcome it had before. */
  lemma RerunOutcome(entry: ArticleEntry, articles: map<string, string>, after: map<string, string>,
                     folders: map<string, seq<FileEntry>>)
    requires var o := OutcomeOf(entry, articles, folders);
      (entry.slug in after <==> entry.slug in articles || o.Rewritten?) &&
      (entry.slug in after ==> after[entry.slug] == if o.Rewritten? then o.text else articles[entry.slug])
    ensures var o := OutcomeOf(entry, articles, folders);
      OutcomeOf(entry, after, folders) == if o.Rewritten? then AlreadyUsed else o
  {
  }

  /** Outcomes of a second run, entry by entry. */
  lemma RerunOutcomes(entries: seq<ArticleEntry>, articles: map<string, string>, folders: map<string, seq<FileEntry>>,
                      outcomes: seq<Outcome>, again: seq<Outcome>)
    requires DistinctSlugs(entries)
    requires outcomes == Outcomes(entries, articles, folders)
    requires again == Outcomes(entries, Applied(entries, outcomes, articles), folders)
    ensures |again| == |outcomes| == |entries|
    ensures forall i | 0 <= i < |outcomes| :: again[i] == if outcomes[i].Rewritten? then AlreadyUsed else outcomes[i]
  {
    var after := Applied(entries, outcomes, articles);
    forall i | 0 <= i < |outcomes|
      ensures again[i] == if outcomes[i].Rewritten? then AlreadyUsed else outcomes[i]
    {
      OutcomeAt(entries, articles, folders, i);
      OutcomeAt(entries, after, folders, i);
      AppliedAt(entries, outcomes, articles, i);
      RerunOutcome(entries[i], articles, after, folders);
    }
  }

  /** When every rewritten outcome turns into "already updated" and the others stay, nothing is updated
      and every article that was found is skipped. */
  lemma {:induction false} RerunCounts(outcomes: seq<Outcome>, again: seq<Outcome>)
    requires |again| == |outcomes|
    requires forall i | 0 <= i < |outcomes| :: again[i] == if outcomes[i].Rewritten? then AlreadyUsed else outcomes[i]
    ensures CountUpdated(again) == 0
    ensures CountSkipped(again) == CountUpdated(outcomes) + CountSkipped(outcomes)
  {
    if outcomes != [] {
      var n := |outcomes| - 1;
      RerunCounts(outcomes[..n], again[..n]);
    }
  }

  /** Without rewritten outcomes the texts are left as they are. */
  lemma {:induction false} AppliedNothing(entries: seq<ArticleEntry>, outcomes: seq<Outcome>, articles: map<string, string>)
    requires |outcomes| == |entries|
    requires forall i | 0 <= i < |outcomes| :: !outcomes[i].Rewritten?
    ensures Applied(entries, outcomes, articles) == articles
  {
    if entries != [] {
      var n := |entries| - 1;
      AppliedNothing(entries[..n], outcomes[..n], articles);
    }
  }

  /** Running `main` again on the texts it produced updates nothing, skips every article found,
      and leaves every text as it is. */
  lemma SecondRunUpdatesNothing(entries: seq<ArticleEntry>, articles: map<string, string>,
                                folders: map<string, seq<FileEntry>>)
    requires DistinctSlugs(entries)
    ensures var outcomes := Outcomes(entries, articles, folders);
      var after := Applied(entries, outcomes, articles);
      var again := Outcomes(entries, after, folders);
      CountUpdated(again) == 0 &&
      CountSkipped(again) == CountUpdated(outcomes) + CountSkipped(outcomes) &&
      Applied(entries, again, after) == after
  {
    var outcomes := Outcomes(entries, articles, folders);
    var after := Applied(entries, outcomes, articles);
    var again := Outcomes(entries, after, folders);
    RerunOutcomes(entries, articles, folders, outcomes, again);
    RerunCounts(outcomes, again);
    AppliedNothing(entries, again, after);
  }

  // ---------------------------------------------------------------------------
  // The loop

  /** One turn of `main`'s loop, in terms of the outcome table: article `i` is found exactly when its
      slug has a text, that text is still the original one, and the counts and texts grow by
      outcome `i`. */
  lemma LoopStep(table: seq<ArticleEntry>, outcomes: seq<Outcome>, articles: map<string, string>,
                 folders: map<string, seq<FileEntry>>, i: nat)
    requires DistinctSlugs(table) && i < |table|
    requires outcomes == Outcomes(table, articles, folders)
    ensures var slug := table[i].slug; var before := Applied(table[..i], outcomes[..i], articles);
      (slug in before <==> slug in articles) &&
      (slug in before ==> (before[slug] == articles[slug] &&
        outcomes[i] == ArticleOutcome(table[i].category, articles[slug], folders))) &&
      (slug !in before ==> outcomes[i].NotFound?)
  {
    OutcomeAt(table, articles, folders, i);
    assert forall j | 0 <= j < i :: table[..i][j].slug != table[i].slug;
    Untouched(table[..i], outcomes[..i], articles, table[i].slug);
  }

  /** The counts and the texts after article `i` are those before it, grown by outcome `i`. */
  lemma CountStep(table: seq<ArticleEntry>, outcomes: seq<Outcome>, articles: map<string, string>, i: nat)
    requires |outcomes| == |table| && i < |table|
    ensures CountUpdated(outcomes[..i + 1]) == CountUpdated(outcomes[..i]) + (if outcomes[i].Rewritten? then 1 else 0)
    ensures CountSkipped(outcomes[..i + 1]) == CountSkipped(outcomes[..i]) + (if IsSkip(outcomes[i]) then 1 else 0)
    ensures Applied(table[..i + 1], outcomes[..i + 1], articles) ==
      var before := Applied(table[..i], outcomes[..i], articles);
      if outcomes[i].Rewritten? then before[table[i].slug := outcomes[i].text] else before
  {
    CountsStep(outcomes[..i], outcomes[i]);
    assert outcomes[..i + 1] == outcomes[..i] + [outcomes[i]];
    AppliedStep(table, outcomes, articles, i);
  }

  /** The body of `main`'s loop for article `i`: looks the article up among the current texts and,
      when it is there, processes it. */
  method ProcessEntry(table: seq<ArticleEntry>, ghost outcomes: seq<Outcome>, ghost articles: map<string, string>,
                      folders: map<string, seq<FileEntry>>, i: nat, current: map<string, string>)
    returns (o: Outcome)
    requires DistinctSlugs(table) && i < |table|
    requires outcomes == Outcomes(table, articles, folders)
    requires current == Applied(table[..i], outcomes[..i], articles)
    ensures o == outcomes[i]
    ensures o.Rewritten? ==> table[i].slug in current
  {
    LoopStep(table, outcomes, articles, folders, i);
    var entry := table[i];
    if entry.slug in current {
      o := ProcessArticle(entry.category, current[entry.slug], folders);
    } else {
      o := NotFound;
    }
  }

  /** `main`: processes the table in order, reading each article's current text, and counts the
      updated and skipped articles. The table is a dictionary, so its slugs are distinct. */
  method UpdateArticles(table: seq<ArticleEntry>, articles: map<string, string>, folders: map<string, seq<FileEntry>>)
    returns (updated: nat, skipped: nat, current: map<string, string>)
    requires DistinctSlugs(table)
    ensures var outcomes := Outcomes(table, articles, folders);
      updated == CountUpdated(outcomes) && skipped == CountSkipped(outcomes) &&
      current == Applied(table, outcomes, articles)
    ensures updated + skipped <= |table|
  {
    ghost var outcomes := Outcomes(table, articles, folders);
    updated, skipped, current := 0, 0, articles;
    for i := 0 to |table|
      invariant updated == CountUpdated(outcomes[..i])
      invariant skipped == CountSkipped(outcomes[..i])
      invariant current == Applied(table[..i], outcomes[..i], articles)
    {
      var o := ProcessEntry(table, outcomes, articles, folders, i, current);
      CountStep(table, outcomes, articles, i);
      if o.Rewritten? {
        current := current[table[i].slug := o.text];
        updated := updated + 1;
      } else if IsSkip(o) {
        skipped := skipped + 1;
      }
    }
    assert table[..|table|] == table;
    assert outcomes[..|outcomes|] == outcomes;
    CountsPartition(outcomes);
  }

  /** `main` on the fixed table: at most 26 articles are updated or skipped. */
  method UpdateMappedArticles(articles: map<string, string>, folders: map<string, seq<FileEntry>>)
    returns (updated: nat, skipped: nat, current: map<string, string>)
    ensures var outcomes := Outcomes(ArticleImageMap, articles, folders);
      updated == CountUpdated(outcomes) && skipped == CountSkipped(outcomes) &&
      current == Applied(ArticleImageMap, outcomes, articles)
    ensures updated + skipped <= 26
  {
    ArticleImageMapDistinct();
    updated, skipped, current := UpdateArticles(ArticleImageMap, articles, folders);
  }
}
