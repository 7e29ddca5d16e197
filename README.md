# Siquijor content tooling, modelled in Dafny

This project models the string-processing and list-building rules of the three
Python content scripts of the Siquijor travel site. The HTTP, HTML-parsing,
image-library and file-system calls around those rules are replaced by
parameters.

- `scripts/scrape_siquijor_content.py` is the blog scraper. The model covers:
  - its image triage: the skip-pattern URL filter, the Siquijor topic filter
    and the first-match location classifier;
  - its file-name builder;
  - the loop that folds an article's headings, paragraphs and lists into
    sections;
  - the merge of new image records into the image manifest.
- `scripts/scraper.py` is the provincial-site scraper. The model covers:
  - `slugify`;
  - the image file-name builder;
  - the URL normalisation and the returned site path of `download_image`.
- `scripts/update_article_images.py` is the hero-image updater. The model covers:
  - the choice of the largest image of a location folder;
  - the rewrite of an article's quoted `heroImage` `src`;
  - the loop over the fixed article table that counts updated and skipped
    articles.

Files:

| file | contents |
|---|---|
| `wrappers.dfy` | `Option` |
| `strings.dfy` | ASCII character classes, `str.lower`, `str.strip`, substring search, the `re.sub` shapes the scripts use, extension normalisation |
| `siquijor_images.dfy` | `is_valid_image_url`, `is_siquijor_related`, `categorize_image`, `generate_filename` |
| `siquijor_sections.dfy` | the section-grouping loop, and its description as steps folded into sections |
| `siquijor_manifest.dfy` | the manifest merge loop, and its description as old records plus a filter of the new ones |
| `province_scraper.dfy` | `slugify`, `get_image_filename`, the path-returning part of `download_image` |
| `article_images.dfy` | `get_best_image` (a loop) and `update_article_image` (a regex substitution) |
| `article_updates.dfy` | `ARTICLE_IMAGE_MAP` and `main`'s loop, with its counters and the article texts it rewrites |

How the scripts' shape carries over:
- The loops stay loops: `GroupSections`, `MergeManifest`, `GetBestImage` and
  `UpdateArticles` are methods.
- Each method is proved equal to a function that describes its result. The
  properties are then proved about that function.
- Pure string rules are functions.

The model reads Python's Unicode string built-ins over ASCII:
- `str.lower()` folds only 'A'..'Z'.
- `\s` and `str.isspace()` are the ASCII whitespace characters, 0x1C-0x1F included.
- `\w` is the ASCII letters, the digits and '_'.

`slugify` in `scripts/scraper.py` trims hyphens before it cuts the slug to
50 characters. So a slug can end in '-', and a second pass then removes that
hyphen; see `ProvinceScraper.TrailingHyphenAfterCut` and
`ProvinceScraper.SlugifyTwice`.

## Model

| member | source | states |
|---|---|---|
| SiquijorImages.IsValidImageUrl | scripts/scrape_siquijor_content.py:142-157 | an empty URL is rejected; a non-empty URL is kept exactly when none of the 30 skip patterns is a substring of its lower-cased form |
| SiquijorImages.ValidUrlIgnoresCase | scripts/scrape_siquijor_content.py:142-157 | the URL filter gives the same answer for a URL and its lower-cased form |
| SiquijorImages.RejectedUrlStaysRejected | scripts/scrape_siquijor_content.py:148-157 | a non-empty URL that contains a skip pattern stays rejected whatever text surrounds it |
| SiquijorImages.CombinedText | scripts/scrape_siquijor_content.py:112 | `f"{alt_text} {src}".lower()`: the lower-cased alt text, one space and the lower-cased URL, so its length is theirs plus one |
| SiquijorImages.IsSiquijorRelated | scripts/scrape_siquijor_content.py:160-163 | an image is related exactly when some Siquijor keyword is a substring of the lower-cased "alt src"; a keyword in the lower-cased alt text alone, or in the lower-cased URL alone, is enough |
| SiquijorImages.RelatedIgnoresCase | scripts/scrape_siquijor_content.py:160-163 | the Siquijor topic filter ignores the case of both the alt text and the URL |
| SiquijorImages.RelatedSurvivesMoreText | scripts/scrape_siquijor_content.py:160-163 | text added before the alt text or after the URL never makes a related image unrelated, since the keywords are matched as substrings |
| SiquijorImages.FirstLocation | scripts/scrape_siquijor_content.py:114-117 | the result is the first location in table order that has a keyword in the text; none means no location has one |
| SiquijorImages.CategorizeImage | scripts/scrape_siquijor_content.py:110-119 | the result is always one of the eight location folders; it is the first location in table order whose keyword occurs in the lower-cased "alt src"; it is "siquijor-general" when no keyword occurs |
| SiquijorImages.SalagdoongBeforePaliton | scripts/scrape_siquijor_content.py:114-117 | text with "salagdoong" and "beach" (and no Cambugahay keyword) is classified as salagdoong-beach, not paliton-beach |
| SiquijorImages.DashedAltText | scripts/scrape_siquijor_content.py:127-128 | before the cut, the cleaned alt text holds only a-z, 0-9 and '-' |
| SiquijorImages.CleanAltText | scripts/scrape_siquijor_content.py:125-128 | the clean name of non-empty alt text has at most 50 characters, all from a-z, 0-9 and '-' |
| SiquijorImages.CleanAltTextKeepsSlugs | scripts/scrape_siquijor_content.py:127-128 | alt text made only of a-z, 0-9 and '-' is only cut to 50 characters, so runs of '-' are not collapsed |
| SiquijorImages.CleanAltTextIdempotent | scripts/scrape_siquijor_content.py:127-128 | cleaning a clean name again changes nothing |
| SiquijorImages.DashedAltTextLetters | scripts/scrape_siquijor_content.py:127-128 | before the cut, the letters and digits of the clean name are exactly those of the lower-cased alt text, in order: filtering, stripping and dashing only remove or replace other characters |
| SiquijorImages.CleanAltTextLetters | scripts/scrape_siquijor_content.py:127-128 | the clean name's letters and digits are a prefix of the lower-cased alt text's letters and digits, and all of them when the name is shorter than 50 characters |
| SiquijorImages.CleanName | scripts/scrape_siquijor_content.py:125-131 | the name part has at most 50 slug characters; it is the cleaned alt text when the alt text is non-empty, and otherwise the first 12 hex digits of the MD5 of the image URL |
| SiquijorImages.GenerateFilename | scripts/scrape_siquijor_content.py:122-139 | the file name starts with "{category}-", ends with "-{timestamp}{ext}" where ext is the normalised suffix of the image URL, and its length lies within the bounds the parts allow |
| SiquijorImages.GenerateFilenameClean | scripts/scrape_siquijor_content.py:139 | between the category and the timestamp the file name holds exactly the clean name, so the parts can be read back |
| Strings.Contains | scripts/scrape_siquijor_content.py:116 | `t in s`: nothing longer than `s` occurs in it |
| Strings.ContainsEnds | scripts/scrape_siquijor_content.py:116 | a prefix or a suffix of `s`, the empty string included, occurs in it |
| Strings.ContainsWithin | scripts/scrape_siquijor_content.py:163 | a substring stays a substring whatever text is put before and after |
| Strings.ContainsAny | scripts/scrape_siquijor_content.py:157 | `any(k in s for k in keys)`: true exactly when some key of the list occurs in `s`, and never with no keys |
| Strings.NormalizeExtension | scripts/scrape_siquijor_content.py:134-136 | the lower-cased suffix is kept when it is .jpg/.jpeg/.png/.webp/.gif and becomes ".jpg" otherwise; the result is always one of the five |
| Strings.NormalizeExtensionIdempotent | scripts/scraper.py:61-63 | normalising a normalised extension changes nothing |
| Strings.Lower | scripts/scrape_siquijor_content.py:156 | `str.lower()`: same length; each character is lower-cased on its own: 'A'..'Z' become the letter 32 code points later ('a'..'z'), and every other character is kept |
| Strings.Strip | scripts/scrape_siquijor_content.py:305 | `str.strip()`: neither end of the result is whitespace, and the result is a slice of the input with only whitespace removed before and after it |
| Strings.Filter | scripts/scraper.py:45 | `re.sub('[^...]', '', s)`: no longer than the input, and every character of the result is an input character of the kept class |
| Strings.FilterFilter | scripts/scraper.py:45 | filtering by a class and then by a smaller class is filtering by the smaller class |
| Strings.CollapseRuns | scripts/scraper.py:46 | `re.sub('[...]+', '-', s)`: the result is empty exactly when the input is; each character is '-' or an input character outside the class; with '-' in the class there are no two hyphens side by side |
| Strings.CollapseRunsByChar | scripts/scraper.py:46 | collapsing equals the reading one character at a time: the first separator of each maximal run becomes one '-', the rest of the run is dropped, and every other character is kept in place |
| Strings.FilterCollapse | scripts/scraper.py:46 | collapsing only touches separators: the characters outside the class (other than '-') are the same, in the same order, before and after |
| Strings.FilterTrimmed | scripts/scraper.py:47 | trimming only touches the trimmed characters: the other characters are the same, in the same order, before and after |
| Strings.ScrapedPath | scripts/scraper.py:87 | the site path starts with "/images/scraped/", ends with "/{filename}", and between them holds exactly the folder |
| SiquijorSections.ParagraphBlock | scripts/scrape_siquijor_content.py:304-307 | a paragraph is kept exactly when its stripped text is longer than 30 characters, and then it is kept as that stripped text |
| SiquijorSections.ListBlock | scripts/scrape_siquijor_content.py:308-311 | a list is kept exactly when it has items, and then it is kept as its stripped items |
| SiquijorSections.Kept | scripts/scrape_siquijor_content.py:300-311 | a heading adds no block; a paragraph adds one exactly when its stripped text is longer than 30 characters; a list adds one exactly when it has items; at most one block, of the element's own kind |
| SiquijorSections.StepOf | scripts/scrape_siquijor_content.py:300-311 | a heading, and only a heading, opens a section, titled with its stripped text; any other element adds a block exactly when it is a long enough paragraph or a non-empty list |
| SiquijorSections.StripAll | scripts/scrape_siquijor_content.py:309 | one stripped item per list item, in order |
| SiquijorSections.GroupFrom | scripts/scrape_siquijor_content.py:297-314 | no emitted section is empty, and each is titled with the open heading or with the title of a heading step still to come |
| SiquijorSections.Sections | scripts/scrape_siquijor_content.py:297-314 | no section of an article is empty, and each is "Introduction" or titled with the stripped text of one of the article's headings |
| SiquijorSections.GroupSections | scripts/scrape_siquijor_content.py:297-314 | the loop's sections equal `Sections(elements)`: steps folded by `GroupFrom` |
| SiquijorSections.SectionsWellFormed | scripts/scrape_siquijor_content.py:301-311 | no emitted section is empty; every kept paragraph is longer than 30 characters and every kept list has an item |
| SiquijorSections.SectionsKeepOrder | scripts/scrape_siquijor_content.py:299-314 | the blocks of all sections, in order, are exactly the kept blocks in document order; nothing is lost or reordered |
| SiquijorSections.GroupFromBySegments | scripts/scrape_siquijor_content.py:300-303 | the open section takes the blocks added up to the next heading; it is emitted if it then holds anything, and that heading opens the next section |
| SiquijorSections.IntroductionComesFirst | scripts/scrape_siquijor_content.py:297-314 | when content is kept before the first heading, the first section is "Introduction" and holds exactly that content |
| SiquijorSections.EmptySectionDropped | scripts/scrape_siquijor_content.py:300-303 | a heading followed only by dropped elements up to the next heading leaves no trace: the article groups as if those elements were absent |
| SiquijorSections.GroupFromSuffix | scripts/scrape_siquijor_content.py:299-314 | the grouping of the remaining elements depends on nothing before them |
| SiquijorManifest.Fresh | scripts/scrape_siquijor_content.py:346-348 | every kept record is one of the new records and has a local path the old manifest does not list |
| SiquijorManifest.Merged | scripts/scrape_siquijor_content.py:345-348 | the old manifest, unchanged, is a prefix of the merge; every record after it is a new record whose local path the old manifest does not list |
| SiquijorManifest.MergeManifest | scripts/scrape_siquijor_content.py:345-348 | the loop's result is `Merged`: the old manifest, unchanged, is a prefix; at most the new records are added |
| SiquijorManifest.FreshMembership | scripts/scrape_siquijor_content.py:346-348 | a new record is appended exactly when its local path is not in the old manifest |
| SiquijorManifest.MergedConcat | scripts/scrape_siquijor_content.py:346-348 | records are appended in input order: merging two batches in one call equals merging them one after the other against the same old paths |
| SiquijorManifest.DuplicatesInBatchKept | scripts/scrape_siquijor_content.py:345-348 | two new records that share a new path are both appended, because the known paths are not updated in the loop |
| SiquijorManifest.KnownBatchAddsNothing | scripts/scrape_siquijor_content.py:345-348 | a batch whose paths are all known leaves the manifest unchanged |
| SiquijorManifest.MergeIdempotent | scripts/scrape_siquijor_content.py:338-348 | merging the same batch into the merged manifest again adds nothing |
| ProvinceScraper.SlugKept | scripts/scraper.py:44-45 | after lower-casing, stripping and filtering, every character is a word character, whitespace or '-', and none is upper case |
| ProvinceScraper.SlugWords | scripts/scraper.py:44-46 | after collapsing separator runs, the text holds only a-z, 0-9 and '-', with no two hyphens side by side |
| ProvinceScraper.TrimHyphens | scripts/scraper.py:47 | neither end of the result is '-'; the result is a slice of the input with only hyphens removed before and after it, so slug characters and single hyphens are preserved |
| ProvinceScraper.Slugify | scripts/scraper.py:42-48 | the slug has at most 50 characters, all from a-z, 0-9 and '-'; it has no double hyphen and never starts with '-'; it ends with '-' only when it is exactly 50 characters long |
| ProvinceScraper.SlugWordsLetters | scripts/scraper.py:44-47 | before the cut, the letters and digits of the slug are exactly those of the lower-cased text, in order |
| ProvinceScraper.SlugifyLetters | scripts/scraper.py:42-48 | the slug's letters and digits are a prefix of the lower-cased text's letters and digits, and all of them when the slug is shorter than 50 characters |
| ProvinceScraper.SlugifyFixes | scripts/scraper.py:42-48 | a slug of at most 50 characters that has no double hyphen and neither starts nor ends with '-' is its own slug |
| ProvinceScraper.SlugifyTwice | scripts/scraper.py:42-48 | a second `slugify` changes nothing, except that it removes the trailing hyphen the 50-character cut left |
| ProvinceScraper.TrailingHyphenAfterCut | scripts/scraper.py:47-48 | 49 letters followed by " b" give the 49 letters and a trailing '-', because the hyphens are trimmed before the cut |
| ProvinceScraper.ImageDesc | scripts/scraper.py:54-58 | the description is `slugify(alt)` when the alt text is not blank, otherwise the first 8 hex digits of the URL hash |
| ProvinceScraper.ImageFilename | scripts/scraper.py:50-65 | the file name starts with "{section}-" and ends with "-{date}{ext}", where ext is the normalised extension |
| ProvinceScraper.ImageFilenameDesc | scripts/scraper.py:65 | between the section and the date the file name holds exactly the description |
| ProvinceScraper.AbsoluteUrl | scripts/scraper.py:70-76 | "//x" becomes "https://x" (checked before "/"); "/x" gets the base URL in front; a URL starting with "http" is kept; anything else is the urljoin result |
| ProvinceScraper.AbsoluteUrlIsHttp | scripts/scraper.py:70-74 | outside the urljoin branch the URL ends up starting with "http" and ends with the original URL |
| ProvinceScraper.AbsoluteUrlIdempotent | scripts/scraper.py:70-76 | normalising an absolute URL again changes nothing |
| ProvinceScraper.DownloadImage | scripts/scraper.py:67-107 | a path is returned exactly when the file already existed or the download succeeded, and in both cases it is the same site path of the generated file name |
| ProvinceScraper.DownloadImagePath | scripts/scraper.py:79-103 | a returned path lies in the section's folder and names a file of that section: it starts with "/images/scraped/{section}/{section}-" |
| ArticleImages.Globbed | scripts/update_article_images.py:69-70 | `cat_dir.glob(ext)`: no more files than the folder holds, and every matched file is a file of the folder whose name ends with the extension |
| ArticleImages.GlobbedMembership | scripts/update_article_images.py:69-70 | a file is matched exactly when it is in the folder and its name ends with the extension |
| ArticleImages.Candidates | scripts/update_article_images.py:68-70 | no more candidates than the folder has files, since a name ends with at most one of the four suffixes and no file is scanned twice; which files they are is stated by `CandidateMembership` |
| ArticleImages.SuffixesExclusive | scripts/update_article_images.py:69 | a name ends with at most one of ".jpg", ".jpeg", ".png" and ".webp" |
| ArticleImages.GlobCount | scripts/update_article_images.py:68-70 | the four globs together match no more files than the folder holds |
| ArticleImages.CandidatesInScanOrder | scripts/update_article_images.py:69-70 | the candidates come glob by glob: every .jpg file before every .jpeg file, before every .png file, before every .webp file |
| ArticleImages.CandidatesOfOneGlob | scripts/update_article_images.py:69-70 | the candidates with one of the four suffixes are exactly the folder's files with that suffix, in folder order |
| ArticleImages.CandidateMembership | scripts/update_article_images.py:68-70 | a file is a candidate exactly when it is in the folder and its name ends in .jpg, .jpeg, .png or .webp |
| ArticleImages.GifNeverCandidate | scripts/update_article_images.py:69 | a .gif file is never considered |
| ArticleImages.MaxSize | scripts/update_article_images.py:77-82 | the largest size among the images, or 0 when there are none |
| ArticleImages.BestIndex | scripts/update_article_images.py:76-82 | no image is chosen exactly when every image has size 0; otherwise the chosen image is the first of the largest |
| ArticleImages.FirstLargestUnique | scripts/update_article_images.py:80 | the first of the largest images is unique: ties go to the first one scanned |
| ArticleImages.BestIndexStep | scripts/update_article_images.py:78-82 | scanning one more image makes it the best exactly when it is strictly larger than every image before it |
| ArticleImages.BestImage | scripts/update_article_images.py:62-86 | no path exactly when the folder is missing or every candidate has size 0; otherwise the path is "/images/scraped/{category}/{name}" of a non-empty candidate |
| ArticleImages.GetBestImage | scripts/update_article_images.py:62-86 | the loop returns `BestImage`, which is the path of the first of the largest candidates |
| ArticleImages.SpaceRunMaximal | scripts/update_article_images.py:95 | `\s*` takes the longest run of whitespace: every character of the run is whitespace, and it stops at the end of the text or at a character that is not |
| ArticleImages.NonQuoteRunMaximal | scripts/update_article_images.py:95 | `[^"]+` takes the longest run without '"': no character of the run is '"', and it stops at the end of the text or at a '"' |
| ArticleImages.HeroAt | scripts/update_article_images.py:95 | a match of `(heroImage:\s*\n\s+src:\s*")[^"]+(")` at a position starts with "heroImage:" and has a non-empty value with no '"' between two quotes; `HeroAtIsMatch` states the converse |
| ArticleImages.HeroAtIsMatch | scripts/update_article_images.py:95 | `HeroAt` reports a value exactly when the pattern matches there with that value: "heroImage:", a whitespace run holding a newline followed by at least one more whitespace character, "src:", whitespace, a quote, a non-empty run without '"', and a quote |
| ArticleImages.SrcAtIsMatch | scripts/update_article_images.py:95 | the part after "heroImage:" is reported exactly when the whitespace-newline-whitespace gap, "src:" and the quoted value follow with that value |
| ArticleImages.ValueAtIsQuote | scripts/update_article_images.py:95 | the part `\s*")[^"]+(")` is reported exactly when whitespace, a quote, a non-empty value without '"' and a closing quote follow with that value |
| ArticleImages.HeroBlockMatched | scripts/update_article_images.py:95 | a block written as the articles write it, `heroImage:` then `  src: "a.jpg"` on the next line, is matched with "a.jpg" as its value |
| ArticleImages.Matches | scripts/update_article_images.py:98 | one entry per position of the text; every match found lies after its position, with its value inside the text |
| ArticleImages.FirstMatch | scripts/update_article_images.py:97-98 | the first position from which the pattern matches, or none when it matches nowhere |
| ArticleImages.UpdateArticleImage | scripts/update_article_images.py:89-101 | reports a change exactly when the pattern matches somewhere; without a match the text is unchanged; after a change the new text is the substitution `SubFrom` of every match from the start, and it contains the new image |
| ArticleImages.SubFrom | scripts/update_article_images.py:98 | the substitution from a position on: with no match from there on, the rest of the text is copied unchanged |
| ArticleImages.CopiedUpToMatch | scripts/update_article_images.py:98 | text before the next match is copied unchanged |
| ArticleImages.FirstMatchRewritten | scripts/update_article_images.py:95-98 | at the first match everything up to and including the opening quote is kept, the value becomes the image, the closing quote is kept, and the rest is rewritten the same way |
| ArticleImages.RewrittenContainsImage | scripts/update_article_images.py:98 | after a match the new text contains the image |
| ArticleUpdates.ArticleImageMapDistinct | scripts/update_article_images.py:22-60 | the table has 26 articles and no slug appears twice |
| ArticleUpdates.ArticleOutcome | scripts/update_article_images.py:122-143 | a found article is skipped for want of an image exactly when its category has none; it is skipped as already updated exactly when it mentions the chosen image; it is left alone exactly when it does not mention the image and has no hero-image field; it is rewritten only when it did not mention the image, its new text is the one `UpdateArticleImage` returns for the chosen image, and that text mentions the image |
| ArticleUpdates.OutcomeOf | scripts/update_article_images.py:114-118 | an article is not found exactly when no text exists for its slug |
| ArticleUpdates.ProcessArticle | scripts/update_article_images.py:123-143 | the loop body for a found article computes `ArticleOutcome` |
| ArticleUpdates.ProcessEntry | scripts/update_article_images.py:112-120 | looking the article up among the texts as the loop has left them gives the outcome the table assigns to that entry; an article is rewritten only when its text is there |
| ArticleUpdates.CountsPartition | scripts/update_article_images.py:109-143 | every article is counted exactly once: as not found, as updated or as skipped |
| ArticleUpdates.AppliedAt | scripts/update_article_images.py:138 | after the loop, a mapped article holds its rewritten text if it was rewritten, and its old text otherwise |
| ArticleUpdates.Untouched | scripts/update_article_images.py:112-143 | an article that no table entry names keeps its text |
| ArticleUpdates.RerunOutcomes | scripts/update_article_images.py:131-135 | on a second run every rewritten article is skipped as already updated, and every other article has the outcome it had before |
| ArticleUpdates.RerunCounts | scripts/update_article_images.py:109-143 | on a second run nothing is updated, and the skipped count equals the first run's updated plus skipped |
| ArticleUpdates.SecondRunUpdatesNothing | scripts/update_article_images.py:104-143 | running `main` again on the texts it produced updates nothing, skips every article found, and leaves every text as it is |
| ArticleUpdates.UpdateArticles | scripts/update_article_images.py:109-143 | the loop's counters are the updated and skipped counts of the outcome table, its texts are the texts with the rewrites applied, and updated + skipped never exceeds the number of entries |
| ArticleUpdates.UpdateMappedArticles | scripts/update_article_images.py:104-143 | on the fixed table, updated + skipped never exceeds 26 |

## Left out

- I/O of every kind is replaced by parameters. This covers HTTP requests, HTML parsing (`BeautifulSoup`), PIL open/convert/save, reading and writing files, JSON load and dump, `mkdir`, `time.sleep`, argparse and console output.
  - A parsed article is a sequence of `Element` values.
  - A category folder is an optional sequence of (name, size) entries in glob order.
  - The articles are a map from slug to text.
  - Whether a file already exists, and whether a download succeeds, are booleans.
- `hashlib.md5`, `datetime.now()`, `Path.suffix`, `os.path.splitext`, `urlparse` and `urljoin` are opaque parameters. `md5` maps a URL to its 32-digit hex `Digest`, `suffixOf` maps a URL to the suffix of its path, and the date and the urljoin result are strings.
- Unicode is not modelled. `str.lower`, `str.isspace`, `\s` and `\w` are read over ASCII.
- `ARTICLES_DIR.rglob(f"{slug}.mdx")[0]` is a lookup by slug. Which of several same-named files comes first is not modelled.
- `cat_dir.glob(ext)` is taken to yield the folder's entries in the folder's own order.
- `main` calls `get_best_image` before it reads the article; the model looks the text up first. The outcome is the same, since neither step changes what the other sees.
- ArticleImages.UpdateArticleImage: puts the new image into the text as it is. `re.sub` would also process backslash escapes and group references in the replacement string; the model does not.
- `scrape_images_from_url` is modelled only through its filters, classifier and file-name builder. Its loop over `img` tags, the `src`/`data-src` fallback and the download are left out.
- The two `download_image` functions download and convert images with PIL. That part is not modelled.
- The rest of `scripts/scraper.py` is left out: `scrape_page`, the contact extraction in `scrape_accommodations` and `scrape_churches`, and `main`.
- `scripts/generate_meta_assets.py` is not part of this model. It is image drawing with floating-point geometry.
