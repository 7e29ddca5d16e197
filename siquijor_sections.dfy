/**
  Section grouping of the Siquijor blog scraper. The heading, paragraph and
  list elements of an article are read in document order and folded into
  titled sections: text before the first heading goes to an "Introduction"
  section, paragraphs of 30 characters or fewer and lists without items are
  dropped, and a section that ends up with no content is not emitted.

  `GroupSections` is the loop as the scraper runs it. `Sections` describes its
  result in two stages: every element becomes a `Step` (a heading opens a
  section, a paragraph or list adds its kept block, if any), and `GroupFrom`
  folds the steps into sections. The lemmas below also describe the result
  segment by segment (cut the stream at every heading, keep each piece's
  content, drop the empty pieces).
 */
module SiquijorSections {
  import opened Strings

  /** An element found by `find_all(['h2', 'h3', 'p', 'ul', 'ol'])` inside the article, carrying the
      text `get_text()` returns for it (for a list, the text of each of its `li` items). */
  datatype Element = Heading(text: string) | Paragraph(text: string) | List(items: seq<string>)

  /** One entry of a section's "paragraphs": a paragraph's text, or a list's item texts. */
  datatype Block = Text(text: string) | Items(items: seq<string>)

  datatype Section = Section(heading: string, blocks: seq<Block>)

  /** The heading of the section that collects the text before the first heading. */
  const FirstHeading: string := "Introduction"

  /** Paragraphs of at most this many characters are skipped. */
  const MinParagraphLength: nat := 30

  /** What a kept block looks like: a paragraph longer than 30 characters, or a non-empty list. */
  predicate WellFormed(b: Block) {
    match b
    case Text(t) => |t| > MinParagraphLength
    case Items(xs) => xs != []
  }

  predicate AllWellFormed(blocks: seq<Block>) {
    forall i | 0 <= i < |blocks| :: WellFormed(blocks[i])
  }

  /** `[li.get_text().strip() for li in element.find_all('li')]`. */
  function StripAll(items: seq<string>): (r: seq<string>)
    ensures |r| == |items|
    ensures forall i | 0 <= i < |items| :: r[i] == Strip(items[i])
  {
    if items == [] then [] else [Strip(items[0])] + StripAll(items[1..])
  }

  /** The block a paragraph or list adds to the current section, if any; headings add none. */
  function Kept(e: Element): (blocks: seq<Block>)
    ensures |blocks| <= 1
    ensures AllWellFormed(blocks)
    ensures e.Heading? ==> blocks == []
    ensures e.Paragraph? ==> (blocks != [] <==> |Strip(e.text)| > MinParagraphLength)
    ensures e.List? ==> (blocks != [] <==> e.items != [])
    ensures blocks != [] ==> (blocks[0].Text? <==> e.Paragraph?)
  {
    match e
    case Heading(_) => []
    case Paragraph(t) => ParagraphBlock(t)
    case List(items) => ListBlock(items)
  }

  /** A paragraph is kept, stripped, when the stripped text is longer than the minimum. */
  function ParagraphBlock(t: string): (blocks: seq<Block>)
    ensures |blocks| <= 1 && AllWellFormed(blocks)
    ensures blocks != [] <==> |Strip(t)| > MinParagraphLength
    ensures blocks != [] ==> blocks == [Text(Strip(t))]
  {
    var text := Strip(t);
    if |text| > MinParagraphLength then [Text(text)] else []
  }

  /** A list is kept, its items stripped, when it has items. */
  function ListBlock(items: seq<string>): (blocks: seq<Block>)
    ensures |blocks| <= 1 && AllWellFormed(blocks)
    ensures blocks != [] <==> items != []
    ensures blocks != [] ==> blocks == [Items(StripAll(items))]
  {
    if items == [] then []
    else
      var stripped := StripAll(items);
      assert WellFormed(Items(stripped));
      [Items(stripped)]
  }

  /** What an element does to the open section. */
  datatype Step = Open(title: string) | Add(blocks: seq<Block>)

  /** A heading opens a section titled with its stripped text; anything else adds its kept block. */
  function StepOf(e: Element): (step: Step)
    ensures step.Open? <==> e.Heading?
    ensures step.Open? ==> step.title == Strip(e.text)
    ensures step.Add? ==> |step.blocks| <= 1 && AllWellFormed(step.blocks)
    ensures step.Add? ==> (step.blocks != [] <==>
      (e.Paragraph? && |Strip(e.text)| > MinParagraphLength) || (e.List? && e.items != []))
  {
    if e.Heading? then Open(Strip(e.text)) else Add(Kept(e))
  }

  /** The steps of an article, one per element, in document order. */
  function Steps(es: seq<Element>): (steps: seq<Step>)
    ensures |steps| == |es|
  {
    if es == [] then [] else [StepOf(es[0])] + Steps(es[1..])
  }

  lemma {:induction false} StepAt(es: seq<Element>, k: nat)
    requires k < |es|
    ensures Steps(es)[k] == StepOf(es[k])
  {
    if k > 0 {
      StepAt(es[1..], k - 1);
    }
  }

  /** The blocks that `steps[i..j]` add, in order. */
  function Added(steps: seq<Step>, i: nat, j: nat): seq<Block>
    requires i <= j <= |steps|
    decreases j - i
  {
    if i == j then [] else (if steps[i].Add? then steps[i].blocks else []) + Added(steps, i + 1, j)
  }

  /** The position of the first `Open` step at or after `i`, or `|steps|` when there is none. */
  function NextOpen(steps: seq<Step>, i: nat): (n: nat)
    requires i <= |steps|
    ensures i <= n <= |steps|
    ensures n < |steps| ==> steps[n].Open?
    ensures forall k | i <= k < n :: steps[k].Add?
    decreases |steps| - i
  {
    if i == |steps| || steps[i].Open? then i else NextOpen(steps, i + 1)
  }

  /** A section as it is emitted when it is closed: only if it holds something. */
  function Close(s: Section): (emitted: seq<Section>)
    ensures emitted == [] || emitted == [s]
    ensures emitted == [] <==> s.blocks == []
  {
    if s.blocks == [] then [] else [s]
  }

  /** The sections of `steps[i..]` when the section titled `heading` is open and already holds
      `pending`: an `Add` step adds its blocks to the open section, an `Open` step closes it
      (emitting it only if it holds something) and opens a new one, and the end of the article
      closes it. */
  function GroupFrom(heading: string, pending: seq<Block>, steps: seq<Step>, i: nat): (sections: seq<Section>)
    requires i <= |steps|
    ensures forall m | 0 <= m < |sections| :: sections[m].blocks != []
    ensures forall m | 0 <= m < |sections| :: sections[m].heading == heading || OpenedFrom(steps, i, sections[m].heading)
    decreases |steps| - i
  {
    if i == |steps| then Close(Section(heading, pending))
    else match steps[i]
      case Open(title) => Close(Section(heading, pending)) + GroupFrom(title, [], steps, i + 1)
      case Add(blocks) => GroupFrom(heading, pending + blocks, steps, i + 1)
  }

  /** Some step of `steps[i..]` opens a section titled `title`. */
  predicate OpenedFrom(steps: seq<Step>, i: nat, title: string) {
    exists k | i <= k < |steps| :: steps[k] == Open(title)
  }

  /** The sections of an article. Every section holds something, and is either the introduction or
      titled with the stripped text of one of the article's headings. */
  function Sections(es: seq<Element>): (sections: seq<Section>)
    ensures forall m | 0 <= m < |sections| :: sections[m].blocks != []
    ensures forall m | 0 <= m < |sections| ::
      sections[m].heading == FirstHeading || HeadingTitled(es, sections[m].heading)
  {
    var sections := GroupFrom(FirstHeading, [], Steps(es), 0);
    OpenedByHeading(es, sections);
    sections
  }

  /** Some heading element of `es` has `title` as its stripped text. */
  predicate HeadingTitled(es: seq<Element>, title: string) {
    exists k | 0 <= k < |es| :: es[k].Heading? && Strip(es[k].text) == title
  }

  /** A section opened by a step was opened by a heading element. */
  lemma OpenedByHeading(es: seq<Element>, sections: seq<Section>)
    requires forall m | 0 <= m < |sections| ::
      sections[m].heading == FirstHeading || OpenedFrom(Steps(es), 0, sections[m].heading)
    ensures forall m | 0 <= m < |sections| ::
      sections[m].heading == FirstHeading || HeadingTitled(es, sections[m].heading)
  {
    forall m | 0 <= m < |sections| && sections[m].heading != FirstHeading
      ensures HeadingTitled(es, sections[m].heading)
    {
      var k :| 0 <= k < |es| && Steps(es)[k] == Open(sections[m].heading);
      StepAt(es, k);
    }
  }

  /** All blocks of a list of sections, in order. */
  function Flatten(sections: seq<Section>): seq<Block> {
    if sections == [] then [] else sections[0].blocks + Flatten(sections[1..])
  }

  // ---------------------------------------------------------------------------
  // The scraper's loop

  /** The grouping loop of the content scraper: `current` is the open section, and a heading closes
      it (appending it only if it has content) and opens a new one. */
  method GroupSections(elements: seq<Element>) returns (sections: seq<Section>)
    ensures sections == Sections(elements)
  {
    ghost var steps := Steps(elements);
    sections := [];
    var current := Section(FirstHeading, []);
    for i := 0 to |elements|
      invariant Sections(elements) == sections + GroupFrom(current.heading, current.blocks, steps, i)
    {
      match elements[i]
      case Heading(t) =>
        HeadingStep(elements, i, current.heading, current.blocks);
        AppendAssoc(sections, Close(current), GroupFrom(Strip(t), [], steps, i + 1));
        if current.blocks != [] {
          sections := sections + [current];
        } else {
          assert sections + Close(current) == sections;
        }
        current := Section(Strip(t), []);
      case Paragraph(t) =>
        ParagraphStep(elements, i, current.heading, current.blocks);
        var text := Strip(t);
        if |text| > MinParagraphLength {
          current := current.(blocks := current.blocks + [Text(text)]);
        }
      case List(items) =>
        ListStep(elements, i, current.heading, current.blocks);
        var texts := StripAll(items);
        if texts != [] {
          current := current.(blocks := current.blocks + [Items(texts)]);
        }
    }
    if current.blocks != [] {
      sections := sections + [current];
    }
  }

  // ---------------------------------------------------------------------------
  // Helpers

  /** A heading closes the open section and opens one titled with its stripped text. */
  lemma HeadingStep(es: seq<Element>, i: nat, heading: string, pending: seq<Block>)
    requires i < |es| && es[i].Heading?
    ensures GroupFrom(heading, pending, Steps(es), i)
      == Close(Section(heading, pending)) + GroupFrom(Strip(es[i].text), [], Steps(es), i + 1)
  {
    StepAt(es, i);
  }

  /** A paragraph adds its stripped text to the open section when that is longer than the minimum. */
  lemma ParagraphStep(es: seq<Element>, i: nat, heading: string, pending: seq<Block>)
    requires i < |es| && es[i].Paragraph?
    ensures |Strip(es[i].text)| > MinParagraphLength ==>
      GroupFrom(heading, pending, Steps(es), i) == GroupFrom(heading, pending + [Text(Strip(es[i].text))], Steps(es), i + 1)
    ensures |Strip(es[i].text)| <= MinParagraphLength ==>
      GroupFrom(heading, pending, Steps(es), i) == GroupFrom(heading, pending, Steps(es), i + 1)
  {
    StepAt(es, i);
    AddStep(heading, pending, Steps(es), i);
    assert pending + [] == pending;
  }

  /** An `Add` step puts its blocks into the open section. */
  lemma AddStep(heading: string, pending: seq<Block>, steps: seq<Step>, i: nat)
    requires i < |steps| && steps[i].Add?
    ensures GroupFrom(heading, pending, steps, i) == GroupFrom(heading, pending + steps[i].blocks, steps, i + 1)
  {
  }

  /** A list adds its stripped items to the open section when it has any. */
  lemma ListStep(es: seq<Element>, i: nat, heading: string, pending: seq<Block>)
    requires i < |es| && es[i].List?
    ensures es[i].items != [] ==>
      GroupFrom(heading, pending, Steps(es), i) == GroupFrom(heading, pending + [Items(StripAll(es[i].items))], Steps(es), i + 1)
    ensures es[i].items == [] ==>
      GroupFrom(heading, pending, Steps(es), i) == GroupFrom(heading, pending, Steps(es), i + 1)
  {
    StepAt(es, i);
    assert pending + [] == pending;
  }

  lemma AppendAssoc<T>(a: seq<T>, b: seq<T>, c: seq<T>)
    ensures a + (b + c) == (a + b) + c
  {
  }

  lemma AppendWellFormed(a: seq<Block>, b: seq<Block>)
    requires AllWellFormed(a) && AllWellFormed(b)
    ensures AllWellFormed(a + b)
  {
  }

  lemma FlattenClose(s: Section, rest: seq<Section>)
    ensures Flatten(Close(s) + rest) == s.blocks + Flatten(rest)
  {
    if s.blocks == [] {
      assert Close(s) + rest == rest;
    } else {
      assert ([s] + rest)[1..] == rest;
    }
  }

  // ---------------------------------------------------------------------------
  // Properties of the grouping

  /** Every emitted section holds at least one block, and every block is well formed, provided the
      open section and every added block are. */
  lemma {:induction false} GroupFromWellFormed(heading: string, pending: seq<Block>, steps: seq<Step>, i: nat)
    requires i <= |steps|
    requires AllWellFormed(pending)
    requires forall k | i <= k < |steps| :: steps[k].Add? ==> AllWellFormed(steps[k].blocks)
    ensures forall m | 0 <= m < |GroupFrom(heading, pending, steps, i)| ::
      GroupFrom(heading, pending, steps, i)[m].blocks != [] && AllWellFormed(GroupFrom(heading, pending, steps, i)[m].blocks)
    decreases |steps| - i
  {
    if i < |steps| {
      match steps[i]
      case Open(title) =>
        GroupFromWellFormed(title, [], steps, i + 1);
      case Add(blocks) =>
        AppendWellFormed(pending, blocks);
        GroupFromWellFormed(heading, pending + blocks, steps, i + 1);
    }
  }

  /** No section of an article is empty, every paragraph in it is longer than 30 characters and every
      list in it has an item. */
  lemma SectionsWellFormed(es: seq<Element>)
    ensures forall m | 0 <= m < |Sections(es)| ::
      Sections(es)[m].blocks != [] && AllWellFormed(Sections(es)[m].blocks)
  {
    var steps := Steps(es);
    forall k | 0 <= k < |steps|
      ensures steps[k].Add? ==> AllWellFormed(steps[k].blocks)
    {
      StepAt(es, k);
    }
    GroupFromWellFormed(FirstHeading, [], steps, 0);
  }

  /** Grouping loses and reorders nothing: the sections' blocks, read in order, are exactly the
      blocks of the open section followed by those the remaining steps add, in order. */
  lemma {:induction false} GroupFromKeepsOrder(heading: string, pending: seq<Block>, steps: seq<Step>, i: nat)
    requires i <= |steps|
    ensures Flatten(GroupFrom(heading, pending, steps, i)) == pending + Added(steps, i, |steps|)
    decreases |steps| - i
  {
    if i == |steps| {
      FlattenClose(Section(heading, pending), []);
    } else {
      match steps[i]
      case Open(title) =>
        FlattenClose(Section(heading, pending), GroupFrom(title, [], steps, i + 1));
        GroupFromKeepsOrder(title, [], steps, i + 1);
      case Add(blocks) =>
        GroupFromKeepsOrder(heading, pending + blocks, steps, i + 1);
        AppendAssoc(pending, blocks, Added(steps, i + 1, |steps|));
    }
  }

  /** Document order is preserved: the blocks of all sections, in order, are the kept blocks of all
      paragraphs and lists, in document order. */
  lemma SectionsKeepOrder(es: seq<Element>)
    ensures Flatten(Sections(es)) == Added(Steps(es), 0, |es|)
  {
    GroupFromKeepsOrder(FirstHeading, [], Steps(es), 0);
  }

  /** What follows the open section once it is closed at `n`: nothing at the end of the article,
      otherwise the sections of the rest, starting with the one the step at `n` opens. */
  function Reopened(steps: seq<Step>, n: nat): seq<Section>
    requires n <= |steps|
    requires n < |steps| ==> steps[n].Open?
  {
    if n == |steps| then [] else GroupFrom(steps[n].title, [], steps, n + 1)
  }

  /** The grouping described segment by segment: the open section takes the blocks added up to the
      next heading, at `n`, and is emitted if it then holds anything; that heading opens the next
      section. */
  lemma {:induction false} GroupFromBySegments(heading: string, pending: seq<Block>, steps: seq<Step>, i: nat, n: nat)
    requires i <= |steps| && n == NextOpen(steps, i)
    ensures GroupFrom(heading, pending, steps, i) == Close(Section(heading, pending + Added(steps, i, n))) + Reopened(steps, n)
    decreases |steps| - i
  {
    if i == |steps| {
      assert pending + [] == pending;
      assert Close(Section(heading, pending)) + [] == Close(Section(heading, pending));
    } else if steps[i].Open? {
      assert pending + [] == pending;
    } else {
      var blocks := steps[i].blocks;
      GroupFromBySegments(heading, pending + blocks, steps, i + 1, n);
      AppendAssoc(pending, blocks, Added(steps, i + 1, n));
    }
  }

  /** When content is kept before the first heading, the first section is titled "Introduction" and
      holds exactly that content. */
  lemma IntroductionComesFirst(es: seq<Element>)
    requires Added(Steps(es), 0, NextOpen(Steps(es), 0)) != []
    ensures Sections(es) != []
    ensures Sections(es)[0] == Section(FirstHeading, Added(Steps(es), 0, NextOpen(Steps(es), 0)))
  {
    var steps := Steps(es);
    GroupFromBySegments(FirstHeading, [], steps, 0, NextOpen(steps, 0));
    assert [] + Added(steps, 0, NextOpen(steps, 0)) == Added(steps, 0, NextOpen(steps, 0));
  }

  /** The grouping of `steps[i..]` depends on nothing before `i`. */
  lemma {:induction false} GroupFromSuffix(heading: string, pending: seq<Block>, a: seq<Step>, i: nat, b: seq<Step>, j: nat)
    requires i <= |a| && j <= |b|
    requires a[i..] == b[j..]
    ensures GroupFrom(heading, pending, a, i) == GroupFrom(heading, pending, b, j)
    decreases |a| - i
  {
    assert |a| - i == |b| - j;
    if i < |a| {
      assert a[i] == a[i..][0] == b[j..][0] == b[j];
      assert a[i + 1..] == a[i..][1..] == b[j..][1..] == b[j + 1..];
      match a[i]
      case Open(title) =>
        GroupFromSuffix(title, [], a, i + 1, b, j + 1);
      case Add(blocks) =>
        GroupFromSuffix(heading, pending + blocks, a, i + 1, b, j + 1);
    }
  }

  /** Steps that add nothing leave the grouping unchanged. */
  lemma {:induction false} SilentSkipped(heading: string, pending: seq<Block>, steps: seq<Step>, i: nat, j: nat)
    requires i <= j <= |steps|
    requires forall k | i <= k < j :: steps[k] == Add([])
    ensures GroupFrom(heading, pending, steps, i) == GroupFrom(heading, pending, steps, j)
    decreases j - i
  {
    if i < j {
      assert pending + [] == pending;
      SilentSkipped(heading, pending, steps, i + 1, j);
    }
  }

  /** A paragraph of at most 30 characters once stripped, or a list without items: an element that
      adds no block and opens no section. */
  predicate Dropped(e: Element) {
    match e
    case Heading(_) => false
    case Paragraph(t) => |Strip(t)| <= MinParagraphLength
    case List(items) => items == []
  }

  /** A heading followed by nothing that is kept before the next heading produces no section: the
      article groups exactly as if that heading and the elements after it, up to the next heading,
      were not there. */
  lemma EmptySectionDropped(es: seq<Element>, i: nat, j: nat)
    requires i < j < |es|
    requires es[i].Heading? && es[j].Heading?
    requires forall k | i < k < j :: Dropped(es[k])
    ensures Sections(es) == Sections(es[..i] + es[j..])
  {
    var steps := Steps(es);
    var short := Steps(es[..i] + es[j..]);
    forall k | i < k < j
      ensures steps[k] == Add([])
    {
      StepAt(es, k);
    }
    StepAt(es, i);
    StepAt(es, j);
    CutSteps(es, i, j);
    DroppedFrom(FirstHeading, [], steps, i, j, 0, short);
  }

  lemma {:induction false} StepsConcat(a: seq<Element>, b: seq<Element>)
    ensures Steps(a + b) == Steps(a) + Steps(b)
  {
    if a == [] {
      assert a + b == b;
    } else {
      assert (a + b)[0] == a[0];
      assert (a + b)[1..] == a[1..] + b;
      StepsConcat(a[1..], b);
    }
  }

  /** The steps of `es` with `es[i..j]` cut out are the steps of `es` with `steps[i..j]` cut out. */
  lemma CutSteps(es: seq<Element>, i: nat, j: nat)
    requires i < j < |es|
    ensures var steps := Steps(es); var short := Steps(es[..i] + es[j..]);
      |short| == |steps| - (j - i) && short[..i] == steps[..i] && short[i] == steps[j] && short[i + 1..] == steps[j + 1..]
  {
    var front := Steps(es[..i]);
    var back := Steps(es[j..]);
    StepsSplit(es, i);
    StepsSplit(es, j);
    StepsConcat(es[..i], es[j..]);
    CutParts(Steps(es), front, back, i, j);
  }

  /** The steps of an article split where the article is split. */
  lemma StepsSplit(es: seq<Element>, i: nat)
    requires i <= |es|
    ensures Steps(es)[..i] == Steps(es[..i]) && Steps(es)[i..] == Steps(es[i..])
  {
    assert es == es[..i] + es[i..];
    StepsConcat(es[..i], es[i..]);
  }

  lemma CutParts(steps: seq<Step>, front: seq<Step>, back: seq<Step>, i: nat, j: nat)
    requires i < j < |steps| && steps[..i] == front && steps[j..] == back
    ensures var short := front + back;
      |short| == |steps| - (j - i) && short[..i] == steps[..i] && short[i] == steps[j] && short[i + 1..] == steps[j + 1..]
  {
    assert (front + back)[..i] == front;
    assert (front + back)[i + 1..] == back[1..];
    assert back[1..] == steps[j + 1..];
  }

  /** `short` is `steps` with `steps[i..j]` cut out; the two group alike from any position up to `i`. */
  lemma {:induction false} DroppedFrom(
    heading: string, pending: seq<Block>, steps: seq<Step>, i: nat, j: nat, k: nat, short: seq<Step>)
    requires k <= i < j < |steps|
    requires steps[i].Open? && steps[j].Open?
    requires forall m | i < m < j :: steps[m] == Add([])
    requires |short| == |steps| - (j - i)
    requires short[..i] == steps[..i] && short[i] == steps[j] && short[i + 1..] == steps[j + 1..]
    ensures GroupFrom(heading, pending, steps, k) == GroupFrom(heading, pending, short, k)
    decreases i - k
  {
    if k < i {
      assert short[k] == short[..i][k] == steps[..i][k] == steps[k];
      match steps[k]
      case Open(title) =>
        DroppedFrom(title, [], steps, i, j, k + 1, short);
      case Add(blocks) =>
        DroppedFrom(heading, pending + blocks, steps, i, j, k + 1, short);
    } else {
      var next := steps[j].title;
      calc {
        GroupFrom(heading, pending, steps, i);
        Close(Section(heading, pending)) + GroupFrom(steps[i].title, [], steps, i + 1);
      == { SilentSkipped(steps[i].title, [], steps, i + 1, j); }
        Close(Section(heading, pending)) + GroupFrom(steps[i].title, [], steps, j);
      == { assert [] + GroupFrom(next, [], steps, j + 1) == GroupFrom(next, [], steps, j + 1); }
        Close(Section(heading, pending)) + GroupFrom(next, [], steps, j + 1);
      == { GroupFromSuffix(next, [], steps, j + 1, short, i + 1); }
        Close(Section(heading, pending)) + GroupFrom(next, [], short, i + 1);
        GroupFrom(heading, pending, short, i);
      }
    }
  }
}
