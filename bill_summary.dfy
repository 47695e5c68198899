/**
 * The chunking and prompt-building pipeline of the `/summary` request
 * handler: split the scraped bill text on blank lines, drop page-break
 * sections, keep the sections at positions 400 up to 500, wrap each in the
 * fixed consultant prompt, and summarise every prompt, keeping the order.
 */
module BillSummary {
  import opened Wrappers
  import opened Text
  import opened Seqs
  import Executor

  /** The blank-line separator the bill text is split on. */
  const Blank: string := "\n\n"

  /** Sections that begin with this are page-break markers. */
  const PageMarker: string := "[[Page"

  /** The window of filtered sections that is summarised: positions [WindowStart, WindowEnd). */
  const WindowStart: nat := 400
  const WindowEnd: nat := 500

  /** The prompt template up to its single `{}` placeholder, which ends the template. */
  const PromptPrefix: string := "You're a consultant and have been provided the following legislation to provide a summary CFO. You need to highlight all of the financial information. If there is no financial information in the section then briefly identify the section as having no relevant financial information. The text of the bill is: "

  /** What the scraper returns when the page has no bill text container. */
  const NotFoundText: string := "Could not find bill text container."

  /** The text the scraper hands on: the container's text, or the fallback message. */
  function ExtractedText(container: Option<string>): string {
    match container
    case Some(t) => t
    case None => NotFoundText
  }

  predicate IsPageBreak(section: string) {
    StartsWith(section, PageMarker)
  }

  /**
   * `[item for item in sections if not item.startswith('[[Page')]`: the
   * sections that are not page breaks, each as often as in the input.
   */
  function FilterPages(sections: seq<string>): (kept: seq<string>)
    ensures |kept| <= |sections|
    ensures forall k :: 0 <= k < |kept| ==> !IsPageBreak(kept[k])
  {
    if sections == [] then []
    else
      var rest := FilterPages(sections[1..]);
      if IsPageBreak(sections[0]) then rest else [sections[0]] + rest
  }

  /** The sections of a bill text: split on blank lines, page breaks removed. */
  function Sections(billText: string): seq<string> {
    FilterPages(Split(billText, Blank))
  }

  /** `template.format(section)`: the fixed prefix followed by the section. */
  function Prompt(section: string): (prompt: string)
    ensures |prompt| == |PromptPrefix| + |section|
    ensures StartsWith(prompt, PromptPrefix)
    ensures prompt[|PromptPrefix|..] == section
  {
    PromptPrefix + section
  }

  /** The section a prompt was built from: what follows the fixed prefix. */
  function SectionOf(prompt: string): string
    requires StartsWith(prompt, PromptPrefix)
  {
    prompt[|PromptPrefix|..]
  }

  /** The prompt list comprehension: one prompt per section, in order. */
  function BuildPrompts(sections: seq<string>): (prompts: seq<string>)
    ensures |prompts| == |sections|
    ensures forall i :: 0 <= i < |sections| ==>
      StartsWith(prompts[i], PromptPrefix) && SectionOf(prompts[i]) == sections[i]
  {
    Map(Prompt, sections)
  }

  /** The prompts built for a bill text: over the window of its sections. */
  function PromptsFor(billText: string): seq<string> {
    BuildPrompts(Slice(Sections(billText), WindowStart, WindowEnd))
  }

  /**
   * `summarize(prompt)`: the completion API's text for the prompt
   * (`complete`, a parameter of the model), stripped of surrounding whitespace.
   */
  function Summarize(complete: string -> string, prompt: string): (summary: string)
    ensures summary == [] || (!IsSpace(summary[0]) && !IsSpace(summary[|summary| - 1]))
    ensures exists i: nat :: IsTrimmedAt(complete(prompt), summary, i)
  {
    Strip(complete(prompt))
  }

  /**
   * `summaries = []` followed by `summaries.extend(executor.map(summarize, prompts))`:
   * extending the empty list leaves exactly the mapped results, taken here sequentially.
   */
  function Summaries(complete: string -> string, prompts: seq<string>): seq<string> {
    Map((p: string) => Summarize(complete, p), prompts)
  }

  /** The `summaries` list the handler renders for a bill text. */
  function SummariesFor(billText: string, complete: string -> string): seq<string> {
    Summaries(complete, PromptsFor(billText))
  }

  // ---------------------------------------------------------------- split

  /** Splitting yields at least one section, and re-joining reconstructs the bill text. */
  lemma SplitRoundTrip(billText: string)
    ensures |Split(billText, Blank)| >= 1
    ensures Join(Split(billText, Blank), Blank) == billText
  {
    JoinSplit(billText, Blank);
  }

  /** No split section contains a blank line. */
  lemma SplitSectionsHaveNoBlankLine(billText: string)
    ensures forall k :: 0 <= k < |Split(billText, Blank)| ==> !Contains(Split(billText, Blank)[k], Blank)
  {
    SplitPiecesExcludeSeparator(billText, Blank);
  }

  /** Leftmost, non-overlapping matching: the third newline of a run of three begins the next section. */
  lemma SplitExamples()
    ensures Split("a\n\n\nb", Blank) == ["a", "\nb"]
    ensures Split("", Blank) == [""]
  {
    var parts := ["a", "\nb"];
    assert Join(parts, Blank) == "a\n\n\nb";
    assert CutAtFirst("a", Blank) by {
      forall j: nat | j < 1 ensures !OccursAt("a" + Blank, Blank, j) {
        assert ("a" + Blank)[0] == 'a';
      }
    }
    assert !Contains("\nb", Blank) by {
      forall j: nat | j <= 2 ensures !OccursAt("\nb", Blank, j) {
        if j == 0 {
          assert "\nb"[0..2][1] == 'b';
        }
      }
    }
    SplitCharacterization("a\n\n\nb", Blank, parts);
  }

  // ---------------------------------------------------------------- filter

  /**
   * Filtering keeps exactly the sections that are not page breaks: each
   * such section as often as it occurs in the input, and nothing else.
   */
  lemma {:induction false} FilterPagesKeepsExactly(sections: seq<string>)
    ensures forall x :: multiset(FilterPages(sections))[x] == if IsPageBreak(x) then 0 else multiset(sections)[x]
    ensures forall x :: x in FilterPages(sections) <==> x in sections && !IsPageBreak(x)
    decreases |sections|
  {
    if sections != [] {
      var x, tail := sections[0], sections[1..];
      FilterPagesKeepsExactly(tail);
      assert sections == [x] + tail;
      assert multiset(sections) == multiset([x]) + multiset(tail);
      FilterPagesCons(x, tail);
      var kept := FilterPages(sections);
      assert multiset(kept) == multiset(if IsPageBreak(x) then [] else [x]) + multiset(FilterPages(tail));
      forall y
        ensures y in kept <==> y in sections && !IsPageBreak(y)
      {
        assert y in kept <==> multiset(kept)[y] > 0;
        assert y in sections <==> multiset(sections)[y] > 0;
      }
    }
  }

  /** Filtering keeps the order of the sections it keeps. */
  lemma {:induction false} FilterPagesIsSubsequence(sections: seq<string>)
    ensures IsSubsequence(FilterPages(sections), sections)
    decreases |sections|
  {
    if sections != [] {
      var rest := sections[1..];
      FilterPagesIsSubsequence(rest);
      if IsPageBreak(sections[0]) {
        SubsequenceOfTail(FilterPages(rest), sections);
      } else {
        assert ([sections[0]] + FilterPages(rest))[1..] == FilterPages(rest);
      }
    }
  }

  lemma SubsequenceOfTail<T>(ys: seq<T>, xs: seq<T>)
    requires xs != []
    requires IsSubsequence(ys, xs[1..])
    ensures IsSubsequence(ys, xs)
  {
  }

  /** One step of the comprehension: the first section, if kept, then the rest filtered. */
  lemma FilterPagesCons(x: string, xs: seq<string>)
    ensures FilterPages([x] + xs) == (if IsPageBreak(x) then [] else [x]) + FilterPages(xs)
  {
    assert ([x] + xs)[1..] == xs;
  }

  /**
   * The filter as a reference definition: an order-preserving selection
   * from `xs` that holds no page break and every other section exactly as
   * often as `xs` does.
   */
  ghost predicate IsPageFilterOf(ys: seq<string>, xs: seq<string>) {
    && IsSubsequence(ys, xs)
    && (forall k :: 0 <= k < |ys| ==> !IsPageBreak(ys[k]))
    && (forall x :: !IsPageBreak(x) ==> multiset(ys)[x] == multiset(xs)[x])
  }

  /** A page-free selection skips a leading page break. */
  lemma SelectionSkipsPageBreak(ys: seq<string>, xs: seq<string>)
    requires xs != [] && IsPageBreak(xs[0])
    requires IsSubsequence(ys, xs)
    requires forall k :: 0 <= k < |ys| ==> !IsPageBreak(ys[k])
    ensures IsSubsequence(ys, xs[1..])
  {
  }

  /** A selection with the filter's counts starts with a leading section that is kept. */
  lemma SelectionTakesKeptHead(ys: seq<string>, xs: seq<string>)
    requires xs != [] && !IsPageBreak(xs[0])
    requires IsSubsequence(ys, xs)
    requires multiset(ys) == multiset(FilterPages(xs))
    ensures ys != [] && ys[0] == xs[0] && IsSubsequence(ys[1..], xs[1..])
  {
    var x, tail := xs[0], xs[1..];
    assert xs == [x] + tail;
    FilterPagesCons(x, tail);
    FilterPagesKeepsExactly(tail);
    assert multiset(ys)[x] == 1 + multiset(tail)[x];
    if ys != [] && !(ys[0] == x && IsSubsequence(ys[1..], tail)) {
      SubsequenceMultiset(ys, tail);
      assert false;
    }
  }

  /** Removing the same first element from two lists with equal multisets keeps them equal. */
  lemma MultisetCancel(x: string, a: seq<string>, b: seq<string>)
    requires multiset([x] + a) == multiset([x] + b)
    ensures multiset(a) == multiset(b)
  {
    assert multiset([x] + a) == multiset([x]) + multiset(a);
    assert multiset([x] + b) == multiset([x]) + multiset(b);
    forall y
      ensures multiset(a)[y] == multiset(b)[y]
    {
      assert (multiset([x]) + multiset(a))[y] == (multiset([x]) + multiset(b))[y];
    }
  }

  /** Only the filter's own output is an order-preserving page-free selection with its multiplicities. */
  lemma {:induction false} FilterPagesUnique(ys: seq<string>, xs: seq<string>)
    requires IsSubsequence(ys, xs)
    requires forall k :: 0 <= k < |ys| ==> !IsPageBreak(ys[k])
    requires multiset(ys) == multiset(FilterPages(xs))
    ensures ys == FilterPages(xs)
    decreases |xs|
  {
    if xs == [] {
      assert multiset(ys) == multiset{};
    } else {
      var x, tail := xs[0], xs[1..];
      FilterPagesCons(x, tail);
      assert xs == [x] + tail;
      if IsPageBreak(x) {
        SelectionSkipsPageBreak(ys, xs);
        FilterPagesUnique(ys, tail);
      } else {
        SelectionTakesKeptHead(ys, xs);
        assert ys == [x] + ys[1..];
        MultisetCancel(x, ys[1..], FilterPages(tail));
        FilterPagesUnique(ys[1..], tail);
      }
    }
  }

  /** `FilterPages` meets the reference definition, and it is the only list that does. */
  lemma FilterPagesCharacterization(ys: seq<string>, xs: seq<string>)
    ensures ys == FilterPages(xs) <==> IsPageFilterOf(ys, xs)
  {
    FilterPagesKeepsExactly(xs);
    FilterPagesIsSubsequence(xs);
    if IsPageFilterOf(ys, xs) {
      var kept := FilterPages(xs);
      forall x
        ensures multiset(ys)[x] == multiset(kept)[x]
      {
        if IsPageBreak(x) {
          assert x !in ys;
        }
      }
      assert multiset(ys) == multiset(kept);
      FilterPagesUnique(ys, xs);
    }
  }

  /** Filtering distributes over concatenation, as a comprehension does. */
  lemma {:induction false} FilterPagesAppend(a: seq<string>, b: seq<string>)
    ensures FilterPages(a + b) == FilterPages(a) + FilterPages(b)
    decreases |a|
  {
    if a == [] {
      assert a + b == b;
    } else {
      var x, tail := a[0], a[1..];
      assert a == [x] + tail;
      assert a + b == [x] + (tail + b);
      FilterPagesAppend(tail, b);
      FilterPagesCons(x, tail + b);
      FilterPagesCons(x, tail);
    }
  }

  /** A list without page breaks passes the filter unchanged. */
  lemma {:induction false} FilterPagesKeepsClean(sections: seq<string>)
    requires forall k :: 0 <= k < |sections| ==> !IsPageBreak(sections[k])
    ensures FilterPages(sections) == sections
    decreases |sections|
  {
    if sections != [] {
      FilterPagesKeepsClean(sections[1..]);
      assert sections == [sections[0]] + sections[1..];
    }
  }

  /** Filtering is idempotent. */
  lemma FilterPagesIdempotent(sections: seq<string>)
    ensures FilterPages(FilterPages(sections)) == FilterPages(sections)
  {
    FilterPagesKeepsClean(FilterPages(sections));
  }

  /** Filtering keeps the split shape, as long as some section survives. */
  lemma {:induction false} FilterPagesKeepsSplitShape(parts: seq<string>)
    requires IsSplitShape(parts, Blank)
    requires FilterPages(parts) != []
    ensures IsSplitShape(FilterPages(parts), Blank)
    decreases |parts|
  {
    if |parts| > 1 {
      var p, tail := parts[0], parts[1..];
      assert IsSplitShape(tail, Blank) by {
        assert forall k :: 0 <= k < |tail| - 1 ==> tail[k] == parts[k + 1];
      }
      var rest := FilterPages(tail);
      assert CutAtFirst(p, Blank);
      if rest == [] {
        CutAtFirstExcludes(p, Blank);
      } else {
        FilterPagesKeepsSplitShape(tail);
      }
    }
  }

  /**
   * Re-chunking the joined sections gives the same sections, provided at
   * least one section survived the filter.
   */
  lemma RechunkIdempotent(billText: string)
    requires Sections(billText) != []
    ensures Sections(Join(Sections(billText), Blank)) == Sections(billText)
  {
    var parts := Split(billText, Blank);
    SplitShape(billText, Blank);
    FilterPagesKeepsSplitShape(parts);
    SplitJoin(FilterPages(parts), Blank);
    FilterPagesIdempotent(parts);
  }

  /** When every section is a page break, re-chunking yields one empty section, not none. */
  lemma RechunkAllPageBreaks(billText: string)
    requires Sections(billText) == []
    ensures Sections(Join(Sections(billText), Blank)) == [""]
  {
    assert Split("", Blank) == [""];
  }

  /**
   * The sections of a bill text are exactly its blank-line split with the
   * page breaks removed: in order, each non-page-break piece as often as
   * in the split, none a page break and none holding a blank line.
   */
  lemma SectionsCharacterization(billText: string)
    ensures IsPageFilterOf(Sections(billText), Split(billText, Blank))
    ensures forall k :: 0 <= k < |Sections(billText)| ==>
      !IsPageBreak(Sections(billText)[k]) && !Contains(Sections(billText)[k], Blank)
  {
    var parts := Split(billText, Blank);
    FilterPagesCharacterization(Sections(billText), parts);
    FilterPagesKeepsExactly(parts);
    SplitPiecesExcludeSeparator(billText, Blank);
    forall k | 0 <= k < |Sections(billText)|
      ensures !Contains(Sections(billText)[k], Blank)
    {
      var x := Sections(billText)[k];
      assert x in Sections(billText);
      assert x in parts;
    }
  }

  // ---------------------------------------------------------------- window and prompts

  /**
   * The number of prompts is max(0, min(n, 500) - 400) for n filtered
   * sections: at most 100, and none when there are at most 400 sections.
   */
  lemma PromptCount(billText: string)
    ensures |PromptsFor(billText)| == Max(0, Min(|Sections(billText)|, WindowEnd) - WindowStart)
    ensures |PromptsFor(billText)| <= 100
    ensures |Sections(billText)| <= 400 ==> PromptsFor(billText) == []
    ensures |Sections(billText)| >= 500 ==> |PromptsFor(billText)| == 100
  {
  }

  /** Prompt i is the template prefix followed by filtered section 400 + i. */
  lemma PromptAt(billText: string, i: nat)
    requires i < |PromptsFor(billText)|
    ensures WindowStart + i < |Sections(billText)|
    ensures PromptsFor(billText)[i] == PromptPrefix + Sections(billText)[WindowStart + i]
  {
    var window := Slice(Sections(billText), WindowStart, WindowEnd);
    assert PromptsFor(billText)[i] == Prompt(window[i]);
  }

  /** The section is recoverable from its prompt, so distinct sections get distinct prompts. */
  lemma PromptRoundTrip(section: string)
    ensures StartsWith(Prompt(section), PromptPrefix)
    ensures SectionOf(Prompt(section)) == section
  {
    assert Prompt(section)[..|PromptPrefix|] == PromptPrefix;
  }

  /** A text shorter than 800 characters has at most 400 sections, hence no prompts. */
  lemma ShortTextHasNoPrompts(billText: string)
    requires |billText| < 800
    ensures |Sections(billText)| <= 400
    ensures PromptsFor(billText) == []
  {
    SplitCount(billText, Blank);
  }

  /** A page without the bill text container is summarised as nothing. */
  lemma NotFoundHasNoSummaries(complete: string -> string)
    ensures SummariesFor(ExtractedText(None), complete) == []
  {
    ShortTextHasNoPrompts(NotFoundText);
  }

  // ---------------------------------------------------------------- summaries

  /** One summary per prompt: summary i is the stripped completion of prompt i. */
  lemma SummariesInOrder(complete: string -> string, prompts: seq<string>)
    ensures |Summaries(complete, prompts)| == |prompts|
    ensures forall i :: 0 <= i < |prompts| ==>
      Summaries(complete, prompts)[i] == Strip(complete(prompts[i]))
  {
  }

  /** Every summary is already stripped. */
  lemma SummariesAreStripped(complete: string -> string, prompts: seq<string>, i: nat)
    requires i < |prompts|
    ensures Strip(Summaries(complete, prompts)[i]) == Summaries(complete, prompts)[i]
  {
    StripIdempotent(complete(prompts[i]));
  }

  /** The results come back in prompt order whatever order the worker pool finishes them in. */
  lemma SummariesIgnoreCompletionOrder(complete: string -> string, prompts: seq<string>, order: seq<nat>)
    requires Executor.IsCompletionOrder(order, |prompts|)
    ensures Executor.RunMap((p: string) => Summarize(complete, p), prompts, order) == Summaries(complete, prompts)
  {
    Executor.RunMapIsMap((p: string) => Summarize(complete, p), prompts, order);
  }

  /**
   * The whole pipeline: one summary per filtered section at positions 400
   * up to 500, in order, each the stripped completion of that section's
   * prompt; a bill of at least 500 sections gets exactly 100.
   */
  lemma PipelineSummaries(billText: string, complete: string -> string)
    ensures |SummariesFor(billText, complete)| == Max(0, Min(|Sections(billText)|, WindowEnd) - WindowStart)
    ensures |Sections(billText)| >= 500 ==> |SummariesFor(billText, complete)| == 100
    ensures forall i :: 0 <= i < |SummariesFor(billText, complete)| ==>
      WindowStart + i < |Sections(billText)| &&
      SummariesFor(billText, complete)[i] == Strip(complete(PromptPrefix + Sections(billText)[WindowStart + i]))
  {
    var prompts := PromptsFor(billText);
    var summaries := SummariesFor(billText, complete);
    PromptCount(billText);
    SummariesInOrder(complete, prompts);
    assert |summaries| == |prompts|;
    forall i | 0 <= i < |summaries|
      ensures WindowStart + i < |Sections(billText)|
      ensures summaries[i] == Strip(complete(PromptPrefix + Sections(billText)[WindowStart + i]))
    {
      PromptAt(billText, i);
      assert summaries[i] == Strip(complete(prompts[i]));
    }
  }
}
