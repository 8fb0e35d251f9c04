/**
 * Chapter normalisation of one converted chapter file
 * (`append_headers_and_strip_section_redeclaration`).
 *
 * Every title is the text between a `\section{` and the first `}\label` after
 * it (lazy match, DOTALL). The byline declaration is a `\section{`, the first
 * `by` after it and the first blank line after that `by`; every such span is
 * deleted. The rewritten file is `\chapter{` + the first title + `}` and a line
 * break, followed by the text with the bylines deleted.
 */
module Chapters {
  import opened Wrappers
  import opened Strings

  const SectionOpen := "\\section{"
  const LabelMark := "}\\label"
  const By := "by"
  const BlankLine := "\n\n"
  const ChapterOpen := "\\chapter{"

  /** The title of the leftmost match of `\\section{(.*?)}\\label` (DOTALL). */
  function TitleSpan(s: string): (r: Option<Span>)
    ensures r.Some? ==> r.value.start <= r.value.end && r.value.end + |LabelMark| <= |s|
  {
    var open := IndexOf(s, SectionOpen, 0);
    if open.None? then None
    else
      var close := IndexOf(s, LabelMark, open.value + |SectionOpen|);
      if close.None? then None
      else Some(Span(open.value + |SectionOpen|, close.value))
  }

  /** `re.findall(r"\\section{(.*?)}\\label", s, flags=re.DOTALL)`. */
  function Titles(s: string): (r: seq<string>)
    decreases |s|
  {
    var span := TitleSpan(s);
    if span.None? then []
    else [s[span.value.start..span.value.end]] + Titles(s[span.value.end + |LabelMark|..])
  }

  /** Some `\section{` is followed, somewhere after its brace, by a `}\label`. */
  ghost predicate HasHeading(s: string) {
    exists p: nat, q: nat ::
      OccursAt(s, SectionOpen, p) && p + |SectionOpen| <= q && OccursAt(s, LabelMark, q)
  }

  /** The leftmost match of the byline regex `\section{.*?by.*?\n\n`. */
  function BylineSpan(s: string): (r: Option<Span>)
    ensures r.Some? ==> r.value.start < r.value.end <= |s|
    ensures r.Some? ==> OccursAt(s, SectionOpen, r.value.start)
  {
    var open := IndexOf(s, SectionOpen, 0);
    if open.None? then None
    else
      var byline := IndexOf(s, By, open.value + |SectionOpen|);
      if byline.None? then None
      else
        var blank := IndexOf(s, BlankLine, byline.value + |By|);
        if blank.None? then None
        else Some(Span(open.value, blank.value + |BlankLine|))
  }

  /** Some `\section{` is followed, after its brace, by a `by` and then a blank line. */
  ghost predicate HasByline(s: string) {
    exists p: nat, b: nat, n: nat ::
      OccursAt(s, SectionOpen, p) && p + |SectionOpen| <= b && OccursAt(s, By, b) &&
      b + |By| <= n && OccursAt(s, BlankLine, n)
  }

  /** The pieces the byline regex leaves in place, in order. */
  function BylineKept(s: string): (r: seq<string>)
    ensures |r| > 0
    decreases |s|
  {
    var span := BylineSpan(s);
    if span.None? then [s]
    else [s[..span.value.start]] + BylineKept(s[span.value.end..])
  }

  /** `re.sub(r"\\section{.*?by.*?\n\n", "", s, flags=re.DOTALL)`. */
  function StripBylines(s: string): (r: string)
    ensures Absent(s, SectionOpen) ==> r == s
  {
    Join(BylineKept(s), "")
  }

  /**
   * The rewritten chapter file, or None where the source fails: with no title
   * at all, `matches[0]` raises after the file was already opened for writing.
   */
  function NormalizeChapter(s: string): (r: Option<string>)
    ensures r.None? <==> |Titles(s)| == 0
    ensures r.Some? ==> ChapterOpen <= r.value
  {
    var titles := Titles(s);
    if |titles| == 0 then None
    else Some(ChapterOpen + titles[0] + "}\n" + StripBylines(s))
  }

  /** The source prints its warning exactly when the number of titles is not one. */
  predicate TitleWarning(s: string) {
    |Titles(s)| != 1
  }

  // ---------------------------------------------------------------------------
  // Lemmas

  lemma SectionOpenUnbordered()
    ensures Unbordered(SectionOpen)
  {
    LeadCharUnbordered(SectionOpen);
  }

  lemma LabelMarkUnbordered()
    ensures Unbordered(LabelMark)
  {
    LeadCharUnbordered(LabelMark);
  }

  lemma ByUnbordered()
    ensures Unbordered(By)
  {
    LeadCharUnbordered(By);
  }

  /** A title is found exactly when some `\section{` is followed by a `}\label`. */
  lemma TitleSpanIff(s: string)
    ensures TitleSpan(s).Some? <==> HasHeading(s)
  {
    var open := IndexOf(s, SectionOpen, 0);
    if open.Some? {
      var from := open.value + |SectionOpen|;
      var close := IndexOf(s, LabelMark, from);
      if close.Some? {
        assert OccursAt(s, LabelMark, close.value);
      } else {
        forall p: nat, q: nat | OccursAt(s, SectionOpen, p) && p + |SectionOpen| <= q
          ensures !OccursAt(s, LabelMark, q)
        {
        }
      }
    }
  }

  /** There are no titles exactly when no `\section{` is followed by a `}\label`. */
  lemma TitlesEmptyIff(s: string)
    ensures |Titles(s)| == 0 <==> !HasHeading(s)
  {
    TitleSpanIff(s);
  }

  /** The source fails on a chapter exactly when no `\section{` is followed by a `}\label`. */
  lemma NormalizeChapterFails(s: string)
    ensures NormalizeChapter(s).None? <==> !HasHeading(s)
  {
    TitlesEmptyIff(s);
  }

  /**
   * No title holds `}\label`: the lazy match stops at the first one, and the
   * next search resumes after it, so matches never overlap.
   */
  lemma {:induction false} TitlesAvoidLabel(s: string)
    ensures forall i :: 0 <= i < |Titles(s)| ==> Absent(Titles(s)[i], LabelMark)
    decreases |s|
  {
    var span := TitleSpan(s);
    if span.Some? {
      var t, rest := s[span.value.start..span.value.end], s[span.value.end + |LabelMark|..];
      TitleSpanAvoidsLabel(s);
      TitlesStep(s, t, rest);
      TitlesAvoidLabel(rest);
    }
  }

  lemma TitleSpanAvoidsLabel(s: string)
    requires TitleSpan(s).Some?
    ensures Absent(s[TitleSpan(s).value.start..TitleSpan(s).value.end], LabelMark)
  {
    var open := IndexOf(s, SectionOpen, 0);
    AbsentBefore(s, LabelMark, open.value + |SectionOpen|, TitleSpan(s).value.end);
  }

  lemma TitleParts(pre: string, t: string, post: string)
    ensures var s := pre + SectionOpen + t + LabelMark + post;
      var from := |pre| + |SectionOpen|;
      s[0..from] == pre + SectionOpen &&
      s[from..from + |t| + |LabelMark|] == t + LabelMark &&
      s[from..from + |t|] == t &&
      s[from + |t| + |LabelMark|..] == post
  {
  }

  /** Where the first title of `pre + \section{ + t + }\label + post` lies. */
  lemma TitleSpanCons(pre: string, t: string, post: string)
    requires Absent(pre, SectionOpen) && Absent(t, LabelMark)
    ensures var s := pre + SectionOpen + t + LabelMark + post;
      TitleSpan(s).Some? &&
      TitleSpan(s).value.start == |pre| + |SectionOpen| &&
      TitleSpan(s).value.end == |pre| + |SectionOpen| + |t|
  {
    var s := pre + SectionOpen + t + LabelMark + post;
    var from := |pre| + |SectionOpen|;
    TitleParts(pre, t, post);
    SectionOpenUnbordered();
    LabelMarkUnbordered();
    UnborderedFirstAtEnd(pre, SectionOpen);
    UnborderedFirstAtEnd(t, LabelMark);
    IndexOfWithin(s, 0, pre, SectionOpen);
    IndexOfWithin(s, from, t, LabelMark);
  }

  /** One step of `Titles`, with the title and the rest named. */
  lemma TitlesStep(s: string, t: string, rest: string)
    requires TitleSpan(s).Some?
    requires s[TitleSpan(s).value.start..TitleSpan(s).value.end] == t
    requires s[TitleSpan(s).value.end + |LabelMark|..] == rest
    ensures Titles(s) == [t] + Titles(rest)
  {
  }

  /** A title is the text between the first `\section{` and the first `}\label` after it. */
  lemma TitlesCons(pre: string, t: string, post: string)
    requires Absent(pre, SectionOpen) && Absent(t, LabelMark)
    ensures Titles(pre + SectionOpen + t + LabelMark + post) == [t] + Titles(post)
  {
    TitleSpanCons(pre, t, post);
    TitleParts(pre, t, post);
    TitlesStep(pre + SectionOpen + t + LabelMark + post, t, post);
  }

  /**
   * The first title decides the header; the source warns exactly when another
   * title follows it.
   */
  lemma NormalizeFirstTitle(pre: string, t: string, post: string)
    requires Absent(pre, SectionOpen) && Absent(t, LabelMark)
    ensures var s := pre + SectionOpen + t + LabelMark + post;
      NormalizeChapter(s) == Some(ChapterOpen + t + "}\n" + StripBylines(s)) &&
      (TitleWarning(s) <==> HasHeading(post))
  {
    TitlesCons(pre, t, post);
    TitlesEmptyIff(post);
  }

  /** A byline span is found exactly when the byline regex has a match. */
  lemma BylineSpanIff(s: string)
    ensures BylineSpan(s).Some? <==> HasByline(s)
  {
    var open := IndexOf(s, SectionOpen, 0);
    if open.Some? {
      var byline := IndexOf(s, By, open.value + |SectionOpen|);
      if byline.None? {
        forall p: nat, b: nat | OccursAt(s, SectionOpen, p) && p + |SectionOpen| <= b
          ensures !OccursAt(s, By, b)
        {
        }
      } else {
        var blank := IndexOf(s, BlankLine, byline.value + |By|);
        if blank.None? {
          forall p: nat, b: nat, n: nat |
            OccursAt(s, SectionOpen, p) && p + |SectionOpen| <= b && OccursAt(s, By, b) && b + |By| <= n
            ensures !OccursAt(s, BlankLine, n)
          {
          }
        } else {
          assert OccursAt(s, BlankLine, blank.value);
        }
      }
    }
  }

  /** A text the byline regex does not match is left unchanged. */
  lemma StripBylinesWithoutByline(s: string)
    requires !HasByline(s)
    ensures StripBylines(s) == s
  {
    BylineSpanIff(s);
  }

  /** One step of `BylineKept`, with the kept text and the rest named. */
  lemma BylineStep(s: string, kept: string, rest: string)
    requires BylineSpan(s).Some?
    requires s[..BylineSpan(s).value.start] == kept && s[BylineSpan(s).value.end..] == rest
    ensures BylineKept(s) == [kept] + BylineKept(rest)
  {
  }

  /** A gap free of blank lines and not ending in a line break is followed by its first blank line. */
  lemma BlankLineFirstAtEnd(gap: string)
    requires Absent(gap, BlankLine) && (|gap| == 0 || gap[|gap| - 1] != '\n')
    ensures FirstAtEnd(gap, BlankLine)
  {
    var s := gap + BlankLine;
    assert s[..|gap|] == gap;
    forall j: nat | j < |gap| ensures !OccursAt(s, BlankLine, j) {
      if j + |BlankLine| <= |gap| {
        SliceOccurs(s, BlankLine, 0, |gap|, j);
      } else {
        MismatchAt(s, BlankLine, j, 0);
      }
    }
  }

  lemma BylineParts(pre: string, mid: string, gap: string, post: string)
    ensures var s := pre + SectionOpen + mid + By + gap + BlankLine + post;
      var b := |pre| + |SectionOpen| + |mid|;
      var n := b + |By| + |gap|;
      s[0..|pre| + |SectionOpen|] == pre + SectionOpen &&
      s[|pre| + |SectionOpen|..b + |By|] == mid + By &&
      s[b + |By|..n + |BlankLine|] == gap + BlankLine &&
      s[..|pre|] == pre && s[n + |BlankLine|..] == post
  {
  }

  /** Where the first byline span of `pre + \section{ + mid + by + gap + blank line + post` lies. */
  lemma BylineSpanCons(pre: string, mid: string, gap: string, post: string)
    requires Absent(pre, SectionOpen) && Absent(mid, By)
    requires Absent(gap, BlankLine) && (|gap| == 0 || gap[|gap| - 1] != '\n')
    ensures var s := pre + SectionOpen + mid + By + gap + BlankLine + post;
      BylineSpan(s).Some? &&
      BylineSpan(s).value.start == |pre| &&
      BylineSpan(s).value.end == |pre| + |SectionOpen| + |mid| + |By| + |gap| + |BlankLine|
  {
    var s := pre + SectionOpen + mid + By + gap + BlankLine + post;
    BylineParts(pre, mid, gap, post);
    SectionOpenUnbordered();
    ByUnbordered();
    UnborderedFirstAtEnd(pre, SectionOpen);
    UnborderedFirstAtEnd(mid, By);
    BlankLineFirstAtEnd(gap);
    IndexOfWithin(s, 0, pre, SectionOpen);
    IndexOfWithin(s, |pre| + |SectionOpen|, mid, By);
    IndexOfWithin(s, |pre| + |SectionOpen| + |mid| + |By|, gap, BlankLine);
  }

  /**
   * A byline span runs from the first `\section{` to the first blank line that
   * follows the first `by` after it; the text before it is kept and the search
   * resumes after the blank line.
   */
  lemma StripBylinesCons(pre: string, mid: string, gap: string, post: string)
    requires Absent(pre, SectionOpen) && Absent(mid, By)
    requires Absent(gap, BlankLine) && (|gap| == 0 || gap[|gap| - 1] != '\n')
    ensures StripBylines(pre + SectionOpen + mid + By + gap + BlankLine + post) ==
            pre + StripBylines(post)
  {
    BylineSpanCons(pre, mid, gap, post);
    BylineParts(pre, mid, gap, post);
    BylineStep(pre + SectionOpen + mid + By + gap + BlankLine + post, pre, post);
    JoinCons(pre, BylineKept(post), "");
    assert pre + "" == pre;
  }
}
