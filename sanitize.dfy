/**
 * The two optional sanitisers of a chapter file.
 *
 * `strip_notes` replaces every lazy `\end{description}` ... `\phantomsection\label{chapters}`
 * span by the two markers side by side, then deletes everything from the
 * first `\subsection{Afterword}` to the end of the text (greedy `.*`, DOTALL).
 *
 * `convert_verbatim` renames every `\begin{verbatim}` to `\begin{lstlisting}`
 * and then every `\end{verbatim}` to `\end{lstlisting}`.
 */
module Sanitize {
  import opened Wrappers
  import opened Strings

  const NotesOpen := "\\end{description}"
  const ClosePhantom := "\\phantomsection"
  const CloseLabel := "\\label{chapters}"
  const NotesClose := ClosePhantom + CloseLabel
  /** The replacement text of the notes pattern: both markers, nothing between. */
  const NotesCollapsed := NotesOpen + NotesClose
  const Afterword := "\\subsection{Afterword}"

  const VerbatimBegin := "\\begin{verbatim}"
  const VerbatimEnd := "\\end{verbatim}"
  const ListingBegin := "\\begin{lstlisting}"
  const ListingEnd := "\\end{lstlisting}"

  // ---------------------------------------------------------------------------
  // strip_notes

  /** The leftmost match of `\end{description}(.*?)\phantomsection\label{chapters}` (DOTALL). */
  function NotesSpan(s: string): (r: Option<Span>)
    ensures r.Some? ==> r.value.start + |NotesCollapsed| <= r.value.end <= |s|
    ensures r.Some? ==> OccursAt(s, NotesOpen, r.value.start)
  {
    var open := IndexOf(s, NotesOpen, 0);
    if open.None? then None
    else
      var close := IndexOf(s, NotesClose, open.value + |NotesOpen|);
      if close.None? then None
      else Some(Span(open.value, close.value + |NotesClose|))
  }

  /** The pieces the notes pattern leaves in place, in order. */
  function NotesKept(s: string): (r: seq<string>)
    ensures |r| > 0
    decreases |s|
  {
    var span := NotesSpan(s);
    if span.None? then [s]
    else [s[..span.value.start]] + NotesKept(s[span.value.end..])
  }

  /** Some `\end{description}` is followed, somewhere after it, by `\phantomsection\label{chapters}`. */
  ghost predicate HasNotes(s: string) {
    exists p: nat, q: nat ::
      OccursAt(s, NotesOpen, p) && p + |NotesOpen| <= q && OccursAt(s, NotesClose, q)
  }

  /** The first `re.sub` of `strip_notes`: every notes span becomes the two bare markers. */
  function CollapseNotes(s: string): (r: string)
    ensures !HasNotes(s) ==> r == s
  {
    NotesSpanIff(s);
    Join(NotesKept(s), NotesCollapsed)
  }

  /** The second `re.sub` of `strip_notes`: the text is cut just before its first afterword heading. */
  function CutAfterword(s: string): (r: string)
    ensures r <= s && Absent(r, Afterword)
    ensures Absent(s, Afterword) ==> r == s
  {
    var at := IndexOf(s, Afterword, 0);
    if at.None? then s
    else
      PrefixBeforeFirst(s, Afterword, at.value);
      s[..at.value]
  }

  /** What `strip_notes` writes back for a file holding `s`. */
  function StripNotes(s: string): (r: string)
    ensures Absent(r, Afterword)
  {
    CutAfterword(CollapseNotes(s))
  }

  // ---------------------------------------------------------------------------
  // convert_verbatim

  /** What `convert_verbatim` writes back for a file holding `s`. */
  function ConvertVerbatim(s: string): (r: string)
    ensures Absent(r, VerbatimBegin) && Absent(r, VerbatimEnd)
  {
    DelimitersSingleBackslash();
    var begun := ReplaceAll(s, VerbatimBegin, ListingBegin);
    ReplaceAllAvoids(s, VerbatimBegin, ListingBegin, VerbatimBegin, 7);
    ReplaceAllAvoids(begun, VerbatimEnd, ListingEnd, VerbatimBegin, 1);
    ReplaceAllAvoids(begun, VerbatimEnd, ListingEnd, VerbatimEnd, 5);
    ReplaceAll(begun, VerbatimEnd, ListingEnd)
  }

  /** The reverse renaming, listings back to verbatim: the inverse of `ConvertVerbatim`. */
  function RevertListings(s: string): string {
    ReplaceAll(ReplaceAll(s, ListingEnd, VerbatimEnd), ListingBegin, VerbatimBegin)
  }

  // ---------------------------------------------------------------------------
  // Facts about the markers

  lemma VerbatimBeginUnbordered()
    ensures Unbordered(VerbatimBegin)
  {
    LeadCharUnbordered(VerbatimBegin);
  }

  /** `\begin{lstlisting}` cannot complete an `\end{verbatim}`: they differ at index 2. */
  lemma EndDiffersFromListing()
    ensures SingleBackslashLead(VerbatimEnd) && SingleBackslashLead(ListingBegin)
    ensures 2 < |VerbatimEnd| && 2 < |ListingBegin| && VerbatimEnd[2] != ListingBegin[2]
  {
  }

  lemma DelimitersSingleBackslash()
    ensures SingleBackslashLead(VerbatimBegin) && SingleBackslashLead(VerbatimEnd)
    ensures SingleBackslashLead(ListingBegin) && SingleBackslashLead(ListingEnd)
  {
  }

  lemma NoteMarkersSingleBackslash()
    ensures SingleBackslashLead(NotesOpen) && SingleBackslashLead(Afterword)
    ensures SingleBackslashLead(ClosePhantom) && SingleBackslashLead(CloseLabel)
  {
  }

  lemma NotesMarkersUnbordered()
    ensures Unbordered(NotesOpen) && Unbordered(NotesClose) && Unbordered(Afterword)
  {
    NoteMarkersSingleBackslash();
    LeadCharUnbordered(NotesOpen);
    LeadCharUnbordered(Afterword);
    var n := |ClosePhantom|;
    forall d | 0 < d < |NotesClose| ensures NotesClose[d..] != NotesClose[..|NotesClose| - d] {
      if d < n {
        assert NotesClose[d] == ClosePhantom[d];
        assert NotesClose[d..][0] != NotesClose[..|NotesClose| - d][0];
      } else if d == n {
        assert NotesClose[d + 1] == CloseLabel[1];
        assert NotesClose[d..][1] != NotesClose[..|NotesClose| - d][1];
      } else {
        assert NotesClose[d] == CloseLabel[d - n];
        assert NotesClose[d..][0] != NotesClose[..|NotesClose| - d][0];
      }
    }
  }

  // ---------------------------------------------------------------------------
  // Notes spans

  /** A notes span is found exactly when some opening marker is followed by a closing one. */
  lemma NotesSpanIff(s: string)
    ensures NotesSpan(s).Some? <==> HasNotes(s)
  {
    var open := IndexOf(s, NotesOpen, 0);
    if open.Some? {
      var from := open.value + |NotesOpen|;
      var close := IndexOf(s, NotesClose, from);
      if close.Some? {
        assert OccursAt(s, NotesClose, close.value);
      } else {
        forall p: nat, q: nat | OccursAt(s, NotesOpen, p) && p + |NotesOpen| <= q
          ensures !OccursAt(s, NotesClose, q)
        {
        }
      }
    }
  }

  /** One step of `NotesKept`, with the kept text and the rest named. */
  lemma NotesStep(s: string, kept: string, rest: string)
    requires NotesSpan(s).Some?
    requires s[..NotesSpan(s).value.start] == kept && s[NotesSpan(s).value.end..] == rest
    ensures NotesKept(s) == [kept] + NotesKept(rest)
  {
  }

  lemma NotesParts(pre: string, notes: string, post: string)
    ensures var s := pre + NotesOpen + notes + NotesClose + post;
      var from := |pre| + |NotesOpen|;
      s[0..from] == pre + NotesOpen &&
      s[from..from + |notes| + |NotesClose|] == notes + NotesClose &&
      s[..|pre|] == pre && s[from + |notes| + |NotesClose|..] == post
  {
  }

  /** Where the first notes span of `pre + \end{description} + notes + \phantomsection\label{chapters} + post` lies. */
  lemma NotesSpanCons(pre: string, notes: string, post: string)
    requires Absent(pre, NotesOpen) && Absent(notes, NotesClose)
    ensures var s := pre + NotesOpen + notes + NotesClose + post;
      NotesSpan(s).Some? &&
      NotesSpan(s).value.start == |pre| &&
      NotesSpan(s).value.end == |pre| + |NotesOpen| + |notes| + |NotesClose|
  {
    var s := pre + NotesOpen + notes + NotesClose + post;
    NotesParts(pre, notes, post);
    NotesMarkersUnbordered();
    UnborderedFirstAtEnd(pre, NotesOpen);
    UnborderedFirstAtEnd(notes, NotesClose);
    IndexOfWithin(s, 0, pre, NotesOpen);
    IndexOfWithin(s, |pre| + |NotesOpen|, notes, NotesClose);
  }

  /**
   * A notes span runs from the first `\end{description}` to the first
   * `\phantomsection\label{chapters}` after it and collapses to the two markers;
   * the text before it is kept and the search resumes after the span.
   */
  lemma CollapseNotesCons(pre: string, notes: string, post: string)
    requires Absent(pre, NotesOpen) && Absent(notes, NotesClose)
    ensures CollapseNotes(pre + NotesOpen + notes + NotesClose + post) ==
            pre + NotesCollapsed + CollapseNotes(post)
  {
    NotesSpanCons(pre, notes, post);
    NotesParts(pre, notes, post);
    NotesStep(pre + NotesOpen + notes + NotesClose + post, pre, post);
    JoinCons(pre, NotesKept(post), NotesCollapsed);
  }

  /**
   * The shape of the collapsed text, as pieces between collapsed markers: no
   * piece but the last holds an opening marker, and the last holds no span.
   */
  ghost predicate NotesForm(ps: seq<string>) {
    |ps| > 0 &&
    (forall i :: 0 <= i < |ps| - 1 ==> Absent(ps[i], NotesOpen)) &&
    !HasNotes(ps[|ps| - 1])
  }

  lemma {:induction false} NotesKeptForm(s: string)
    ensures NotesForm(NotesKept(s))
    decreases |s|
  {
    var span := NotesSpan(s);
    if span.None? {
      NotesSpanIff(s);
    } else {
      PrefixBeforeFirst(s, NotesOpen, span.value.start);
      NotesKeptForm(s[span.value.end..]);
      NotesFormCons(s[..span.value.start], NotesKept(s[span.value.end..]));
    }
  }

  /** A piece free of opening markers can go in front of pieces in collapsed form. */
  lemma NotesFormCons(x: string, rest: seq<string>)
    requires Absent(x, NotesOpen) && NotesForm(rest)
    ensures NotesForm([x] + rest)
  {
    var ps := [x] + rest;
    forall i | 0 <= i < |ps| - 1 ensures Absent(ps[i], NotesOpen) {
      if i > 0 {
        assert ps[i] == rest[i - 1];
      }
    }
    assert ps[|ps| - 1] == rest[|rest| - 1];
  }

  /** Splitting collapsed text at its collapsed markers gives back the pieces. */
  lemma {:induction false} NotesKeptJoin(ps: seq<string>)
    requires NotesForm(ps)
    ensures NotesKept(Join(ps, NotesCollapsed)) == ps
    decreases |ps|
  {
    if |ps| == 1 {
      NotesSpanIff(ps[0]);
    } else {
      var x, rest := ps[0], ps[1..];
      assert ps == [x] + rest;
      assert NotesForm(rest) by {
        forall i | 0 <= i < |rest| - 1 ensures Absent(rest[i], NotesOpen) {
          assert rest[i] == ps[i + 1];
        }
      }
      var t := Join(rest, NotesCollapsed);
      JoinCons(x, rest, NotesCollapsed);
      assert x + NotesCollapsed + t == x + NotesOpen + "" + NotesClose + t;
      NotesSpanCons(x, "", t);
      NotesParts(x, "", t);
      NotesStep(x + NotesOpen + "" + NotesClose + t, x, t);
      NotesKeptJoin(rest);
    }
  }

  /** Collapsing the notes spans twice is collapsing them once. */
  lemma CollapseNotesIdempotent(s: string)
    ensures CollapseNotes(CollapseNotes(s)) == CollapseNotes(s)
  {
    NotesKeptForm(s);
    NotesKeptJoin(NotesKept(s));
  }

  // ---------------------------------------------------------------------------
  // The afterword cut

  /** The afterword is cut just before its first heading. */
  lemma CutAfterwordCons(pre: string, rest: string)
    requires Absent(pre, Afterword)
    ensures CutAfterword(pre + Afterword + rest) == pre
  {
    NotesMarkersUnbordered();
    UnborderedFirstAtEnd(pre, Afterword);
    FirstOccurrence(pre, Afterword, rest);
    assert (pre + Afterword + rest)[..|pre|] == pre;
  }

  /** Text before `k` free of afterword headings passes the cut unchanged. */
  lemma CutSkip(s: string, k: nat)
    requires k <= |s| && forall j: nat :: j < k ==> !OccursAt(s, Afterword, j)
    ensures CutAfterword(s) == s[..k] + CutAfterword(s[k..])
  {
    var b := IndexOf(s[k..], Afterword, 0);
    if b.Some? {
      CutSkipFound(s, k, b.value);
    } else {
      CutSkipNone(s, k);
    }
  }

  lemma CutSkipFound(s: string, k: nat, b: nat)
    requires k <= |s| && forall j: nat :: j < k ==> !OccursAt(s, Afterword, j)
    requires IndexOf(s[k..], Afterword, 0).Some? && IndexOf(s[k..], Afterword, 0).value == b
    ensures CutAfterword(s) == s[..k] + CutAfterword(s[k..])
  {
    assert s[k..] == s[k..|s|];
    OccursInSlice(s, Afterword, k, |s|, b);
    forall j: nat | k <= j < k + b ensures !OccursAt(s, Afterword, j) {
      SliceOccurs(s, Afterword, k, |s|, j);
    }
    PrefixJoin(s, k, b);
  }

  lemma CutSkipNone(s: string, k: nat)
    requires k <= |s| && forall j: nat :: j < k ==> !OccursAt(s, Afterword, j)
    requires IndexOf(s[k..], Afterword, 0).None?
    ensures CutAfterword(s) == s[..k] + CutAfterword(s[k..])
  {
    assert s[k..] == s[k..|s|];
    forall j: nat | k <= j ensures !OccursAt(s, Afterword, j) {
      if j + |Afterword| <= |s| {
        SliceOccurs(s, Afterword, k, |s|, j);
      }
    }
  }

  /** A text that already holds an afterword heading is cut there whatever follows. */
  lemma CutExtend(x: string, t: string)
    requires IndexOf(x, Afterword, 0).Some?
    ensures CutAfterword(x + t) == CutAfterword(x)
  {
    var a := IndexOf(x, Afterword, 0).value;
    var s := x + t;
    assert s[0..|x|] == x;
    SliceOccurs(s, Afterword, 0, |x|, a);
    forall j: nat | j < a ensures !OccursAt(s, Afterword, j) {
      SliceOccurs(s, Afterword, 0, |x|, j);
    }
    assert s[..a] == x[..a];
  }

  /**
   * No afterword heading can start before the end of a collapsed marker pair:
   * each backslash in the pair is followed by a letter other than `s`.
   */
  lemma SeparatorAvoidsAfterword(x: string, t: string)
    requires Absent(x, Afterword)
    ensures forall j: nat :: j < |x| + |NotesCollapsed| ==>
      !OccursAt(x + NotesCollapsed + t, Afterword, j)
  {
    NoteMarkersSingleBackslash();
    var x1 := x + NotesOpen;
    var x2 := x1 + ClosePhantom;
    assert x + NotesCollapsed + t == x2 + CloseLabel + t;
    AppendAvoids(x, NotesOpen, Afterword, 1);
    AppendAvoids(x1, ClosePhantom, Afterword, 1);
    SpliceAvoidsBefore(x2, CloseLabel, t, Afterword, 1);
  }

  /** Text before a collapsed marker pair, free of afterword headings, passes the cut unchanged. */
  lemma CutPass(x: string, t: string)
    requires Absent(x, Afterword)
    ensures CutAfterword(x + NotesCollapsed + t) == x + NotesCollapsed + CutAfterword(t)
  {
    var s := x + NotesCollapsed + t;
    SeparatorAvoidsAfterword(x, t);
    CutSkip(s, |x| + |NotesCollapsed|);
    assert s[..|x| + |NotesCollapsed|] == x + NotesCollapsed;
    assert s[|x| + |NotesCollapsed|..] == t;
  }

  /** A text with no notes span keeps none in any prefix. */
  lemma NoNotesPrefix(x: string, n: nat)
    requires n <= |x| && !HasNotes(x)
    ensures !HasNotes(x[..n])
  {
    forall p: nat, q: nat | OccursAt(x[..n], NotesOpen, p) && p + |NotesOpen| <= q
      ensures !OccursAt(x[..n], NotesClose, q)
    {
      assert x[..n] == x[0..n];
      SliceOccurs(x, NotesOpen, 0, n, p);
      if q + |NotesClose| <= n {
        SliceOccurs(x, NotesClose, 0, n, q);
      }
    }
  }

  /** A text free of opening markers holds no notes span. */
  lemma NoOpenNoNotes(x: string)
    requires Absent(x, NotesOpen)
    ensures !HasNotes(x)
  {
    forall p: nat ensures !OccursAt(x, NotesOpen, p) {
      if p <= |x| {
        assert !OccursAt(x, NotesOpen, p);
      }
    }
  }

  /** Cutting a piece with no notes span leaves a piece with none. */
  lemma CutPieceForm(x: string)
    requires !HasNotes(x)
    ensures NotesForm([CutAfterword(x)])
  {
    var cut := CutAfterword(x);
    assert cut == x[..|cut|];
    NoNotesPrefix(x, |cut|);
  }

  /** The pieces after the first, of pieces in collapsed form, are in collapsed form. */
  lemma NotesFormTail(ps: seq<string>)
    requires NotesForm(ps) && |ps| > 1
    ensures NotesForm(ps[1..]) && Absent(ps[0], NotesOpen)
  {
    forall i | 0 <= i < |ps| - 2 ensures Absent(ps[1..][i], NotesOpen) {
      assert ps[1..][i] == ps[i + 1];
    }
  }

  /** Cutting collapsed text leaves collapsed text made of cut pieces. */
  lemma {:induction false} CutJoin(ps: seq<string>) returns (qs: seq<string>)
    requires NotesForm(ps)
    ensures CutAfterword(Join(ps, NotesCollapsed)) == Join(qs, NotesCollapsed) && NotesForm(qs)
    decreases |ps|
  {
    var x := ps[0];
    if |ps| == 1 {
      qs := [CutAfterword(x)];
      CutPieceForm(x);
    } else {
      var rest := ps[1..];
      assert ps == [x] + rest;
      NotesFormTail(ps);
      var t := Join(rest, NotesCollapsed);
      JoinCons(x, rest, NotesCollapsed);
      if IndexOf(x, Afterword, 0).Some? {
        assert x + NotesCollapsed + t == x + (NotesCollapsed + t);
        CutExtend(x, NotesCollapsed + t);
        qs := [CutAfterword(x)];
        NoOpenNoNotes(x);
        CutPieceForm(x);
      } else {
        CutPass(x, t);
        var qs' := CutJoin(rest);
        qs := [x] + qs';
        JoinCons(x, qs', NotesCollapsed);
        NotesFormCons(x, qs');
      }
    }
  }

  /** `strip_notes` changes nothing when run on its own output. */
  lemma StripNotesIdempotent(s: string)
    ensures StripNotes(StripNotes(s)) == StripNotes(s)
  {
    var ps := NotesKept(s);
    NotesKeptForm(s);
    var qs := CutJoin(ps);
    NotesKeptJoin(qs);
  }

  /**
   * A notes span is collapsed and the text before it kept, when no afterword
   * heading comes before it.
   */
  lemma StripNotesCons(pre: string, notes: string, post: string)
    requires Absent(pre, NotesOpen) && Absent(notes, NotesClose) && Absent(pre, Afterword)
    ensures StripNotes(pre + NotesOpen + notes + NotesClose + post) ==
            pre + NotesCollapsed + StripNotes(post)
  {
    CollapseNotesCons(pre, notes, post);
    CutPass(pre, CollapseNotes(post));
  }

  // ---------------------------------------------------------------------------
  // Verbatim renaming

  /** `convert_verbatim` changes nothing when run on its own output. */
  lemma ConvertVerbatimIdempotent(s: string)
    ensures ConvertVerbatim(ConvertVerbatim(s)) == ConvertVerbatim(s)
  {
  }

  /**
   * Text that is a sequence of verbatim-free pieces separated by
   * `\begin{verbatim}` comes out with the same pieces separated by
   * `\begin{lstlisting}`.
   */
  lemma ConvertVerbatimBegins(pieces: seq<string>)
    requires |pieces| > 0
    requires forall i :: 0 <= i < |pieces| ==> Absent(pieces[i], VerbatimBegin) && Absent(pieces[i], VerbatimEnd)
    ensures ConvertVerbatim(Join(pieces, VerbatimBegin)) == Join(pieces, ListingBegin)
  {
    RenameBegins(pieces);
    ConvertVerbatimSteps(Join(pieces, VerbatimBegin), Join(pieces, ListingBegin));
  }

  /** The first renaming of `ConvertVerbatim` on such a text, and what it leaves out. */
  lemma RenameBegins(pieces: seq<string>)
    requires |pieces| > 0
    requires forall i :: 0 <= i < |pieces| ==> Absent(pieces[i], VerbatimBegin) && Absent(pieces[i], VerbatimEnd)
    ensures ReplaceAll(Join(pieces, VerbatimBegin), VerbatimBegin, ListingBegin) == Join(pieces, ListingBegin)
    ensures Absent(Join(pieces, ListingBegin), VerbatimEnd)
  {
    ListingsAvoidEnd(pieces);
    VerbatimBeginUnbordered();
    ReplaceAllJoin(pieces, VerbatimBegin, ListingBegin);
  }

  lemma ListingsAvoidEnd(pieces: seq<string>)
    requires forall i :: 0 <= i < |pieces| ==> Absent(pieces[i], VerbatimEnd)
    ensures Absent(Join(pieces, ListingBegin), VerbatimEnd)
  {
    EndDiffersFromListing();
    JoinAvoids(pieces, ListingBegin, VerbatimEnd, 2);
  }

  /** `ConvertVerbatim` leaves a text alone once its first renaming left no end delimiter. */
  lemma ConvertVerbatimSteps(s: string, begun: string)
    requires begun == ReplaceAll(s, VerbatimBegin, ListingBegin) && Absent(begun, VerbatimEnd)
    ensures ConvertVerbatim(s) == begun
  {
  }

  /** The renaming never creates an afterword heading. */
  lemma ConvertKeepsAfterwordOut(s: string)
    requires Absent(s, Afterword)
    ensures Absent(ConvertVerbatim(s), Afterword)
  {
    var begun := ReplaceAll(s, VerbatimBegin, ListingBegin);
    DelimitersSingleBackslash();
    NoteMarkersSingleBackslash();
    ReplaceAllAvoids(s, VerbatimBegin, ListingBegin, Afterword, 1);
    ReplaceAllAvoids(begun, VerbatimEnd, ListingEnd, Afterword, 1);
  }

  /**
   * Only the delimiters change: on a text that held no listing delimiters,
   * renaming them back restores every character.
   */
  lemma ConvertVerbatimInverse(s: string)
    requires Absent(s, ListingBegin) && Absent(s, ListingEnd)
    ensures RevertListings(ConvertVerbatim(s)) == s
  {
    DelimitersSingleBackslash();
    var begun := ReplaceAll(s, VerbatimBegin, ListingBegin);
    ReplaceAllAvoids(s, VerbatimBegin, ListingBegin, ListingEnd, 1);
    ReplaceAllInverse(begun, VerbatimEnd, ListingEnd);
    ReplaceAllInverse(s, VerbatimBegin, ListingBegin);
  }
}
