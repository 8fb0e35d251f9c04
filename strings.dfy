/**
 * Literal text search and replacement.
 *
 * Every regular expression in compile_exports.py is a literal marker, optionally
 * followed by a lazy (`.*?`) or greedy (`.*`) "anything" and a second literal
 * marker, matched with DOTALL. This module gives the pieces those patterns are
 * built from: the first occurrence of a marker at or after a position, the last
 * occurrence, and Python's `re.sub` for a literal pattern.
 */
module Strings {
  import opened Wrappers

  /** `pat` occurs in `s` starting at index `i`. */
  predicate OccursAt(s: string, pat: string, i: nat) {
    i + |pat| <= |s| && s[i..i + |pat|] == pat
  }

  /** `pat` occurs nowhere in `s`. */
  predicate Absent(s: string, pat: string) {
    forall i: nat :: i <= |s| ==> !OccursAt(s, pat, i)
  }

  /** No proper suffix of `pat` is also a prefix of it, so two occurrences can never overlap. */
  predicate Unbordered(pat: string) {
    forall d :: 0 < d < |pat| ==> pat[d..] != pat[..|pat| - d]
  }

  /** In `a + pat`, the first occurrence of `pat` is the appended one. */
  predicate FirstAtEnd(a: string, pat: string) {
    forall j: nat :: j < |a| ==> !OccursAt(a + pat, pat, j)
  }

  /** Where a match, or a part of one, starts and where it ends (exclusive). */
  datatype Span = Span(start: nat, end: nat)

  /** The first occurrence of `pat` in `s` at or after `from` (Python's `s.find(pat, from)`). */
  function IndexOf(s: string, pat: string, from: nat): (r: Option<nat>)
    ensures r.Some? ==> from <= r.value && OccursAt(s, pat, r.value)
    ensures r.Some? ==> forall j: nat :: from <= j < r.value ==> !OccursAt(s, pat, j)
    ensures r.None? ==> forall j: nat :: from <= j ==> !OccursAt(s, pat, j)
    decreases |s| + 1 - from
  {
    if |s| < from + |pat| then None
    else if OccursAt(s, pat, from) then Some(from)
    else IndexOf(s, pat, from + 1)
  }

  /** The last occurrence of `pat` in `s` that starts in [from, hi). */
  function LastIndexBelow(s: string, pat: string, from: nat, hi: nat): (r: Option<nat>)
    ensures r.Some? ==> from <= r.value < hi && OccursAt(s, pat, r.value)
    ensures r.Some? ==> forall j: nat :: r.value < j < hi ==> !OccursAt(s, pat, j)
    ensures r.None? ==> forall j: nat :: from <= j < hi ==> !OccursAt(s, pat, j)
    decreases hi
  {
    if hi <= from then None
    else if OccursAt(s, pat, hi - 1) then Some(hi - 1)
    else LastIndexBelow(s, pat, from, hi - 1)
  }

  /** The last occurrence of `pat` in `s` at or after `from` (Python's `s.rfind(pat, from)`). */
  function LastIndexOf(s: string, pat: string, from: nat): (r: Option<nat>)
    ensures r.Some? ==> from <= r.value && OccursAt(s, pat, r.value)
    ensures r.Some? ==> forall j: nat :: r.value < j ==> !OccursAt(s, pat, j)
    ensures r.None? ==> forall j: nat :: from <= j ==> !OccursAt(s, pat, j)
  {
    LastIndexBelow(s, pat, from, |s| + 1)
  }

  /**
   * Python's `s.split(pat)`: the pieces between the occurrences of `pat`,
   * found left to right without overlap.
   */
  function Split(s: string, pat: string): (r: seq<string>)
    requires |pat| > 0
    ensures |r| > 0
    decreases |s|
  {
    var found := IndexOf(s, pat, 0);
    if found.None? then [s]
    else [s[..found.value]] + Split(s[found.value + |pat|..], pat)
  }

  /** Python's `sep.join(parts)`. */
  function Join(parts: seq<string>, sep: string): string {
    if |parts| == 0 then ""
    else if |parts| == 1 then parts[0]
    else parts[0] + sep + Join(parts[1..], sep)
  }

  /**
   * `re.sub(pat, rep, s)` for a pattern made of literal characters and a
   * replacement without backslash escapes: every occurrence, found left to right
   * without overlap, is replaced by `rep`; that is `rep.join(s.split(pat))`.
   */
  function ReplaceAll(s: string, pat: string, rep: string): (r: string)
    requires |pat| > 0
    ensures Absent(s, pat) ==> r == s
  {
    SplitAbsent(s, pat);
    Join(Split(s, pat), rep)
  }

  // ---------------------------------------------------------------------------
  // Occurrences in slices and concatenations

  lemma SliceOfSlice(s: string, a: nat, b: nat, x: nat, y: nat)
    requires a <= b <= |s| && x <= y <= b - a
    ensures s[a..b][x..y] == s[a + x..a + y]
  {
    assert |s[a..b][x..y]| == y - x;
    forall m | 0 <= m < y - x ensures s[a..b][x..y][m] == s[a + x..a + y][m] { }
  }

  lemma PrefixJoin(s: string, k: nat, b: nat)
    requires k + b <= |s|
    ensures s[..k] + s[k..][..b] == s[..k + b]
  {
    assert s[k..][..b] == s[k..k + b];
  }

  /** An occurrence lying wholly inside `s[a..b]` is the same as one in the slice. */
  lemma SliceOccurs(s: string, pat: string, a: nat, b: nat, j: nat)
    requires a <= j && j + |pat| <= b <= |s|
    ensures OccursAt(s, pat, j) <==> OccursAt(s[a..b], pat, j - a)
  {
    SliceOfSlice(s, a, b, j - a, j - a + |pat|);
  }

  lemma OccursInSlice(s: string, pat: string, a: nat, b: nat, j: nat)
    requires a <= b <= |s| && OccursAt(s[a..b], pat, j)
    ensures OccursAt(s, pat, a + j)
  {
    SliceOccurs(s, pat, a, b, a + j);
  }

  lemma AbsentInSlice(s: string, pat: string, a: nat, b: nat)
    requires a <= b <= |s| && Absent(s, pat)
    ensures Absent(s[a..b], pat)
  {
    forall j: nat | j <= b - a ensures !OccursAt(s[a..b], pat, j) {
      if j + |pat| <= b - a {
        SliceOccurs(s, pat, a, b, a + j);
      }
    }
  }

  lemma AbsentInSuffix(s: string, pat: string, a: nat)
    requires a <= |s| && Absent(s, pat)
    ensures Absent(s[a..], pat)
  {
    AbsentInSlice(s, pat, a, |s|);
    assert s[a..|s|] == s[a..];
  }

  lemma AbsentInPrefix(s: string, pat: string, b: nat)
    requires b <= |s| && Absent(s, pat)
    ensures Absent(s[..b], pat)
  {
    AbsentInSlice(s, pat, 0, b);
    assert s[0..b] == s[..b];
  }

  /** A text is the part before an occurrence, the occurrence and the part after it. */
  lemma SplitAround(s: string, pat: string, p: nat)
    requires OccursAt(s, pat, p)
    ensures s[..p] + pat + s[p + |pat|..] == s
  {
  }

  /** One differing character rules an occurrence out. */
  lemma MismatchAt(s: string, pat: string, j: nat, m: nat)
    requires m < |pat| && j + m < |s| && s[j + m] != pat[m]
    ensures !OccursAt(s, pat, j)
  {
    if j + |pat| <= |s| {
      assert s[j..j + |pat|][m] == s[j + m];
    }
  }

  /** Everything between `from` and the first occurrence after it is free of the pattern. */
  lemma AbsentBefore(s: string, pat: string, from: nat, p: nat)
    requires |pat| > 0 && IndexOf(s, pat, from).Some? && IndexOf(s, pat, from).value == p
    ensures Absent(s[from..p], pat)
  {
    forall j: nat | j <= p - from ensures !OccursAt(s[from..p], pat, j) {
      if j + |pat| <= p - from {
        SliceOccurs(s, pat, from, p, from + j);
      }
    }
  }

  /** Everything before the first occurrence is free of the pattern. */
  lemma PrefixBeforeFirst(s: string, pat: string, p: nat)
    requires |pat| > 0 && IndexOf(s, pat, 0).Some? && IndexOf(s, pat, 0).value == p
    ensures Absent(s[..p], pat)
  {
    AbsentBefore(s, pat, 0, p);
    assert s[0..p] == s[..p];
  }

  /** Searching from `from` finds `pat` right after `a` when the text continues with `a + pat` there. */
  lemma IndexOfWithin(s: string, from: nat, a: string, pat: string)
    requires FirstAtEnd(a, pat)
    requires from + |a| + |pat| <= |s| && s[from..from + |a| + |pat|] == a + pat
    ensures IndexOf(s, pat, from).Some? && IndexOf(s, pat, from).value == from + |a|
  {
    var hi := from + |a| + |pat|;
    assert (a + pat)[|a|..|a| + |pat|] == pat;
    SliceOccurs(s, pat, from, hi, from + |a|);
    forall j: nat | from <= j < from + |a| ensures !OccursAt(s, pat, j) {
      SliceOccurs(s, pat, from, hi, j);
    }
  }

  /** The first occurrence of `pat` in `a + pat + b` is at |a| when `FirstAtEnd(a, pat)`. */
  lemma FirstOccurrence(a: string, pat: string, b: string)
    requires FirstAtEnd(a, pat)
    ensures IndexOf(a + pat + b, pat, 0).Some? && IndexOf(a + pat + b, pat, 0).value == |a|
  {
    var s := a + pat + b;
    assert s[0..|a| + |pat|] == a + pat;
    IndexOfWithin(s, 0, a, pat);
  }

  /** Without a border, a text free of `pat` gains its first `pat` only where one is appended. */
  lemma UnborderedFirstAtEnd(a: string, pat: string)
    requires Absent(a, pat) && Unbordered(pat)
    ensures FirstAtEnd(a, pat)
  {
    var s := a + pat;
    assert s[..|a|] == a;
    forall j: nat | j < |a| ensures !OccursAt(s, pat, j) {
      if j + |pat| <= |a| {
        SliceOccurs(s, pat, 0, |a|, j);
      } else {
        var d := |a| - j;
        assert pat[d..] != pat[..|pat| - d];
        var m :| 0 <= m < |pat| - d && pat[d..][m] != pat[..|pat| - d][m];
        assert s[|a| + m] == pat[m];
        MismatchAt(s, pat, j, d + m);
      }
    }
  }

  /** A pattern whose first character occurs nowhere else in it has no border. */
  lemma LeadCharUnbordered(pat: string)
    requires |pat| > 0 && forall d :: 0 < d < |pat| ==> pat[d] != pat[0]
    ensures Unbordered(pat)
  {
    forall d | 0 < d < |pat| ensures pat[d..] != pat[..|pat| - d] {
      assert pat[d..][0] != pat[..|pat| - d][0];
    }
  }

  // ---------------------------------------------------------------------------
  // Split and Join undo each other

  /** One step of `Split`, at the first occurrence `p`. */
  lemma SplitUnfold(s: string, pat: string, p: nat)
    requires |pat| > 0 && IndexOf(s, pat, 0).Some? && IndexOf(s, pat, 0).value == p
    ensures Split(s, pat) == [s[..p]] + Split(s[p + |pat|..], pat)
  {
  }

  /** A text free of the pattern is a single piece. */
  lemma SplitAbsent(s: string, pat: string)
    requires |pat| > 0
    ensures Absent(s, pat) ==> Split(s, pat) == [s]
  {
    if Absent(s, pat) {
      var found := IndexOf(s, pat, 0);
      assert found.Some? ==> OccursAt(s, pat, found.value);
    }
  }

  lemma JoinCons(x: string, rest: seq<string>, sep: string)
    requires |rest| > 0
    ensures Join([x] + rest, sep) == x + sep + Join(rest, sep)
  {
    assert ([x] + rest)[1..] == rest;
  }

  /** Joining the pieces of a split with the pattern gives back the text. */
  lemma {:induction false} JoinSplit(s: string, pat: string)
    requires |pat| > 0
    ensures Join(Split(s, pat), pat) == s
    decreases |s|
  {
    var found := IndexOf(s, pat, 0);
    if found.Some? {
      var p := found.value;
      var rest := s[p + |pat|..];
      SplitUnfold(s, pat, p);
      SplitAround(s, pat, p);
      JoinSplit(rest, pat);
      JoinCons(s[..p], Split(rest, pat), pat);
    }
  }

  /** No piece of a split contains the pattern. */
  lemma {:induction false} SplitPiecesAbsent(s: string, pat: string)
    requires |pat| > 0
    ensures forall i :: 0 <= i < |Split(s, pat)| ==> Absent(Split(s, pat)[i], pat)
    decreases |s|
  {
    var found := IndexOf(s, pat, 0);
    if found.None? {
      assert Split(s, pat) == [s];
    } else {
      var p := found.value;
      var rest := s[p + |pat|..];
      SplitUnfold(s, pat, p);
      PrefixBeforeFirst(s, pat, p);
      SplitPiecesAbsent(rest, pat);
    }
  }

  /** The pieces of a split are free of anything the whole text is free of. */
  lemma {:induction false} SplitPiecesAvoid(s: string, pat: string, q: string)
    requires |pat| > 0 && Absent(s, q)
    ensures forall i :: 0 <= i < |Split(s, pat)| ==> Absent(Split(s, pat)[i], q)
    decreases |s|
  {
    var found := IndexOf(s, pat, 0);
    if found.None? {
      assert Split(s, pat) == [s];
    } else {
      var p := found.value;
      var rest := s[p + |pat|..];
      SplitUnfold(s, pat, p);
      AbsentInPrefix(s, q, p);
      AbsentInSuffix(s, q, p + |pat|);
      SplitPiecesAvoid(rest, pat, q);
    }
  }

  /**
   * `pieces` joined by `pat` holds `pat` exactly at the joints: each piece but
   * the last is followed by its first `pat`, and the last holds none.
   */
  predicate SeparatedBy(pieces: seq<string>, pat: string) {
    |pieces| > 0 &&
    (forall i :: 0 <= i < |pieces| - 1 ==> FirstAtEnd(pieces[i], pat)) &&
    Absent(pieces[|pieces| - 1], pat)
  }

  lemma SeparatedTail(pieces: seq<string>, pat: string)
    requires SeparatedBy(pieces, pat) && |pieces| > 1
    ensures SeparatedBy(pieces[1..], pat) && FirstAtEnd(pieces[0], pat)
  {
    forall i | 0 <= i < |pieces| - 2 ensures FirstAtEnd(pieces[1..][i], pat) {
      assert pieces[1..][i] == pieces[i + 1];
    }
  }

  lemma {:induction false} SplitJoinSeparated(pieces: seq<string>, pat: string)
    requires |pat| > 0 && SeparatedBy(pieces, pat)
    ensures Split(Join(pieces, pat), pat) == pieces
    decreases |pieces|
  {
    if |pieces| == 1 {
      SplitAbsent(pieces[0], pat);
    } else {
      SeparatedTail(pieces, pat);
      SplitJoinSeparated(pieces[1..], pat);
      SplitJoinStep(pieces[0], pieces[1..], pat);
      assert pieces == [pieces[0]] + pieces[1..];
    }
  }

  /** Splitting `a + pat + Join(rest, pat)` cuts at the appended `pat` when it is the first. */
  lemma SplitJoinStep(a: string, rest: seq<string>, pat: string)
    requires |pat| > 0 && FirstAtEnd(a, pat) && |rest| > 0
    ensures Split(Join([a] + rest, pat), pat) == [a] + Split(Join(rest, pat), pat)
  {
    var b := Join(rest, pat);
    var s := a + pat + b;
    JoinCons(a, rest, pat);
    FirstOccurrence(a, pat, b);
    JoinParts(a, pat, b);
    SplitUnfold(s, pat, |a|);
  }

  lemma JoinParts(a: string, pat: string, b: string)
    ensures (a + pat + b)[..|a|] == a && (a + pat + b)[|a| + |pat|..] == b
  {
  }

  /**
   * Splitting pieces that are free of an unbordered pattern, joined by that
   * pattern, gives back the pieces.
   */
  lemma SplitJoin(pieces: seq<string>, pat: string)
    requires |pat| > 0 && Unbordered(pat) && |pieces| > 0
    requires forall i :: 0 <= i < |pieces| ==> Absent(pieces[i], pat)
    ensures Split(Join(pieces, pat), pat) == pieces
  {
    forall i | 0 <= i < |pieces| - 1 ensures FirstAtEnd(pieces[i], pat) {
      UnborderedFirstAtEnd(pieces[i], pat);
    }
    SplitJoinSeparated(pieces, pat);
  }

  // ---------------------------------------------------------------------------
  // Properties of ReplaceAll

  /** Replacing a pattern by itself changes nothing. */
  lemma ReplaceAllSelf(s: string, pat: string)
    requires |pat| > 0
    ensures ReplaceAll(s, pat, pat) == s
  {
    JoinSplit(s, pat);
  }

  /**
   * The reference meaning of replace-all: a text made of pieces that do not
   * contain an unbordered pattern, joined by that pattern, becomes the same
   * pieces joined by the replacement.
   */
  lemma ReplaceAllJoin(pieces: seq<string>, pat: string, rep: string)
    requires |pat| > 0 && Unbordered(pat) && |pieces| > 0
    requires forall i :: 0 <= i < |pieces| ==> Absent(pieces[i], pat)
    ensures ReplaceAll(Join(pieces, pat), pat, rep) == Join(pieces, rep)
  {
    SplitJoin(pieces, pat);
  }

  /** The same, for any pattern, with the pieces separated by it. */
  lemma ReplaceAllSeparated(pieces: seq<string>, pat: string, rep: string)
    requires |pat| > 0 && SeparatedBy(pieces, pat)
    ensures ReplaceAll(Join(pieces, pat), pat, rep) == Join(pieces, rep)
  {
    SplitJoinSeparated(pieces, pat);
  }

  /**
   * Replace-all is undone by the reverse replacement when the text did not
   * already contain the replacement and the replacement's first character
   * occurs nowhere else in it.
   */
  lemma ReplaceAllInverse(s: string, pat: string, rep: string)
    requires |pat| > 0 && |rep| > 0 && Absent(s, rep)
    requires forall d :: 0 < d < |rep| ==> rep[d] != rep[0]
    ensures ReplaceAll(ReplaceAll(s, pat, rep), rep, pat) == s
  {
    LeadCharUnbordered(rep);
    SplitPiecesAvoid(s, pat, rep);
    SplitJoin(Split(s, pat), rep);
    JoinSplit(s, pat);
  }

  /** The string starts with a backslash and contains no other. */
  predicate SingleBackslashLead(x: string) {
    |x| > 0 && x[0] == '\\' && forall i :: 0 < i < |x| ==> x[i] != '\\'
  }

  /**
   * Splicing `rep` between two texts free of the command `q` creates no `q`
   * when both begin with their only backslash and differ at index `k`.
   */
  lemma SpliceAvoids(a: string, rep: string, tail: string, q: string, k: nat)
    requires Absent(a, q) && Absent(tail, q)
    requires SingleBackslashLead(q) && SingleBackslashLead(rep)
    requires k < |q| && k < |rep| && q[k] != rep[k]
    ensures Absent(a + rep + tail, q)
  {
    var out := a + rep + tail;
    var p := |a|;
    assert out[..p] == a;
    assert out[p + |rep|..|out|] == tail;
    forall j: nat | j <= |out| ensures !OccursAt(out, q, j) {
      if j + |q| <= p {
        SliceOccurs(out, q, 0, p, j);
      } else if j + |q| > |out| {
      } else if j < p {
        assert out[p] == rep[0];
        MismatchAt(out, q, j, p - j);
      } else if j == p {
        assert out[p + k] == rep[k];
        MismatchAt(out, q, j, k);
      } else if j < p + |rep| {
        assert out[j] == rep[j - p];
        MismatchAt(out, q, j, 0);
      } else {
        SliceOccurs(out, q, p + |rep|, |out|, j);
      }
    }
  }

  /**
   * Appending such a `rep` to a text free of `q` starts no `q` before the end
   * of `rep`, whatever follows.
   */
  lemma SpliceAvoidsBefore(a: string, rep: string, tail: string, q: string, k: nat)
    requires Absent(a, q) && SingleBackslashLead(q) && SingleBackslashLead(rep)
    requires k < |q| && k < |rep| && q[k] != rep[k]
    ensures forall j: nat :: j < |a| + |rep| ==> !OccursAt(a + rep + tail, q, j)
  {
    var out := a + rep + tail;
    var p := |a|;
    assert out[..p] == a;
    forall j: nat | j < |a| + |rep| ensures !OccursAt(out, q, j) {
      if j + |q| <= p {
        SliceOccurs(out, q, 0, p, j);
      } else if j + |q| > |out| {
      } else if j < p {
        assert out[p] == rep[0];
        MismatchAt(out, q, j, p - j);
      } else if j == p {
        assert out[p + k] == rep[k];
        MismatchAt(out, q, j, k);
      } else {
        assert out[j] == rep[j - p];
        MismatchAt(out, q, j, 0);
      }
    }
  }

  /** Appending such a `rep` to a text free of `q` leaves it free of `q`. */
  lemma AppendAvoids(a: string, rep: string, q: string, k: nat)
    requires Absent(a, q) && SingleBackslashLead(q) && SingleBackslashLead(rep)
    requires k < |q| && k < |rep| && q[k] != rep[k]
    ensures Absent(a + rep, q)
  {
    SpliceAvoidsBefore(a, rep, "", q, k);
    assert a + rep + "" == a + rep;
  }

  /** Joining pieces free of `q` with such a separator creates no `q`. */
  lemma {:induction false} JoinAvoids(pieces: seq<string>, rep: string, q: string, k: nat)
    requires forall i :: 0 <= i < |pieces| ==> Absent(pieces[i], q)
    requires SingleBackslashLead(q) && SingleBackslashLead(rep)
    requires k < |q| && k < |rep| && q[k] != rep[k]
    ensures Absent(Join(pieces, rep), q)
    decreases |pieces|
  {
    if |pieces| > 1 {
      JoinAvoids(pieces[1..], rep, q, k);
      SpliceAvoids(pieces[0], rep, Join(pieces[1..], rep), q, k);
    }
  }

  /**
   * Replacing `pat` by `rep` never creates an occurrence of a command `q` when
   * `q` and `rep` both begin with their only backslash and differ at index `k`;
   * so `q` is absent afterwards when it was absent before or is `pat` itself.
   */
  lemma ReplaceAllAvoids(s: string, pat: string, rep: string, q: string, k: nat)
    requires |pat| > 0 && SingleBackslashLead(q) && SingleBackslashLead(rep)
    requires k < |q| && k < |rep| && q[k] != rep[k]
    requires q == pat || Absent(s, q)
    ensures Absent(ReplaceAll(s, pat, rep), q)
  {
    if q == pat {
      SplitPiecesAbsent(s, pat);
    } else {
      SplitPiecesAvoid(s, pat, q);
    }
    JoinAvoids(Split(s, pat), rep, q, k);
  }
}
