/**
 * The include list of `main.tex` and the marker region it replaces
 * (`inject_filenames_into_main_tex`).
 *
 * Every chapter file `<dir>/<name>.tex` gives one line `\input{content/<name>}`;
 * the lines are joined with single line breaks and, framed by the two marker
 * comments, replace the region from the first start marker to the last end
 * marker after it (greedy `.*`, DOTALL, replacement taken literally).
 */
module Includes {
  import opened Wrappers
  import opened Strings

  const ContentsStart := "%% FILE CONTENTS START %%"
  const ContentsEnd := "%% FILE CONTENTS END %%"
  /** `\input{` followed by the content folder's name and a slash. */
  const IncludePrefix := "\\input{content/"

  // ---------------------------------------------------------------------------
  // Path handling (POSIX `os.path`)

  /** The index of the last `c` in `s` (`s.rfind(c)`, with None for -1). */
  function LastChar(s: string, c: char): (r: Option<nat>)
    ensures r.Some? ==> r.value < |s| && s[r.value] == c
    ensures r.Some? ==> forall j :: r.value < j < |s| ==> s[j] != c
    ensures r.None? ==> forall j :: 0 <= j < |s| ==> s[j] != c
    decreases |s|
  {
    if |s| == 0 then None
    else if s[|s| - 1] == c then Some(|s| - 1)
    else LastChar(s[..|s| - 1], c)
  }

  /** Some character of `s` is not a dot. */
  predicate HasNonDot(s: string) {
    exists i :: 0 <= i < |s| && s[i] != '.'
  }

  /**
   * `os.path.splitext(p)[0]`: the last dot of the last path component starts
   * the extension, unless only dots precede it in that component.
   */
  function StripExtension(p: string): (r: string)
    ensures r <= p
    ensures r == p || (p[|r|] == '.' && forall j :: |r| < j < |p| ==> p[j] != '.' && p[j] != '/')
  {
    var sep := LastChar(p, '/');
    var dot := LastChar(p, '.');
    var name := if sep.None? then 0 else sep.value + 1;
    if dot.Some? && name <= dot.value && HasNonDot(p[name..dot.value]) then p[..dot.value]
    else p
  }

  /** `os.path.basename(p)`: the text after the last slash. */
  function BaseName(p: string): (r: string)
    ensures |r| <= |p| && r == p[|p| - |r|..]
    ensures forall j :: 0 <= j < |r| ==> r[j] != '/'
    ensures |r| < |p| ==> p[|p| - |r| - 1] == '/'
  {
    var sep := LastChar(p, '/');
    if sep.None? then p else p[sep.value + 1..]
  }

  /** The include line the source builds for one chapter file. */
  function IncludeLine(path: string): string {
    IncludePrefix + BaseName(StripExtension(path)) + "}"
  }

  /** The include lines of the chapter files, one per file, in the order given. */
  function IncludeLines(listing: seq<string>): seq<string> {
    seq(|listing|, i requires 0 <= i < |listing| => IncludeLine(listing[i]))
  }

  /** The loop that grows `include_list`, one append per chapter file. */
  method BuildIncludeList(listing: seq<string>) returns (lines: seq<string>)
    ensures |lines| == |listing|
    ensures forall i :: 0 <= i < |listing| ==> lines[i] == IncludeLine(listing[i])
  {
    lines := AppendEach(IncludeLine, listing);
  }

  /** A list that starts empty and gets `f(x)` appended for each `x` in turn. */
  method AppendEach<A, B>(f: A -> B, xs: seq<A>) returns (ys: seq<B>)
    ensures |ys| == |xs|
    ensures forall i :: 0 <= i < |xs| ==> ys[i] == f(xs[i])
  {
    ys := [];
    for i := 0 to |xs|
      invariant |ys| == i
      invariant forall k :: 0 <= k < i ==> ys[k] == f(xs[k])
    {
      ys := ys + [f(xs[i])];
    }
  }

  // ---------------------------------------------------------------------------
  // The marker region

  /** Some start marker is followed, at or after its end, by an end marker. */
  ghost predicate HasRegion(s: string) {
    exists p: nat, q: nat ::
      OccursAt(s, ContentsStart, p) && p + |ContentsStart| <= q && OccursAt(s, ContentsEnd, q)
  }

  /**
   * `s[o..e]` is the match of `START.*END` (DOTALL): it starts at the first
   * start marker and ends with the last end marker, which begins after that
   * start marker's end.
   */
  ghost predicate IsRegion(s: string, o: nat, e: nat) {
    OccursAt(s, ContentsStart, o) &&
    (forall j: nat :: j < o ==> !OccursAt(s, ContentsStart, j)) &&
    o + |ContentsStart| + |ContentsEnd| <= e <= |s| &&
    OccursAt(s, ContentsEnd, e - |ContentsEnd|) &&
    (forall j: nat :: e - |ContentsEnd| < j ==> !OccursAt(s, ContentsEnd, j))
  }

  /** The region the greedy pattern matches, if any. */
  function FindRegion(s: string): (r: Option<Span>)
    ensures r.Some? ==> IsRegion(s, r.value.start, r.value.end)
    ensures r.None? <==> !HasRegion(s)
  {
    var open := IndexOf(s, ContentsStart, 0);
    if open.None? then None
    else
      var close := LastIndexOf(s, ContentsEnd, open.value + |ContentsStart|);
      if close.None? then
        assert forall p: nat, q: nat | OccursAt(s, ContentsStart, p) && p + |ContentsStart| <= q ::
          !OccursAt(s, ContentsEnd, q);
        None
      else
        assert OccursAt(s, ContentsEnd, close.value);
        Some(Span(open.value, close.value + |ContentsEnd|))
  }

  /** The single `re.sub` replacement of the region by `block`. */
  function ReplaceRegion(s: string, block: string): (r: string)
    ensures !HasRegion(s) ==> r == s
  {
    var region := FindRegion(s);
    if region.None? then s
    else s[..region.value.start] + block + s[region.value.end..]
  }

  /** The markers framing the include list, one line break on each side. */
  function RegionBlock(lines: seq<string>): string {
    ContentsStart + ("\n" + Join(lines, "\n") + "\n") + ContentsEnd
  }

  /** What `inject_filenames_into_main_tex` writes back for a `main.tex` holding `s`. */
  function InjectFileNames(s: string, lines: seq<string>): (r: string)
    ensures !HasRegion(s) ==> r == s
  {
    ReplaceRegion(s, RegionBlock(lines))
  }

  // ---------------------------------------------------------------------------
  // Lemmas: paths

  /** Every character of `s` is other than `c`. */
  predicate Avoids(s: string, c: char) {
    forall i :: 0 <= i < |s| ==> s[i] != c
  }

  /**
   * `p[d]` is a dot with neither a dot nor a slash after it, and `p[c]`, in the
   * same path component before it, is not a dot.
   */
  predicate ExtensionAt(p: string, c: int, d: int) {
    0 <= c < d < |p| && p[c] != '.' && p[c] != '/' && p[d] == '.' &&
    (forall j :: c < j < d ==> p[j] != '/') &&
    (forall j :: d < j < |p| ==> p[j] != '.' && p[j] != '/')
  }

  /** The last path component of `p` has an extension. */
  ghost predicate HasExtension(p: string) {
    exists c, d :: ExtensionAt(p, c, d)
  }

  /** `splitext` removes something exactly when the last component has an extension. */
  lemma StripExtensionIff(p: string)
    ensures StripExtension(p) != p <==> HasExtension(p)
  {
    if StripExtension(p) != p {
      StripExtensionFinds(p);
    }
    if HasExtension(p) {
      var c, d :| ExtensionAt(p, c, d);
      ExtensionStripped(p, c, d);
    }
  }

  lemma StripExtensionFinds(p: string)
    requires StripExtension(p) != p
    ensures HasExtension(p)
  {
    var sep := LastChar(p, '/');
    var dot := LastChar(p, '.');
    var name := if sep.None? then 0 else sep.value + 1;
    var d := dot.value;
    var i :| 0 <= i < |p[name..d]| && p[name..d][i] != '.';
    var c := name + i;
    assert p[c] == p[name..d][i];
    assert ExtensionAt(p, c, d);
  }

  /** With an extension at `d`, `splitext` keeps exactly the text before `d`. */
  lemma ExtensionStripped(p: string, c: int, d: int)
    requires ExtensionAt(p, c, d)
    ensures StripExtension(p) == p[..d]
  {
    var sep := LastChar(p, '/');
    var name := if sep.None? then 0 else sep.value + 1;
    assert LastChar(p, '.').value == d;
    assert name <= c;
    assert p[name..d][c - name] == p[c];
  }

  /**
   * A chapter file `<dir>/<name>.tex` gives `\input{content/<name>}` when the
   * name holds no slash and is not made of dots only.
   */
  lemma IncludeLineOf(dir: string, name: string)
    requires Avoids(name, '/') && HasNonDot(name)
    ensures IncludeLine(dir + "/" + name + ".tex") == IncludePrefix + name + "}"
  {
    var p := dir + "/" + name + ".tex";
    var dot := |dir| + 1 + |name|;
    assert p[|dir|] == '/' && p[dot] == '.';
    assert forall j :: |dir| < j < |p| ==> p[j] != '/' by {
      forall j | |dir| < j < |p| ensures p[j] != '/' {
        if j < dot { assert p[j] == name[j - |dir| - 1]; }
      }
    }
    assert forall j :: dot < j < |p| ==> p[j] != '.';
    assert LastChar(p, '/') == Some(|dir|);
    assert LastChar(p, '.') == Some(dot);
    assert p[|dir| + 1..dot] == name;
    var root := p[..dot];
    assert StripExtension(p) == root;
    assert root == dir + "/" + name;
    assert forall j :: |dir| < j < |root| ==> root[j] != '/';
    assert LastChar(root, '/') == Some(|dir|);
    assert root[|dir| + 1..] == name;
  }

  /** Chapter files of one directory give equal lines exactly when their names are equal. */
  lemma IncludeLinesOfNames(dir: string, names: seq<string>, listing: seq<string>)
    requires |listing| == |names|
    requires forall i :: 0 <= i < |names| ==>
      Avoids(names[i], '/') && HasNonDot(names[i]) && listing[i] == dir + "/" + names[i] + ".tex"
    ensures forall i :: 0 <= i < |names| ==> IncludeLines(listing)[i] == IncludePrefix + names[i] + "}"
    ensures forall i, j :: 0 <= i < |names| && 0 <= j < |names| ==>
      (IncludeLines(listing)[i] == IncludeLines(listing)[j] <==> names[i] == names[j])
  {
    forall i | 0 <= i < |names| ensures IncludeLines(listing)[i] == IncludePrefix + names[i] + "}" {
      IncludeLineOf(dir, names[i]);
    }
    forall i, j | 0 <= i < |names| && 0 <= j < |names| &&
      IncludePrefix + names[i] + "}" == IncludePrefix + names[j] + "}"
      ensures names[i] == names[j]
    {
      var a, b := IncludePrefix + names[i] + "}", IncludePrefix + names[j] + "}";
      assert a[|IncludePrefix|..|a| - 1] == names[i];
      assert b[|IncludePrefix|..|b| - 1] == names[j];
    }
  }

  lemma AvoidsConcat(a: string, b: string, c: char)
    requires Avoids(a, c) && Avoids(b, c)
    ensures Avoids(a + b, c)
  {
    forall k | 0 <= k < |a + b| ensures (a + b)[k] != c {
      if k >= |a| {
        assert (a + b)[k] == b[k - |a|];
      }
    }
  }

  /** The base name of the stem is a piece of the path. */
  lemma BaseStemAvoids(path: string, c: char)
    requires Avoids(path, c)
    ensures Avoids(BaseName(StripExtension(path)), c)
  {
    var stem := StripExtension(path);
    var base := BaseName(stem);
    assert stem == path[..|stem|];
    forall k | 0 <= k < |base| ensures base[k] != c {
      assert base[k] == stem[|stem| - |base| + k];
    }
  }

  /** Paths free of a character other than `}` and those of `\input{content/` give lines free of it. */
  lemma IncludeLineAvoids(path: string, c: char)
    requires Avoids(path, c) && c != '}' && Avoids(IncludePrefix, c)
    ensures Avoids(IncludeLine(path), c)
  {
    BaseStemAvoids(path, c);
    AvoidsConcat(IncludePrefix, BaseName(StripExtension(path)), c);
    AvoidsConcat(IncludePrefix + BaseName(StripExtension(path)), "}", c);
  }

  lemma AvoidsAbsent(s: string, c: char)
    requires Avoids(s, c)
    ensures Absent(s, [c])
  {
    forall i: nat | i <= |s| ensures !OccursAt(s, [c], i) {
      if i + 1 <= |s| {
        assert s[i..i + 1][0] == s[i];
      }
    }
  }

  /**
   * The joined list has exactly one line per chapter file: splitting it at its
   * line breaks gives back the include lines, when no path holds a line break.
   */
  lemma IncludeListLines(listing: seq<string>)
    requires |listing| > 0 && forall i :: 0 <= i < |listing| ==> Avoids(listing[i], '\n')
    ensures Split(Join(IncludeLines(listing), "\n"), "\n") == IncludeLines(listing)
  {
    var lines := IncludeLines(listing);
    forall i | 0 <= i < |lines| ensures Absent(lines[i], "\n") {
      IncludeLineAvoids(listing[i], '\n');
      AvoidsAbsent(lines[i], '\n');
    }
    LeadCharUnbordered("\n");
    SplitJoin(lines, "\n");
  }

  // ---------------------------------------------------------------------------
  // Lemmas: the region

  /** An occurrence at or after `c` is one in the suffix from `c`. */
  lemma SuffixOccurs(s: string, pat: string, c: nat, j: nat)
    requires c <= j && c <= |s|
    ensures OccursAt(s, pat, j) <==> OccursAt(s[c..], pat, j - c)
  {
    if j + |pat| <= |s| {
      assert s[c..] == s[c..|s|];
      SliceOccurs(s, pat, c, |s|, j);
    }
  }

  /**
   * The region of `pre + START + mid + END + tail` runs from the appended start
   * marker to the appended end marker, when `pre + START` holds its first start
   * marker at its end and no end marker starts later in `END + tail`.
   */
  lemma RegionSplice(pre: string, mid: string, tail: string)
    requires FirstAtEnd(pre, ContentsStart)
    requires forall j: nat :: 0 < j ==> !OccursAt(ContentsEnd + tail, ContentsEnd, j)
    ensures IsRegion(pre + ContentsStart + mid + ContentsEnd + tail,
                     |pre|, |pre| + |ContentsStart| + |mid| + |ContentsEnd|)
  {
    var s := pre + ContentsStart + mid + ContentsEnd + tail;
    RegionSpliceParts(pre, mid, tail);
    StartFirst(s, pre);
    EndLast(s, |pre| + |ContentsStart| + |mid|, tail);
  }

  lemma RegionSpliceParts(pre: string, mid: string, tail: string)
    ensures var s := pre + ContentsStart + mid + ContentsEnd + tail;
      s[0..|pre| + |ContentsStart|] == pre + ContentsStart &&
      s[|pre| + |ContentsStart| + |mid|..] == ContentsEnd + tail
  {
  }

  /** A text beginning with `pre + START`, where that start marker is the first, has its first start marker there. */
  lemma StartFirst(s: string, pre: string)
    requires FirstAtEnd(pre, ContentsStart)
    requires |pre| + |ContentsStart| <= |s| && s[0..|pre| + |ContentsStart|] == pre + ContentsStart
    ensures OccursAt(s, ContentsStart, |pre|)
    ensures forall j: nat :: j < |pre| ==> !OccursAt(s, ContentsStart, j)
  {
    var n := |pre| + |ContentsStart|;
    assert (pre + ContentsStart)[|pre|..n] == ContentsStart;
    SliceOccurs(s, ContentsStart, 0, n, |pre|);
    forall j: nat | j < |pre| ensures !OccursAt(s, ContentsStart, j) {
      SliceOccurs(s, ContentsStart, 0, n, j);
    }
  }

  /** A text ending in `END + tail`, where no later end marker starts, has its last end marker there. */
  lemma EndLast(s: string, c: nat, tail: string)
    requires forall j: nat :: 0 < j ==> !OccursAt(ContentsEnd + tail, ContentsEnd, j)
    requires c <= |s| && s[c..] == ContentsEnd + tail
    ensures OccursAt(s, ContentsEnd, c)
    ensures forall j: nat :: c < j ==> !OccursAt(s, ContentsEnd, j)
  {
    SuffixOccurs(s, ContentsEnd, c, c);
    forall j: nat | c < j ensures !OccursAt(s, ContentsEnd, j) {
      if j <= |s| {
        SuffixOccurs(s, ContentsEnd, c, j);
      }
    }
  }

  /** The region found is the only one the characterization admits. */
  lemma RegionUnique(s: string, o: nat, e: nat)
    requires IsRegion(s, o, e)
    ensures FindRegion(s).Some? && FindRegion(s).value.start == o && FindRegion(s).value.end == e
  {
    assert HasRegion(s) by {
      assert OccursAt(s, ContentsStart, o) && o + |ContentsStart| <= e - |ContentsEnd|;
    }
  }

  /** A text with a region is its prefix, the region and its tail, in the form `RegionSplice` takes. */
  lemma RegionParts(s: string, o: nat, e: nat)
    requires IsRegion(s, o, e)
    ensures var pre, tail := s[..o], s[e..];
      s == pre + ContentsStart + s[o + |ContentsStart|..e - |ContentsEnd|] + ContentsEnd + tail &&
      FirstAtEnd(pre, ContentsStart) &&
      forall j: nat :: 0 < j ==> !OccursAt(ContentsEnd + tail, ContentsEnd, j)
  {
    var c := e - |ContentsEnd|;
    var pre, tail := s[..o], s[e..];
    SpliceParts(s, o, c, e);
    var head := s[0..o + |ContentsStart|];
    assert pre + ContentsStart == head;
    forall j: nat | j < |pre| ensures !OccursAt(pre + ContentsStart, ContentsStart, j) {
      if j + |ContentsStart| <= |head| {
        SliceOccurs(s, ContentsStart, 0, o + |ContentsStart|, j);
      }
    }
    assert ContentsEnd + tail == s[c..];
    forall j: nat | 0 < j ensures !OccursAt(ContentsEnd + tail, ContentsEnd, j) {
      if j <= |s| - c {
        SuffixOccurs(s, ContentsEnd, c, c + j);
      }
    }
  }

  lemma SpliceParts(s: string, o: nat, c: nat, e: nat)
    requires o + |ContentsStart| <= c && c + |ContentsEnd| == e <= |s|
    requires s[o..o + |ContentsStart|] == ContentsStart && s[c..e] == ContentsEnd
    ensures s == s[..o] + ContentsStart + s[o + |ContentsStart|..c] + ContentsEnd + s[e..]
    ensures s[..o] + ContentsStart == s[0..o + |ContentsStart|] && ContentsEnd + s[e..] == s[c..]
  {
    assert s == s[..o] + s[o..o + |ContentsStart|] + s[o + |ContentsStart|..c] + s[c..e] + s[e..];
  }

  /** One step of `ReplaceRegion`, with the text around the region named. */
  lemma ReplaceRegionStep(s: string, block: string, pre: string, tail: string)
    requires FindRegion(s).Some?
    requires s[..FindRegion(s).value.start] == pre && s[FindRegion(s).value.end..] == tail
    ensures ReplaceRegion(s, block) == pre + block + tail
  {
  }

  /**
   * After the injection the region is exactly the new block, at the same place,
   * with the text before and after the old region unchanged.
   */
  lemma InjectLocatesBlock(s: string, lines: seq<string>, o: nat, e: nat)
    requires IsRegion(s, o, e)
    ensures var r, block := InjectFileNames(s, lines), RegionBlock(lines);
      r == s[..o] + block + s[e..] && IsRegion(r, o, o + |block|)
  {
    var pre, tail := s[..o], s[e..];
    var mid := "\n" + Join(lines, "\n") + "\n";
    RegionUnique(s, o, e);
    RegionParts(s, o, e);
    ReplaceRegionStep(s, RegionBlock(lines), pre, tail);
    BlockParts(pre, mid, tail);
    RegionSplice(pre, mid, tail);
  }

  lemma BlockParts(pre: string, mid: string, tail: string)
    ensures pre + (ContentsStart + mid + ContentsEnd) + tail == pre + ContentsStart + mid + ContentsEnd + tail
  {
  }

  /** Injecting twice is injecting the second list once, whatever the lists hold. */
  lemma InjectTwice(s: string, first: seq<string>, second: seq<string>)
    ensures InjectFileNames(InjectFileNames(s, first), second) == InjectFileNames(s, second)
  {
    var region := FindRegion(s);
    if region.Some? {
      var o, e := region.value.start, region.value.end;
      InjectLocatesBlock(s, first, o, e);
      InjectLocatesBlock(s, second, o, e);
      ReplaceOver(InjectFileNames(s, first), s[..o], RegionBlock(first), s[e..], RegionBlock(second));
    }
  }

  /** Replacing a region that is exactly `block` swaps that block for the new one. */
  lemma ReplaceOver(r: string, pre: string, block: string, tail: string, next: string)
    requires r == pre + block + tail && IsRegion(r, |pre|, |pre| + |block|)
    ensures ReplaceRegion(r, next) == pre + next + tail
  {
    RegionUnique(r, |pre|, |pre| + |block|);
    InjectStep(pre, block, tail);
    ReplaceRegionStep(r, next, pre, tail);
  }

  lemma InjectStep(pre: string, block: string, tail: string)
    ensures (pre + block + tail)[..|pre|] == pre
    ensures (pre + block + tail)[|pre| + |block|..] == tail
  {
  }

  /** Running the injection again with the same list gives identical text. */
  lemma InjectIdempotent(s: string, lines: seq<string>)
    ensures InjectFileNames(InjectFileNames(s, lines), lines) == InjectFileNames(s, lines)
  {
    InjectTwice(s, lines, lines);
  }
}
