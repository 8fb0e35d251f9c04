/**
 * The passes of `compile_exports.py` over the files they rewrite in place.
 *
 * A `LatexTree` holds the converted chapter files (in the order the directory
 * listing gives them), `main.tex` and the copyright page. Each pass reads
 * every file it concerns and writes its rewritten text back; `Run` performs
 * them in the order of the script's main block.
 */
module Pipeline {
  import opened Wrappers
  import opened Strings
  import Chapters
  import Sanitize
  import Includes
  import Metadata

  /**
   * How the chapter pass ended: one warning flag per file it reached, and, when
   * a file had no title, the index of that file.
   */
  datatype Outcome = Completed(warnings: seq<bool>) | Aborted(warnings: seq<bool>, failedAt: nat)

  /** `os.environ.get(name, False)` taken as a condition: set and not empty. */
  predicate Flag(env: Metadata.Environment, name: string) {
    name in env && env[name] != ""
  }

  /** A normalized chapter after the optional sanitisers, in the script's order. */
  function Polish(s: string, strip: bool, convert: bool): string {
    var stripped := if strip then Sanitize.StripNotes(s) else s;
    if convert then Sanitize.ConvertVerbatim(stripped) else stripped
  }

  /** What each sanitiser guarantees survives the other one. */
  lemma PolishGuarantees(s: string, strip: bool, convert: bool)
    ensures strip ==> Absent(Polish(s, strip, convert), Sanitize.Afterword)
    ensures convert ==> Absent(Polish(s, strip, convert), Sanitize.VerbatimBegin) &&
                        Absent(Polish(s, strip, convert), Sanitize.VerbatimEnd)
  {
    if strip && convert {
      Sanitize.ConvertKeepsAfterwordOut(Sanitize.StripNotes(s));
    }
  }

  /** `after` is the chapter pass's rewriting of `before`, and `warn` its warning. */
  ghost predicate Normalized(before: string, after: string, warn: bool) {
    Chapters.NormalizeChapter(before).Some? && after == Chapters.NormalizeChapter(before).value &&
    warn == Chapters.TitleWarning(before)
  }

  /**
   * The chapter pass stopped at file `k`, which has no title: the files before
   * it are normalized, it is left empty with a warning, and the later files are
   * untouched.
   */
  ghost predicate AbortedAt(before: seq<string>, after: seq<string>, warnings: seq<bool>, k: nat) {
    |after| == |before| && k < |before| && |warnings| == k + 1 &&
    !Chapters.HasHeading(before[k]) && after[k] == "" &&
    warnings[k] && Chapters.TitleWarning(before[k]) &&
    (forall i :: 0 <= i < k ==> Normalized(before[i], after[i], warnings[i])) &&
    (forall i :: k < i < |after| ==> after[i] == before[i])
  }

  /** `after` is chapter file `before` once normalized and polished, and `warn` its warning. */
  ghost predicate Compiled(before: string, after: string, warn: bool, strip: bool, convert: bool) {
    Chapters.NormalizeChapter(before).Some? &&
    after == Polish(Chapters.NormalizeChapter(before).value, strip, convert) &&
    warn == Chapters.TitleWarning(before)
  }

  class LatexTree {
    /** The contents of the converted chapter files. */
    var chapters: seq<string>
    /** The contents of `main.tex`. */
    var mainTex: string
    /** The contents of `frontmatter/copyrightpage.tex`. */
    var copyrightPage: string

    constructor (chapters: seq<string>, mainTex: string, copyrightPage: string)
      ensures this.chapters == chapters && this.mainTex == mainTex && this.copyrightPage == copyrightPage
    {
      this.chapters := chapters;
      this.mainTex := mainTex;
      this.copyrightPage := copyrightPage;
    }

    /**
     * `append_headers_and_strip_section_redeclaration`: every file gets its
     * chapter header. A file without a title is left empty, since it was
     * opened for writing before the failing index, and the run stops there.
     */
    method NormalizeChapters() returns (outcome: Outcome)
      modifies this
      ensures mainTex == old(mainTex) && copyrightPage == old(copyrightPage)
      ensures |chapters| == |old(chapters)|
      ensures outcome.Completed? <==> forall i :: 0 <= i < |old(chapters)| ==> Chapters.HasHeading(old(chapters)[i])
      ensures outcome.Completed? ==>
        |outcome.warnings| == |chapters| &&
        (forall i :: 0 <= i < |chapters| ==> Normalized(old(chapters)[i], chapters[i], outcome.warnings[i]))
      ensures outcome.Aborted? ==> AbortedAt(old(chapters), chapters, outcome.warnings, outcome.failedAt)
    {
      var files := chapters;
      var result := files;
      var warnings: seq<bool> := [];
      for i := 0 to |files|
        invariant |result| == |files| && |warnings| == i
        invariant forall k :: 0 <= k < i ==> Normalized(files[k], result[k], warnings[k])
        invariant forall k :: i <= k < |files| ==> result[k] == files[k]
      {
        var warn := Chapters.TitleWarning(files[i]);
        var rewritten := Chapters.NormalizeChapter(files[i]);
        warnings := warnings + [warn];
        if rewritten.None? {
          Chapters.NormalizeChapterFails(files[i]);
          chapters := result[i := ""];
          outcome := Aborted(warnings, i);
          return;
        }
        result := result[i := rewritten.value];
      }
      forall k | 0 <= k < |files| ensures Chapters.HasHeading(files[k]) {
        Chapters.NormalizeChapterFails(files[k]);
      }
      chapters := result;
      outcome := Completed(warnings);
    }

    /** `strip_notes`: every chapter file is rewritten by `Sanitize.StripNotes`. */
    method StripNotes()
      modifies this
      ensures mainTex == old(mainTex) && copyrightPage == old(copyrightPage)
      ensures |chapters| == |old(chapters)|
      ensures forall i :: 0 <= i < |chapters| ==> chapters[i] == Sanitize.StripNotes(old(chapters)[i])
    {
      var files := chapters;
      var result := files;
      for i := 0 to |files|
        invariant |result| == |files|
        invariant forall k :: 0 <= k < i ==> result[k] == Sanitize.StripNotes(files[k])
        invariant forall k :: i <= k < |files| ==> result[k] == files[k]
      {
        result := result[i := Sanitize.StripNotes(files[i])];
      }
      chapters := result;
    }

    /** `convert_verbatim`: every chapter file is rewritten by `Sanitize.ConvertVerbatim`. */
    method ConvertVerbatim()
      modifies this
      ensures mainTex == old(mainTex) && copyrightPage == old(copyrightPage)
      ensures |chapters| == |old(chapters)|
      ensures forall i :: 0 <= i < |chapters| ==> chapters[i] == Sanitize.ConvertVerbatim(old(chapters)[i])
    {
      var files := chapters;
      var result := files;
      for i := 0 to |files|
        invariant |result| == |files|
        invariant forall k :: 0 <= k < i ==> result[k] == Sanitize.ConvertVerbatim(files[k])
        invariant forall k :: i <= k < |files| ==> result[k] == files[k]
      {
        result := result[i := Sanitize.ConvertVerbatim(files[i])];
      }
      chapters := result;
    }

    /** The optional sanitisers, each run over every chapter when its flag is set. */
    method PolishChapters(strip: bool, convert: bool)
      modifies this
      ensures mainTex == old(mainTex) && copyrightPage == old(copyrightPage)
      ensures |chapters| == |old(chapters)|
      ensures forall i :: 0 <= i < |chapters| ==> chapters[i] == Polish(old(chapters)[i], strip, convert)
    {
      if strip {
        StripNotes();
      }
      if convert {
        ConvertVerbatim();
      }
    }

    /** `inject_filenames_into_main_tex`, given the listing of the content directory. */
    method InjectFileNames(listing: seq<string>)
      modifies this
      ensures chapters == old(chapters) && copyrightPage == old(copyrightPage)
      ensures mainTex == Includes.InjectFileNames(old(mainTex), Includes.IncludeLines(listing))
    {
      var lines := Includes.BuildIncludeList(listing);
      assert lines == Includes.IncludeLines(listing);
      mainTex := Includes.InjectFileNames(mainTex, lines);
    }

    /** `update_copyright_and_authorship_data`: `main.tex` token by token, then the copyright page. */
    method UpdateMetadata(env: Metadata.Environment)
      modifies this
      ensures chapters == old(chapters)
      ensures mainTex == Metadata.UpdateMainTex(old(mainTex), env)
      ensures copyrightPage == Metadata.UpdateCopyrightPage(old(copyrightPage), env)
    {
      mainTex := Metadata.SubstituteToken(mainTex, env, Metadata.AuthorName);
      mainTex := Metadata.SubstituteToken(mainTex, env, Metadata.BookTitle);
      mainTex := Metadata.SubstituteToken(mainTex, env, Metadata.Subtitle);
      mainTex := Metadata.SubstituteToken(mainTex, env, Metadata.Year);
      copyrightPage := Metadata.UpdateCopyrightPage(copyrightPage, env);
    }

    /** The include list and then the metadata, over `main.tex` and the copyright page. */
    method CompleteTemplates(env: Metadata.Environment, listing: seq<string>)
      modifies this
      ensures chapters == old(chapters)
      ensures mainTex == Metadata.UpdateMainTex(Includes.InjectFileNames(old(mainTex), Includes.IncludeLines(listing)), env)
      ensures copyrightPage == Metadata.UpdateCopyrightPage(old(copyrightPage), env)
    {
      InjectFileNames(listing);
      UpdateMetadata(env);
    }

    /**
     * The script's main block after the conversion: chapter headers, the two
     * optional sanitisers, the include list and the metadata. A chapter without
     * a title ends the run before `main.tex` and the copyright page are touched.
     */
    method Run(env: Metadata.Environment, listing: seq<string>) returns (outcome: Outcome)
      modifies this
      ensures |chapters| == |old(chapters)|
      ensures outcome.Completed? <==> forall i :: 0 <= i < |old(chapters)| ==> Chapters.HasHeading(old(chapters)[i])
      ensures outcome.Aborted? ==> mainTex == old(mainTex) && copyrightPage == old(copyrightPage)
      ensures outcome.Aborted? ==> AbortedAt(old(chapters), chapters, outcome.warnings, outcome.failedAt)
      ensures outcome.Completed? ==>
        |outcome.warnings| == |chapters| &&
        (forall i :: 0 <= i < |chapters| ==>
          Compiled(old(chapters)[i], chapters[i], outcome.warnings[i],
                   Flag(env, "STRIP_NOTES"), Flag(env, "CONVERT_VERBATIM"))) &&
        mainTex == Metadata.UpdateMainTex(Includes.InjectFileNames(old(mainTex), Includes.IncludeLines(listing)), env) &&
        copyrightPage == Metadata.UpdateCopyrightPage(old(copyrightPage), env)
    {
      outcome := NormalizeChapters();
      if outcome.Aborted? {
        return;
      }
      ghost var before := old(chapters);
      ghost var normalized := chapters;
      assert forall i :: 0 <= i < |before| ==> Normalized(before[i], normalized[i], outcome.warnings[i]);
      var strip := Flag(env, "STRIP_NOTES");
      var convert := Flag(env, "CONVERT_VERBATIM");
      PolishChapters(strip, convert);
      assert forall i :: 0 <= i < |chapters| ==> Compiled(before[i], chapters[i], outcome.warnings[i], strip, convert);
      CompleteTemplates(env, listing);
    }
  }
}
