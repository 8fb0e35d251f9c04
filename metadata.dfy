/**
 * The metadata substitution of `update_copyright_and_authorship_data`.
 *
 * Each of the four placeholder tokens of `main.tex` is replaced, in a fixed
 * order, by the value of the environment variable of the same name or, when
 * that is unset, by `<no TOKEN provided>`. The copyright page's marker comment
 * is replaced by the value of `NOVELIZER_COPYRIGHT`, whose default is the
 * marker itself.
 */
module Metadata {
  import opened Strings

  const AuthorName := "NOVELIZER_AUTHORNAME"
  const BookTitle := "NOVELIZER_BOOKTITLE"
  const Subtitle := "NOVELIZER_SUBTITLE"
  const Year := "NOVELIZER_YEAR"
  /** The tokens of `main.tex`, in the order they are substituted. */
  const Tokens := [AuthorName, BookTitle, Subtitle, Year]

  const CopyrightVariable := "NOVELIZER_COPYRIGHT"
  const CopyrightMarker := "%% NOVELIZER_COPYRIGHT %%"

  /** The process environment: variable names to values. */
  type Environment = map<string, string>

  /** `os.environ.get(name, default)`. */
  function Lookup(env: Environment, name: string, default: string): string {
    if name in env then env[name] else default
  }

  /** The text a token is replaced by: its variable's value, or the token's default. */
  function TokenValue(env: Environment, token: string): string {
    Lookup(env, token, "<no " + token + " provided>")
  }

  /** `re.sub(token, value, text)`, with a value free of template escapes. */
  function SubstituteToken(text: string, env: Environment, token: string): string
    requires |token| > 0
  {
    ReplaceAll(text, token, TokenValue(env, token))
  }

  /**
   * What `update_copyright_and_authorship_data` writes back for a `main.tex`
   * holding `text`: the four substitutions, in the source's order.
   */
  function UpdateMainTex(text: string, env: Environment): (r: string)
    ensures (Absent(text, AuthorName) && Absent(text, BookTitle) &&
             Absent(text, Subtitle) && Absent(text, Year)) ==> r == text
  {
    var t1 := SubstituteToken(text, env, AuthorName);
    var t2 := SubstituteToken(t1, env, BookTitle);
    var t3 := SubstituteToken(t2, env, Subtitle);
    SubstituteToken(t3, env, Year)
  }

  /** What it writes back for a copyright page holding `text` (a literal replacement). */
  function UpdateCopyrightPage(text: string, env: Environment): string {
    ReplaceAll(text, CopyrightMarker, Lookup(env, CopyrightVariable, CopyrightMarker))
  }

  // ---------------------------------------------------------------------------
  // Lemmas

  lemma AuthorNameUnbordered()
    ensures Unbordered(AuthorName)
  {
    forall d | 0 < d < |AuthorName| ensures AuthorName[d..] != AuthorName[..|AuthorName| - d] {
      if d == 16 {
        assert AuthorName[d..][1] != AuthorName[..|AuthorName| - d][1];
      } else {
        assert AuthorName[d..][0] != AuthorName[..|AuthorName| - d][0];
      }
    }
  }

  lemma TokensUnbordered()
    ensures forall i :: 0 <= i < |Tokens| ==> |Tokens[i]| > 0 && Unbordered(Tokens[i])
  {
    AuthorNameUnbordered();
    LeadCharUnbordered(BookTitle);
    LeadCharUnbordered(Subtitle);
    LeadCharUnbordered(Year);
  }

  /**
   * Every occurrence of a token is replaced by the variable's value, or by the
   * default when the variable is unset.
   */
  lemma SubstituteTokenJoin(pieces: seq<string>, env: Environment, i: nat)
    requires i < |Tokens| && |pieces| > 0
    requires forall k :: 0 <= k < |pieces| ==> Absent(pieces[k], Tokens[i])
    ensures SubstituteToken(Join(pieces, Tokens[i]), env, Tokens[i]) ==
            Join(pieces, if Tokens[i] in env then env[Tokens[i]] else "<no " + Tokens[i] + " provided>")
  {
    TokensUnbordered();
    ReplaceAllJoin(pieces, Tokens[i], TokenValue(env, Tokens[i]));
  }

  /** With `NOVELIZER_COPYRIGHT` unset the copyright page is unchanged: the default is the marker itself. */
  lemma CopyrightUnset(text: string, env: Environment)
    requires CopyrightVariable !in env
    ensures UpdateCopyrightPage(text, env) == text
  {
    ReplaceAllSelf(text, CopyrightMarker);
  }

  /** With it set, each marker comment is replaced by the value, taken literally. */
  lemma CopyrightSet(pieces: seq<string>, env: Environment)
    requires CopyrightVariable in env && SeparatedBy(pieces, CopyrightMarker)
    ensures UpdateCopyrightPage(Join(pieces, CopyrightMarker), env) ==
            Join(pieces, env[CopyrightVariable])
  {
    ReplaceAllSeparated(pieces, CopyrightMarker, env[CopyrightVariable]);
  }
}
