/**
 * `slugify` (src/lib/utils.ts): lower-case the text, drop every character
 * outside `[\w\s-]`, turn each whitespace run into `-`, collapse hyphen runs,
 * then `trim()`.
 */
module Slug {
  import opened Text

  /** Survives `.replace(/[^\w\s-]/g, '')`. */
  predicate IsSlugSource(c: char) { IsWordChar(c) || IsSpace(c) || c == '-' }

  predicate IsHyphen(c: char) { c == '-' }

  /** `[a-z0-9_-]` */
  predicate IsSlugChar(c: char) { 'a' <= c <= 'z' || IsDigit(c) || c == '_' || c == '-' }

  /** What `slugify` can return: only `[a-z0-9_-]`, and never `--`. */
  predicate IsSlug(s: string) {
    (forall c | c in s :: IsSlugChar(c)) && NoAdjacent(s, IsHyphen)
  }

  /** The chain of `toLowerCase` and the three `replace` calls, before the final `trim()`. */
  function SlugBeforeTrim(text: string): (r: string)
    ensures IsSlug(r)
  {
    var kept := Filter(Lower(text), IsSlugSource);
    var hyphenated := ReplaceRuns(kept, IsSpace, '-');
    var collapsed := ReplaceRuns(hyphenated, IsHyphen, '-');
    assert forall c | c in hyphenated :: IsSlugChar(c);
    ReplaceRunsNoAdjacent(hyphenated, IsHyphen, '-');
    collapsed
  }

  function Slugify(text: string): (slug: string)
    ensures IsSlug(slug)
  {
    var r := SlugBeforeTrim(text);
    TrimKeepsNoAdjacent(r, IsHyphen);
    Trim(r)
  }

  /** A slug has no whitespace at either end, so `trim()` never removes anything. */
  lemma SlugIsTrimmed(s: string)
    requires IsSlug(s)
    ensures Trimmed(s)
  {
    if s != [] {
      assert IsSlugChar(s[0]) && IsSlugChar(s[|s| - 1]);
    }
  }

  /**
   * The final `trim()` is a no-op: leading and trailing hyphens (from leading
   * or trailing whitespace, or from hyphens in the text) are kept.
   */
  lemma TrimKeepsEndHyphens(text: string)
    ensures Slugify(text) == SlugBeforeTrim(text)
  {
    SlugIsTrimmed(SlugBeforeTrim(text));
  }

  /** Every step of `slugify` leaves a slug unchanged. */
  lemma SlugifyFixesSlugs(s: string)
    requires IsSlug(s)
    ensures Slugify(s) == s
  {
    assert forall c | c in s :: !IsUpper(c) by {
      forall c | c in s ensures !IsUpper(c) { assert IsSlugChar(c); }
    }
    LowerIdentity(s);
    FilterIdentity(s, IsSlugSource);
    ReplaceRunsIdentity(s, IsSpace, '-');
    ReplaceRunsIdentity(s, IsHyphen, '-');
    SlugIsTrimmed(s);
  }

  /** `slugify(slugify(x)) == slugify(x)` */
  lemma SlugifyIdempotent(text: string)
    ensures Slugify(Slugify(text)) == Slugify(text)
  {
    SlugifyFixesSlugs(Slugify(text));
  }

  lemma SpacedLetterKept()
    ensures Filter(Lower(" a "), IsSlugSource) == " a "
  {
    assert Lower(" a ") == " a ";
  }

  lemma SpacedLetterHyphenated()
    ensures ReplaceRuns(" a ", IsSpace, '-') == "-a-"
  {
  }

  /** `slugify(" a ")` is `"-a-"`: the hyphens standing for the outer spaces survive. */
  lemma SlugifyKeepsOuterHyphens()
    ensures Slugify(" a ") == "-a-"
  {
    SpacedLetterKept();
    SpacedLetterHyphenated();
    assert ReplaceRuns("-a-", IsHyphen, '-') == "-a-";
    TrimKeepsEndHyphens(" a ");
  }
}
