/**
 * The category and tag vocabularies of the blog (`getCategories` and
 * `getTags`). Every post file of the posts directory is read; its front matter
 * is searched for a `category:` entry or a `tags: [...]` list; the values found
 * are gathered in an insertion-ordered set and turned into `{ id, name, slug }`
 * records.
 *
 * The directory listing is a parameter: `None` when listing the directory
 * fails, `Some(names)` otherwise. File contents are a map from file name to
 * text; a listed name with no entry is a file whose read fails.
 */
module Vocabulary {
  import opened Opt
  import opened Text

  datatype Vocab = Vocab(id: string, name: string, slug: string)

  type Category = Vocab

  type Tag = Vocab

  // ---------------------------------------------------------------------------
  // Which files are read

  /** `f.endsWith('.mdx') || f.endsWith('.md')` */
  predicate IsPostFile(name: string) {
    EndsWith(name, ".mdx") || EndsWith(name, ".md")
  }

  /** The post files of a directory listing, in listing order. */
  function PostFiles(files: seq<string>): (posts: seq<string>)
    ensures |posts| <= |files|
    ensures forall k | 0 <= k < |posts| :: IsPostFile(posts[k])
    ensures forall f | f in posts :: f in files && IsPostFile(f)
    ensures forall f | f in files && IsPostFile(f) :: f in posts
  {
    if files == [] then []
    else (if IsPostFile(files[0]) then [files[0]] else []) + PostFiles(files[1..])
  }

  // ---------------------------------------------------------------------------
  // Front matter: /^---\n([\s\S]*?)\n---/

  /** The first occurrence of the closing fence `\n---` at or after `from`. */
  function FenceClose(s: string, from: nat): (k: Option<nat>)
    requires from <= |s|
    decreases |s| - from
    ensures k.Some? ==> from <= k.value && StartsAt(s, k.value, "\n---")
    ensures forall j | from <= j <= |s| && (k.None? || j < k.value) :: !StartsAt(s, j, "\n---")
  {
    if from + 4 > |s| then None
    else if StartsAt(s, from, "\n---") then Some(from)
    else FenceClose(s, from + 1)
  }

  /**
   * The front matter of a post: the text between an opening `---` line at the
   * very start and the nearest following `\n---` (the lazy group stops at the
   * first closing fence).
   */
  function FrontMatter(content: string): (fm: Option<string>)
    ensures fm.Some? ==>
      && StartsAt(content, 0, "---\n")
      && 4 + |fm.value| <= |content|
      && content[4..4 + |fm.value|] == fm.value
      && StartsAt(content, 4 + |fm.value|, "\n---")
  {
    if !StartsAt(content, 0, "---\n") then None
    else
      match FenceClose(content, 4)
      case None => None
      case Some(k) => Some(content[4..k])
  }

  /** The front matter is exactly the text up to the first closing fence after the opening one. */
  lemma FrontMatterIsShortest(content: string, fm: string)
    ensures FrontMatter(content) == Some(fm) <==>
      StartsAt(content, 0, "---\n") && StartsAt(content, 4 + |fm|, "\n---") &&
      content[4..4 + |fm|] == fm &&
      forall j | 4 <= j < 4 + |fm| :: !StartsAt(content, j, "\n---")
  {
    if StartsAt(content, 0, "---\n") {
      var k := FenceClose(content, 4);
      if StartsAt(content, 4 + |fm|, "\n---") && content[4..4 + |fm|] == fm &&
        forall j | 4 <= j < 4 + |fm| :: !StartsAt(content, j, "\n---")
      {
        assert k.Some? && k.value == 4 + |fm|;
      }
    }
  }

  // ---------------------------------------------------------------------------
  // Category: /category:\s*['"]*([^'"\n]+)['"]*/

  predicate IsQuote(c: char) { c == '\'' || c == '"' }

  /** `[^'"\n]` */
  predicate IsValueChar(c: char) { !IsQuote(c) && c != '\n' }

  /** The last position in `[lo, hi)` that does not hold a line feed. */
  function LastNonNewline(s: string, lo: nat, hi: nat): (j: Option<nat>)
    requires lo <= hi <= |s|
    decreases hi - lo
    ensures j.Some? ==> lo <= j.value < hi && s[j.value] != '\n'
    ensures forall k | lo <= k < hi && (j.None? || j.value < k) :: s[k] == '\n'
  {
    if lo == hi then None
    else if s[hi - 1] != '\n' then Some(hi - 1)
    else LastNonNewline(s, lo, hi - 1)
  }

  /**
   * `value` is the text of `fm` at `v`, after `category:` at `i` and nothing
   * but whitespace and quotes, and no value character follows it.
   */
  predicate CategoryValueAt(fm: string, i: nat, v: nat, value: string) {
    && StartsAt(fm, i, "category:")
    && i + 9 <= v
    && v + |value| <= |fm|
    && fm[v..v + |value|] == value
    && (forall j | i + 9 <= j < v :: IsSpace(fm[j]) || IsQuote(fm[j]))
    && (v + |value| < |fm| ==> !IsValueChar(fm[v + |value|]))
  }

  lemma CategoryValueSpan(fm: string, i: nat, v: nat, e: nat)
    requires StartsAt(fm, i, "category:") && i + 9 <= v <= e <= |fm|
    requires forall j | i + 9 <= j < v :: IsSpace(fm[j]) || IsQuote(fm[j])
    requires e < |fm| ==> !IsValueChar(fm[e])
    ensures CategoryValueAt(fm, i, v, fm[v..e])
  {
  }

  /**
   * The group the category pattern captures in a match beginning at `i`, if
   * one begins there. Greedy `\s*` and `['"]*` reach `w` and `q`; the value
   * starts at `q` unless a line feed or the end of the text is there, in which
   * case backtracking gives the value the last whitespace character before `w`
   * that is not a line feed (and `['"]*` nothing).
   */
  function CategoryAt(fm: string, i: nat): (g: Option<string>)
    requires i <= |fm|
    ensures g.Some? ==> g.value != [] && forall c | c in g.value :: IsValueChar(c)
    ensures g.Some? ==> exists v :: CategoryValueAt(fm, i, v, g.value)
  {
    if !StartsAt(fm, i, "category:") then None
    else
      var w := RunEnd(fm, i + 9, IsSpace);
      var q := RunEnd(fm, w, IsQuote);
      if q < |fm| && fm[q] != '\n' then
        var e := RunEnd(fm, q, IsValueChar);
        SliceAll(fm, q, e, IsValueChar);
        CategoryValueSpan(fm, i, q, e);
        Some(fm[q..e])
      else
        match LastNonNewline(fm, i + 9, w)
        case None => None
        case Some(v) =>
          var e := RunEnd(fm, v, IsValueChar);
          SliceAll(fm, v, e, IsValueChar);
          CategoryValueSpan(fm, i, v, e);
          Some(fm[v..e])
  }

  /** `CategoryAt` when the greedy runs leave a value character at `q`. */
  lemma CategoryAtGreedy(fm: string, i: nat, w: nat, q: nat)
    requires StartsAt(fm, i, "category:")
    requires RunEnd(fm, i + 9, IsSpace) == w && RunEnd(fm, w, IsQuote) == q
    requires q < |fm| && fm[q] != '\n'
    ensures CategoryAt(fm, i) == Some(fm[q..RunEnd(fm, q, IsValueChar)])
  {
  }

  /** `CategoryAt` when backtracking gives the value a whitespace character before `w`. */
  lemma CategoryAtBacktracked(fm: string, i: nat, w: nat)
    requires StartsAt(fm, i, "category:") && RunEnd(fm, i + 9, IsSpace) == w
    requires LastNonNewline(fm, i + 9, w).Some?
    ensures CategoryAt(fm, i).Some?
  {
  }

  /**
   * Wherever `category:` is followed by whitespace, quotes and a value
   * character, the pattern matches there; when the whitespace ends where the
   * quotes begin, the value is the run of value characters from `q`.
   */
  lemma CategoryAtAccepts(fm: string, i: nat, w: nat, q: nat)
    requires StartsAt(fm, i, "category:") && i + 9 <= w <= q < |fm|
    requires forall j | i + 9 <= j < w :: IsSpace(fm[j])
    requires forall j | w <= j < q :: IsQuote(fm[j])
    requires IsValueChar(fm[q])
    ensures CategoryAt(fm, i).Some?
    ensures !IsSpace(fm[w]) ==> CategoryAt(fm, i) == Some(fm[q..RunEnd(fm, q, IsValueChar)])
  {
    var w' := RunEnd(fm, i + 9, IsSpace);
    if !IsSpace(fm[w]) {
      RunEndAt(fm, i + 9, w, IsSpace);
      RunEndAt(fm, w, q, IsQuote);
      CategoryAtGreedy(fm, i, w, q);
    } else {
      assert w == q && w < w';
      var q' := RunEnd(fm, w', IsQuote);
      if q' < |fm| && fm[q'] != '\n' {
        CategoryAtGreedy(fm, i, w', q');
      } else {
        assert LastNonNewline(fm, i + 9, w').Some?;
        CategoryAtBacktracked(fm, i, w');
      }
    }
  }

  /** The leftmost match of the category pattern at or after `i`. */
  function FirstCategory(fm: string, i: nat): (g: Option<string>)
    requires i <= |fm|
    decreases |fm| - i
    ensures g.Some? ==> g.value != [] && forall c | c in g.value :: IsValueChar(c)
  {
    match CategoryAt(fm, i)
    case Some(g) => Some(g)
    case None => if i == |fm| then None else FirstCategory(fm, i + 1)
  }

  /** `match` returns the category at the first position where the pattern matches. */
  lemma {:induction false} FirstCategoryIsLeftmost(fm: string, i: nat, p: nat)
    requires i <= p <= |fm| && CategoryAt(fm, p).Some?
    requires forall q | i <= q < p :: CategoryAt(fm, q).None?
    decreases p - i
    ensures FirstCategory(fm, i) == CategoryAt(fm, p)
  {
    if i < p {
      assert CategoryAt(fm, i).None?;
      FirstCategoryIsLeftmost(fm, i + 1, p);
    }
  }

  /** `match` returns nothing only when the pattern matches nowhere. */
  lemma {:induction false} NoCategoryAnywhere(fm: string, i: nat, p: nat)
    requires i <= p <= |fm| && FirstCategory(fm, i).None?
    decreases p - i
    ensures CategoryAt(fm, p).None?
  {
    if i < p {
      NoCategoryAnywhere(fm, i + 1, p);
    }
  }

  /** Whatever `match` returns is the category at some position at or after `i`. */
  lemma {:induction false} FirstCategoryFound(fm: string, i: nat)
    requires i <= |fm|
    decreases |fm| - i
    ensures FirstCategory(fm, i).Some? ==> exists p | i <= p <= |fm| :: CategoryAt(fm, p) == FirstCategory(fm, i)
  {
    if CategoryAt(fm, i).None? && i < |fm| {
      FirstCategoryFound(fm, i + 1);
    }
  }

  /**
   * A `category:` entry with nothing but whitespace and quotes before the end
   * of its line still matches when it has a whitespace character other than a
   * line feed after the colon, and the value it yields trims to the empty name.
   */
  lemma BlankCategoryEntry(fm: string, i: nat)
    requires StartsAt(fm, i, "category:")
    requires RunEnd(fm, RunEnd(fm, i + 9, IsSpace), IsQuote) == |fm| ||
             fm[RunEnd(fm, RunEnd(fm, i + 9, IsSpace), IsQuote)] == '\n'
    ensures CategoryAt(fm, i).Some? <==>
      exists j | i + 9 <= j < RunEnd(fm, i + 9, IsSpace) :: fm[j] != '\n'
    ensures CategoryAt(fm, i).Some? ==> Trim(CategoryAt(fm, i).value) == []
  {
    var w := RunEnd(fm, i + 9, IsSpace);
    BlankCategoryAt(fm, i);
    match LastNonNewline(fm, i + 9, w)
    case None =>
    case Some(v) =>
      var g := CategoryAt(fm, i).value;
      assert g == [fm[v]];
      assert forall c | c in g :: IsSpace(c);
  }

  /**
   * In a blank entry the pattern takes, as the value, the last whitespace
   * character after the colon that is not a line feed, and nothing when there
   * is none.
   */
  lemma BlankCategoryAt(fm: string, i: nat)
    requires StartsAt(fm, i, "category:")
    requires RunEnd(fm, RunEnd(fm, i + 9, IsSpace), IsQuote) == |fm| ||
             fm[RunEnd(fm, RunEnd(fm, i + 9, IsSpace), IsQuote)] == '\n'
    ensures var last := LastNonNewline(fm, i + 9, RunEnd(fm, i + 9, IsSpace));
      && (last.None? ==> CategoryAt(fm, i).None?)
      && (last.Some? ==> IsSpace(fm[last.value]) && CategoryAt(fm, i) == Some([fm[last.value]]))
  {
    var w := RunEnd(fm, i + 9, IsSpace);
    var q := RunEnd(fm, w, IsQuote);
    var last := LastNonNewline(fm, i + 9, w);
    if last.Some? {
      var v := last.value;
      var e := RunEnd(fm, v, IsValueChar);
      assert IsSpace(fm[v]) && IsValueChar(fm[v]);
      assert e == v + 1 by {
        if v + 1 < w {
          assert fm[v + 1] == '\n';
        } else if w < |fm| {
          assert q != w;
        }
      }
      assert fm[v..e] == [fm[v]];
    }
  }

  /** The category a readable post file declares: the first category match of its front matter, trimmed. */
  function FileCategory(content: string): (category: Option<string>)
    ensures category.Some? ==> Trimmed(category.value) && forall c | c in category.value :: IsValueChar(c)
  {
    match FrontMatter(content)
    case None => None
    case Some(fm) =>
      match FirstCategory(fm, 0)
      case None => None
      case Some(g) => if g != [] then Some(Trim(g)) else None
  }

  lemma BlankFrontMatter()
    ensures FrontMatter("---\ncategory: \n---") == Some("category: ")
  {
    var content := "---\ncategory: \n---";
    assert content[4..14] == "category: " && content[14..18] == "\n---";
    assert content[0..4] == "---\n";
    forall j | 4 <= j < 14 ensures !StartsAt(content, j, "\n---") {
      assert content[j] != '\n';
      assert j + 4 <= |content| ==> content[j..j + 4][0] == content[j];
    }
    FrontMatterIsShortest(content, "category: ");
  }

  lemma BlankCategoryMatch()
    ensures FirstCategory("category: ", 0) == Some(" ")
  {
    var fm := "category: ";
    assert StartsAt(fm, 0, "category:");
    assert RunEnd(fm, 9, IsSpace) == 10;
    assert RunEnd(fm, 10, IsQuote) == 10;
    assert LastNonNewline(fm, 9, 10) == Some(9);
    assert RunEnd(fm, 9, IsValueChar) == 10;
    assert CategoryAt(fm, 0) == Some(fm[9..10]);
    assert fm[9..10] == " ";
  }

  /** A post whose only entry is `category: ` declares the empty category name. */
  lemma BlankCategoryDeclared()
    ensures FileCategory("---\ncategory: \n---") == Some([])
  {
    BlankFrontMatter();
    BlankCategoryMatch();
    assert Trim(" ") == [];
  }

  // ---------------------------------------------------------------------------
  // Tags: /tags:\s*\[([^\]]+)\]/

  /** `[^\]]` */
  predicate NotCloseBracket(c: char) { c != ']' }

  /**
   * `list` stands between `[` at `w` and the `]` after it, and nothing but
   * whitespace lies between `tags:` at `i` and `w`.
   */
  predicate TagListAt(fm: string, i: nat, w: nat, list: string) {
    && StartsAt(fm, i, "tags:")
    && i + 5 <= w
    && w + 1 + |list| < |fm|
    && (forall j | i + 5 <= j < w :: IsSpace(fm[j]))
    && fm[w] == '['
    && fm[w + 1..w + 1 + |list|] == list
    && fm[w + 1 + |list|] == ']'
  }

  /**
   * The group the tags pattern captures in a match beginning at `i`, if one
   * begins there: `[` right after the whitespace, then at least one character
   * before the first `]`. Giving back whitespace or list characters cannot
   * make `[` or `]` appear, so no backtracking helps.
   */
  function TagsAt(fm: string, i: nat): (g: Option<string>)
    requires i <= |fm|
    ensures g.Some? ==> g.value != [] && ']' !in g.value
    ensures g.Some? ==> exists w :: TagListAt(fm, i, w, g.value)
  {
    if !StartsAt(fm, i, "tags:") then None
    else
      var w := RunEnd(fm, i + 5, IsSpace);
      if w < |fm| && fm[w] == '[' then
        var r := RunEnd(fm, w + 1, NotCloseBracket);
        SliceAll(fm, w + 1, r, NotCloseBracket);
        if w + 1 < r < |fm| then
          assert TagListAt(fm, i, w, fm[w + 1..r]);
          Some(fm[w + 1..r])
        else None
      else None
  }

  /** `TagsAt` with the ends of its runs given. */
  lemma TagsAtRuns(fm: string, i: nat, w: nat, r: nat)
    requires StartsAt(fm, i, "tags:") && RunEnd(fm, i + 5, IsSpace) == w
    requires w < |fm| && fm[w] == '[' && RunEnd(fm, w + 1, NotCloseBracket) == r && w + 1 < r < |fm|
    ensures TagsAt(fm, i) == Some(fm[w + 1..r])
  {
  }

  /** Wherever `tags:`, whitespace, `[`, a list without `]` and `]` follow one another, the pattern matches there with that list. */
  lemma TagsAtAccepts(fm: string, i: nat, w: nat, list: string)
    requires TagListAt(fm, i, w, list)
    requires list != [] && ']' !in list
    ensures TagsAt(fm, i) == Some(list)
  {
    var r := w + 1 + |list|;
    RunEndAt(fm, i + 5, w, IsSpace);
    forall j | w + 1 <= j < r ensures NotCloseBracket(fm[j]) {
      assert fm[j] == list[j - w - 1];
    }
    RunEndAt(fm, w + 1, r, NotCloseBracket);
    TagsAtRuns(fm, i, w, r);
  }

  /** The leftmost match of the tags pattern at or after `i`. */
  function FirstTags(fm: string, i: nat): (g: Option<string>)
    requires i <= |fm|
    decreases |fm| - i
    ensures g.Some? ==> g.value != [] && ']' !in g.value
  {
    match TagsAt(fm, i)
    case Some(g) => Some(g)
    case None => if i == |fm| then None else FirstTags(fm, i + 1)
  }

  /** `match` returns the tag list at the first position where the pattern matches. */
  lemma {:induction false} FirstTagsIsLeftmost(fm: string, i: nat, p: nat)
    requires i <= p <= |fm| && TagsAt(fm, p).Some?
    requires forall q | i <= q < p :: TagsAt(fm, q).None?
    decreases p - i
    ensures FirstTags(fm, i) == TagsAt(fm, p)
  {
    if i < p {
      assert TagsAt(fm, i).None?;
      FirstTagsIsLeftmost(fm, i + 1, p);
    }
  }

  /** `match` returns nothing only when the pattern matches nowhere. */
  lemma {:induction false} NoTagsAnywhere(fm: string, i: nat, p: nat)
    requires i <= p <= |fm| && FirstTags(fm, i).None?
    decreases p - i
    ensures TagsAt(fm, p).None?
  {
    if i < p {
      NoTagsAnywhere(fm, i + 1, p);
    }
  }

  /** Whatever `match` returns is the tag list at some position at or after `i`. */
  lemma {:induction false} FirstTagsFound(fm: string, i: nat)
    requires i <= |fm|
    decreases |fm| - i
    ensures FirstTags(fm, i).Some? ==> exists p | i <= p <= |fm| :: TagsAt(fm, p) == FirstTags(fm, i)
  {
    if TagsAt(fm, i).None? && i < |fm| {
      FirstTagsFound(fm, i + 1);
    }
  }

  predicate NotQuote(c: char) { !IsQuote(c) }

  /** `t.trim().replace(/['"]/g, '')`: trimmed first, so whitespace inside quotes survives. */
  function TagPiece(piece: string): (tag: string)
    ensures forall c | c in tag :: !IsQuote(c) && c in piece
    ensures forall c | c in Trim(piece) && !IsQuote(c) :: c in tag
  {
    Filter(Trim(piece), NotQuote)
  }

  /** `.split(',').map(...)` over the captured list: one quote-free tag per piece, made of that piece's characters. */
  function TagPieces(parts: seq<string>): (tags: seq<string>)
    ensures |tags| == |parts|
    ensures forall k | 0 <= k < |tags| :: forall c | c in tags[k] :: !IsQuote(c) && c in parts[k]
  {
    seq(|parts|, k requires 0 <= k < |parts| => TagPiece(parts[k]))
  }

  /** The tags a readable post file declares, in list order, duplicates included. */
  function FileTags(content: string): (tags: seq<string>)
    ensures tags != [] ==>
      && FrontMatter(content).Some?
      && FirstTags(FrontMatter(content).value, 0).Some?
      && |tags| == |SplitOn(FirstTags(FrontMatter(content).value, 0).value, ',')|
  {
    match FrontMatter(content)
    case None => []
    case Some(fm) =>
      match FirstTags(fm, 0)
      case None => []
      case Some(g) => if g != [] then TagPieces(SplitOn(g, ',')) else []
  }

  /** A declared tag holds no quote, no comma and no closing bracket. */
  lemma FileTagsShape(content: string)
    ensures forall k | 0 <= k < |FileTags(content)| ::
      forall c | c in FileTags(content)[k] :: !IsQuote(c) && c != ',' && c != ']'
  {
    var tags := FileTags(content);
    if tags != [] {
      var g := FirstTags(FrontMatter(content).value, 0).value;
      var parts := SplitOn(g, ',');
      assert tags == TagPieces(parts);
      forall k | 0 <= k < |tags| ensures forall c | c in tags[k] :: !IsQuote(c) && c != ',' && c != ']' {
        SplitOnKeeps(g, ',', k);
      }
    }
  }

  /** Every piece of a split is made of characters of the text. */
  lemma {:induction false} SplitOnKeeps(s: string, sep: char, k: nat)
    requires k < |SplitOn(s, sep)|
    ensures forall c | c in SplitOn(s, sep)[k] :: c in s
  {
    if s != [] {
      var rest := SplitOn(s[1..], sep);
      if s[0] == sep {
        if k > 0 {
          SplitOnKeeps(s[1..], sep, k - 1);
        }
      } else if k == 0 {
        SplitOnKeeps(s[1..], sep, 0);
      } else {
        SplitOnKeeps(s[1..], sep, k);
      }
    }
  }

  // ---------------------------------------------------------------------------
  // Gathering the values of all post files

  /**
   * The values a sequence of post files contributes, file by file and in
   * order, before duplicates are dropped; `values` says what one file adds.
   */
  function Gather(posts: seq<string>, values: string -> seq<string>): seq<string>
  {
    if posts == [] then []
    else Gather(posts[..|posts| - 1], values) + values(posts[|posts| - 1])
  }

  /** A value is gathered exactly when some file contributes it. */
  lemma {:induction false} GatherFrom(posts: seq<string>, values: string -> seq<string>, v: string)
    ensures v in Gather(posts, values) <==> exists f | f in posts :: v in values(f)
  {
    if posts != [] {
      var init := posts[..|posts| - 1];
      var last := posts[|posts| - 1];
      GatherFrom(init, values, v);
      assert posts == init + [last];
      if exists f | f in posts :: v in values(f) {
        var f :| f in posts && v in values(f);
        if f != last {
          assert f in init;
        }
      }
    }
  }

  /** Files that contribute the same values gather the same values. */
  lemma {:induction false} GatherAgrees(posts: seq<string>, values: string -> seq<string>, others: string -> seq<string>)
    requires forall k | 0 <= k < |posts| :: values(posts[k]) == others(posts[k])
    ensures Gather(posts, values) == Gather(posts, others)
  {
    if posts != [] {
      GatherAgrees(posts[..|posts| - 1], values, others);
    }
  }

  /** What one listed post file adds to the category set: nothing when it cannot be read. */
  function FileCategoryValues(file: string, contents: map<string, string>): (vs: seq<string>)
    ensures forall v :: v in vs <==> file in contents && FileCategory(contents[file]) == Some(v)
  {
    if file !in contents then []
    else
      match FileCategory(contents[file])
      case None => []
      case Some(c) => [c]
  }

  /** The category values of the post files, file by file. */
  function CategoryValues(posts: seq<string>, contents: map<string, string>): seq<string>
  {
    Gather(posts, file => FileCategoryValues(file, contents))
  }

  /** What one listed post file adds to the tag set: nothing when it cannot be read. */
  function FileTagValues(file: string, contents: map<string, string>): seq<string>
  {
    if file !in contents then [] else FileTags(contents[file])
  }

  /** The tag values of the post files, file by file. */
  function TagValues(posts: seq<string>, contents: map<string, string>): seq<string>
  {
    Gather(posts, file => FileTagValues(file, contents))
  }

  /** A category value is gathered exactly when some readable listed file declares it. */
  lemma CategoryValuesFromFiles(posts: seq<string>, contents: map<string, string>, v: string)
    ensures v in CategoryValues(posts, contents) <==>
      exists f | f in posts :: f in contents && FileCategory(contents[f]) == Some(v)
  {
    GatherFrom(posts, file => FileCategoryValues(file, contents), v);
  }

  /** A tag value is gathered exactly when some readable listed file declares it. */
  lemma TagValuesFromFiles(posts: seq<string>, contents: map<string, string>, v: string)
    ensures v in TagValues(posts, contents) <==>
      exists f | f in posts :: f in contents && v in FileTags(contents[f])
  {
    GatherFrom(posts, file => FileTagValues(file, contents), v);
  }

  /** The contents of a file that is not a post file never matter. */
  lemma ValuesIgnoreOtherFiles(posts: seq<string>, contents: map<string, string>, f: string, text: string)
    requires forall k | 0 <= k < |posts| :: IsPostFile(posts[k])
    requires !IsPostFile(f)
    ensures CategoryValues(posts, contents[f := text]) == CategoryValues(posts, contents)
    ensures TagValues(posts, contents[f := text]) == TagValues(posts, contents)
  {
    var updated := contents[f := text];
    forall k | 0 <= k < |posts|
      ensures FileCategoryValues(posts[k], updated) == FileCategoryValues(posts[k], contents)
      ensures FileTagValues(posts[k], updated) == FileTagValues(posts[k], contents)
    {
      assert posts[k] != f;
    }
    GatherAgrees(posts, file => FileCategoryValues(file, updated), file => FileCategoryValues(file, contents));
    GatherAgrees(posts, file => FileTagValues(file, updated), file => FileTagValues(file, contents));
  }

  // ---------------------------------------------------------------------------
  // The insertion-ordered set

  /**
   * The distinct values of `xs`, each kept where it first occurs: the
   * iteration order of a JavaScript `Set` that `xs` was added to in order.
   */
  function Dedup(xs: seq<string>): (ys: seq<string>)
    ensures forall x :: x in ys <==> x in xs
  {
    if xs == [] then []
    else
      var init := xs[..|xs| - 1];
      var x := xs[|xs| - 1];
      assert xs == init + [x];
      Dedup(init) + (if x in init then [] else [x])
  }

  predicate Distinct(ys: seq<string>) {
    forall i, j | 0 <= i < j < |ys| :: ys[i] != ys[j]
  }

  lemma {:induction false} DedupDistinct(xs: seq<string>)
    ensures Distinct(Dedup(xs))
  {
    if xs != [] {
      DedupDistinct(xs[..|xs| - 1]);
    }
  }

  /** Adding one more value to the set. */
  lemma DedupSnoc(xs: seq<string>, x: string)
    ensures Dedup(xs + [x]) == Dedup(xs) + (if x in Dedup(xs) then [] else [x])
  {
    assert (xs + [x])[..|xs|] == xs;
  }

  lemma DedupExtend(seen: seq<string>, items: seq<string>, j: nat)
    requires j < |items|
    ensures Dedup(seen + items[..j + 1]) ==
      Dedup(seen + items[..j]) + (if items[j] in Dedup(seen + items[..j]) then [] else [items[j]])
  {
    DedupSnoc(seen + items[..j], items[j]);
    assert seen + items[..j + 1] == seen + items[..j] + [items[j]];
  }

  /** The index of the first occurrence of `x` in `xs`. */
  function FirstIndex(xs: seq<string>, x: string): (k: nat)
    requires x in xs
    ensures k < |xs| && xs[k] == x
    ensures forall j | 0 <= j < k :: xs[j] != x
  {
    if xs[0] == x then 0 else 1 + FirstIndex(xs[1..], x)
  }

  lemma FirstIndexPrefix(xs: seq<string>, n: nat, x: string)
    requires n <= |xs| && x in xs[..n]
    ensures FirstIndex(xs, x) == FirstIndex(xs[..n], x)
  {
    var k := FirstIndex(xs[..n], x);
    assert xs[k] == x;
  }

  /** The set lists values in the order of their first occurrence. */
  lemma {:induction false} DedupFirstSeenOrder(xs: seq<string>, i: nat, j: nat)
    requires i < j < |Dedup(xs)|
    ensures FirstIndex(xs, Dedup(xs)[i]) < FirstIndex(xs, Dedup(xs)[j])
  {
    var n := |xs| - 1;
    var init := xs[..n];
    var d := Dedup(init);
    assert xs[..n] == init;
    assert Dedup(xs)[i] == d[i];
    FirstIndexPrefix(xs, n, d[i]);
    if j < |d| {
      assert Dedup(xs)[j] == d[j];
      DedupFirstSeenOrder(init, i, j);
      FirstIndexPrefix(xs, n, d[j]);
    } else {
      assert Dedup(xs)[j] == xs[n] && xs[n] !in init;
    }
  }

  // ---------------------------------------------------------------------------
  // Records

  /** `name.toLowerCase().replace(/\s+/g, '-')` */
  function Normalize(name: string): (id: string)
    ensures forall c | c in id :: !IsSpace(c) && !IsUpper(c)
  {
    ReplaceRuns(Lower(name), IsSpace, '-')
  }

  /** Normalizing an identifier gives it back. */
  lemma NormalizeIdempotent(name: string)
    ensures Normalize(Normalize(name)) == Normalize(name)
  {
    var id := Normalize(name);
    LowerIdentity(id);
    ReplaceRunsIdentity(id, IsSpace, '-');
  }

  function ToVocab(name: string): Vocab {
    Vocab(Normalize(name), name, Normalize(name))
  }

  /**
   * `Array.from(set).map(...)`: one record per name, in order, whose `id` and
   * `slug` agree and hold no whitespace and no upper-case letter.
   */
  function Records(names: seq<string>): (vs: seq<Vocab>)
    ensures |vs| == |names|
    ensures forall k | 0 <= k < |vs| ::
      vs[k].name == names[k] && vs[k].id == vs[k].slug &&
      forall c | c in vs[k].id :: !IsSpace(c) && !IsUpper(c)
  {
    seq(|names|, k requires 0 <= k < |names| => ToVocab(names[k]))
  }

  /** The categories offered when no post declares one or the directory cannot be listed. */
  const DefaultCategories: seq<Category> := [
    Vocab("getting-started", "Getting Started", "getting-started"),
    Vocab("tutorials", "Tutorials", "tutorials"),
    Vocab("technology", "Technology", "technology")
  ]

  // ---------------------------------------------------------------------------
  // getCategories and getTags

  function Categories(files: Option<seq<string>>, contents: map<string, string>): (cs: seq<Category>)
    ensures cs != []
  {
    match files
    case None => DefaultCategories
    case Some(names) =>
      var found := Records(Dedup(CategoryValues(PostFiles(names), contents)));
      if |found| > 0 then found else DefaultCategories
  }

  function Tags(files: Option<seq<string>>, contents: map<string, string>): (ts: seq<Tag>)
    ensures forall k | 0 <= k < |ts| ::
      ts[k].id == ts[k].slug && forall c | c in ts[k].id :: !IsSpace(c) && !IsUpper(c)
  {
    match files
    case None => []
    case Some(names) => Records(Dedup(TagValues(PostFiles(names), contents)))
  }

  lemma CategoryValuesStep(posts: seq<string>, i: nat, contents: map<string, string>)
    requires i < |posts|
    ensures CategoryValues(posts[..i + 1], contents) ==
      CategoryValues(posts[..i], contents) + FileCategoryValues(posts[i], contents)
  {
    assert posts[..i + 1][..i] == posts[..i];
  }

  lemma TagValuesStep(posts: seq<string>, i: nat, contents: map<string, string>)
    requires i < |posts|
    ensures TagValues(posts[..i + 1], contents) ==
      TagValues(posts[..i], contents) + FileTagValues(posts[i], contents)
  {
    assert posts[..i + 1][..i] == posts[..i];
  }

  /**
   * `items.forEach(x => present.add(x))` on the insertion-ordered set
   * `present`, which holds the distinct values of `seen`.
   */
  method AddAll(present: seq<string>, ghost seen: seq<string>, items: seq<string>) returns (r: seq<string>)
    requires present == Dedup(seen)
    ensures r == Dedup(seen + items)
  {
    r := present;
    assert seen + items[..0] == seen;
    for j := 0 to |items|
      invariant r == Dedup(seen + items[..j])
    {
      DedupExtend(seen, items, j);
      if items[j] !in r {
        r := r + [items[j]];
      }
    }
    assert items[..|items|] == items;
  }

  method GetCategories(files: Option<seq<string>>, contents: map<string, string>) returns (categories: seq<Category>)
    ensures categories == Categories(files, contents)
  {
    if files.None? {
      return DefaultCategories;
    }
    var mdxFiles := PostFiles(files.value);
    var categoriesSet: seq<string> := [];
    for i := 0 to |mdxFiles|
      invariant categoriesSet == Dedup(CategoryValues(mdxFiles[..i], contents))
    {
      var file := mdxFiles[i];
      ghost var before := CategoryValues(mdxFiles[..i], contents);
      CategoryValuesStep(mdxFiles, i, contents);
      if file in contents {
        var category := FileCategory(contents[file]);
        if category.Some? {
          assert FileCategoryValues(file, contents) == [category.value];
          DedupSnoc(before, category.value);
          if category.value !in categoriesSet {
            categoriesSet := categoriesSet + [category.value];
          }
        } else {
          assert before + FileCategoryValues(file, contents) == before;
        }
      } else {
        assert before + FileCategoryValues(file, contents) == before;
      }
    }
    assert mdxFiles[..|mdxFiles|] == mdxFiles;
    categories := Records(categoriesSet);
    if |categories| == 0 {
      categories := DefaultCategories;
    }
  }

  method GetTags(files: Option<seq<string>>, contents: map<string, string>) returns (tags: seq<Tag>)
    ensures tags == Tags(files, contents)
  {
    if files.None? {
      return [];
    }
    var mdxFiles := PostFiles(files.value);
    var tagsSet: seq<string> := [];
    for i := 0 to |mdxFiles|
      invariant tagsSet == Dedup(TagValues(mdxFiles[..i], contents))
    {
      var file := mdxFiles[i];
      TagValuesStep(mdxFiles, i, contents);
      if file in contents {
        var fileTags := FileTags(contents[file]);
        tagsSet := AddAll(tagsSet, TagValues(mdxFiles[..i], contents), fileTags);
      } else {
        assert TagValues(mdxFiles[..i], contents) + FileTagValues(file, contents) == TagValues(mdxFiles[..i], contents);
      }
    }
    assert mdxFiles[..|mdxFiles|] == mdxFiles;
    tags := Records(tagsSet);
  }

  // ---------------------------------------------------------------------------
  // What the vocabularies promise

  /** One record per distinct value, in first-seen order; `id` and `slug` are both the normalized name. */
  lemma RecordsOfValues(values: seq<string>)
    ensures var vs := Records(Dedup(values));
      (forall k | 0 <= k < |vs| :: vs[k].id == vs[k].slug == Normalize(vs[k].name) && vs[k].name in values) &&
      (forall v | v in values :: exists k | 0 <= k < |vs| :: vs[k].name == v) &&
      (forall i, j | 0 <= i < j < |vs| :: vs[i].name != vs[j].name)
  {
    var d := Dedup(values);
    var vs := Records(d);
    DedupDistinct(values);
    assert forall k | 0 <= k < |vs| :: vs[k].name == d[k];
    forall v | v in values ensures exists k | 0 <= k < |vs| :: vs[k].name == v {
      var k :| 0 <= k < |d| && d[k] == v;
      assert vs[k].name == v;
    }
  }

  /** The defaults stand in when the directory cannot be listed or no readable post file declares a category. */
  lemma CategoriesDefaultWhenNoneDeclared(files: Option<seq<string>>, contents: map<string, string>)
    ensures (files.None? ||
      forall f | f in PostFiles(files.value) && f in contents :: FileCategory(contents[f]).None?)
      ==> Categories(files, contents) == DefaultCategories
  {
    if files.Some? && forall f | f in PostFiles(files.value) && f in contents :: FileCategory(contents[f]).None? {
      var values := CategoryValues(PostFiles(files.value), contents);
      if values != [] {
        CategoryValuesFromFiles(PostFiles(files.value), contents, values[0]);
      }
    }
  }

  /** `getTags` returns no tag when the directory cannot be listed. */
  lemma NoTagsWhenUnlisted(contents: map<string, string>)
    ensures Tags(None, contents) == []
  {
  }

  /**
   * When the directory can be listed and some readable post file declares a
   * category, the categories are one record per distinct declared name: every
   * name is declared by a readable post file, every declared name is there, no
   * name twice, and `id` and `slug` are both the normalized name.
   */
  lemma CategoriesAreDeclared(names: seq<string>, contents: map<string, string>)
    requires exists f | f in PostFiles(names) && f in contents :: FileCategory(contents[f]).Some?
    ensures var cs := Categories(Some(names), contents);
      (forall k | 0 <= k < |cs| ::
        cs[k].id == cs[k].slug == Normalize(cs[k].name) &&
        exists f | f in PostFiles(names) :: f in contents && FileCategory(contents[f]) == Some(cs[k].name)) &&
      (forall f | f in PostFiles(names) && f in contents && FileCategory(contents[f]).Some? ::
        exists k | 0 <= k < |cs| :: cs[k].name == FileCategory(contents[f]).value) &&
      (forall i, j | 0 <= i < j < |cs| :: cs[i].name != cs[j].name)
  {
    var posts := PostFiles(names);
    var values := CategoryValues(posts, contents);
    var f0 :| f0 in posts && f0 in contents && FileCategory(contents[f0]).Some?;
    CategoryValuesFromFiles(posts, contents, FileCategory(contents[f0]).value);
    RecordsOfValues(values);
    forall v | v in values
      ensures exists f | f in posts :: f in contents && FileCategory(contents[f]) == Some(v)
    {
      CategoryValuesFromFiles(posts, contents, v);
    }
    forall f | f in posts && f in contents && FileCategory(contents[f]).Some?
      ensures FileCategory(contents[f]).value in values
    {
      CategoryValuesFromFiles(posts, contents, FileCategory(contents[f]).value);
    }
  }

  /**
   * When the directory can be listed, the tags are one record per distinct
   * declared tag: every name is declared by a readable post file, no name
   * twice, and `id` and `slug` are both the normalized name.
   */
  lemma TagsAreDeclared(names: seq<string>, contents: map<string, string>)
    ensures var ts := Tags(Some(names), contents);
      (forall k | 0 <= k < |ts| ::
        ts[k].id == ts[k].slug == Normalize(ts[k].name) &&
        exists f | f in PostFiles(names) :: f in contents && ts[k].name in FileTags(contents[f])) &&
      (forall i, j | 0 <= i < j < |ts| :: ts[i].name != ts[j].name)
  {
    var posts := PostFiles(names);
    var values := TagValues(posts, contents);
    var ts := Tags(Some(names), contents);
    assert ts == Records(Dedup(values));
    RecordsOfValues(values);
    forall k | 0 <= k < |ts|
      ensures exists f | f in posts :: f in contents && ts[k].name in FileTags(contents[f])
    {
      TagValuesFromFiles(posts, contents, ts[k].name);
    }
  }

  /** Every tag a readable post file declares is among the tags. */
  lemma DeclaredTagsListed(names: seq<string>, contents: map<string, string>, f: string, t: string)
    requires f in PostFiles(names) && f in contents && t in FileTags(contents[f])
    ensures exists k | 0 <= k < |Tags(Some(names), contents)| :: Tags(Some(names), contents)[k].name == t
  {
    var posts := PostFiles(names);
    var values := TagValues(posts, contents);
    assert Tags(Some(names), contents) == Records(Dedup(values));
    TagValuesFromFiles(posts, contents, t);
    RecordsOfValues(values);
  }

  /** Only post files are read: what any other file holds changes neither vocabulary. */
  lemma OnlyPostFilesRead(files: Option<seq<string>>, contents: map<string, string>, f: string, text: string)
    requires !IsPostFile(f)
    ensures Categories(files, contents[f := text]) == Categories(files, contents)
    ensures Tags(files, contents[f := text]) == Tags(files, contents)
  {
    if files.Some? {
      ValuesIgnoreOtherFiles(PostFiles(files.value), contents, f, text);
    }
  }
}
