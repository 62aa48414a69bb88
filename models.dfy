/** The two models of main/models.py: an Article, whose save() fills in a
    unique slug and a category slug, and an ArticleImage row with its
    orientation. `slugify` and `unidecode` are library calls whose
    behaviour is not modelled: they are passed in as functions. */
module Models {
  import opened Text

  // ---------------------------------------------------------------------
  // ArticleImage
  // ---------------------------------------------------------------------

  /** ArticleImage.ORIENTATION_CHOICES: (stored value, label) pairs. */
  const OrientationChoices: seq<(string, string)> :=
    [("horizontal", "Horizontal"), ("vertical", "Vertical")]

  /** What the `orientation` field (choices, blank=True) admits: the stored
      value of one of the choices, or the empty string. */
  predicate IsOrientationValue(v: string) {
    v == [] || exists k :: 0 <= k < |OrientationChoices| && OrientationChoices[k].0 == v
  }

  /** An ArticleImage row: the article it belongs to (the `article`
      foreign key, an object reference), the stored image path (relative to
      the media root) and the orientation value. */
  datatype ArticleImage = ArticleImage(article: Article, image: string, orientation: string)

  // ---------------------------------------------------------------------
  // Slug generation
  // ---------------------------------------------------------------------

  /** The slug tried after `num` collisions: `base` itself first, then
      `f"{base}-{num}"`. Every candidate starts with `base`, only the first
      is `base` itself, and a later one goes on with a dash and the number;
      CandidateInjective shows that the number tells them apart. */
  function Candidate(base: string, num: nat): (r: string)
    ensures |base| <= |r| && r[..|base|] == base
    ensures r == base <==> num == 0
    ensures num > 0 ==> |r| > |base| + 1 && r[|base|] == '-'
  {
    if num == 0 then base
    else base + "-" + DecimalString(num)
  }

  /** No two attempts of the loop try the same slug. */
  lemma CandidateInjective(base: string, j: nat, k: nat)
    ensures Candidate(base, j) == Candidate(base, k) <==> j == k
  {
    if j != 0 && k != 0 && Candidate(base, j) == Candidate(base, k) {
      var prefix := |base| + 1;
      assert Candidate(base, j)[prefix..] == DecimalString(j);
      assert Candidate(base, k)[prefix..] == DecimalString(k);
      DecimalStringInjective(j, k);
    }
  }

  /** The first `n` candidates, as a set. */
  function Candidates(base: string, n: nat): set<string> {
    if n == 0 then {} else Candidates(base, n - 1) + {Candidate(base, n - 1)}
  }

  /** The slug tried at attempt `m` is none of those tried before. */
  lemma {:induction false} NotAmongEarlier(base: string, m: nat, n: nat)
    requires n <= m
    ensures Candidate(base, m) !in Candidates(base, n)
  {
    if n > 0 {
      NotAmongEarlier(base, m, n - 1);
      CandidateInjective(base, m, n - 1);
    }
  }

  /** Each of the first `n` candidates is a different slug. */
  lemma {:induction false} CandidatesCount(base: string, n: nat)
    ensures |Candidates(base, n)| == n
  {
    if n > 0 {
      CandidatesCount(base, n - 1);
      NotAmongEarlier(base, n - 1, n - 1);
    }
  }

  /** When each of the first `n` candidates is taken, so is their set. */
  lemma {:induction false} CandidatesWithin(base: string, taken: set<string>, n: nat)
    requires forall j :: 0 <= j < n ==> Candidate(base, j) in taken
    ensures Candidates(base, n) <= taken
  {
    if n > 0 {
      CandidatesWithin(base, taken, n - 1);
    }
  }

  /** If the first `n` candidates are all taken, there are at least `n`
      taken slugs: the collision loop cannot run more often than there are
      slugs in the table. */
  lemma TakenBound(base: string, taken: set<string>, n: nat)
    requires forall j :: 0 <= j < n ==> Candidate(base, j) in taken
    ensures n <= |taken|
  {
    CandidatesCount(base, n);
    CandidatesWithin(base, taken, n);
    var tried := Candidates(base, n);
    assert taken == tried + (taken - tried);
  }

  /** The collision loop of Article.save: try `base`, `base-1`, `base-2`,
      ... until a slug is found that no row holds. The result is not taken,
      and it is the first candidate that is not taken. */
  method UniqueSlug(base: string, taken: set<string>) returns (slug: string)
    ensures slug !in taken
    ensures exists k: nat :: slug == Candidate(base, k) && forall j :: 0 <= j < k ==> Candidate(base, j) in taken
  {
    slug := base;
    var num := 1;
    while slug in taken
      invariant 1 <= num <= |taken| + 1
      invariant slug == Candidate(base, num - 1)
      invariant forall j :: 0 <= j < num - 1 ==> Candidate(base, j) in taken
      decreases |taken| - (num - 1)
    {
      TakenBound(base, taken, num);
      slug := base + "-" + DecimalString(num);
      num := num + 1;
    }
  }

  // ---------------------------------------------------------------------
  // Article
  // ---------------------------------------------------------------------

  /** An Article row, with the fields save() reads or writes and the text
      the detail page renders. */
  class Article {
    var title: string
    var slug: string
    var content: string
    var letter: string
    var category: string
    var categoryEn: string
    var categorySlug: string

    /** An unsaved article as the form builds it; `category_en` and
        `category_slug` start blank. */
    constructor (title: string, slug: string, content: string, letter: string, category: string)
      ensures this.title == title && this.slug == slug && this.content == content
      ensures this.letter == letter && this.category == category
      ensures categoryEn == [] && categorySlug == []
    {
      this.title := title;
      this.slug := slug;
      this.content := content;
      this.letter := letter;
      this.category := category;
      categoryEn := [];
      categorySlug := [];
    }

    /** Article.save before the row is written. `taken` holds the slugs
        the table already has. A blank slug is replaced by the first of
        `slugify(title)`, `slugify(title)-1`, ... that no row holds; a slug
        already set is kept. The category slug comes from `category_en`
        when that is set, else from the transliterated `category`, and is
        otherwise left as it was. */
    method Save(taken: set<string>, slugify: (string, bool) -> string, unidecode: string -> string)
      modifies this
      ensures old(slug) != [] ==> slug == old(slug)
      ensures old(slug) == [] ==> slug !in taken
      ensures old(slug) == [] ==> exists k: nat ::
        slug == Candidate(slugify(title, true), k) &&
        forall j :: 0 <= j < k ==> Candidate(slugify(title, true), j) in taken
      ensures categorySlug ==
        if categoryEn != [] then slugify(Strip(categoryEn), false)
        else if category != [] then slugify(unidecode(Strip(category)), false)
        else old(categorySlug)
      ensures title == old(title) && content == old(content) && letter == old(letter)
      ensures category == old(category) && categoryEn == old(categoryEn)
    {
      // The base slug as a value of the initial state: after the field
      // updates below, the verifier no longer connects the slug-existence
      // postcondition to `slugify(title, true)` without this anchor.
      ghost var titleSlug := slugify(title, true);
      if slug == [] {
        var baseSlug := slugify(title, true);
        slug := UniqueSlug(baseSlug, taken);
      }
      if categoryEn != [] {
        categorySlug := slugify(Strip(categoryEn), false);
      } else if category != [] {
        categorySlug := slugify(unidecode(Strip(category)), false);
      }
      assert slugify(title, true) == titleSlug;
    }
  }
}
