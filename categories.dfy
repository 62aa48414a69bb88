/** The category pages (main/views.py): CATEGORY_SLUG_MAP from URL slugs to
    category names, REVERSE_CATEGORY_SLUG_MAP from lowercased names back to
    slugs, the lookup of articles_by_category and the category link of
    article_detail. A Python dict literal or dict comprehension is built
    item by item, a later entry for the same key replacing an earlier one;
    MapOf and ReverseOf are those folds. */
module Categories {
  import opened Wrappers
  import opened Text

  /** The items of CATEGORY_SLUG_MAP, in order: (slug, name). */
  const CategoryItems: seq<(string, string)> := [
    ("abudhabi", "Abu Dhabi"),
    ("dubai", "Dubai"),
    ("istanbul", "Istanbul"),
    ("almaty", "Almaty"),
    ("burabay", "Burabay")
  ]

  /** `dict(items)`: every slug becomes a key, and the last item for a
      key wins. */
  function MapOf(items: seq<(string, string)>): (r: map<string, string>)
    ensures forall i | 0 <= i < |items| :: items[i].0 in r
    ensures items != [] ==> r[items[|items| - 1].0] == items[|items| - 1].1
  {
    if items == [] then map[]
    else
      var last := items[|items| - 1];
      MapOf(items[..|items| - 1])[last.0 := last.1]
  }

  /** `{v.lower(): k for k, v in items}`: every lowercased name becomes
      a key, and the last item for a name wins. */
  function ReverseOf(items: seq<(string, string)>): (r: map<string, string>)
    ensures forall i | 0 <= i < |items| :: Lower(items[i].1) in r
    ensures items != [] ==> r[Lower(items[|items| - 1].1)] == items[|items| - 1].0
  {
    if items == [] then map[]
    else
      var last := items[|items| - 1];
      ReverseOf(items[..|items| - 1])[Lower(last.1) := last.0]
  }

  /** Last wins, for every key: an item that no later item overrides
      gives the value at its slug. */
  lemma {:induction false} MapOfLastWins(items: seq<(string, string)>, i: nat)
    requires i < |items| && forall j | i < j < |items| :: items[j].0 != items[i].0
    ensures items[i].0 in MapOf(items) && MapOf(items)[items[i].0] == items[i].1
  {
    if i < |items| - 1 {
      var init := items[..|items| - 1];
      assert init[i] == items[i];
      MapOfLastWins(init, i);
    }
  }

  /** Last wins for the comprehension too: an item whose lowercased name no
      later item repeats gives the slug at that name. */
  lemma {:induction false} ReverseOfLastWins(items: seq<(string, string)>, i: nat)
    requires i < |items| && forall j | i < j < |items| :: Lower(items[j].1) != Lower(items[i].1)
    ensures Lower(items[i].1) in ReverseOf(items) && ReverseOf(items)[Lower(items[i].1)] == items[i].0
  {
    if i < |items| - 1 {
      var init := items[..|items| - 1];
      assert init[i] == items[i];
      ReverseOfLastWins(init, i);
    }
  }

  const CategorySlugMap: map<string, string> := MapOf(CategoryItems)

  const ReverseCategorySlugMap: map<string, string> := ReverseOf(CategoryItems)

  // ---------------------------------------------------------------------
  // The reverse map inverts the slug map
  // ---------------------------------------------------------------------

  /** No two items share a slug. */
  predicate DistinctSlugs(items: seq<(string, string)>) {
    forall i, j :: 0 <= i < j < |items| ==> items[i].0 != items[j].0
  }

  /** No two names are equal once lowercased. */
  predicate DistinctNames(items: seq<(string, string)>) {
    forall i, j :: 0 <= i < j < |items| ==> Lower(items[i].1) != Lower(items[j].1)
  }

  /** `r` sends the lowercased name of every entry of `m` back to its key,
      and every key of `r` is such a lowercased name. */
  predicate Inverse(m: map<string, string>, r: map<string, string>) {
    (forall k | k in m :: Lower(m[k]) in r && r[Lower(m[k])] == k)
    && (forall v | v in r :: r[v] in m && Lower(m[r[v]]) == v)
  }

  /** Every key of the folded map comes from an item, and maps to that
      item's name. */
  lemma {:induction false} MapOfKeys(items: seq<(string, string)>)
    ensures forall k | k in MapOf(items) :: exists i :: 0 <= i < |items| && items[i].0 == k && MapOf(items)[k] == items[i].1
  {
    if items != [] {
      var init := items[..|items| - 1];
      MapOfKeys(init);
      assert forall i :: 0 <= i < |init| ==> init[i] == items[i];
    }
  }

  /** Every key of the folded reverse map is an item's lowercased name. */
  lemma {:induction false} ReverseOfKeys(items: seq<(string, string)>)
    ensures forall v | v in ReverseOf(items) :: exists i :: 0 <= i < |items| && Lower(items[i].1) == v
  {
    if items != [] {
      var init := items[..|items| - 1];
      ReverseOfKeys(init);
      assert forall i :: 0 <= i < |init| ==> init[i] == items[i];
    }
  }

  /** Adding a fresh key and its fresh lowercased name keeps two maps
      inverse to each other. */
  lemma InverseExtend(m: map<string, string>, r: map<string, string>, k: string, v: string)
    requires Inverse(m, r) && k !in m && Lower(v) !in r
    ensures Inverse(m[k := v], r[Lower(v) := k])
  {
    var m', r' := m[k := v], r[Lower(v) := k];
    forall x | x in m' ensures Lower(m'[x]) in r' && r'[Lower(m'[x])] == x {
      if x != k {
        assert Lower(m[x]) in r && r[Lower(m[x])] == x;
      }
    }
    forall y | y in r' ensures r'[y] in m' && Lower(m'[r'[y]]) == y {
      if y != Lower(v) {
        assert r[y] in m && Lower(m[r[y]]) == y;
      }
    }
  }

  /** With distinct slugs and distinct lowercased names, the reverse fold
      inverts the forward fold in both directions. */
  lemma {:induction false} FoldsInverse(items: seq<(string, string)>)
    requires DistinctSlugs(items) && DistinctNames(items)
    ensures Inverse(MapOf(items), ReverseOf(items))
  {
    if items != [] {
      var init := items[..|items| - 1];
      var last := items[|items| - 1];
      assert forall i :: 0 <= i < |init| ==> init[i] == items[i];
      FoldsInverse(init);
      MapOfKeys(init);
      ReverseOfKeys(init);
      InverseExtend(MapOf(init), ReverseOf(init), last.0, last.1);
    }
  }

  /** The slugs of CATEGORY_SLUG_MAP differ, and so do its lowercased
      names. */
  lemma CategoryItemsDistinct()
    ensures DistinctSlugs(CategoryItems) && DistinctNames(CategoryItems)
  {
    var items := CategoryItems;
    forall i, j | 0 <= i < j < |items| ensures items[i].0 != items[j].0 {
      assert items[i].0[0] != items[j].0[0] || |items[i].0| != |items[j].0| by {
        assert i == 0 || i == 1 || i == 2 || i == 3;
        assert j == 1 || j == 2 || j == 3 || j == 4;
      }
    }
    forall i, j | 0 <= i < j < |items| ensures Lower(items[i].1) != Lower(items[j].1) {
      assert |items[i].1| != |items[j].1| by {
        assert i == 0 || i == 1 || i == 2 || i == 3;
        assert j == 1 || j == 2 || j == 3 || j == 4;
      }
    }
  }

  /** The two constant maps invert each other: for every slug `k`,
      `REVERSE[MAP[k].lower()] == k`, and every key of the reverse map is
      the lowercased name of the category it points to. */
  lemma ReverseMapInverts()
    ensures Inverse(CategorySlugMap, ReverseCategorySlugMap)
  {
    CategoryItemsDistinct();
    FoldsInverse(CategoryItems);
  }

  /** The slugs are lowercase and the names have no surrounding
      whitespace. */
  lemma CategoryEntriesNormal()
    ensures forall k | k in CategorySlugMap :: Lower(k) == k && CategorySlugMap[k] != [] && IsStripped(CategorySlugMap[k])
  {
    MapOfKeys(CategoryItems);
    forall k | k in CategorySlugMap
      ensures Lower(k) == k && CategorySlugMap[k] != [] && IsStripped(CategorySlugMap[k])
    {
      var i :| 0 <= i < |CategoryItems| && CategoryItems[i].0 == k && CategorySlugMap[k] == CategoryItems[i].1;
      LowerFixed(CategoryItems[i].0);
      CategoryNameNormal(i);
    }
  }

  lemma CategoryNameNormal(i: nat)
    requires i < |CategoryItems|
    ensures CategoryItems[i].1 != [] && IsStripped(CategoryItems[i].1)
  {
  }

  // ---------------------------------------------------------------------
  // Lookups
  // ---------------------------------------------------------------------

  datatype CategoryError = CategoryNotFound

  /** articles_by_category: the slug from the URL is lowercased and looked
      up; an unknown slug (or an empty name) is a 404. */
  function CategoryName(slug: string): (r: Result<string, CategoryError>)
    ensures r.Ok? ==> Lower(slug) in CategorySlugMap && r.value == CategorySlugMap[Lower(slug)]
    ensures r.Err? ==> Lower(slug) !in CategorySlugMap || CategorySlugMap[Lower(slug)] == []
  {
    var key := Lower(slug);
    if key in CategorySlugMap && CategorySlugMap[key] != [] then Ok(CategorySlugMap[key])
    else Err(CategoryNotFound)
  }

  /** article_detail's category slug: for a category that is not blank,
      the reverse map is consulted with the stripped, lowercased category;
      a blank category, or one the map does not know, gives no slug. A
      slug that is found belongs to a category whose name matches the
      article's category up to case and surrounding whitespace. */
  function DetailCategorySlug(category: string): (r: Option<string>)
    ensures r.Some? ==> r.value in CategorySlugMap && Lower(CategorySlugMap[r.value]) == Lower(Strip(category))
    ensures r.None? <==> AllSpace(category) || Lower(Strip(category)) !in ReverseCategorySlugMap
  {
    if category != [] && Strip(category) != [] then
      var key := Lower(Strip(category));
      ReverseMapInverts();
      if key in ReverseCategorySlugMap then Some(ReverseCategorySlugMap[key]) else None
    else None
  }

  /** Every slug of the map opens its category page. */
  lemma KnownSlugFound(k: string)
    requires k in CategorySlugMap
    ensures CategoryName(k) == Ok(CategorySlugMap[k])
  {
    CategoryEntriesNormal();
  }

  /** The lookup ignores the case of the slug. */
  lemma CategoryNameCaseInsensitive(slug: string)
    ensures CategoryName(slug) == CategoryName(Lower(slug))
  {
    LowerIdempotent(slug);
  }

  /** An article filed under a category's exact name links to that
      category's slug. */
  lemma DetailLinksToCategory(k: string)
    requires k in CategorySlugMap
    ensures DetailCategorySlug(CategorySlugMap[k]) == Some(k)
  {
    CategoryEntriesNormal();
    ReverseMapInverts();
    StripStripped(CategorySlugMap[k]);
  }

  /** Round trip: the category page reached through a slug names a
      category whose detail link is that slug, lowercased. */
  lemma CategoryRoundTrip(slug: string)
    requires CategoryName(slug).Ok?
    ensures DetailCategorySlug(CategoryName(slug).value) == Some(Lower(slug))
  {
    DetailLinksToCategory(Lower(slug));
  }
}
