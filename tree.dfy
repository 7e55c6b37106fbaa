/** What `to_html!` reads from the Zendesk API and what it keeps in
    `raw_data`: categories holding sections holding articles, each numbered,
    each with the `backup_path` of its `index.html`. */
module Tree {
  import opened Wrappers
  import opened Naming
  import opened Links
  import opened Seqs

  /** The API's resources as the exporter reads them.  A listing that is
      `None` is one whose request raised (`api` returned nil) or came back
      with a status other than 200 (`api_error?`). */
  datatype ApiAttachment = ApiAttachment(id: nat, fileName: string, contentUrl: string)
  datatype ApiArticle = ApiArticle(id: nat, name: string, body: Body, attachments: Option<seq<ApiAttachment>>)
  datatype ApiSection = ApiSection(id: nat, name: string, articles: Option<seq<ApiArticle>>)
  datatype ApiCategory = ApiCategory(id: nat, name: string, sections: Option<seq<ApiSection>>)

  /** The records of `raw_data`, with the numbered name and `backup_path`. */
  datatype Article = Article(id: nat, name: string, backupPath: string, body: Body, attachments: seq<ApiAttachment>)
  datatype Section = Section(id: nat, name: string, backupPath: string, articles: seq<Article>)
  datatype Category = Category(id: nat, name: string, backupPath: string, sections: seq<Section>)

  function Listed<T>(o: Option<T>): seq<T> {
    match o
    case None => []
    case Some(x) => [x]
  }

  // ---------------------------------------------------------------------
  // Numbering (lines 87, 99, 111)

  /** The 1-based position `index+1` of an `each_with_index`. */
  function Ordinal(i: nat): string {
    NatToString(i + 1)
  }

  function CategoryLabel(ci: nat, name: string): string {
    Ordinal(ci) + ". " + name
  }

  function SectionLabel(ci: nat, si: nat, name: string): string {
    Ordinal(ci) + "-" + Ordinal(si) + ". " + name
  }

  function ArticleLabel(ci: nat, si: nat, ai: nat, name: string): string {
    Ordinal(ci) + "-" + Ordinal(si) + "-" + Ordinal(ai) + ". " + name
  }

  function CategoryResource(ci: nat, c: ApiCategory): Resource {
    Resource(c.id, CategoryLabel(ci, c.name))
  }

  function SectionResource(ci: nat, si: nat, s: ApiSection): Resource {
    Resource(s.id, SectionLabel(ci, si, s.name))
  }

  function ArticleResource(ci: nat, si: nat, ai: nat, a: ApiArticle): Resource {
    Resource(a.id, ArticleLabel(ci, si, ai, a.name))
  }

  /** `"#{dir_path(...)}index.html"` (lines 91, 103, 115). */
  function IndexFile(t: OutputType, chain: seq<Resource>): string {
    DirString(t, chain) + "index.html"
  }

  // ---------------------------------------------------------------------
  // The records `to_html!` keeps (lines 86-135)

  /** An article is kept when its attachment listing came back. */
  function ExportArticle(t: OutputType, cr: Resource, sr: Resource, ci: nat, si: nat, ai: nat,
                         a: ApiArticle): Option<Article>
  {
    match a.attachments
    case None => None
    case Some(atts) =>
      var ar := ArticleResource(ci, si, ai, a);
      Some(Article(a.id, ar.name, IndexFile(t, [cr, sr, ar]), a.body, atts))
  }

  /** The `section[:articles]` of one section: the kept articles, numbered by
      their position in the listing. */
  function CollectArticles(t: OutputType, cr: Resource, sr: Resource, ci: nat, si: nat,
                           arts: seq<ApiArticle>): (r: seq<Article>)
    ensures |r| <= |arts|
    ensures forall a :: a in r ==>
              exists k :: 0 <= k < |arts| && ExportArticle(t, cr, sr, ci, si, k, arts[k]) == Some(a)
    decreases |arts|
  {
    if arts == [] then []
    else
      var k := |arts| - 1;
      var prev := CollectArticles(t, cr, sr, ci, si, arts[..k]);
      assert forall j :: 0 <= j < k ==> arts[..k][j] == arts[j];
      prev + Listed(ExportArticle(t, cr, sr, ci, si, k, arts[k]))
  }

  /** An article whose attachment listing came back is kept. */
  lemma {:induction false} CollectArticlesComplete(t: OutputType, cr: Resource, sr: Resource, ci: nat, si: nat,
                                                    arts: seq<ApiArticle>, k: nat)
    requires k < |arts| && arts[k].attachments.Some?
    ensures ExportArticle(t, cr, sr, ci, si, k, arts[k]).value in CollectArticles(t, cr, sr, ci, si, arts)
    decreases |arts|
  {
    var n := |arts| - 1;
    var prev := CollectArticles(t, cr, sr, ci, si, arts[..n]);
    var last := Listed(ExportArticle(t, cr, sr, ci, si, n, arts[n]));
    assert CollectArticles(t, cr, sr, ci, si, arts) == prev + last;
    if k < n {
      assert arts[..n][k] == arts[k];
      CollectArticlesComplete(t, cr, sr, ci, si, arts[..n], k);
      var x := ExportArticle(t, cr, sr, ci, si, k, arts[k]).value;
      assert x in prev;
      assert x in prev + last;
    } else {
      assert k == n;
      var e := ExportArticle(t, cr, sr, ci, si, n, arts[n]);
      assert e.Some?;
      assert last == [e.value];
      assert (prev + last)[|prev|] == e.value;
    }
  }

  /** The kept articles of a listing grow by the `k`-th article's record. */
  lemma CollectArticlesStep(t: OutputType, cr: Resource, sr: Resource, ci: nat, si: nat,
                            arts: seq<ApiArticle>, k: nat)
    requires k < |arts|
    ensures CollectArticles(t, cr, sr, ci, si, arts[..k + 1]) ==
            CollectArticles(t, cr, sr, ci, si, arts[..k]) + Listed(ExportArticle(t, cr, sr, ci, si, k, arts[k]))
  {
    TakeStep(arts, k);
  }

  /** A section is kept when its article listing came back. */
  function ExportSection(t: OutputType, cr: Resource, ci: nat, si: nat, s: ApiSection): Option<Section> {
    match s.articles
    case None => None
    case Some(arts) =>
      var sr := SectionResource(ci, si, s);
      Some(Section(s.id, sr.name, IndexFile(t, [cr, sr]), CollectArticles(t, cr, sr, ci, si, arts)))
  }

  function CollectSections(t: OutputType, cr: Resource, ci: nat, secs: seq<ApiSection>): (r: seq<Section>)
    ensures |r| <= |secs|
    ensures forall s :: s in r ==>
              exists k :: 0 <= k < |secs| && ExportSection(t, cr, ci, k, secs[k]) == Some(s)
    decreases |secs|
  {
    if secs == [] then []
    else
      var k := |secs| - 1;
      var prev := CollectSections(t, cr, ci, secs[..k]);
      assert forall j :: 0 <= j < k ==> secs[..k][j] == secs[j];
      prev + Listed(ExportSection(t, cr, ci, k, secs[k]))
  }

  /** A section whose article listing came back is kept. */
  lemma {:induction false} CollectSectionsComplete(t: OutputType, cr: Resource, ci: nat, secs: seq<ApiSection>,
                                                    k: nat)
    requires k < |secs| && secs[k].articles.Some?
    ensures ExportSection(t, cr, ci, k, secs[k]).value in CollectSections(t, cr, ci, secs)
    decreases |secs|
  {
    var n := |secs| - 1;
    var prev := CollectSections(t, cr, ci, secs[..n]);
    var last := Listed(ExportSection(t, cr, ci, n, secs[n]));
    assert CollectSections(t, cr, ci, secs) == prev + last;
    if k < n {
      assert secs[..n][k] == secs[k];
      CollectSectionsComplete(t, cr, ci, secs[..n], k);
      var x := ExportSection(t, cr, ci, k, secs[k]).value;
      assert x in prev;
      assert x in prev + last;
    } else {
      assert k == n;
      var e := ExportSection(t, cr, ci, n, secs[n]);
      assert e.Some?;
      assert last == [e.value];
      assert (prev + last)[|prev|] == e.value;
    }
  }

  /** The kept sections of a listing grow by the `k`-th section's record. */
  lemma CollectSectionsStep(t: OutputType, cr: Resource, ci: nat, secs: seq<ApiSection>, k: nat)
    requires k < |secs|
    ensures CollectSections(t, cr, ci, secs[..k + 1]) ==
            CollectSections(t, cr, ci, secs[..k]) + Listed(ExportSection(t, cr, ci, k, secs[k]))
  {
    TakeStep(secs, k);
  }

  /** A category is kept when its section listing came back. */
  function ExportCategory(t: OutputType, ci: nat, c: ApiCategory): Option<Category> {
    match c.sections
    case None => None
    case Some(secs) =>
      var cr := CategoryResource(ci, c);
      Some(Category(c.id, cr.name, IndexFile(t, [cr]), CollectSections(t, cr, ci, secs)))
  }

  function CollectCategories(t: OutputType, cats: seq<ApiCategory>): (r: seq<Category>)
    ensures |r| <= |cats|
    ensures forall c :: c in r ==>
              exists k :: 0 <= k < |cats| && ExportCategory(t, k, cats[k]) == Some(c)
    decreases |cats|
  {
    if cats == [] then []
    else
      var k := |cats| - 1;
      var prev := CollectCategories(t, cats[..k]);
      assert forall j :: 0 <= j < k ==> cats[..k][j] == cats[j];
      prev + Listed(ExportCategory(t, k, cats[k]))
  }

  /** A category whose section listing came back is kept. */
  lemma {:induction false} CollectCategoriesComplete(t: OutputType, cats: seq<ApiCategory>, k: nat)
    requires k < |cats| && cats[k].sections.Some?
    ensures ExportCategory(t, k, cats[k]).value in CollectCategories(t, cats)
    decreases |cats|
  {
    var n := |cats| - 1;
    var prev := CollectCategories(t, cats[..n]);
    var last := Listed(ExportCategory(t, n, cats[n]));
    assert CollectCategories(t, cats) == prev + last;
    if k < n {
      assert cats[..n][k] == cats[k];
      CollectCategoriesComplete(t, cats[..n], k);
      var x := ExportCategory(t, k, cats[k]).value;
      assert x in prev;
      assert x in prev + last;
    } else {
      assert k == n;
      var e := ExportCategory(t, n, cats[n]);
      assert e.Some?;
      assert last == [e.value];
      assert (prev + last)[|prev|] == e.value;
    }
  }

  /** The kept categories grow by the `k`-th category's record. */
  lemma CollectCategoriesStep(t: OutputType, cats: seq<ApiCategory>, k: nat)
    requires k < |cats|
    ensures CollectCategories(t, cats[..k + 1]) == CollectCategories(t, cats[..k]) + Listed(ExportCategory(t, k, cats[k]))
  {
    TakeStep(cats, k);
  }

  /** Everything phase one of `to_html!` appends to `raw_data`; nothing when
      the category listing fails (line 84). */
  function Collected(t: OutputType, api: Option<seq<ApiCategory>>): seq<Category> {
    match api
    case None => []
    case Some(cats) => CollectCategories(t, cats)
  }

  // ---------------------------------------------------------------------
  // Every record's backup_path is the index file of its own chain

  predicate ArticleAt(t: OutputType, cr: Resource, sr: Resource, a: Article) {
    a.backupPath == IndexFile(t, [cr, sr, Resource(a.id, a.name)])
  }

  predicate SectionAt(t: OutputType, cr: Resource, s: Section) {
    var sr := Resource(s.id, s.name);
    s.backupPath == IndexFile(t, [cr, sr]) &&
    forall a :: a in s.articles ==> ArticleAt(t, cr, sr, a)
  }

  predicate CategoryAt(t: OutputType, c: Category) {
    var cr := Resource(c.id, c.name);
    c.backupPath == IndexFile(t, [cr]) &&
    forall s :: s in c.sections ==> SectionAt(t, cr, s)
  }

  /** The records name their own directories: each `backup_path` is the
      `index.html` under the path of its category, section and article. */
  predicate Placed(t: OutputType, cats: seq<Category>) {
    forall c :: c in cats ==> CategoryAt(t, c)
  }

  lemma ExportSectionPlaced(t: OutputType, cr: Resource, ci: nat, si: nat, s: ApiSection)
    requires s.articles.Some?
    ensures SectionAt(t, cr, ExportSection(t, cr, ci, si, s).value)
  {
    var sr := SectionResource(ci, si, s);
    var x := ExportSection(t, cr, ci, si, s).value;
    var arts := s.articles.value;
    assert Resource(x.id, x.name) == sr;
    assert x.articles == CollectArticles(t, cr, sr, ci, si, arts);
    forall a | a in x.articles ensures ArticleAt(t, cr, sr, a) {
      var k :| 0 <= k < |arts| && ExportArticle(t, cr, sr, ci, si, k, arts[k]) == Some(a);
      assert Resource(a.id, a.name) == ArticleResource(ci, si, k, arts[k]);
    }
  }

  lemma ExportCategoryPlaced(t: OutputType, ci: nat, c: ApiCategory)
    requires c.sections.Some?
    ensures CategoryAt(t, ExportCategory(t, ci, c).value)
  {
    var cr := CategoryResource(ci, c);
    var x := ExportCategory(t, ci, c).value;
    var secs := c.sections.value;
    assert Resource(x.id, x.name) == cr;
    assert x.sections == CollectSections(t, cr, ci, secs);
    forall s | s in x.sections ensures SectionAt(t, cr, s) {
      var k :| 0 <= k < |secs| && ExportSection(t, cr, ci, k, secs[k]) == Some(s);
      ExportSectionPlaced(t, cr, ci, k, secs[k]);
    }
  }

  /** Everything `to_html!` records is placed where `dir_path` put it. */
  lemma CollectedPlaced(t: OutputType, api: Option<seq<ApiCategory>>)
    ensures Placed(t, Collected(t, api))
  {
    if api.Some? {
      var cats := api.value;
      forall c | c in CollectCategories(t, cats) ensures CategoryAt(t, c) {
        var k :| 0 <= k < |cats| && ExportCategory(t, k, cats[k]) == Some(c);
        ExportCategoryPlaced(t, k, cats[k]);
      }
    }
  }

  /** Numbering follows the position in the API listing, so a category whose
      section listing failed leaves a gap: the next one keeps its own ordinal. */
  lemma OrdinalGap(t: OutputType, first: ApiCategory, second: ApiCategory)
    requires first.sections.None? && second.sections.Some?
    ensures var kept := CollectCategories(t, [first, second]);
            |kept| == 1 && kept[0].id == second.id && kept[0].name == "2. " + second.name
  {
    var cats := [first, second];
    TakeEnds(cats);
    CollectCategoriesStep(t, cats, 0);
    CollectCategoriesStep(t, cats, 1);
    assert CollectCategories(t, cats[..1]) == [];
    var e := ExportCategory(t, 1, second);
    assert Ordinal(1) == "2";
    assert "2" + ". " == "2. ";
    assert e.value.name == "2. " + second.name;
    assert CollectCategories(t, cats) == [e.value];
  }

  // ---------------------------------------------------------------------
  // The lookup index of convert_body

  function CategoryRefs(cats: seq<Category>): (r: seq<Ref>)
    ensures |r| == |cats|
  {
    seq(|cats|, i requires 0 <= i < |cats| => Ref(NatToString(cats[i].id), cats[i].backupPath))
  }

  function SectionRefsOf(c: Category): (r: seq<Ref>)
    ensures |r| == |c.sections|
  {
    seq(|c.sections|, i requires 0 <= i < |c.sections| =>
      Ref(NatToString(c.sections[i].id), c.sections[i].backupPath))
  }

  function ArticleRefsOf(s: Section): (r: seq<Ref>)
    ensures |r| == |s.articles|
  {
    seq(|s.articles|, i requires 0 <= i < |s.articles| =>
      Ref(NatToString(s.articles[i].id), s.articles[i].backupPath))
  }

  /** The sections of all categories, in traversal order. */
  function SectionRefs(cats: seq<Category>): seq<Ref>
    decreases |cats|
  {
    if cats == [] then [] else SectionRefs(cats[..|cats| - 1]) + SectionRefsOf(cats[|cats| - 1])
  }

  /** The articles of all sections of one category. */
  function ArticleRefsIn(secs: seq<Section>): seq<Ref>
    decreases |secs|
  {
    if secs == [] then [] else ArticleRefsIn(secs[..|secs| - 1]) + ArticleRefsOf(secs[|secs| - 1])
  }

  function ArticleRefs(cats: seq<Category>): seq<Ref>
    decreases |cats|
  {
    if cats == [] then [] else ArticleRefs(cats[..|cats| - 1]) + ArticleRefsIn(cats[|cats| - 1].sections)
  }

  function IndexOf(cats: seq<Category>): Index {
    Index(CategoryRefs(cats), SectionRefs(cats), ArticleRefs(cats))
  }

  lemma {:induction false} SectionRefsAppend(a: seq<Category>, b: seq<Category>)
    ensures SectionRefs(a + b) == SectionRefs(a) + SectionRefs(b)
    decreases |b|
  {
    if b == [] {
      AppendEmpty(a);
    } else {
      var k := |b| - 1;
      AppendInit(a, b);
      SectionRefsAppend(a, b[..k]);
      AppendAssoc(SectionRefs(a), SectionRefs(b[..k]), SectionRefsOf(b[k]));
    }
  }

  lemma {:induction false} ArticleRefsInAppend(a: seq<Section>, b: seq<Section>)
    ensures ArticleRefsIn(a + b) == ArticleRefsIn(a) + ArticleRefsIn(b)
    decreases |b|
  {
    if b == [] {
      AppendEmpty(a);
    } else {
      var k := |b| - 1;
      AppendInit(a, b);
      ArticleRefsInAppend(a, b[..k]);
      AppendAssoc(ArticleRefsIn(a), ArticleRefsIn(b[..k]), ArticleRefsOf(b[k]));
    }
  }

  lemma {:induction false} ArticleRefsAppend(a: seq<Category>, b: seq<Category>)
    ensures ArticleRefs(a + b) == ArticleRefs(a) + ArticleRefs(b)
    decreases |b|
  {
    if b == [] {
      AppendEmpty(a);
    } else {
      var k := |b| - 1;
      AppendInit(a, b);
      ArticleRefsAppend(a, b[..k]);
      AppendAssoc(ArticleRefs(a), ArticleRefs(b[..k]), ArticleRefsIn(b[k].sections));
    }
  }

  /** The references split around the `k`-th category or section. */
  lemma SectionRefsStep(cats: seq<Category>, k: nat)
    requires k < |cats|
    ensures SectionRefs(cats[..k + 1]) == SectionRefs(cats[..k]) + SectionRefsOf(cats[k])
  {
    TakeStep(cats, k);
  }

  lemma SectionRefsRest(cats: seq<Category>, k: nat)
    requires k <= |cats|
    ensures SectionRefs(cats) == SectionRefs(cats[..k]) + SectionRefs(cats[k..])
  {
    SectionRefsAppend(cats[..k], cats[k..]);
    TakeDrop(cats, k);
  }

  lemma ArticleRefsInStep(secs: seq<Section>, k: nat)
    requires k < |secs|
    ensures ArticleRefsIn(secs[..k + 1]) == ArticleRefsIn(secs[..k]) + ArticleRefsOf(secs[k])
  {
    TakeStep(secs, k);
  }

  lemma ArticleRefsInRest(secs: seq<Section>, k: nat)
    requires k <= |secs|
    ensures ArticleRefsIn(secs) == ArticleRefsIn(secs[..k]) + ArticleRefsIn(secs[k..])
  {
    ArticleRefsInAppend(secs[..k], secs[k..]);
    TakeDrop(secs, k);
  }

  lemma ArticleRefsStep(cats: seq<Category>, k: nat)
    requires k < |cats|
    ensures ArticleRefs(cats[..k + 1]) == ArticleRefs(cats[..k]) + ArticleRefsIn(cats[k].sections)
  {
    TakeStep(cats, k);
  }

  lemma ArticleRefsRest(cats: seq<Category>, k: nat)
    requires k <= |cats|
    ensures ArticleRefs(cats) == ArticleRefs(cats[..k]) + ArticleRefs(cats[k..])
  {
    ArticleRefsAppend(cats[..k], cats[k..]);
    TakeDrop(cats, k);
  }

  // ---------------------------------------------------------------------
  // Phase two of to_html!: every article body is localized (lines 139-147)

  function LocalizedArticles(arts: seq<Article>, idx: Index, t: OutputType): (r: seq<Article>)
    ensures |r| == |arts|
  {
    seq(|arts|, i requires 0 <= i < |arts| => arts[i].(body := Converted(arts[i].body, idx, t)))
  }

  function LocalizedSections(secs: seq<Section>, idx: Index, t: OutputType): (r: seq<Section>)
    ensures |r| == |secs|
  {
    seq(|secs|, i requires 0 <= i < |secs| =>
      secs[i].(articles := LocalizedArticles(secs[i].articles, idx, t)))
  }

  function Localized(cats: seq<Category>, idx: Index, t: OutputType): (r: seq<Category>)
    ensures |r| == |cats|
  {
    seq(|cats|, i requires 0 <= i < |cats| =>
      cats[i].(sections := LocalizedSections(cats[i].sections, idx, t)))
  }

  /** Two trees that agree on everything a lookup sees: ids, backup paths and
      the nesting. */
  predicate SameArticleRefs(a: seq<Article>, b: seq<Article>) {
    |a| == |b| &&
    forall i :: 0 <= i < |a| ==> a[i].id == b[i].id && a[i].backupPath == b[i].backupPath
  }

  predicate SameSectionRefs(a: seq<Section>, b: seq<Section>) {
    |a| == |b| &&
    forall i :: 0 <= i < |a| ==>
      a[i].id == b[i].id && a[i].backupPath == b[i].backupPath &&
      SameArticleRefs(a[i].articles, b[i].articles)
  }

  predicate SameRefs(a: seq<Category>, b: seq<Category>) {
    |a| == |b| &&
    forall i :: 0 <= i < |a| ==>
      a[i].id == b[i].id && a[i].backupPath == b[i].backupPath &&
      SameSectionRefs(a[i].sections, b[i].sections)
  }

  lemma {:induction false} SameRefsArticlesIn(a: seq<Section>, b: seq<Section>)
    requires SameSectionRefs(a, b)
    ensures ArticleRefsIn(a) == ArticleRefsIn(b)
    decreases |a|
  {
    if a != [] {
      var k := |a| - 1;
      SameRefsArticlesIn(a[..k], b[..k]);
      assert ArticleRefsOf(a[k]) == ArticleRefsOf(b[k]);
    }
  }

  /** A lookup cannot tell two such trees apart. */
  lemma {:induction false} SameRefsIndex(a: seq<Category>, b: seq<Category>)
    requires SameRefs(a, b)
    ensures IndexOf(a) == IndexOf(b)
    decreases |a|
  {
    if a != [] {
      var k := |a| - 1;
      SameRefsIndex(a[..k], b[..k]);
      assert SectionRefsOf(a[k]) == SectionRefsOf(b[k]);
      SameRefsArticlesIn(a[k].sections, b[k].sections);
    }
  }

  /** Phase two part way: the first `k` categories localized, the rest
      as they were. */
  function PartlyLocalized(cats: seq<Category>, k: nat, idx: Index, t: OutputType): (r: seq<Category>)
    requires k <= |cats|
    ensures |r| == |cats|
  {
    Localized(cats[..k], idx, t) + cats[k..]
  }

  lemma LocalizedSectionsKeepRefs(secs: seq<Section>, idx: Index, t: OutputType)
    ensures SameSectionRefs(LocalizedSections(secs, idx, t), secs)
  {
  }

  /** One more category localized: the next category is still as it was,
      localizing it gives the next stage, and no stage changes the index. */
  lemma PartlyLocalizedStep(cats: seq<Category>, k: nat, idx: Index, t: OutputType)
    requires k < |cats|
    ensures PartlyLocalized(cats, k, idx, t)[k] == cats[k]
    ensures PartlyLocalized(cats, k, idx, t)[k := cats[k].(sections := LocalizedSections(cats[k].sections, idx, t))] ==
            PartlyLocalized(cats, k + 1, idx, t)
    ensures IndexOf(PartlyLocalized(cats, k, idx, t)) == IndexOf(cats)
  {
    var p := PartlyLocalized(cats, k, idx, t);
    var q := PartlyLocalized(cats, k + 1, idx, t);
    assert p[k] == cats[k..][0];
    forall i | 0 <= i < |cats|
      ensures p[k := cats[k].(sections := LocalizedSections(cats[k].sections, idx, t))][i] == q[i]
    {
      if i < k {
        assert p[i] == Localized(cats[..k], idx, t)[i];
        assert q[i] == Localized(cats[..k + 1], idx, t)[i];
      } else if i > k {
        assert p[i] == cats[k..][i - k];
        assert q[i] == cats[k + 1..][i - k - 1];
      } else {
        assert q[i] == Localized(cats[..k + 1], idx, t)[k];
      }
    }
    forall i | 0 <= i < |cats|
      ensures p[i].id == cats[i].id && p[i].backupPath == cats[i].backupPath &&
              SameSectionRefs(p[i].sections, cats[i].sections)
    {
      if i < k {
        assert p[i] == Localized(cats[..k], idx, t)[i];
        LocalizedSectionsKeepRefs(cats[i].sections, idx, t);
      } else {
        assert p[i] == cats[k..][i - k];
      }
    }
    SameRefsIndex(p, cats);
  }

  lemma PartlyLocalizedEnds(cats: seq<Category>, idx: Index, t: OutputType)
    ensures PartlyLocalized(cats, 0, idx, t) == cats
    ensures PartlyLocalized(cats, |cats|, idx, t) == Localized(cats, idx, t)
  {
    assert cats[..0] == [] && cats[0..] == cats;
    assert cats[..|cats|] == cats && cats[|cats|..] == [];
  }

  /** Localizing changes bodies only, so the lookup index stays the same. */
  lemma LocalizedKeepsIndex(cats: seq<Category>, idx: Index, t: OutputType)
    ensures SameRefs(Localized(cats, idx, t), cats)
    ensures IndexOf(Localized(cats, idx, t)) == IndexOf(cats)
  {
    SameRefsIndex(Localized(cats, idx, t), cats);
  }

  /** Localizing a second time changes nothing. */
  lemma LocalizedIdempotent(cats: seq<Category>, t: OutputType)
    ensures var once := Localized(cats, IndexOf(cats), t);
            Localized(once, IndexOf(once), t) == once
  {
    var idx := IndexOf(cats);
    var once := Localized(cats, idx, t);
    LocalizedKeepsIndex(cats, idx, t);
    forall i, j, k | 0 <= i < |once| && 0 <= j < |once[i].sections| && 0 <= k < |once[i].sections[j].articles|
      ensures Converted(once[i].sections[j].articles[k].body, idx, t) == once[i].sections[j].articles[k].body
    {
      ConvertedIdempotent(cats[i].sections[j].articles[k].body, idx, t);
    }
    var twice := Localized(once, idx, t);
    forall i | 0 <= i < |once| ensures twice[i] == once[i] {
      forall j | 0 <= j < |once[i].sections| ensures twice[i].sections[j] == once[i].sections[j] {
        assert twice[i].sections[j].articles == once[i].sections[j].articles;
      }
      assert twice[i].sections == once[i].sections;
    }
  }
}
