/** The tables of contents (`root_overview_file`, `category_overview_file`,
    `section_overview_file`, `all_overview_files`): the HTML documents and
    the map from output path to document, over the records of `raw_data`. */
module Toc {
  import opened Naming
  import opened Tree
  import opened Slug
  import opened Seqs

  /** The text `boiler_plate_html` puts before and after the content
      (lines 293-306): a Ruby `"""` literal is an empty string, the
      quoted text and another empty string. */
  const Prefix: string := "\n<html>\n  <head>\n    <meta charset='UTF-8'>\n    <link rel='stylesheet' href='http://output.jsbin.com/gefofo.css' />\n  </head>\n  <body>\n    <div id='container'>\n    "
  const Suffix: string := "\n    </div>\n  </body>\n</html>\n    "

  /** The link to the parent overview at the head of a stand-alone overview. */
  const UpLink: string := "<a href='../index.html'>[↑]</a>"

  /** The base path of a stand-alone overview. */
  const Top: string := "./"

  function BoilerPlate(content: string): string {
    Prefix + content + Suffix
  }

  /** `Array#join` with a separator. */
  function Join(lines: seq<string>, sep: string): string
    decreases |lines|
  {
    if lines == [] then ""
    else if |lines| == 1 then lines[0]
    else Join(lines[..|lines| - 1], sep) + sep + lines[|lines| - 1]
  }

  // ---------------------------------------------------------------------
  // Links to child overviews

  /** The path the overviews link to for a child resource, as the code
      writes it (lines 230, 250 and 270): the base path, the bare id and a
      slash. */
  function ChildPathAsWritten(base: string, id: nat): string {
    base + NatToString(id) + "/"
  }

  /** The path of the child's directory: the base path and the segment
      `dir_path` gave the child (the id alone, or the id and the slug of the
      numbered name). */
  function ChildPath(t: OutputType, base: string, id: nat, name: string): string {
    base + Segment(t, id, name) + "/"
  }

  /** Which links an overview document carries: the code's (`AsWritten`),
      or links to the directories `dir_path` made under output type `t`. */
  datatype Links = AsWritten | ToDirectory(t: OutputType)

  function ChildLink(links: Links, base: string, id: nat, name: string): string {
    match links
    case AsWritten => ChildPathAsWritten(base, id)
    case ToDirectory(t) => ChildPath(t, base, id, name)
  }

  /** Under `:id_only` the two agree: the code's links are right there. */
  lemma AsWrittenAgreesIdOnly(base: string, id: nat, name: string)
    ensures ChildLink(AsWritten, base, id, name) == ChildLink(ToDirectory(IdOnly), base, id, name)
  {
  }

  /** Under `:slugified` the written link never reaches the category it
      names: the category lives in `id-slug/`, the link points at `id/`. */
  lemma AsWrittenPathMisses(c: Category)
    requires CategoryAt(Slugified, c)
    ensures ChildPathAsWritten(Top, c.id) + "index.html" != c.backupPath
  {
    var digits := NatToString(c.id);
    var seg := Segment(Slugified, c.id, c.name);
    var cr := Resource(c.id, c.name);
    DirStringStep(Slugified, [cr], 0);
    assert [cr][..0] == [] && [cr][..1] == [cr];
    assert c.backupPath == "./" + seg + "/" + "index.html";
    assert seg == digits + "-" + Slugify(c.name);
    var written := ChildPathAsWritten(Top, c.id) + "index.html";
    assert written == "./" + digits + "/" + "index.html";
    assert written[2 + |digits|] == '/';
    assert c.backupPath[2 + |digits|] == '-';
  }

  /** The anchor of one listed resource. */
  function Anchor(kind: string, id: nat, path: string, name: string): string {
    "<a id='" + kind + "-" + NatToString(id) + "' href='" + path + "index.html'>" + name + "</a>"
  }

  /** The two heading lines of a stand-alone category or section overview. */
  function Heading(base: string, name: string): seq<string> {
    if base == Top then [UpLink, "<h1>" + name + "</h1>"] else []
  }

  // ---------------------------------------------------------------------
  // The documents

  function ArticleItems(links: Links, arts: seq<Article>, base: string): seq<string>
    decreases |arts|
  {
    if arts == [] then []
    else
      var a := arts[|arts| - 1];
      ArticleItems(links, arts[..|arts| - 1], base) +
      ["<li>", Anchor("article", a.id, ChildLink(links, base, a.id, a.name), a.name), "</li>"]
  }

  /** One list item per article, in order. */
  lemma ArticleItemsStep(links: Links, arts: seq<Article>, k: nat, base: string)
    requires k < |arts|
    ensures ArticleItems(links, arts[..k + 1], base) ==
            ArticleItems(links, arts[..k], base) +
            ["<li>", Anchor("article", arts[k].id, ChildLink(links, base, arts[k].id, arts[k].name), arts[k].name), "</li>"]
  {
    TakeStep(arts, k);
  }

  /** `section_overview_file` (lines 261-278); its `recursive` argument is
      not used by the code. */
  function SectionOverview(links: Links, s: Section, base: string): string {
    BoilerPlate(Join(Heading(base, s.name) + ["<ul>"] + ArticleItems(links, s.articles, base) + ["</ul>"], "\n"))
  }

  function SectionItems(links: Links, secs: seq<Section>, recursive: bool, base: string): seq<string>
    decreases |secs|
  {
    if secs == [] then []
    else
      SectionItems(links, secs[..|secs| - 1], recursive, base) + SectionItem(links, secs[|secs| - 1], recursive, base)
  }

  /** The list item of a section: its anchor and, when `recursive`, its
      overview under its path. */
  function SectionItem(links: Links, s: Section, recursive: bool, base: string): seq<string> {
    var path := ChildLink(links, base, s.id, s.name);
    ["<li>", Anchor("section", s.id, path, s.name)] +
    (if recursive then [SectionOverview(links, s, path)] else []) +
    ["</li>"]
  }

  lemma SectionItemsStep(links: Links, secs: seq<Section>, k: nat, recursive: bool, base: string)
    requires k < |secs|
    ensures SectionItems(links, secs[..k + 1], recursive, base) ==
            SectionItems(links, secs[..k], recursive, base) + SectionItem(links, secs[k], recursive, base)
  {
    TakeStep(secs, k);
  }

  /** `category_overview_file` (lines 241-259). */
  function CategoryOverview(links: Links, c: Category, recursive: bool, base: string): string {
    BoilerPlate(Join(Heading(base, c.name) + ["<ul>"] + SectionItems(links, c.sections, recursive, base) + ["</ul>"], "\n"))
  }

  function CategoryItems(links: Links, cats: seq<Category>, recursive: bool, base: string): seq<string>
    decreases |cats|
  {
    if cats == [] then []
    else
      CategoryItems(links, cats[..|cats| - 1], recursive, base) + CategoryItem(links, cats[|cats| - 1], recursive, base)
  }

  /** The list item of a category: its anchor and, when `recursive`,
      its overview under its path. */
  function CategoryItem(links: Links, c: Category, recursive: bool, base: string): seq<string> {
    var path := ChildLink(links, base, c.id, c.name);
    ["<li>", Anchor("category", c.id, path, c.name)] +
    (if recursive then [CategoryOverview(links, c, recursive, path)] else []) +
    ["</li>"]
  }

  lemma CategoryItemsStep(links: Links, cats: seq<Category>, k: nat, recursive: bool, base: string)
    requires k < |cats|
    ensures CategoryItems(links, cats[..k + 1], recursive, base) ==
            CategoryItems(links, cats[..k], recursive, base) + CategoryItem(links, cats[k], recursive, base)
  {
    TakeStep(cats, k);
  }

  /** The title line of the root overview. */
  function RootHeading(base: string): seq<string> {
    if base == Top then ["<h1>Table of Contents</h1>"] else []
  }

  /** `root_overview_file` (lines 222-239). */
  function RootOverview(links: Links, cats: seq<Category>, recursive: bool, base: string): string {
    BoilerPlate(Join(RootHeading(base) + ["<ul>"] + CategoryItems(links, cats, recursive, base) + ["</ul>"], "\n"))
  }

  /** `main_overview_file` (lines 218-220). */
  function MainOverview(links: Links, cats: seq<Category>): string {
    RootOverview(links, cats, true, Top)
  }

  // ---------------------------------------------------------------------
  // Where the links of the main overview lead

  lemma {:induction false} DirStringLength(t: OutputType, rs: seq<Resource>)
    ensures |DirString(t, rs)| >= 2 + 2 * |rs|
    decreases |rs|
  {
    if rs != [] {
      DirStringLength(t, rs[..|rs| - 1]);
    }
  }

  /** The directory of a chain of resources, one `ChildPath` per level. */
  lemma ChildPathChain(t: OutputType, cr: Resource, sr: Resource, ar: Resource)
    ensures ChildPath(t, Top, cr.id, cr.name) == DirString(t, [cr])
    ensures ChildPath(t, DirString(t, [cr]), sr.id, sr.name) == DirString(t, [cr, sr])
    ensures ChildPath(t, DirString(t, [cr, sr]), ar.id, ar.name) == DirString(t, [cr, sr, ar])
  {
    DirStringSnoc(t, [], cr);
    assert [] + [cr] == [cr];
    DirStringSnoc(t, [cr], sr);
    assert [cr] + [sr] == [cr, sr];
    DirStringSnoc(t, [cr, sr], ar);
    assert [cr, sr] + [ar] == [cr, sr, ar];
  }

  /** With links to the directories, every anchor of the main overview
      leads to the `index.html` of the record it names: the category
      anchors, the section anchors under the category's path and the
      article anchors under the section's path. */
  lemma OverviewLinksReach(t: OutputType, cats: seq<Category>, c: Category, s: Section, a: Article)
    requires Placed(t, cats) && c in cats && s in c.sections && a in s.articles
    ensures var links := ToDirectory(t);
            var cp := ChildLink(links, Top, c.id, c.name);
            var sp := ChildLink(links, cp, s.id, s.name);
            cp + "index.html" == c.backupPath &&
            sp + "index.html" == s.backupPath &&
            ChildLink(links, sp, a.id, a.name) + "index.html" == a.backupPath
  {
    var cr := Resource(c.id, c.name);
    var sr := Resource(s.id, s.name);
    var ar := Resource(a.id, a.name);
    assert CategoryAt(t, c);
    assert SectionAt(t, cr, s);
    assert ArticleAt(t, cr, sr, a);
    ChildPathChain(t, cr, sr, ar);
  }

  /** The category list of an overview splits around any one category. */
  lemma {:induction false} CategoryItemsAppend(links: Links, a: seq<Category>, b: seq<Category>, recursive: bool,
                                               base: string)
    ensures CategoryItems(links, a + b, recursive, base) ==
            CategoryItems(links, a, recursive, base) + CategoryItems(links, b, recursive, base)
    decreases |b|
  {
    if b == [] {
      AppendEmpty(a);
      AppendEmpty(CategoryItems(links, a, recursive, base));
    } else {
      var init := b[..|b| - 1];
      var last := b[|b| - 1];
      CategoryItemsAppend(links, a, init, recursive, base);
      AppendInit(a, b);
      AppendAssoc(CategoryItems(links, a, recursive, base), CategoryItems(links, init, recursive, base),
                  CategoryItem(links, last, recursive, base));
    }
  }

  /** The `k`-th category of `raw_data` has its own list item in the
      overview, whose anchor links to `ChildLink` of the category. */
  lemma CategoryItemsAt(links: Links, cats: seq<Category>, k: nat, recursive: bool, base: string)
    requires k < |cats|
    ensures CategoryItems(links, cats, recursive, base) ==
            CategoryItems(links, cats[..k], recursive, base) + CategoryItem(links, cats[k], recursive, base) +
            CategoryItems(links, cats[k + 1..], recursive, base)
    ensures var c := cats[k];
            CategoryItem(links, c, recursive, base)[1] == Anchor("category", c.id, ChildLink(links, base, c.id, c.name), c.name)
  {
    var c := cats[k];
    assert cats == cats[..k] + [c] + cats[k + 1..];
    CategoryItemsAppend(links, cats[..k] + [c], cats[k + 1..], recursive, base);
    CategoryItemsAppend(links, cats[..k], [c], recursive, base);
    assert [c][..0] == [];
    assert CategoryItems(links, [c], recursive, base) == CategoryItem(links, c, recursive, base);
  }

  /** The main overview as the code writes it: under `:slugified` the anchor
      of every category links to a page that is not the category's
      `index.html`. */
  lemma AsWrittenLinkMisses(cats: seq<Category>, k: nat)
    requires Placed(Slugified, cats) && k < |cats|
    ensures CategoryItems(AsWritten, cats, true, Top) ==
            CategoryItems(AsWritten, cats[..k], true, Top) + CategoryItem(AsWritten, cats[k], true, Top) +
            CategoryItems(AsWritten, cats[k + 1..], true, Top)
    ensures CategoryItem(AsWritten, cats[k], true, Top)[1] ==
            Anchor("category", cats[k].id, ChildPathAsWritten(Top, cats[k].id), cats[k].name)
    ensures ChildPathAsWritten(Top, cats[k].id) + "index.html" != cats[k].backupPath
  {
    assert cats[k] in cats;
    AsWrittenPathMisses(cats[k]);
    CategoryItemsAt(AsWritten, cats, k, true, Top);
  }

  // ---------------------------------------------------------------------
  // Under :id_only the code's documents are the corrected ones

  lemma {:induction false} ArticleItemsAgree(arts: seq<Article>, base: string)
    ensures ArticleItems(AsWritten, arts, base) == ArticleItems(ToDirectory(IdOnly), arts, base)
    decreases |arts|
  {
    if arts != [] {
      ArticleItemsAgree(arts[..|arts| - 1], base);
    }
  }

  lemma SectionOverviewAgrees(s: Section, base: string)
    ensures SectionOverview(AsWritten, s, base) == SectionOverview(ToDirectory(IdOnly), s, base)
  {
    ArticleItemsAgree(s.articles, base);
  }

  lemma {:induction false} SectionItemsAgree(secs: seq<Section>, recursive: bool, base: string)
    ensures SectionItems(AsWritten, secs, recursive, base) == SectionItems(ToDirectory(IdOnly), secs, recursive, base)
    decreases |secs|
  {
    if secs != [] {
      var s := secs[|secs| - 1];
      SectionItemsAgree(secs[..|secs| - 1], recursive, base);
      SectionOverviewAgrees(s, ChildLink(AsWritten, base, s.id, s.name));
    }
  }

  lemma CategoryOverviewAgrees(c: Category, recursive: bool, base: string)
    ensures CategoryOverview(AsWritten, c, recursive, base) == CategoryOverview(ToDirectory(IdOnly), c, recursive, base)
  {
    SectionItemsAgree(c.sections, recursive, base);
  }

  lemma {:induction false} CategoryItemsAgree(cats: seq<Category>, recursive: bool, base: string)
    ensures CategoryItems(AsWritten, cats, recursive, base) == CategoryItems(ToDirectory(IdOnly), cats, recursive, base)
    decreases |cats|
  {
    if cats != [] {
      var c := cats[|cats| - 1];
      CategoryItemsAgree(cats[..|cats| - 1], recursive, base);
      CategoryOverviewAgrees(c, recursive, ChildLink(AsWritten, base, c.id, c.name));
    }
  }

  /** Under `:id_only` the main overview the code writes is the one whose
      links reach every record. */
  lemma MainOverviewAgreesIdOnly(cats: seq<Category>)
    ensures MainOverview(AsWritten, cats) == MainOverview(ToDirectory(IdOnly), cats)
  {
    CategoryItemsAgree(cats, true, Top);
  }

  /** No record's `backup_path` is the root `./index.html`. */
  lemma BackupPathsBelowRoot(t: OutputType, c: Category, s: Section)
    requires CategoryAt(t, c) && s in c.sections
    ensures |c.backupPath| > |Top + "index.html"| && |s.backupPath| > |Top + "index.html"|
  {
    var cr := Resource(c.id, c.name);
    assert SectionAt(t, cr, s);
    DirStringLength(t, [cr]);
    DirStringLength(t, [cr, Resource(s.id, s.name)]);
  }

  // ---------------------------------------------------------------------
  // all_overview_files (lines 280-291)

  /** A Ruby hash filled by assignments in order: a later assignment to
      the same key replaces the earlier one. */
  function Assign(ws: seq<(string, string)>): (m: map<string, string>)
    decreases |ws|
  {
    if ws == [] then map[]
    else
      var w := ws[|ws| - 1];
      Assign(ws[..|ws| - 1])[w.0 := w.1]
  }

  /** The keys assigned, in order. */
  function Keys(ws: seq<(string, string)>): (ks: seq<string>)
    ensures |ks| == |ws|
    ensures forall i :: 0 <= i < |ws| ==> ks[i] == ws[i].0
    decreases |ws|
  {
    if ws == [] then [] else Keys(ws[..|ws| - 1]) + [ws[|ws| - 1].0]
  }

  /** The keys of the hash are the keys assigned. */
  lemma {:induction false} AssignKeys(ws: seq<(string, string)>, k: string)
    ensures k in Assign(ws) <==> k in Keys(ws)
    decreases |ws|
  {
    if ws != [] {
      var init := ws[..|ws| - 1];
      AssignKeys(init, k);
    }
  }

  /** One more assignment. */
  lemma AssignStep(ws: seq<(string, string)>, w: (string, string))
    ensures Assign(ws + [w]) == Assign(ws)[w.0 := w.1]
  {
    assert (ws + [w])[..|ws|] == ws;
  }

  /** The value under a key is the one of its last assignment. */
  lemma {:induction false} AssignLast(ws: seq<(string, string)>, i: nat)
    requires i < |ws|
    requires forall j :: i < j < |ws| ==> ws[j].0 != ws[i].0
    ensures ws[i].0 in Assign(ws) && Assign(ws)[ws[i].0] == ws[i].1
    decreases |ws|
  {
    if i < |ws| - 1 {
      var init := ws[..|ws| - 1];
      assert forall j :: i < j < |init| ==> init[j].0 == ws[j].0;
      AssignLast(init, i);
    }
  }

  /** The assignments for the sections of one category. */
  function SectionWrites(links: Links, secs: seq<Section>): seq<(string, string)>
    decreases |secs|
  {
    if secs == [] then []
    else
      var s := secs[|secs| - 1];
      SectionWrites(links, secs[..|secs| - 1]) + [(s.backupPath, SectionOverview(links, s, Top))]
  }

  lemma SectionWritesStep(links: Links, secs: seq<Section>, k: nat)
    requires k < |secs|
    ensures SectionWrites(links, secs[..k + 1]) ==
            SectionWrites(links, secs[..k]) + [(secs[k].backupPath, SectionOverview(links, secs[k], Top))]
  {
    TakeStep(secs, k);
  }

  /** The assignments of the category loop, in order. */
  function CategoryWrites(links: Links, cats: seq<Category>): seq<(string, string)>
    decreases |cats|
  {
    if cats == [] then []
    else
      var c := cats[|cats| - 1];
      CategoryWrites(links, cats[..|cats| - 1]) +
      [(c.backupPath, CategoryOverview(links, c, true, Top))] + SectionWrites(links, c.sections)
  }

  lemma CategoryWritesStep(links: Links, cats: seq<Category>, k: nat)
    requires k < |cats|
    ensures CategoryWrites(links, cats[..k + 1]) ==
            CategoryWrites(links, cats[..k]) + [(cats[k].backupPath, CategoryOverview(links, cats[k], true, Top))] +
            SectionWrites(links, cats[k].sections)
  {
    TakeStep(cats, k);
  }

  function OverviewWrites(links: Links, cats: seq<Category>): seq<(string, string)> {
    [(Top + "index.html", MainOverview(links, cats))] + CategoryWrites(links, cats)
  }

  /** `all_overview_files`: output path to overview document. */
  function OverviewFiles(links: Links, cats: seq<Category>): map<string, string> {
    Assign(OverviewWrites(links, cats))
  }

  function SectionPaths(secs: seq<Section>): (ps: seq<string>)
    ensures |ps| == |secs|
    ensures forall i :: 0 <= i < |secs| ==> ps[i] == secs[i].backupPath
    decreases |secs|
  {
    if secs == [] then [] else SectionPaths(secs[..|secs| - 1]) + [secs[|secs| - 1].backupPath]
  }

  /** The paths the category loop assigns, in order: each category's
      `backup_path`, then those of its sections. */
  function OverviewPaths(cats: seq<Category>): seq<string>
    decreases |cats|
  {
    if cats == [] then []
    else
      var c := cats[|cats| - 1];
      OverviewPaths(cats[..|cats| - 1]) + [c.backupPath] + SectionPaths(c.sections)
  }

  lemma {:induction false} SectionWritesKeys(links: Links, secs: seq<Section>)
    ensures Keys(SectionWrites(links, secs)) == SectionPaths(secs)
    decreases |secs|
  {
    if secs != [] {
      var init := secs[..|secs| - 1];
      var ws := SectionWrites(links, init);
      var w := (secs[|secs| - 1].backupPath, SectionOverview(links, secs[|secs| - 1], Top));
      SectionWritesKeys(links, init);
      KeysAppend(ws, [w]);
    }
  }

  lemma KeysAppend(a: seq<(string, string)>, b: seq<(string, string)>)
    ensures Keys(a + b) == Keys(a) + Keys(b)
  {
    assert Keys(a + b) == Keys(a) + Keys(b);
  }

  lemma {:induction false} CategoryWritesKeys(links: Links, cats: seq<Category>)
    ensures Keys(CategoryWrites(links, cats)) == OverviewPaths(cats)
    decreases |cats|
  {
    if cats != [] {
      var init := cats[..|cats| - 1];
      var c := cats[|cats| - 1];
      var w := [(c.backupPath, CategoryOverview(links, c, true, Top))];
      CategoryWritesKeys(links, init);
      SectionWritesKeys(links, c.sections);
      KeysAppend(CategoryWrites(links, init) + w, SectionWrites(links, c.sections));
      KeysAppend(CategoryWrites(links, init), w);
    }
  }

  /** The keys of a hash whose first assignment is `w`. */
  lemma AssignFirstKeys(w: (string, string), ws: seq<(string, string)>, k: string)
    ensures k in Assign([w] + ws) <==> k == w.0 || k in Keys(ws)
  {
    AssignKeys([w] + ws, k);
    KeysAppend([w], ws);
    assert Keys([w]) == [w.0];
  }

  /** The first assignment survives when no later one has its key. */
  lemma AssignFirst(w: (string, string), ws: seq<(string, string)>)
    requires w.0 !in Keys(ws)
    ensures w.0 in Assign([w] + ws) && Assign([w] + ws)[w.0] == w.1
  {
    var all := [w] + ws;
    forall j | 0 < j < |all|
      ensures all[j].0 != all[0].0
    {
      assert all[j].0 == Keys(ws)[j - 1];
    }
    AssignLast(all, 0);
  }

  /** The map holds exactly the root path and the `backup_path` of every
      category and every section. */
  lemma OverviewFilesKeys(links: Links, cats: seq<Category>, k: string)
    ensures k in OverviewFiles(links, cats) <==> k == Top + "index.html" || k in OverviewPaths(cats)
  {
    AssignFirstKeys((Top + "index.html", MainOverview(links, cats)), CategoryWrites(links, cats), k);
    CategoryWritesKeys(links, cats);
  }

  /** Every category and every section of `raw_data` has its path among
      the assigned ones. */
  lemma {:induction false} OverviewPathsComplete(cats: seq<Category>, c: Category, s: Section)
    requires c in cats
    ensures c.backupPath in OverviewPaths(cats)
    ensures s in c.sections ==> s.backupPath in OverviewPaths(cats)
    decreases |cats|
  {
    var init := cats[..|cats| - 1];
    var last := cats[|cats| - 1];
    assert OverviewPaths(cats) == OverviewPaths(init) + [last.backupPath] + SectionPaths(last.sections);
    if c == last {
      if s in c.sections {
        var i :| 0 <= i < |c.sections| && c.sections[i] == s;
        assert SectionPaths(c.sections)[i] == s.backupPath;
      }
    } else {
      assert c in init;
      OverviewPathsComplete(init, c, s);
    }
  }

  /** Under placed records every assigned path lies below the root. */
  lemma {:induction false} OverviewPathsBelowRoot(t: OutputType, cats: seq<Category>)
    requires Placed(t, cats)
    ensures forall p :: p in OverviewPaths(cats) ==> |p| > |Top + "index.html"|
    decreases |cats|
  {
    if cats != [] {
      var init := cats[..|cats| - 1];
      var c := cats[|cats| - 1];
      assert Placed(t, init);
      OverviewPathsBelowRoot(t, init);
      assert CategoryAt(t, c);
      var cr := Resource(c.id, c.name);
      DirStringLength(t, [cr]);
      forall p | p in SectionPaths(c.sections)
        ensures |p| > |Top + "index.html"|
      {
        var i :| 0 <= i < |c.sections| && SectionPaths(c.sections)[i] == p;
        BackupPathsBelowRoot(t, c, c.sections[i]);
      }
    }
  }

  /** Under placed records the root path holds the main overview: no
      later assignment hits `./index.html`. */
  lemma OverviewFilesRoot(links: Links, t: OutputType, cats: seq<Category>)
    requires Placed(t, cats)
    ensures Top + "index.html" in OverviewFiles(links, cats)
    ensures OverviewFiles(links, cats)[Top + "index.html"] == MainOverview(links, cats)
  {
    var root := Top + "index.html";
    var w := (root, MainOverview(links, cats));
    CategoryWritesKeys(links, cats);
    OverviewPathsBelowRoot(t, cats);
    assert root !in OverviewPaths(cats);
    AssignFirst(w, CategoryWrites(links, cats));
  }

  /** Each category's overview and each section's overview is among the
      assignments of the category loop. */
  lemma {:induction false} CategoryWritesHas(links: Links, cats: seq<Category>, c: Category, s: Section)
    requires c in cats
    ensures (c.backupPath, CategoryOverview(links, c, true, Top)) in CategoryWrites(links, cats)
    ensures s in c.sections ==> (s.backupPath, SectionOverview(links, s, Top)) in CategoryWrites(links, cats)
    decreases |cats|
  {
    var init := cats[..|cats| - 1];
    var last := cats[|cats| - 1];
    var sw := SectionWrites(links, last.sections);
    assert CategoryWrites(links, cats) == CategoryWrites(links, init) + [(last.backupPath, CategoryOverview(links, last, true, Top))] + sw;
    if c == last {
      if s in c.sections {
        SectionWritesHas(links, c.sections, s);
      }
    } else {
      assert c in init;
      CategoryWritesHas(links, init, c, s);
    }
  }

  lemma {:induction false} SectionWritesHas(links: Links, secs: seq<Section>, s: Section)
    requires s in secs
    ensures (s.backupPath, SectionOverview(links, s, Top)) in SectionWrites(links, secs)
    decreases |secs|
  {
    var init := secs[..|secs| - 1];
    if s != secs[|secs| - 1] {
      assert s in init;
      SectionWritesHas(links, init, s);
    }
  }

  /** The paths of the category loop are pairwise different. */
  predicate DistinctPaths(cats: seq<Category>) {
    var ps := OverviewPaths(cats);
    forall i, j :: 0 <= i < |ps| && 0 <= j < |ps| && ps[i] == ps[j] ==> i == j
  }

  /** When every assignment to a key assigns the same value, the hash
      holds that value. */
  lemma {:induction false} AssignSame(ws: seq<(string, string)>, x: (string, string))
    requires x in ws
    requires forall j :: 0 <= j < |ws| && ws[j].0 == x.0 ==> ws[j].1 == x.1
    ensures x.0 in Assign(ws) && Assign(ws)[x.0] == x.1
    decreases |ws|
  {
    var init := ws[..|ws| - 1];
    if ws[|ws| - 1].0 != x.0 {
      assert x in init;
      AssignSame(init, x);
    }
  }

  /** After a first assignment to a key that is not assigned again, an
      assignment to a key assigned only once survives in the hash. */
  lemma AssignOnce(w: (string, string), ws: seq<(string, string)>, ps: seq<string>, x: (string, string))
    requires Keys(ws) == ps && w.0 !in ps && x in ws
    requires forall i, j :: 0 <= i < |ps| && 0 <= j < |ps| && ps[i] == ps[j] ==> i == j
    ensures x.0 in Assign([w] + ws) && Assign([w] + ws)[x.0] == x.1
  {
    var all := [w] + ws;
    var i :| 0 <= i < |ws| && ws[i] == x;
    forall j | 0 <= j < |all| && all[j].0 == x.0
      ensures all[j].1 == x.1
    {
      assert ps[i] == x.0;
      assert j > 0;
      assert all[j] == ws[j - 1];
      assert ps[j - 1] == ws[j - 1].0 == ps[i];
    }
    assert all[i + 1] == x;
    AssignSame(all, x);
  }

  /** With pairwise different paths, every assignment of the category
      loop survives in the map. */
  lemma OverviewFilesKeep(links: Links, t: OutputType, cats: seq<Category>, x: (string, string))
    requires Placed(t, cats) && DistinctPaths(cats) && x in CategoryWrites(links, cats)
    ensures x.0 in OverviewFiles(links, cats) && OverviewFiles(links, cats)[x.0] == x.1
  {
    var w := (Top + "index.html", MainOverview(links, cats));
    CategoryWritesKeys(links, cats);
    OverviewPathsBelowRoot(t, cats);
    assert w.0 !in OverviewPaths(cats);
    AssignOnce(w, CategoryWrites(links, cats), OverviewPaths(cats), x);
  }

  /** When no two records share a `backup_path`, each category's path holds
      its recursive overview and each section's path its own overview. */
  lemma OverviewFilesEntries(links: Links, t: OutputType, cats: seq<Category>, c: Category, s: Section)
    requires Placed(t, cats) && DistinctPaths(cats) && c in cats
    ensures c.backupPath in OverviewFiles(links, cats)
    ensures OverviewFiles(links, cats)[c.backupPath] == CategoryOverview(links, c, true, Top)
    ensures s in c.sections ==> s.backupPath in OverviewFiles(links, cats) &&
                                OverviewFiles(links, cats)[s.backupPath] == SectionOverview(links, s, Top)
  {
    CategoryWritesHas(links, cats, c, s);
    OverviewFilesKeep(links, t, cats, (c.backupPath, CategoryOverview(links, c, true, Top)));
    if s in c.sections {
      OverviewFilesKeep(links, t, cats, (s.backupPath, SectionOverview(links, s, Top)));
    }
  }
}
