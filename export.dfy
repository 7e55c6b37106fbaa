/** `ExportHelpCenter`: the exporter object, its `raw_data`, and the disk it
    writes the export to. */
module Export {
  import opened Wrappers
  import opened Naming
  import opened Disk
  import opened Reconcile
  import opened Effects
  import opened Links
  import opened Tree
  import opened Plan
  import opened Toc
  import opened Seqs

  class Exporter {
    /** `@output_type` */
    const outputType: OutputType
    /** The working directory the export is written to. */
    const disk: FileSystem
    /** `@raw_data[:categories]` */
    var rawData: seq<Category>

    ghost predicate Valid()
      reads this, disk
    {
      disk.Valid()
    }

    /** `initialize`, once the options passed `invalid_inputs?`. */
    constructor (t: OutputType, fs: FileSystem)
      requires fs.Valid()
      ensures Valid() && outputType == t && disk == fs && rawData == []
    {
      outputType := t;
      disk := fs;
      rawData := [];
    }

    // -------------------------------------------------------------------
    // Directories

    /** `rename_dir_or_file_starting_with_id!` (lines 373-386): the first
        entry of `dir` whose name starts with `id` is renamed to `desired`,
        unless there is none or it already has that name; the answer says
        whether a rename happened. */
    method RenameDirOrFileStartingWithId(dir: Path, id: string, desired: string) returns (renamed: bool)
      requires Valid() && IsDir(disk.root, dir)
      requires NoCollision(EntriesAt(disk.root, dir), id, desired)
      modifies disk
      ensures Valid()
      ensures renamed == Renames(old(EntriesAt(disk.root, dir)), id, desired)
      ensures disk.root == ReplaceAt(old(disk.root), dir, Dir(Reconciled(old(EntriesAt(disk.root, dir)), id, desired)))
    {
      var es := EntriesAt(disk.root, dir);
      var current := FirstWithPrefix(es, id);
      if current.None? || es[current.value].name == desired {
        ReplaceWithSame(disk.root, dir);
        return false;
      }
      disk.Move(dir, current.value, desired);
      return true;
    }

    /** `dir_path` (lines 346-361): for each resource of the chain, reconcile
        the directory named after its id, create it if missing, and descend;
        the answer is the `"./a/b/"` path string. */
    method DirPath(resources: seq<Resource>) returns (path: string)
      requires Valid() && Feasible(disk.root, PathSteps(outputType, resources))
      modifies disk
      ensures Valid()
      ensures path == DirString(outputType, resources)
      ensures disk.root == Place(old(disk.root), PathSteps(outputType, resources))
    {
      var steps := PathSteps(outputType, resources);
      path := "./";
      var dir: Path := [];
      var k := 0;
      while k < |steps|
        invariant 0 <= k <= |steps|
        invariant Valid()
        invariant path == DirString(outputType, resources[..k])
        invariant IsDir(disk.root, dir)
        invariant Feasible(Lookup(disk.root, dir).value, steps[k..])
        invariant ReplaceAt(disk.root, dir, Place(Lookup(disk.root, dir).value, steps[k..])) ==
                  Place(old(disk.root), steps)
      {
        var st := steps[k];
        ghost var root0 := disk.root;
        ghost var here := Lookup(root0, dir).value;
        ghost var r := Reconciled(here.entries, st.id, st.segment);
        assert steps[k..][0] == st && steps[k..][1..] == steps[k + 1..];
        PlaceDescend(root0, dir, steps[k..]);
        var _ := RenameDirOrFileStartingWithId(dir, st.id, st.segment);
        ReplaceReplace(root0, dir, Dir(r), Dir(r));
        LookupChild(disk.root, dir, st.segment);
        if !disk.Exists(dir + [st.segment]) {
          disk.MakeDir(dir, st.segment);
          ReplaceReplace(root0, dir, Dir(r), Dir(r + [Entry(st.segment, Dir([]))]));
        }
        DirStringStep(outputType, resources, k);
        path := path + st.segment + "/";
        dir := dir + [st.segment];
        k := k + 1;
      }
      TakeEnds(resources);
      assert Place(Lookup(disk.root, dir).value, []) == Lookup(disk.root, dir).value;
      ReplaceWithSame(disk.root, dir);
    }

    // -------------------------------------------------------------------
    // Files

    /** `download_attachment!` (lines 431-451): create `./attachments/` if
        missing, reconcile the attachment's file towards its name, and fetch
        it only when no entry carries its id yet; the answer is whether it
        was already present.  `fetchOk` is whether the HTTP get came back;
        a failed get is only logged. */
    method DownloadAttachment(id: string, fileName: string, fetchOk: bool) returns (present: bool)
      requires Valid()
      requires CanApply(disk.root, Download(id, AttachmentFileName(outputType, id, fileName), fetchOk))
      modifies disk
      ensures Valid()
      ensures present == HasPrefixed(EntriesAt(WithAttachmentsDir(old(disk.root)), [AttachmentsDirName]), id)
      ensures disk.root == Apply(old(disk.root), Download(id, AttachmentFileName(outputType, id, fileName), fetchOk))
    {
      var store: Path := [AttachmentsDirName];
      LookupChild(disk.root, [], AttachmentsDirName);
      assert [] + store == store;
      if !disk.Exists(store) {
        disk.MakeDir([], AttachmentsDirName);
      }
      ghost var root1 := disk.root;
      assert root1 == WithAttachmentsDir(old(disk.root));
      ghost var es := EntriesAt(root1, store);
      var name := AttachmentFileName(outputType, id, fileName);
      var _ := RenameDirOrFileStartingWithId(store, id, name);
      ghost var r := Reconciled(es, id, name);
      ReplaceReplace(root1, store, Dir(r), Dir(r));
      ReconciledKeepsPrefixed(es, id, name);
      present := HasPrefixed(EntriesAt(disk.root, store), id);
      if present {
        return;
      }
      if fetchOk {
        disk.CreateFile(store, name);
        ReplaceReplace(root1, store, Dir(r), Dir(r + [Entry(name, File)]));
      }
    }

    /** `File.open(dir/name, "w+")`: the file is created unless it is there. */
    method WriteFile(dir: Path, name: string)
      requires Valid() && CanApply(disk.root, Effects.WriteFile(dir, name))
      modifies disk
      ensures Valid()
      ensures disk.root == Apply(old(disk.root), Effects.WriteFile(dir, name))
    {
      LookupChild(disk.root, dir, name);
      if !disk.Exists(dir + [name]) {
        disk.CreateFile(dir, name);
      }
    }

    // -------------------------------------------------------------------
    // Lookups of convert_body (lines 178-201)

    /** `raw_data[:categories].find { |c| c['id'].to_s == id }` */
    method FindCategory(id: string) returns (found: Option<string>)
      ensures found == FirstWithId(CategoryRefs(rawData), id)
    {
      var refs := CategoryRefs(rawData);
      var i := 0;
      while i < |rawData|
        invariant 0 <= i <= |rawData|
        invariant forall j :: 0 <= j < i ==> refs[j].id != id
      {
        if NatToString(rawData[i].id) == id {
          FirstWithIdAt(refs, id, i);
          return Some(rawData[i].backupPath);
        }
        i := i + 1;
      }
      return None;
    }

    /** The first section with the id, category by category, stopping at
        the first category that has one. */
    method FindSection(id: string) returns (found: Option<string>)
      ensures found == FirstWithId(SectionRefs(rawData), id)
    {
      var i := 0;
      while i < |rawData|
        invariant 0 <= i <= |rawData|
        invariant FirstWithId(SectionRefs(rawData[..i]), id).None?
      {
        found := FirstWithId(SectionRefsOf(rawData[i]), id);
        SectionRefsStep(rawData, i);
        SectionRefsRest(rawData, i + 1);
        FirstWithIdSplit(SectionRefs(rawData[..i]), SectionRefsOf(rawData[i]), SectionRefs(rawData[i + 1..]), id);
        if found.Some? {
          return;
        }
        i := i + 1;
      }
      TakeEnds(rawData);
      return None;
    }

    /** The first article with the id, section by section and category by
        category, stopping at the first match. */
    method FindArticle(id: string) returns (found: Option<string>)
      ensures found == FirstWithId(ArticleRefs(rawData), id)
    {
      var i := 0;
      while i < |rawData|
        invariant 0 <= i <= |rawData|
        invariant FirstWithId(ArticleRefs(rawData[..i]), id).None?
      {
        found := FindArticleIn(rawData[i].sections, id);
        ArticleRefsStep(rawData, i);
        ArticleRefsRest(rawData, i + 1);
        FirstWithIdSplit(ArticleRefs(rawData[..i]), ArticleRefsIn(rawData[i].sections), ArticleRefs(rawData[i + 1..]), id);
        if found.Some? {
          return;
        }
        i := i + 1;
      }
      TakeEnds(rawData);
      return None;
    }

    /** The inner loop of `FindArticle`, over the sections of one category. */
    method FindArticleIn(secs: seq<Section>, id: string) returns (found: Option<string>)
      ensures found == FirstWithId(ArticleRefsIn(secs), id)
    {
      var j := 0;
      while j < |secs|
        invariant 0 <= j <= |secs|
        invariant FirstWithId(ArticleRefsIn(secs[..j]), id).None?
      {
        found := FirstWithId(ArticleRefsOf(secs[j]), id);
        ArticleRefsInStep(secs, j);
        ArticleRefsInRest(secs, j + 1);
        FirstWithIdSplit(ArticleRefsIn(secs[..j]), ArticleRefsOf(secs[j]), ArticleRefsIn(secs[j + 1..]), id);
        if found.Some? {
          return;
        }
        j := j + 1;
      }
      TakeEnds(secs);
      return None;
    }

    // -------------------------------------------------------------------
    // Bodies

    /** `convert_body` (lines 166-205): a body that is not a String comes
        back as it is; otherwise each attachment URL is downloaded and
        replaced by a quoted link into `./attachments/`, each category,
        section or article URL by the local path of the first resource of
        its kind with the captured id (or left as it was), and finally the
        headings shift one level down when the body has an `<h1`.
        `fetches` says which content URLs the HTTP get can fetch. */
    method ConvertBody(body: Body, fetches: string -> bool) returns (r: Body)
      requires Valid() && CanRun(disk.root, BodyOps(outputType, body, fetches))
      modifies disk
      ensures Valid()
      ensures r == Converted(body, IndexOf(rawData), outputType)
      ensures disk.root == Run(old(disk.root), BodyOps(outputType, body, fetches))
    {
      if body.NotText? {
        return body;
      }
      var ps := body.pieces;
      var text := "";
      var k := 0;
      while k < |ps|
        invariant 0 <= k <= |ps| && Valid()
        invariant text == Rewritten(ps[..k], IndexOf(rawData), outputType)
        invariant CanRun(disk.root, PieceOps(outputType, ps, k, fetches))
        invariant Run(disk.root, PieceOps(outputType, ps, k, fetches)) ==
                  Run(old(disk.root), PieceOps(outputType, ps, 0, fetches))
      {
        RunAppend(disk.root, PieceDownloads(outputType, ps[k], fetches), PieceOps(outputType, ps, k + 1, fetches));
        var piece := ConvertPiece(ps[k], fetches);
        RewrittenStep(ps, k, IndexOf(rawData), outputType);
        text := text + piece;
        k := k + 1;
      }
      TakeEnds(ps);
      var shifted := if ContainsH1(text) then ShiftHeadings(text) else text;
      r := Markup([Text(shifted)]);
    }

    /** One replacement block of the `gsub!` calls of `convert_body`. */
    method ConvertPiece(p: Piece, fetches: string -> bool) returns (s: string)
      requires Valid() && CanRun(disk.root, PieceDownloads(outputType, p, fetches))
      modifies disk
      ensures Valid()
      ensures s == RewritePiece(p, IndexOf(rawData), outputType)
      ensures disk.root == Run(old(disk.root), PieceDownloads(outputType, p, fetches))
    {
      match p {
        case Text(text) =>
          s := text;
        case AttachmentUrl(url, id, name, ext) =>
          s := LocalizeAttachment(url, id, name, ext, fetches);
        case ResourceUrl(kind, matched, id) =>
          var found := FindResource(kind, id);
          s := if found.Some? then "../../../" + found.value else matched;
      }
    }

    /** The block of line 170: download the attachment, then link to the
        file under `./attachments/` (line 176). */
    method LocalizeAttachment(url: string, id: string, name: string, ext: string, fetches: string -> bool)
      returns (s: string)
      requires Valid()
      requires CanRun(disk.root, [Download(id, DownloadedName(outputType, id, name, ext), fetches(url))])
      modifies disk
      ensures Valid()
      ensures s == AttachmentLink(outputType, id, name, ext)
      ensures disk.root == Run(old(disk.root), [Download(id, DownloadedName(outputType, id, name, ext), fetches(url))])
    {
      RunCons(disk.root, Download(id, DownloadedName(outputType, id, name, ext), fetches(url)), []);
      var _ := DownloadAttachment(id, name + "." + ext, fetches(url));
      var file := if outputType == Slugified then id + "-" + name + "." + ext else id + "." + ext;
      s := "\"../../../" + AttachmentsDir + file + "\"";
    }

    /** The lookup of the blocks of lines 178, 183 and 191. */
    method FindResource(kind: UrlKind, id: string) returns (found: Option<string>)
      ensures found == Resolve(IndexOf(rawData), kind, id)
    {
      match kind {
        case CategoryUrl => found := FindCategory(id);
        case SectionUrl => found := FindSection(id);
        case ArticleUrl => found := FindArticle(id);
      }
    }

    // -------------------------------------------------------------------
    // to_html! (lines 80-150)

    /** `to_html!`.  Phase one walks the API listings: every category,
        section and article gets its ordinal prefixed to its name, its
        directory from `dir_path` and its `backup_path`; the attachments of
        each article are downloaded; a resource whose child listing failed
        is left out of `raw_data` (its directory stays).  Phase two converts
        every article body of `raw_data` and writes the article's
        `index.html`.  `api` is what the API calls returned and `fetches`
        which content URLs can be fetched. */
    method ToHtml(api: Option<seq<ApiCategory>>, fetches: string -> bool)
      requires Valid() && CanRun(disk.root, ToHtmlOps(outputType, api, rawData, fetches))
      modifies this, disk
      ensures Valid()
      ensures rawData == AfterToHtml(outputType, api, old(rawData))
      ensures disk.root == Run(old(disk.root), ToHtmlOps(outputType, api, old(rawData), fetches))
    {
      if api.None? {
        return;
      }
      var cats := api.value;
      RunAppend(disk.root, CategoryOps(outputType, cats, 0, fetches),
                LocalizeOps(outputType, rawData + CollectCategories(outputType, cats), 0, fetches));
      var kept := FetchCategories(cats, fetches);
      rawData := rawData + kept;
      LocalizeAll(fetches);
    }

    /** The category loop of phase one. */
    method FetchCategories(cats: seq<ApiCategory>, fetches: string -> bool) returns (kept: seq<Category>)
      requires Valid() && CanRun(disk.root, CategoryOps(outputType, cats, 0, fetches))
      modifies disk
      ensures Valid() && kept == CollectCategories(outputType, cats)
      ensures disk.root == Run(old(disk.root), CategoryOps(outputType, cats, 0, fetches))
    {
      kept := [];
      var ci := 0;
      TakeEnds(cats);
      while ci < |cats|
        invariant 0 <= ci <= |cats| && Valid()
        invariant kept == CollectCategories(outputType, cats[..ci])
        invariant CanRun(disk.root, CategoryOps(outputType, cats, ci, fetches))
        invariant Run(disk.root, CategoryOps(outputType, cats, ci, fetches)) ==
                  Run(old(disk.root), CategoryOps(outputType, cats, 0, fetches))
      {
        var entry := FetchCategory(cats, ci, fetches);
        CollectCategoriesStep(outputType, cats, ci);
        kept := kept + Listed(entry);
        ci := ci + 1;
      }
    }

    /** One category of phase one: numbered, its directory made, and its
        sections fetched when its section listing came back. */
    method FetchCategory(cats: seq<ApiCategory>, ci: nat, fetches: string -> bool) returns (entry: Option<Category>)
      requires Valid() && ci < |cats| && CanRun(disk.root, CategoryOps(outputType, cats, ci, fetches))
      modifies disk
      ensures Valid() && entry == ExportCategory(outputType, ci, cats[ci])
      ensures CanRun(disk.root, CategoryOps(outputType, cats, ci + 1, fetches))
      ensures Run(disk.root, CategoryOps(outputType, cats, ci + 1, fetches)) ==
              Run(old(disk.root), CategoryOps(outputType, cats, ci, fetches))
    {
      var c := cats[ci];
      var cr := CategoryResource(ci, c);
      ghost var rest := match c.sections
        case None => []
        case Some(secs) => SectionOps(outputType, cr, ci, secs, 0, fetches);
      RunAppend(disk.root, OneCategoryOps(outputType, ci, c, fetches), CategoryOps(outputType, cats, ci + 1, fetches));
      RunCons(disk.root, MakePath(PathSteps(outputType, [cr])), rest);
      var dir := DirPath([cr]);
      match c.sections {
        case None =>
          entry := None;
        case Some(secs) =>
          var sections := FetchSections(cr, ci, secs, fetches);
          entry := Some(Category(c.id, cr.name, dir + "index.html", sections));
      }
    }

    /** The section loop of phase one for one category. */
    method FetchSections(cr: Resource, ci: nat, secs: seq<ApiSection>, fetches: string -> bool)
      returns (kept: seq<Section>)
      requires Valid() && CanRun(disk.root, SectionOps(outputType, cr, ci, secs, 0, fetches))
      modifies disk
      ensures Valid() && kept == CollectSections(outputType, cr, ci, secs)
      ensures disk.root == Run(old(disk.root), SectionOps(outputType, cr, ci, secs, 0, fetches))
    {
      kept := [];
      var si := 0;
      TakeEnds(secs);
      while si < |secs|
        invariant 0 <= si <= |secs| && Valid()
        invariant kept == CollectSections(outputType, cr, ci, secs[..si])
        invariant CanRun(disk.root, SectionOps(outputType, cr, ci, secs, si, fetches))
        invariant Run(disk.root, SectionOps(outputType, cr, ci, secs, si, fetches)) ==
                  Run(old(disk.root), SectionOps(outputType, cr, ci, secs, 0, fetches))
      {
        var entry := FetchSection(cr, ci, secs, si, fetches);
        CollectSectionsStep(outputType, cr, ci, secs, si);
        kept := kept + Listed(entry);
        si := si + 1;
      }
    }

    /** One section of phase one. */
    method FetchSection(cr: Resource, ci: nat, secs: seq<ApiSection>, si: nat, fetches: string -> bool)
      returns (entry: Option<Section>)
      requires Valid() && si < |secs| && CanRun(disk.root, SectionOps(outputType, cr, ci, secs, si, fetches))
      modifies disk
      ensures Valid() && entry == ExportSection(outputType, cr, ci, si, secs[si])
      ensures CanRun(disk.root, SectionOps(outputType, cr, ci, secs, si + 1, fetches))
      ensures Run(disk.root, SectionOps(outputType, cr, ci, secs, si + 1, fetches)) ==
              Run(old(disk.root), SectionOps(outputType, cr, ci, secs, si, fetches))
    {
      var s := secs[si];
      var sr := SectionResource(ci, si, s);
      ghost var rest := match s.articles
        case None => []
        case Some(arts) => ArticleOps(outputType, cr, sr, ci, si, arts, 0, fetches);
      RunAppend(disk.root, OneSectionOps(outputType, cr, ci, si, s, fetches), SectionOps(outputType, cr, ci, secs, si + 1, fetches));
      RunCons(disk.root, MakePath(PathSteps(outputType, [cr, sr])), rest);
      var dir := DirPath([cr, sr]);
      match s.articles {
        case None =>
          entry := None;
        case Some(arts) =>
          var articles := FetchArticles(cr, sr, ci, si, arts, fetches);
          entry := Some(Section(s.id, sr.name, dir + "index.html", articles));
      }
    }

    /** The article loop of phase one for one section. */
    method FetchArticles(cr: Resource, sr: Resource, ci: nat, si: nat, arts: seq<ApiArticle>, fetches: string -> bool)
      returns (kept: seq<Article>)
      requires Valid() && CanRun(disk.root, ArticleOps(outputType, cr, sr, ci, si, arts, 0, fetches))
      modifies disk
      ensures Valid() && kept == CollectArticles(outputType, cr, sr, ci, si, arts)
      ensures disk.root == Run(old(disk.root), ArticleOps(outputType, cr, sr, ci, si, arts, 0, fetches))
    {
      kept := [];
      var ai := 0;
      TakeEnds(arts);
      while ai < |arts|
        invariant 0 <= ai <= |arts| && Valid()
        invariant kept == CollectArticles(outputType, cr, sr, ci, si, arts[..ai])
        invariant CanRun(disk.root, ArticleOps(outputType, cr, sr, ci, si, arts, ai, fetches))
        invariant Run(disk.root, ArticleOps(outputType, cr, sr, ci, si, arts, ai, fetches)) ==
                  Run(old(disk.root), ArticleOps(outputType, cr, sr, ci, si, arts, 0, fetches))
      {
        var entry := FetchArticle(cr, sr, ci, si, arts, ai, fetches);
        CollectArticlesStep(outputType, cr, sr, ci, si, arts, ai);
        kept := kept + Listed(entry);
        ai := ai + 1;
      }
    }

    /** One article of phase one: its attachments are listed and downloaded
        when the attachment listing came back. */
    method FetchArticle(cr: Resource, sr: Resource, ci: nat, si: nat, arts: seq<ApiArticle>, ai: nat,
                        fetches: string -> bool) returns (entry: Option<Article>)
      requires Valid() && ai < |arts| && CanRun(disk.root, ArticleOps(outputType, cr, sr, ci, si, arts, ai, fetches))
      modifies disk
      ensures Valid() && entry == ExportArticle(outputType, cr, sr, ci, si, ai, arts[ai])
      ensures CanRun(disk.root, ArticleOps(outputType, cr, sr, ci, si, arts, ai + 1, fetches))
      ensures Run(disk.root, ArticleOps(outputType, cr, sr, ci, si, arts, ai + 1, fetches)) ==
              Run(old(disk.root), ArticleOps(outputType, cr, sr, ci, si, arts, ai, fetches))
    {
      var a := arts[ai];
      var ar := ArticleResource(ci, si, ai, a);
      ghost var rest := match a.attachments
        case None => []
        case Some(atts) => AttachmentOps(outputType, atts, 0, fetches);
      RunAppend(disk.root, OneArticleOps(outputType, cr, sr, ci, si, ai, a, fetches),
                ArticleOps(outputType, cr, sr, ci, si, arts, ai + 1, fetches));
      RunCons(disk.root, MakePath(PathSteps(outputType, [cr, sr, ar])), rest);
      var dir := DirPath([cr, sr, ar]);
      match a.attachments {
        case None =>
          entry := None;
        case Some(atts) =>
          var listed := StoreAttachments(atts, fetches);
          entry := Some(Article(a.id, ar.name, dir + "index.html", a.body, listed));
      }
    }

    /** The attachment loop of phase one: each listed attachment is recorded
        and downloaded. */
    method StoreAttachments(atts: seq<ApiAttachment>, fetches: string -> bool) returns (listed: seq<ApiAttachment>)
      requires Valid() && CanRun(disk.root, AttachmentOps(outputType, atts, 0, fetches))
      modifies disk
      ensures Valid() && listed == atts
      ensures disk.root == Run(old(disk.root), AttachmentOps(outputType, atts, 0, fetches))
    {
      listed := [];
      var j := 0;
      TakeEnds(atts);
      while j < |atts|
        invariant 0 <= j <= |atts| && Valid()
        invariant listed == atts[..j]
        invariant CanRun(disk.root, AttachmentOps(outputType, atts, j, fetches))
        invariant Run(disk.root, AttachmentOps(outputType, atts, j, fetches)) ==
                  Run(old(disk.root), AttachmentOps(outputType, atts, 0, fetches))
      {
        StoreAttachment(atts, j, fetches);
        TakeStep(atts, j);
        listed := listed + [atts[j]];
        j := j + 1;
      }
    }

    /** One attachment of the loop: `download_attachment!` under its id. */
    method StoreAttachment(atts: seq<ApiAttachment>, j: nat, fetches: string -> bool)
      requires Valid() && j < |atts| && CanRun(disk.root, AttachmentOps(outputType, atts, j, fetches))
      modifies disk
      ensures Valid() && CanRun(disk.root, AttachmentOps(outputType, atts, j + 1, fetches))
      ensures Run(disk.root, AttachmentOps(outputType, atts, j + 1, fetches)) ==
              Run(old(disk.root), AttachmentOps(outputType, atts, j, fetches))
    {
      var att := atts[j];
      RunCons(disk.root, AttachmentDownload(outputType, att, fetches), AttachmentOps(outputType, atts, j + 1, fetches));
      var _ := DownloadAttachment(NatToString(att.id), att.fileName, fetches(att.contentUrl));
    }

    /** Phase two: every article of `raw_data` has its body converted and
        its `index.html` written, category by category. */
    method LocalizeAll(fetches: string -> bool)
      requires Valid() && CanRun(disk.root, LocalizeOps(outputType, rawData, 0, fetches))
      modifies this, disk
      ensures Valid()
      ensures rawData == Localized(old(rawData), IndexOf(old(rawData)), outputType)
      ensures disk.root == Run(old(disk.root), LocalizeOps(outputType, old(rawData), 0, fetches))
    {
      ghost var data := rawData;
      ghost var idx := IndexOf(data);
      PartlyLocalizedEnds(data, idx, outputType);
      var ci := 0;
      while ci < |rawData|
        invariant 0 <= ci <= |rawData| == |data| && Valid()
        invariant rawData == PartlyLocalized(data, ci, idx, outputType)
        invariant CanRun(disk.root, LocalizeOps(outputType, data, ci, fetches))
        invariant Run(disk.root, LocalizeOps(outputType, data, ci, fetches)) ==
                  Run(old(disk.root), LocalizeOps(outputType, data, 0, fetches))
      {
        PartlyLocalizedStep(data, ci, idx, outputType);
        var c := rawData[ci];
        RunAppend(disk.root, LocalizeSectionOps(outputType, c, c.sections, 0, fetches),
                  LocalizeOps(outputType, data, ci + 1, fetches));
        var secs := LocalizeSections(c, fetches);
        rawData := rawData[ci := c.(sections := secs)];
        ci := ci + 1;
      }
    }

    /** The section loop of phase two for one category. */
    method LocalizeSections(c: Category, fetches: string -> bool) returns (secs: seq<Section>)
      requires Valid() && CanRun(disk.root, LocalizeSectionOps(outputType, c, c.sections, 0, fetches))
      modifies disk
      ensures Valid() && secs == LocalizedSections(c.sections, IndexOf(rawData), outputType)
      ensures disk.root == Run(old(disk.root), LocalizeSectionOps(outputType, c, c.sections, 0, fetches))
    {
      secs := c.sections;
      var si := 0;
      while si < |secs|
        invariant 0 <= si <= |secs| == |c.sections| && Valid()
        invariant forall j :: 0 <= j < si ==> secs[j] == LocalizedSections(c.sections, IndexOf(rawData), outputType)[j]
        invariant forall j :: si <= j < |secs| ==> secs[j] == c.sections[j]
        invariant CanRun(disk.root, LocalizeSectionOps(outputType, c, c.sections, si, fetches))
        invariant Run(disk.root, LocalizeSectionOps(outputType, c, c.sections, si, fetches)) ==
                  Run(old(disk.root), LocalizeSectionOps(outputType, c, c.sections, 0, fetches))
      {
        var s := secs[si];
        RunAppend(disk.root, LocalizeArticleOps(outputType, c, s, s.articles, 0, fetches),
                  LocalizeSectionOps(outputType, c, c.sections, si + 1, fetches));
        var arts := LocalizeArticles(c, s, fetches);
        secs := secs[si := s.(articles := arts)];
        si := si + 1;
      }
      assert secs == LocalizedSections(c.sections, IndexOf(rawData), outputType);
    }

    /** The article loop of phase two for one section (lines 141-145). */
    method LocalizeArticles(c: Category, s: Section, fetches: string -> bool) returns (arts: seq<Article>)
      requires Valid() && CanRun(disk.root, LocalizeArticleOps(outputType, c, s, s.articles, 0, fetches))
      modifies disk
      ensures Valid() && arts == LocalizedArticles(s.articles, IndexOf(rawData), outputType)
      ensures disk.root == Run(old(disk.root), LocalizeArticleOps(outputType, c, s, s.articles, 0, fetches))
    {
      ghost var idx := IndexOf(rawData);
      ghost var target := LocalizedArticles(s.articles, idx, outputType);
      arts := s.articles;
      var ai := 0;
      while ai < |arts|
        invariant 0 <= ai <= |arts| == |s.articles| && Valid() && idx == IndexOf(rawData)
        invariant forall j :: 0 <= j < ai ==> arts[j] == target[j]
        invariant forall j :: ai <= j < |arts| ==> arts[j] == s.articles[j]
        invariant CanRun(disk.root, LocalizeArticleOps(outputType, c, s, s.articles, ai, fetches))
        invariant Run(disk.root, LocalizeArticleOps(outputType, c, s, s.articles, ai, fetches)) ==
                  Run(old(disk.root), LocalizeArticleOps(outputType, c, s, s.articles, 0, fetches))
      {
        var a := LocalizeArticle(c, s, ai, fetches);
        assert a == target[ai];
        arts := arts[ai := a];
        ai := ai + 1;
      }
      assert arts == target;
    }

    /** One article of phase two: its body converted and its `index.html`
        written under its directory. */
    method LocalizeArticle(c: Category, s: Section, ai: nat, fetches: string -> bool) returns (a: Article)
      requires Valid() && ai < |s.articles|
      requires CanRun(disk.root, LocalizeArticleOps(outputType, c, s, s.articles, ai, fetches))
      modifies disk
      ensures Valid() && a == s.articles[ai].(body := Converted(s.articles[ai].body, IndexOf(rawData), outputType))
      ensures CanRun(disk.root, LocalizeArticleOps(outputType, c, s, s.articles, ai + 1, fetches))
      ensures Run(disk.root, LocalizeArticleOps(outputType, c, s, s.articles, ai + 1, fetches)) ==
              Run(old(disk.root), LocalizeArticleOps(outputType, c, s, s.articles, ai, fetches))
    {
      a := s.articles[ai];
      var write := Effects.WriteFile(ArticleDir(outputType, c, s, a), "index.html");
      RunAppend(disk.root, BodyOps(outputType, a.body, fetches) + [write],
                LocalizeArticleOps(outputType, c, s, s.articles, ai + 1, fetches));
      RunAppend(disk.root, BodyOps(outputType, a.body, fetches), [write]);
      var body := ConvertBody(a.body, fetches);
      RunCons(disk.root, write, []);
      WriteFile(ArticleDir(outputType, c, s, a), "index.html");
      a := a.(body := body);
    }

    // -------------------------------------------------------------------
    // The tables of contents (lines 218-291)

    /** `section_overview_file`: the heading lines when the overview stands
        alone, then one list item per article. */
    method SectionOverviewFile(s: Section, base: string) returns (html: string)
      ensures html == SectionOverview(AsWritten, s, base)
    {
      var content: seq<string> := Heading(base, s.name) + ["<ul>"];
      ghost var head := content;
      var ai := 0;
      while ai < |s.articles|
        invariant 0 <= ai <= |s.articles|
        invariant content == head + ArticleItems(AsWritten, s.articles[..ai], base)
      {
        var a := s.articles[ai];
        var path := ChildPathAsWritten(base, a.id);
        var item := ["<li>", Anchor("article", a.id, path, a.name), "</li>"];
        ArticleItemsStep(AsWritten, s.articles, ai, base);
        AppendAssoc(head, ArticleItems(AsWritten, s.articles[..ai], base), item);
        content := content + item;
        ai := ai + 1;
      }
      TakeEnds(s.articles);
      content := content + ["</ul>"];
      html := BoilerPlate(Join(content, "\n"));
    }

    /** `category_overview_file`: one list item per section, holding the
        section's overview under the section's path when `recursive`. */
    method CategoryOverviewFile(c: Category, recursive: bool, base: string) returns (html: string)
      ensures html == CategoryOverview(AsWritten, c, recursive, base)
    {
      var content: seq<string> := Heading(base, c.name) + ["<ul>"];
      ghost var head := content;
      var si := 0;
      while si < |c.sections|
        invariant 0 <= si <= |c.sections|
        invariant content == head + SectionItems(AsWritten, c.sections[..si], recursive, base)
      {
        var item := SectionListItem(c.sections[si], recursive, base);
        SectionItemsStep(AsWritten, c.sections, si, recursive, base);
        AppendAssoc(head, SectionItems(AsWritten, c.sections[..si], recursive, base), item);
        content := content + item;
        si := si + 1;
      }
      TakeEnds(c.sections);
      content := content + ["</ul>"];
      html := BoilerPlate(Join(content, "\n"));
    }

    /** `root_overview_file`: one list item per category of `raw_data`. */
    method RootOverviewFile(recursive: bool, base: string) returns (html: string)
      ensures html == RootOverview(AsWritten, rawData, recursive, base)
    {
      var content: seq<string> := RootHeading(base) + ["<ul>"];
      ghost var head := content;
      var ci := 0;
      while ci < |rawData|
        invariant 0 <= ci <= |rawData|
        invariant content == head + CategoryItems(AsWritten, rawData[..ci], recursive, base)
      {
        var item := CategoryListItem(rawData[ci], recursive, base);
        CategoryItemsStep(AsWritten, rawData, ci, recursive, base);
        AppendAssoc(head, CategoryItems(AsWritten, rawData[..ci], recursive, base), item);
        content := content + item;
        ci := ci + 1;
      }
      TakeEnds(rawData);
      content := content + ["</ul>"];
      html := BoilerPlate(Join(content, "\n"));
    }

    /** One list item of `category_overview_file`: the section's anchor
        and, when `recursive`, the section's overview under its path. */
    method SectionListItem(s: Section, recursive: bool, base: string) returns (item: seq<string>)
      ensures item == SectionItem(AsWritten, s, recursive, base)
    {
      var path := ChildPathAsWritten(base, s.id);
      var nested: seq<string> := [];
      if recursive {
        var sub := SectionOverviewFile(s, path);
        nested := [sub];
      }
      item := ["<li>", Anchor("section", s.id, path, s.name)] + nested + ["</li>"];
    }

    /** One list item of `root_overview_file`. */
    method CategoryListItem(c: Category, recursive: bool, base: string) returns (item: seq<string>)
      ensures item == CategoryItem(AsWritten, c, recursive, base)
    {
      var path := ChildPathAsWritten(base, c.id);
      var nested: seq<string> := [];
      if recursive {
        var sub := CategoryOverviewFile(c, recursive, path);
        nested := [sub];
      }
      item := ["<li>", Anchor("category", c.id, path, c.name)] + nested + ["</li>"];
    }

    /** `main_overview_file`. */
    method MainOverviewFile() returns (html: string)
      ensures html == MainOverview(AsWritten, rawData)
    {
      html := RootOverviewFile(true, Top);
    }

    /** `all_overview_files`: the main overview under `./index.html`, then
        for each category its recursive overview under its `backup_path` and
        for each of its sections the section's overview under the section's
        `backup_path`, later assignments replacing earlier ones. */
    method AllOverviewFiles() returns (files: map<string, string>)
      ensures files == OverviewFiles(AsWritten, rawData)
    {
      var main := MainOverviewFile();
      ghost var first := [(Top + "index.html", main)];
      files := map[Top + "index.html" := main];
      AssignStep([], first[0]);
      assert [] + [first[0]] == first;
      TakeEnds(rawData);
      assert first + CategoryWrites(AsWritten, rawData[..0]) == first;
      var ci := 0;
      while ci < |rawData|
        invariant 0 <= ci <= |rawData|
        invariant files == Assign(first + CategoryWrites(AsWritten, rawData[..ci]))
      {
        var c := rawData[ci];
        var doc := CategoryOverviewFile(c, true, Top);
        ghost var before := first + CategoryWrites(AsWritten, rawData[..ci]);
        files := FileSections(files, c, doc, before);
        CategoryWritesStep(AsWritten, rawData, ci);
        AppendAssoc(first, CategoryWrites(AsWritten, rawData[..ci]) + [(c.backupPath, doc)], SectionWrites(AsWritten, c.sections));
        AppendAssoc(first, CategoryWrites(AsWritten, rawData[..ci]), [(c.backupPath, doc)]);
        ci := ci + 1;
      }
      TakeEnds(rawData);
    }

    /** The body of the category loop of `all_overview_files`. */
    method FileSections(files0: map<string, string>, c: Category, doc: string, ghost before: seq<(string, string)>)
      returns (files: map<string, string>)
      requires files0 == Assign(before)
      ensures files == Assign(before + [(c.backupPath, doc)] + SectionWrites(AsWritten, c.sections))
    {
      files := files0[c.backupPath := doc];
      AssignStep(before, (c.backupPath, doc));
      ghost var done := before + [(c.backupPath, doc)];
      TakeEnds(c.sections);
      assert done + SectionWrites(AsWritten, c.sections[..0]) == done;
      var si := 0;
      while si < |c.sections|
        invariant 0 <= si <= |c.sections|
        invariant files == Assign(done + SectionWrites(AsWritten, c.sections[..si]))
      {
        var s := c.sections[si];
        var sdoc := SectionOverviewFile(s, Top);
        ghost var sofar := done + SectionWrites(AsWritten, c.sections[..si]);
        AssignStep(sofar, (s.backupPath, sdoc));
        files := files[s.backupPath := sdoc];
        SectionWritesStep(AsWritten, c.sections, si);
        AppendAssoc(done, SectionWrites(AsWritten, c.sections[..si]), [(s.backupPath, sdoc)]);
        si := si + 1;
      }
      TakeEnds(c.sections);
    }
  }
}
