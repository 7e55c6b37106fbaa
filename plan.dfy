/** The disk operations of one `to_html!` run, in the order the Ruby code
    performs them. */
module Plan {
  import opened Wrappers
  import opened Naming
  import opened Disk
  import opened Reconcile
  import opened Effects
  import opened Links
  import opened Tree

  // ---------------------------------------------------------------------
  // Phase one: directories and listed attachments (lines 86-135)

  /** `download_attachment!` of an attachment from the API listing, whose
      id is the integer `id.to_s` (lines 122-126). */
  function AttachmentDownload(t: OutputType, att: ApiAttachment, fetches: string -> bool): DiskOp {
    var id := NatToString(att.id);
    Download(id, AttachmentFileName(t, id, att.fileName), fetches(att.contentUrl))
  }

  function AttachmentOps(t: OutputType, atts: seq<ApiAttachment>, k: nat, fetches: string -> bool): seq<DiskOp>
    decreases |atts| - k
  {
    if k >= |atts| then [] else [AttachmentDownload(t, atts[k], fetches)] + AttachmentOps(t, atts, k + 1, fetches)
  }

  /** One article: its `dir_path`, then its attachments if they were listed. */
  function OneArticleOps(t: OutputType, cr: Resource, sr: Resource, ci: nat, si: nat, ai: nat,
                         a: ApiArticle, fetches: string -> bool): seq<DiskOp>
  {
    [MakePath(PathSteps(t, [cr, sr, ArticleResource(ci, si, ai, a)]))] +
    match a.attachments
    case None => []
    case Some(atts) => AttachmentOps(t, atts, 0, fetches)
  }

  function ArticleOps(t: OutputType, cr: Resource, sr: Resource, ci: nat, si: nat,
                      arts: seq<ApiArticle>, k: nat, fetches: string -> bool): seq<DiskOp>
    decreases |arts| - k
  {
    if k >= |arts| then []
    else OneArticleOps(t, cr, sr, ci, si, k, arts[k], fetches) + ArticleOps(t, cr, sr, ci, si, arts, k + 1, fetches)
  }

  function OneSectionOps(t: OutputType, cr: Resource, ci: nat, si: nat, s: ApiSection,
                         fetches: string -> bool): seq<DiskOp>
  {
    var sr := SectionResource(ci, si, s);
    [MakePath(PathSteps(t, [cr, sr]))] +
    match s.articles
    case None => []
    case Some(arts) => ArticleOps(t, cr, sr, ci, si, arts, 0, fetches)
  }

  function SectionOps(t: OutputType, cr: Resource, ci: nat, secs: seq<ApiSection>, k: nat,
                      fetches: string -> bool): seq<DiskOp>
    decreases |secs| - k
  {
    if k >= |secs| then []
    else OneSectionOps(t, cr, ci, k, secs[k], fetches) + SectionOps(t, cr, ci, secs, k + 1, fetches)
  }

  function OneCategoryOps(t: OutputType, ci: nat, c: ApiCategory, fetches: string -> bool): seq<DiskOp> {
    var cr := CategoryResource(ci, c);
    [MakePath(PathSteps(t, [cr]))] +
    match c.sections
    case None => []
    case Some(secs) => SectionOps(t, cr, ci, secs, 0, fetches)
  }

  function CategoryOps(t: OutputType, cats: seq<ApiCategory>, k: nat, fetches: string -> bool): seq<DiskOp>
    decreases |cats| - k
  {
    if k >= |cats| then []
    else OneCategoryOps(t, k, cats[k], fetches) + CategoryOps(t, cats, k + 1, fetches)
  }

  // ---------------------------------------------------------------------
  // Phase two: attachments linked from bodies and the article files
  // (lines 139-147, 170-177)

  /** The download one piece of a body triggers: one for an attachment URL,
      whose id is the captured string (line 175), none otherwise. */
  function PieceDownloads(t: OutputType, p: Piece, fetches: string -> bool): seq<DiskOp> {
    match p
    case AttachmentUrl(url, id, name, ext) => [Download(id, DownloadedName(t, id, name, ext), fetches(url))]
    case _ => []
  }

  /** The downloads of `convert_body`, in body order, from piece `k` on. */
  function PieceOps(t: OutputType, ps: seq<Piece>, k: nat, fetches: string -> bool): seq<DiskOp>
    decreases |ps| - k
  {
    if k >= |ps| then [] else PieceDownloads(t, ps[k], fetches) + PieceOps(t, ps, k + 1, fetches)
  }

  function BodyOps(t: OutputType, b: Body, fetches: string -> bool): seq<DiskOp> {
    match b
    case NotText => []
    case Markup(ps) => PieceOps(t, ps, 0, fetches)
  }

  /** The directory of an article's `index.html`, from the numbered names
      kept in the records. */
  function ArticleDir(t: OutputType, c: Category, s: Section, a: Article): Path {
    [Segment(t, c.id, c.name), Segment(t, s.id, s.name), Segment(t, a.id, a.name)]
  }

  function LocalizeArticleOps(t: OutputType, c: Category, s: Section, arts: seq<Article>, k: nat,
                              fetches: string -> bool): seq<DiskOp>
    decreases |arts| - k
  {
    if k >= |arts| then []
    else
      BodyOps(t, arts[k].body, fetches) + [WriteFile(ArticleDir(t, c, s, arts[k]), "index.html")] +
      LocalizeArticleOps(t, c, s, arts, k + 1, fetches)
  }

  function LocalizeSectionOps(t: OutputType, c: Category, secs: seq<Section>, k: nat,
                              fetches: string -> bool): seq<DiskOp>
    decreases |secs| - k
  {
    if k >= |secs| then []
    else
      LocalizeArticleOps(t, c, secs[k], secs[k].articles, 0, fetches) +
      LocalizeSectionOps(t, c, secs, k + 1, fetches)
  }

  function LocalizeOps(t: OutputType, cats: seq<Category>, k: nat, fetches: string -> bool): seq<DiskOp>
    decreases |cats| - k
  {
    if k >= |cats| then []
    else LocalizeSectionOps(t, cats[k], cats[k].sections, 0, fetches) + LocalizeOps(t, cats, k + 1, fetches)
  }

  // ---------------------------------------------------------------------
  // The whole of to_html!

  /** Everything one `to_html!` does to the disk, given what `raw_data`
      held before; nothing when the category listing fails (line 84). */
  function ToHtmlOps(t: OutputType, api: Option<seq<ApiCategory>>, data: seq<Category>,
                     fetches: string -> bool): seq<DiskOp>
  {
    match api
    case None => []
    case Some(cats) => CategoryOps(t, cats, 0, fetches) + LocalizeOps(t, data + CollectCategories(t, cats), 0, fetches)
  }

  /** `raw_data` after `to_html!`: the new records appended, then every
      body localized against the whole tree. */
  function AfterToHtml(t: OutputType, api: Option<seq<ApiCategory>>, data: seq<Category>): seq<Category> {
    match api
    case None => data
    case Some(cats) =>
      var all := data + CollectCategories(t, cats);
      Localized(all, IndexOf(all), t)
  }
}
