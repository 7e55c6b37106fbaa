# Zendesk Help Center export — a Dafny model

`zendesk-helpcenter-export.rb` mirrors a Zendesk Help Center to a local
directory tree. It reads the API's categories, their sections and each
section's articles, and numbers them by their position (`"1. "`, `"1-2. "`,
`"1-2-3. "`). It gives each resource a directory named after its id, or
after its id and the slug of its numbered name. It downloads every article
attachment once into `./attachments/`. It then rewrites each article body so
that attachment and help-center URLs point at the local copies, and writes
tables of contents that link the tree together.

The model has these modules:

- `Slug` — `slugify`.
- `Naming` — the directory segment under `:slugified` and `:id_only`, the
  attachment file name, `File.extname`, and the `"./a/b/"` path strings.
- `Disk` — the working directory as a tree of named entries, with a
  `FileSystem` class whose root the exporter updates in place.
- `Reconcile` — what `rename_dir_or_file_starting_with_id!`, one step of
  `dir_path` and the naming part of `download_attachment!` do to a listing,
  as functions.
- `Effects` — disk operations (make a path, download an attachment, write a
  file) and when each one goes through; `Plan` lists the operations of one
  `to_html!` run in the code's order.
- `Tree` — the API listings, the numbered records `to_html!` keeps in
  `raw_data` with their `backup_path`, and phase two's body localization.
- `Links` — `convert_body`: URL rewriting and the heading shift.
- `Toc` — the overview documents and the `all_overview_files` map.
- `Settings` — `invalid_inputs?` and the level test of `log`.
- `Export` — the `Exporter` class: `to_html!`, `dir_path`,
  `download_attachment!`, `convert_body` and the overview builders as
  methods, each proved against the functions above.

Network answers are parameters. An API listing is `Option<seq<…>>`, where
`None` means the request raised or `api_error?` held. Attachment fetches are
a `fetches: string -> bool` function of the content URL. Ruby symbols are
modelled as strings.

## Model

| member | source | states |
|---|---|---|
| Slug.Slugify | zendesk-helpcenter-export.rb:388-390 | the slug is no longer than the text and holds only lower-case-or-digit word characters and hyphens |
| Slug.SlugifyIdempotent | zendesk-helpcenter-export.rb:388-390 | slugifying a slug gives it back unchanged |
| Slug.SlugifyEmpty | zendesk-helpcenter-export.rb:388-390 | the empty name slugifies to the empty string |
| Slug.StripIsSlice | zendesk-helpcenter-export.rb:389 | `strip` returns a piece of its input: no longer, and every character comes from it |
| Slug.KeepWordCharsFrom | zendesk-helpcenter-export.rb:389 | `gsub(/[^\w-]/, '')` keeps only word characters and hyphens, each taken from the input |
| Slug.KeepWordCharsOfSlug | zendesk-helpcenter-export.rb:389 | the filter leaves a string that is already a slug untouched |
| Slug.StripOfSlug | zendesk-helpcenter-export.rb:389 | `strip` leaves a slug untouched |
| Slug.KeepWordCharsAppend | zendesk-helpcenter-export.rb:389 | the filter works character by character: it distributes over concatenation |
| Slug.SlugifyExample | zendesk-helpcenter-export.rb:388-390 | "Hello, World!" becomes "hello-world" |
| Naming.NatToString | zendesk-helpcenter-export.rb:352 | `id.to_s` is a non-empty string of decimal digits |
| Naming.Segment | zendesk-helpcenter-export.rb:352 | the directory segment starts with the id; it is the id alone under `:id_only`; any further text follows a hyphen; every character is file-system safe |
| Naming.DirStringSnoc | zendesk-helpcenter-export.rb:350-360 | the path `dir_path` returns grows by the resource's segment and a `/` per resource |
| Naming.DropLeadingDots | zendesk-helpcenter-export.rb:434 | the leading-dot strip `File.extname` performs returns a suffix of the name that does not start with a dot |
| Naming.LastDot | zendesk-helpcenter-export.rb:434 | finds the last dot of a name, or reports that there is none |
| Naming.ExtNameOfNameAndExt | zendesk-helpcenter-export.rb:434 | `File.extname` of `name.ext` is `.ext` when the name has a character other than a dot and the extension has no dot |
| Naming.LastDotAt | zendesk-helpcenter-export.rb:434 | a dot with no dot after it is the last dot |
| Naming.AttachmentFileName | zendesk-helpcenter-export.rb:434-435 | the stored attachment name starts with the attachment's id |
| Disk.IndexOfName | zendesk-helpcenter-export.rb:357 | finds the first entry with the name, and finds none exactly when no entry has it |
| Disk.LookupAfterReplace | zendesk-helpcenter-export.rb:384 | after replacing the node at a path, lookups below that path see the new node |
| Disk.ReplaceTwice | zendesk-helpcenter-export.rb:384 | replacing below a replaced node is one replacement of the combined node |
| Disk.ReplaceWithSame | zendesk-helpcenter-export.rb:357 | putting back the node that is already there changes nothing |
| Disk.LookupChild | zendesk-helpcenter-export.rb:357 | `File.exists?` of a child path holds exactly when the directory lists that name |
| Disk.WellFormedReplace | zendesk-helpcenter-export.rb:384 | replacing a node with a well-formed one keeps every directory free of duplicate names |
| Disk.WellFormedLookup | zendesk-helpcenter-export.rb:374 | every sub-tree of a well-formed tree is well-formed |
| Disk.FileSystem.constructor | zendesk-helpcenter-export.rb:350 | the working directory starts as the given well-formed directory tree |
| Disk.FileSystem.Exists | zendesk-helpcenter-export.rb:357 | `File.exists?` of a path holds exactly when its parent is a directory whose listing has the path's last name; `./` always exists |
| Disk.LookupParent | zendesk-helpcenter-export.rb:357 | a path resolves exactly when its parent resolves to a directory listing its last name |
| Disk.FileSystem.Move | zendesk-helpcenter-export.rb:384 | `FileUtils.mv` renames one entry in place and keeps its contents; the rest of the tree is unchanged and names stay unique |
| Disk.FileSystem.MakeDir | zendesk-helpcenter-export.rb:357 | `Dir.mkdir` appends one empty directory to the listing and changes nothing else |
| Disk.FileSystem.CreateFile | zendesk-helpcenter-export.rb:447 | creating a file appends it to the listing and changes nothing else |
| Disk.FileSystem.AddEntry | zendesk-helpcenter-export.rb:357 | adding a named entry appends it and changes nothing else |
| Reconcile.FirstWithPrefix | zendesk-helpcenter-export.rb:374-376 | returns the first entry whose name starts with the id, or none exactly when no entry does |
| Reconcile.ReconcileNoop | zendesk-helpcenter-export.rb:378-381 | when the method returns false, the listing is unchanged |
| Reconcile.ReconcileRenamesFirst | zendesk-helpcenter-export.rb:383-385 | when the method returns true, exactly the first id-prefixed entry takes the wanted name and keeps its contents |
| Reconcile.SameNamesFirstWithPrefix | zendesk-helpcenter-export.rb:374-376 | the entry chosen depends only on the listing's names |
| Reconcile.ReconcileConverges | zendesk-helpcenter-export.rb:373-386 | after a rename towards a name that starts with the id, the same entry carries that name and a second call renames nothing |
| Reconcile.ReconcileKeepsUnique | zendesk-helpcenter-export.rb:384 | a rename onto a free name keeps the listing's names unique |
| Reconcile.StepFirst | zendesk-helpcenter-export.rb:352-357 | after one step of `dir_path` the wanted segment exists, it is the first entry carrying the id, and repeating the step changes nothing |
| Reconcile.CountPrefixedZero | zendesk-helpcenter-export.rb:374-379 | no entry carries the id exactly when the count of id-prefixed entries is zero |
| Reconcile.StepCount | zendesk-helpcenter-export.rb:352-357 | a step of `dir_path` never adds a second entry for an id that has one, and adds exactly one when there is none |
| Reconcile.PlaceIsDir | zendesk-helpcenter-export.rb:350-360 | `dir_path` leaves the working directory a directory |
| Reconcile.PlaceDescend | zendesk-helpcenter-export.rb:350-360 | the steps after the first act inside the directory the first step made |
| Reconcile.PlaceMakesPath | zendesk-helpcenter-export.rb:357 | after `dir_path` every prefix of the returned path is an existing directory |
| Reconcile.PlaceIdempotent | zendesk-helpcenter-export.rb:346-361 | a second `dir_path` of the same chain changes nothing on disk |
| Reconcile.ReconciledKeepsPrefixed | zendesk-helpcenter-export.rb:437-440 | the attachment rename neither creates nor removes an entry carrying the id |
| Reconcile.MirrorDedup | zendesk-helpcenter-export.rb:437-447 | with an entry carrying the id, nothing is fetched and only the rename happens; without one, the file is added exactly when the fetch succeeds |
| Reconcile.MirrorConverges | zendesk-helpcenter-export.rb:437-447 | once found or fetched, the attachment's first id-prefixed entry has the wanted name, and a second download changes nothing |
| Reconcile.RenameExample | zendesk-helpcenter-export.rb:373-386 | `42-old-name` becomes `42-new-name` with its contents |
| Reconcile.PrefixGapExample | zendesk-helpcenter-export.rb:374-376 | reconciling id 1 renames the directory `10-faq`, because its name starts with "1" |
| Effects.WithAttachmentsDir | zendesk-helpcenter-export.rb:432 | after the `mkdir … unless exists?` the attachments directory is present |
| Effects.DownloadOnce | zendesk-helpcenter-export.rb:440 | an attachment found or fetched once is not downloaded again: a second `download_attachment!` changes nothing, whatever the network does |
| Effects.PrefixGapLosesDirectory | zendesk-helpcenter-export.rb:374-376 | under `:id_only`, placing id 1 renames the existing directory `10`, so a later write into `./10/` has no directory to go to (the crash at line 144) |
| Links.FirstWithId | zendesk-helpcenter-export.rb:180 | `find` by id returns the `backup_path` of the first record with that id, or nothing exactly when no record has it |
| Links.FirstWithIdAppend | zendesk-helpcenter-export.rb:185-188 | searching a concatenation searches the second part only when the first has no match |
| Links.FirstWithIdSplit | zendesk-helpcenter-export.rb:185-199 | the nested loops' early `break` gives the same answer as one search over the flattened list |
| Links.FirstWithIdAt | zendesk-helpcenter-export.rb:180 | the first record carrying the id is the one found |
| Links.AttachmentLinkAgrees | zendesk-helpcenter-export.rb:170-176 | the link written for an attachment names exactly the file `download_attachment!` stores for it, when the name has a character other than a dot |
| Links.AttachmentLinkDotName | zendesk-helpcenter-export.rb:176 | under `:id_only` an attachment named `..png` is linked as `99.png` |
| Links.DownloadedDotName | zendesk-helpcenter-export.rb:174 | the same attachment is stored as `99`, since `File.extname("..png")` is empty |
| Links.ExtNameOfDots | zendesk-helpcenter-export.rb:434 | `File.extname` of a name made of dots and an extension is empty |
| Links.RewrittenStep | zendesk-helpcenter-export.rb:170-201 | the rewritten body grows piece by piece, in the order of the text |
| Links.ShiftHeadings | zendesk-helpcenter-export.rb:202 | the heading shift keeps the body's length and its first character |
| Links.ShiftHeadingsAt | zendesk-helpcenter-export.rb:202 | position by position: the `h` of `<h1`-`<h5` and `</h1`-`</h5` is downcased, the digit after it goes up by one, and every other character is kept |
| Links.ContainsH1Cons | zendesk-helpcenter-export.rb:202 | the body has an `<h1` exactly when it starts with one or its tail has one |
| Links.ContainsH1Short | zendesk-helpcenter-export.rb:202 | a text shorter than three characters has no `<h1` |
| Links.NoH1AfterShift | zendesk-helpcenter-export.rb:202 | after the shift no `<h1` remains |
| Links.HeadingPassIdempotent | zendesk-helpcenter-export.rb:202 | the conditional shift removes every `<h1`, and running it twice is running it once |
| Links.HeadingPassNeedsH1 | zendesk-helpcenter-export.rb:202 | a body without `<h1` keeps its headings as they are |
| Links.ShiftExamples | zendesk-helpcenter-export.rb:202 | `<h1>` becomes `<h2>`, `</H5>` becomes `</h6>`, and `<h6>` is left alone |
| Links.ConvertedIdempotent | zendesk-helpcenter-export.rb:166-205 | converting a converted body again changes nothing |
| Links.ResourceUrlResolution | zendesk-helpcenter-export.rb:178-201 | a help-center URL naming a known record becomes `../../../` followed by the first such record's `backup_path` |
| Links.UnresolvedUrlStays | zendesk-helpcenter-export.rb:181 | a URL whose id is not in `raw_data` is left exactly as matched |
| Tree.CollectArticles | zendesk-helpcenter-export.rb:110-129 | every article kept comes from the listing at some position, numbered by that position |
| Tree.CollectArticlesComplete | zendesk-helpcenter-export.rb:119-128 | every article whose attachment listing came back is kept |
| Tree.CollectArticlesStep | zendesk-helpcenter-export.rb:110-129 | the kept articles grow by each article in listing order |
| Tree.CollectSections | zendesk-helpcenter-export.rb:98-132 | every section kept comes from the listing at some position, numbered by that position |
| Tree.CollectSectionsComplete | zendesk-helpcenter-export.rb:107-131 | every section whose article listing came back is kept |
| Tree.CollectSectionsStep | zendesk-helpcenter-export.rb:98-132 | the kept sections grow by each section in listing order |
| Tree.CollectCategories | zendesk-helpcenter-export.rb:86-135 | every category kept comes from the listing at some position, numbered by that position |
| Tree.CollectCategoriesComplete | zendesk-helpcenter-export.rb:95-134 | every category whose section listing came back is kept |
| Tree.CollectCategoriesStep | zendesk-helpcenter-export.rb:86-135 | the kept categories grow by each category in listing order |
| Tree.ExportSectionPlaced | zendesk-helpcenter-export.rb:102-116 | a section's `backup_path` and those of its articles are the `index.html` of their own directory chains |
| Tree.ExportCategoryPlaced | zendesk-helpcenter-export.rb:90-92 | a category's `backup_path` and those of everything below it name their own directory chains |
| Tree.CollectedPlaced | zendesk-helpcenter-export.rb:86-135 | every record in `raw_data` after phase one names its own directory |
| Tree.OrdinalGap | zendesk-helpcenter-export.rb:87-96 | a category whose section listing failed is dropped, and the next one keeps its own ordinal ("2. ") |
| Tree.SectionRefsAppend | zendesk-helpcenter-export.rb:185-188 | the section search order over a concatenation is the two orders one after the other |
| Tree.ArticleRefsAppend | zendesk-helpcenter-export.rb:193-198 | the article search order over a concatenation is the two orders one after the other |
| Tree.SameRefsIndex | zendesk-helpcenter-export.rb:139-147 | records with the same ids and paths give the same lookup index |
| Tree.LocalizedSectionsKeepRefs | zendesk-helpcenter-export.rb:141-145 | converting bodies changes no id and no `backup_path` |
| Tree.PartlyLocalizedStep | zendesk-helpcenter-export.rb:139-147 | phase two replaces one category at a time, and every lookup during it sees the same index as before it |
| Tree.PartlyLocalizedEnds | zendesk-helpcenter-export.rb:139-147 | phase two starts from `raw_data` and ends with every body converted |
| Tree.LocalizedKeepsIndex | zendesk-helpcenter-export.rb:139-147 | converting all bodies keeps every id and `backup_path`, so the links phase two writes are the ones phase one planned |
| Tree.LocalizedIdempotent | zendesk-helpcenter-export.rb:139-147 | localizing an already localized tree changes nothing |
| Toc.ChildPathAsWritten | zendesk-helpcenter-export.rb:230 | the link path as written: the base path, the id and a `/` |
| Toc.AsWrittenAgreesIdOnly | zendesk-helpcenter-export.rb:230 | under `:id_only` the link as written is the child's directory |
| Toc.AsWrittenPathMisses | zendesk-helpcenter-export.rb:230 | under `:slugified` the path `./<id>/index.html` is never a category's `backup_path` |
| Toc.AsWrittenLinkMisses | zendesk-helpcenter-export.rb:218-235 | in the main overview as the code writes it, each category's anchor links to `./<id>/`, which under `:slugified` misses that category's `index.html` |
| Toc.CategoryItemsAppend | zendesk-helpcenter-export.rb:229-235 | the category list of a concatenation is the concatenation of the lists |
| Toc.CategoryItemsAt | zendesk-helpcenter-export.rb:229-235 | the `k`-th category has its own list item, whose anchor links to that category's link path |
| Toc.ArticleItemsAgree | zendesk-helpcenter-export.rb:269-274 | under `:id_only` the article list as written equals the corrected one |
| Toc.SectionOverviewAgrees | zendesk-helpcenter-export.rb:261-278 | under `:id_only` the section overview as written equals the corrected one |
| Toc.SectionItemsAgree | zendesk-helpcenter-export.rb:249-255 | under `:id_only` the section list as written equals the corrected one |
| Toc.CategoryOverviewAgrees | zendesk-helpcenter-export.rb:241-259 | under `:id_only` the category overview as written equals the corrected one |
| Toc.CategoryItemsAgree | zendesk-helpcenter-export.rb:229-235 | under `:id_only` the category list as written equals the corrected one |
| Toc.MainOverviewAgreesIdOnly | zendesk-helpcenter-export.rb:218-239 | under `:id_only` the main overview the code writes is the one whose links reach every record |
| Toc.ArticleItemsStep | zendesk-helpcenter-export.rb:269-274 | for either link style, the article list grows by one `<li>` anchor per article, in order |
| Toc.SectionItemsStep | zendesk-helpcenter-export.rb:249-255 | for either link style, the section list grows by one item per section, in order |
| Toc.CategoryItemsStep | zendesk-helpcenter-export.rb:229-235 | for either link style, the category list grows by one item per category, in order |
| Toc.DirStringLength | zendesk-helpcenter-export.rb:350-360 | a path under `./` for n resources has at least 2 + 2n characters |
| Toc.ChildPathChain | zendesk-helpcenter-export.rb:350-360 | the overview's nested link paths are the directory paths `dir_path` made |
| Toc.OverviewLinksReach | zendesk-helpcenter-export.rb:229-274 | with links to the directories `dir_path` made, every category, section and article link of the main overview leads to that record's `backup_path` |
| Toc.BackupPathsBelowRoot | zendesk-helpcenter-export.rb:91-104 | no category or section path is the root `./index.html` |
| Toc.Keys | zendesk-helpcenter-export.rb:281-288 | the keys of the writes are the paths, position by position |
| Toc.AssignKeys | zendesk-helpcenter-export.rb:281-288 | the hash has a key exactly when some write used it |
| Toc.AssignStep | zendesk-helpcenter-export.rb:284-286 | each hash assignment sets one key |
| Toc.AssignLast | zendesk-helpcenter-export.rb:281-288 | the value under a key is the last one written to it |
| Toc.SectionWritesKeys | zendesk-helpcenter-export.rb:285-287 | the section writes use the sections' `backup_path`s, in order |
| Toc.CategoryWritesKeys | zendesk-helpcenter-export.rb:283-288 | the category loop writes exactly the category and section paths, in order |
| Toc.AssignFirstKeys | zendesk-helpcenter-export.rb:281 | the hash holds `./index.html` and the keys written after it |
| Toc.AssignFirst | zendesk-helpcenter-export.rb:281 | a first entry that no later write overwrites keeps its value |
| Toc.OverviewFilesKeys | zendesk-helpcenter-export.rb:280-291 | the map's keys are exactly `./index.html` and the category and section paths |
| Toc.OverviewPathsComplete | zendesk-helpcenter-export.rb:283-288 | every category and section of `raw_data` has its path among the keys |
| Toc.OverviewPathsBelowRoot | zendesk-helpcenter-export.rb:283-288 | no category or section path collides with `./index.html` |
| Toc.OverviewFilesRoot | zendesk-helpcenter-export.rb:281 | for either link style, `./index.html` maps to the main overview |
| Toc.CategoryWritesHas | zendesk-helpcenter-export.rb:284-286 | for either link style, each category's recursive overview and each section's overview are written under their paths |
| Toc.SectionWritesHas | zendesk-helpcenter-export.rb:286 | for either link style, each section's overview is written under its path |
| Toc.AssignSame | zendesk-helpcenter-export.rb:281-288 | a key every write sets to the same value holds that value |
| Toc.AssignOnce | zendesk-helpcenter-export.rb:281-288 | with distinct later keys, each later write survives in the hash |
| Toc.OverviewFilesKeep | zendesk-helpcenter-export.rb:283-288 | for either link style, with distinct record paths, every category and section write survives in the map |
| Toc.OverviewFilesEntries | zendesk-helpcenter-export.rb:280-291 | for either link style, each category path maps to its recursive overview and each section path to its overview |
| Settings.ParseOutputType | zendesk-helpcenter-export.rb:60 | exactly `slugified` and `id_only` are output types |
| Settings.CheckInputs | zendesk-helpcenter-export.rb:322-339 | reports a missing required input exactly when one is missing, then an unknown log level exactly when that is the first fault, then an unknown output type |
| Settings.InvalidInputsMeaning | zendesk-helpcenter-export.rb:322-339 | the method returns true exactly when every required input is given and the log level and output type are known |
| Settings.ShouldLogMeaning | zendesk-helpcenter-export.rb:314-320 | standard messages are always written, verbose ones only at verbose level, and unknown levels never |
| Settings.ShouldLogMonotone | zendesk-helpcenter-export.rb:319 | raising the configured level never hides a message |
| Export.Exporter.constructor | zendesk-helpcenter-export.rb:65-75 | a new exporter has the given output type and an empty `raw_data` |
| Export.Exporter.RenameDirOrFileStartingWithId | zendesk-helpcenter-export.rb:373-386 | returns whether it renamed, and the directory becomes its reconciled listing |
| Export.Exporter.DirPath | zendesk-helpcenter-export.rb:346-361 | returns `./` plus one segment and `/` per resource, and the disk becomes the placed tree |
| Export.Exporter.DownloadAttachment | zendesk-helpcenter-export.rb:431-451 | returns whether an entry already carried the id; the disk becomes the mirrored attachments directory |
| Export.Exporter.WriteFile | zendesk-helpcenter-export.rb:144 | `File.open(…, "w+")` creates the file unless it is there |
| Export.Exporter.FindCategory | zendesk-helpcenter-export.rb:180 | finds the first category of `raw_data` with the id |
| Export.Exporter.FindSection | zendesk-helpcenter-export.rb:184-189 | the nested loop with `break` finds the first section with the id, in category order |
| Export.Exporter.FindArticle | zendesk-helpcenter-export.rb:192-200 | the doubly nested loop finds the first article with the id, in category and section order |
| Export.Exporter.FindArticleIn | zendesk-helpcenter-export.rb:194-197 | the inner loop finds the first article with the id among one category's sections |
| Export.Exporter.ConvertBody | zendesk-helpcenter-export.rb:166-205 | returns the converted body and downloads the body's attachments in text order |
| Export.Exporter.ConvertPiece | zendesk-helpcenter-export.rb:170-201 | one replacement block returns the piece's rewrite and downloads at most its attachment |
| Export.Exporter.LocalizeAttachment | zendesk-helpcenter-export.rb:170-176 | downloads the attachment and returns its local link |
| Export.Exporter.FindResource | zendesk-helpcenter-export.rb:178-201 | the lookup of each URL kind finds the first record with the id |
| Export.Exporter.ToHtml | zendesk-helpcenter-export.rb:80-150 | `raw_data` gains the numbered, placed records and then holds converted bodies; the disk receives exactly the planned directories, downloads and article files |
| Export.Exporter.FetchCategories | zendesk-helpcenter-export.rb:86-135 | keeps exactly the collected categories and performs their operations in order |
| Export.Exporter.FetchCategory | zendesk-helpcenter-export.rb:86-134 | one category is numbered, placed and kept exactly when its sections came back |
| Export.Exporter.FetchSections | zendesk-helpcenter-export.rb:98-132 | keeps exactly the collected sections and performs their operations in order |
| Export.Exporter.FetchSection | zendesk-helpcenter-export.rb:98-131 | one section is numbered, placed and kept exactly when its articles came back |
| Export.Exporter.FetchArticles | zendesk-helpcenter-export.rb:110-129 | keeps exactly the collected articles and performs their operations in order |
| Export.Exporter.FetchArticle | zendesk-helpcenter-export.rb:110-128 | one article is numbered, placed and kept exactly when its attachments came back |
| Export.Exporter.StoreAttachments | zendesk-helpcenter-export.rb:122-126 | records every listed attachment and downloads each in order |
| Export.Exporter.StoreAttachment | zendesk-helpcenter-export.rb:123-125 | one attachment is downloaded under its id |
| Export.Exporter.LocalizeAll | zendesk-helpcenter-export.rb:139-147 | every body of `raw_data` is converted against the index `raw_data` held before phase two, and each article file is written |
| Export.Exporter.LocalizeSections | zendesk-helpcenter-export.rb:140-146 | every section of a category has its articles localized |
| Export.Exporter.LocalizeArticles | zendesk-helpcenter-export.rb:141-145 | every article of a section has its body converted, in order |
| Export.Exporter.LocalizeArticle | zendesk-helpcenter-export.rb:142-144 | one article's body is converted and its `index.html` written |
| Export.Exporter.SectionOverviewFile | zendesk-helpcenter-export.rb:261-278 | builds the section overview document as the code writes it, with article links `base + id + "/"` |
| Export.Exporter.CategoryOverviewFile | zendesk-helpcenter-export.rb:241-259 | builds the category overview document as the code writes it, nesting section overviews when recursive |
| Export.Exporter.RootOverviewFile | zendesk-helpcenter-export.rb:222-239 | builds the root overview of `raw_data` as the code writes it, with the heading only at `./` |
| Export.Exporter.SectionListItem | zendesk-helpcenter-export.rb:250-254 | one section's list item as the code writes it: the anchor to `base + id + "/"`, then the nested overview when recursive |
| Export.Exporter.CategoryListItem | zendesk-helpcenter-export.rb:230-234 | one category's list item as the code writes it: the anchor to `base + id + "/"`, then the nested overview when recursive |
| Export.Exporter.MainOverviewFile | zendesk-helpcenter-export.rb:218-220 | the main overview is the recursive root overview, with the links as written |
| Export.Exporter.AllOverviewFiles | zendesk-helpcenter-export.rb:280-291 | builds exactly the overview map with the links as written: `./index.html`, then each category's and each section's overview under its path |
| Export.Exporter.FileSections | zendesk-helpcenter-export.rb:284-287 | one category's writes, with the links as written: its own overview, then its sections' |

## Left out

- The Zendesk HTTP API and HTTParty, including authentication, are left out.
  Each listing is an `Option` parameter and each attachment fetch is the
  `fetches` parameter. `api_error?` only prints, so it becomes `None`.
- File contents are not modelled. The disk model records names and
  directory structure. Downloaded bytes, the text `article_html_content`
  writes and `boiler_plate_html` around an article are not kept.
- `to_json!` (lines 153-155) and `meta_data.json` are left out, because
  they are a JSON dump of `raw_data`.
- `create_table_of_contents!` (lines 157-161) is left out as a disk
  operation. Its content is `all_overview_files`, which is modelled; it
  only writes each entry to a file.
- `log` output text and `puts` are not modelled. Only the level test is.
- Settings.ShouldLog: requires a known configured level. This holds after
  `invalid_inputs?` has accepted the options.
- The command-line parsing at the end of the script and the Windows
  default paths are left out.
- Directory listings contain no `.` or `..` entries. Ids are numeric, so
  no id prefix could match them.
- `Dir.entries` order is the order of creation in this model. Ruby
  leaves it to the operating system, so "the first entry with the id
  prefix" is a choice of that order.
- Export.Exporter.DirPath: requires `Feasible`, meaning no rename onto an
  existing name and no file where a directory is wanted. In Ruby,
  `FileUtils.mv` onto an existing directory moves the source inside it,
  and `Dir.mkdir` over a file raises. Neither outcome is modelled.
- Export.Exporter.DownloadAttachment: requires the attachment rename to
  have a free target. `FileUtils.mv` onto an existing file replaces it, and
  onto a directory moves inside it. Neither is modelled. HTTParty does not
  raise on a non-2xx status, so the error body is written like a file
  (line 447). `fetchOk == false` means that the get or the write raised.
- Export.Exporter.WriteFile: requires that the target is not a directory
  and that its parent directory exists. Writing over a directory raises in
  Ruby, and so does writing into a missing directory. The id-prefix match
  can rename a directory that a later write still needs, which is such a
  missing directory. `Effects.PrefixGapLosesDirectory` shows one case. The
  model does not cover that crash.
- Export.Exporter.ToHtml: requires every write to be possible, so it
  excludes the crash at line 144 after the id-prefix match renamed the
  directory (`Effects.PrefixGapLosesDirectory`).
- Article bodies arrive already cut into `Piece`s: plain text, links and
  image sources. The four regular expressions of lines 170, 178, 183 and
  191 that find them are not modelled. This includes their
  case-insensitivity, the greedy `(-[^"]+)?` tail of lines 178, 183 and 191,
  and a later pass matching text that an earlier pass wrote.
- Only ASCII letters are downcased by `slugify`, and `\w` is ASCII.
  Ruby's Unicode case mapping is not modelled.
- In `all_overview_files` the key of the main overview is the symbol
  `:"./index.html"`, and the other keys are strings. The model uses the
  string `./index.html` for all of them.
- The unused `recursive:` argument of `section_overview_file` is left out.
- Export.Exporter.ToHtml: `raw_data` gains the categories after the
  category loop, not one at a time. Nothing reads `raw_data` during phase
  one, so the result is the same.
- Notes on the source that are kept as written:
  - The names are numbered before `dir_path` runs, so the slug includes
    the number, e.g. `12-1-faq`.
  - Attachment links use the prefix `"../../../"` followed by
    `./attachments/`, giving `../../.././attachments/`.
  - Reconciliation matches an id as a name prefix, so id 1 also matches
    `10-faq`. `Reconcile.PrefixGapExample` states this.
  - Under `:id_only`, an attachment named `..png` gets a link and a stored
    file name that differ. `Links.AttachmentLinkDotName` and
    `Links.DownloadedDotName` state this.

## Findings

| source | as written | input that shows it | evidently intended | confidence | as-written member | corrected member |
|---|---|---|---|---|---|---|
| zendesk-helpcenter-export.rb:230,250,270 | the overview links use `base_path + id + "/"` whatever the output type | output type `:slugified`, a category with id 7 named "1. News": the link is `./7/index.html`, but the category's files are in `./7-1-news/` | link to the directory `dir_path` made, `base_path + segment + "/"` | not executed | Toc.AsWrittenLinkMisses | Toc.OverviewLinksReach |

The overview documents in `Toc` take the link style as a parameter. The
`Exporter` overview methods build them with `AsWritten`, the links the code
writes. `Toc.AsWrittenLinkMisses` shows the miss in that document.
`Toc.OverviewLinksReach` proves the intended property of the corrected
documents, built with `ToDirectory`. `Toc.MainOverviewAgreesIdOnly` shows
that under `:id_only` the two documents are the same.
