/** The disk effects of an export as a sequence of operations: the
    `dir_path` calls, the attachment downloads and the article files written,
    each with the condition under which the Ruby code goes through with it. */
module Effects {
  import opened Wrappers
  import opened Naming
  import opened Disk
  import opened Reconcile

  datatype DiskOp =
    | /** `dir_path` for a chain of resources */
      MakePath(steps: seq<PathStep>)
    | /** `download_attachment!` of the attachment with id `id`, stored as
          `fileName`; `fetchOk` says whether the HTTP get came back */
      Download(id: string, fileName: string, fetchOk: bool)
    | /** `File.open(dir/name, "w+")` */
      WriteFile(dir: Path, name: string)

  /** `Dir.mkdir(store_in_dir) unless File.exists?(store_in_dir)` (line 432). */
  function WithAttachmentsDir(n: Node): (m: Node)
    requires n.Dir?
    ensures m.Dir? && Has(m.entries, AttachmentsDirName)
  {
    if Has(n.entries, AttachmentsDirName) then n
    else
      var es := n.entries + [Entry(AttachmentsDirName, Dir([]))];
      assert es[|n.entries|].name == AttachmentsDirName;
      Dir(es)
  }

  /** The Ruby code performs the operation without raising: `dir_path` and
      the attachment rename never move onto an existing name, the attachments
      entry is a directory, and a file is written into an existing directory
      and not over a directory. */
  predicate CanApply(n: Node, op: DiskOp) {
    n.Dir? &&
    match op
    case MakePath(steps) => Feasible(n, steps)
    case Download(id, fileName, _) =>
      var m := WithAttachmentsDir(n);
      IsDir(m, [AttachmentsDirName]) && NoCollision(EntriesAt(m, [AttachmentsDirName]), id, fileName)
    case WriteFile(dir, name) => IsDir(n, dir) && !IsDir(n, dir + [name])
  }

  /** The listing of `./attachments/` after `download_attachment!`. */
  function AttachmentsAfter(n: Node, id: string, fileName: string, fetchOk: bool): seq<Entry>
    requires n.Dir? && IsDir(WithAttachmentsDir(n), [AttachmentsDirName])
  {
    Mirrored(EntriesAt(WithAttachmentsDir(n), [AttachmentsDirName]), id, fileName, fetchOk)
  }

  function Apply(n: Node, op: DiskOp): (r: Node)
    requires CanApply(n, op)
    ensures r.Dir?
  {
    match op
    case MakePath(steps) =>
      PlaceIsDir(n, steps);
      Place(n, steps)
    case Download(id, fileName, fetchOk) =>
      ReplaceAt(WithAttachmentsDir(n), [AttachmentsDirName], Dir(AttachmentsAfter(n, id, fileName, fetchOk)))
    case WriteFile(dir, name) =>
      var es := EntriesAt(n, dir);
      if Has(es, name) then n else ReplaceAt(n, dir, Dir(es + [Entry(name, File)]))
  }

  predicate CanRun(n: Node, ops: seq<DiskOp>)
    decreases |ops|
  {
    ops == [] || (CanApply(n, ops[0]) && CanRun(Apply(n, ops[0]), ops[1..]))
  }

  function Run(n: Node, ops: seq<DiskOp>): Node
    requires CanRun(n, ops)
    decreases |ops|
  {
    if ops == [] then n else Run(Apply(n, ops[0]), ops[1..])
  }

  /** Running two batches one after the other is running their concatenation. */
  lemma {:induction false} RunAppend(n: Node, a: seq<DiskOp>, b: seq<DiskOp>)
    requires CanRun(n, a + b)
    ensures CanRun(n, a) && CanRun(Run(n, a), b)
    ensures Run(n, a + b) == Run(Run(n, a), b)
    decreases |a|
  {
    if a == [] {
      assert a + b == b;
    } else {
      assert (a + b)[0] == a[0] && (a + b)[1..] == a[1..] + b;
      RunAppend(Apply(n, a[0]), a[1..], b);
    }
  }

  /** The first operation of a batch runs first. */
  lemma RunCons(n: Node, op: DiskOp, rest: seq<DiskOp>)
    requires CanRun(n, [op] + rest)
    ensures CanApply(n, op) && CanRun(Apply(n, op), rest)
    ensures Run(n, [op] + rest) == Run(Apply(n, op), rest)
  {
    assert ([op] + rest)[0] == op && ([op] + rest)[1..] == rest;
  }

  /** An attachment that was found or fetched once is not downloaded again:
      a second `download_attachment!` of it changes nothing, whatever the
      network does (line 440). */
  lemma DownloadOnce(n: Node, id: string, fileName: string, fetchOk: bool, again: bool)
    requires StartsWith(fileName, id)
    requires CanApply(n, Download(id, fileName, fetchOk))
    requires fetchOk || HasPrefixed(EntriesAt(WithAttachmentsDir(n), [AttachmentsDirName]), id)
    ensures CanApply(Apply(n, Download(id, fileName, fetchOk)), Download(id, fileName, again))
    ensures Apply(Apply(n, Download(id, fileName, fetchOk)), Download(id, fileName, again)) ==
            Apply(n, Download(id, fileName, fetchOk))
  {
    var m := WithAttachmentsDir(n);
    var es := EntriesAt(m, [AttachmentsDirName]);
    var r := Mirrored(es, id, fileName, fetchOk);
    var n2 := ReplaceAt(m, [AttachmentsDirName], Dir(r));
    MirrorConverges(es, id, fileName, fetchOk, again);
    LookupAfterReplace(m, [AttachmentsDirName], [], Dir(r));
    assert [AttachmentsDirName] + [] == [AttachmentsDirName];
    assert Lookup(n2, [AttachmentsDirName]) == Some(Dir(r));
    assert Has(n2.entries, AttachmentsDirName) by {
      var i := IndexOfName(n2.entries, AttachmentsDirName);
      assert i.Some?;
    }
    assert WithAttachmentsDir(n2) == n2;
    assert EntriesAt(n2, [AttachmentsDirName]) == r;
    ReconcileNoop(r, id, fileName);
    ReplaceTwice(m, [AttachmentsDirName], [], Dir(r), Dir(r));
  }

  /** The id-prefix match can take a directory away from a record placed
      earlier: with `10/` made for a record of id 10, `dir_path` for a record
      of id 1 under `:id_only` renames `10` to `1`, so a later write of
      `./10/index.html` has no directory to go to (Ruby raises there, and
      the export stops). */
  lemma PrefixGapLosesDirectory()
    ensures var before := Dir([Entry("10", Dir([]))]);
            var steps := [PathStep("1", "1")];
            Feasible(before, steps) &&
            Place(before, steps) == Dir([Entry("1", Dir([]))]) &&
            !IsDir(Place(before, steps), ["10"]) &&
            !CanApply(Place(before, steps), WriteFile(["10"], "index.html"))
  {
    var es := [Entry("10", Dir([]))];
    var st := PathStep("1", "1");
    assert "10"[..1] == "1";
    assert FirstWithPrefix(es, "1") == Some(0);
    var r := [Entry("1", Dir([]))];
    assert Reconciled(es, "1", "1") == r;
    assert IndexOfName(r, "1") == Some(0);
    assert StepEntries(es, st) == r;
    var m := Dir(r);
    assert Lookup(m, ["1"]) == Some(Dir([]));
    ReplaceWithSame(m, ["1"]);
    assert Place(Dir(es), [st]) == m;
    assert IndexOfName(r, "10") == None;
  }
}
