/** What `rename_dir_or_file_starting_with_id!`, `dir_path` and the naming
    part of `download_attachment!` do to a directory listing, stated as
    functions on the disk tree. */
module Reconcile {
  import opened Wrappers
  import opened Naming
  import opened Disk

  /** The first entry whose name starts with `id` (the `select … .first`
      of lines 374-376). */
  function FirstWithPrefix(es: seq<Entry>, id: string): (r: Option<nat>)
    ensures r.Some? ==> r.value < |es| && StartsWith(es[r.value].name, id) &&
                        forall j :: 0 <= j < r.value ==> !StartsWith(es[j].name, id)
    ensures r.None? ==> forall j :: 0 <= j < |es| ==> !StartsWith(es[j].name, id)
  {
    if es == [] then None
    else if StartsWith(es[0].name, id) then Some(0)
    else match FirstWithPrefix(es[1..], id)
      case None => None
      case Some(j) => Some(j + 1)
  }

  predicate HasPrefixed(es: seq<Entry>, id: string) {
    exists j :: 0 <= j < |es| && StartsWith(es[j].name, id)
  }

  /** The listing after reconciliation: the first id-prefixed entry gets the
      desired name, unless there is none or it already has it. */
  function Reconciled(es: seq<Entry>, id: string, desired: string): seq<Entry> {
    match FirstWithPrefix(es, id)
    case None => es
    case Some(i) => if es[i].name == desired then es else es[i := Entry(desired, es[i].node)]
  }

  /** Whether reconciliation renames anything (the value the Ruby method returns). */
  predicate Renames(es: seq<Entry>, id: string, desired: string) {
    match FirstWithPrefix(es, id)
    case None => false
    case Some(i) => es[i].name != desired
  }

  /** The rename, if any, has a free target: `FileUtils.mv` onto an existing
      name is not part of this model. */
  predicate NoCollision(es: seq<Entry>, id: string, desired: string) {
    Renames(es, id, desired) ==> !Has(es, desired)
  }

  /** One resource of `dir_path`: the id string and the wanted segment. */
  datatype PathStep = PathStep(id: string, segment: string)

  function PathSteps(t: OutputType, resources: seq<Resource>): (steps: seq<PathStep>)
    ensures |steps| == |resources|
  {
    seq(|resources|, i requires 0 <= i < |resources| =>
      PathStep(NatToString(resources[i].id), Segment(t, resources[i].id, resources[i].name)))
  }

  function Segments(steps: seq<PathStep>): (p: Path)
    ensures |p| == |steps|
  {
    seq(|steps|, i requires 0 <= i < |steps| => steps[i].segment)
  }

  /** Every wanted segment starts with its id, as `Segment` guarantees. */
  predicate IdPrefixed(steps: seq<PathStep>) {
    forall i :: 0 <= i < |steps| ==> StartsWith(steps[i].segment, steps[i].id)
  }

  /** One iteration of the `inject` in `dir_path`: reconcile, then
      `Dir.mkdir` unless the segment exists. */
  function StepEntries(es: seq<Entry>, st: PathStep): seq<Entry> {
    var r := Reconciled(es, st.id, st.segment);
    if Has(r, st.segment) then r else r + [Entry(st.segment, Dir([]))]
  }

  /** The directory `dir_path` leaves behind, given the directory it starts in. */
  function Place(n: Node, steps: seq<PathStep>): Node
    decreases |steps|
  {
    if steps == [] || !n.Dir? then n
    else
      var m := Dir(StepEntries(n.entries, steps[0]));
      match Lookup(m, [steps[0].segment])
      case Some(c) => if c.Dir? then ReplaceAt(m, [steps[0].segment], Place(c, steps[1..])) else m
      case None => m
  }

  /** Every rename of `dir_path` has a free target and every segment ends up a
      directory, so the Ruby code neither moves into an existing entry nor
      fails in `Dir.mkdir`. */
  predicate Feasible(n: Node, steps: seq<PathStep>)
    decreases |steps|
  {
    n.Dir? &&
    (steps != [] ==>
      NoCollision(n.entries, steps[0].id, steps[0].segment) &&
      var c := Lookup(Dir(StepEntries(n.entries, steps[0])), [steps[0].segment]);
      c.Some? && c.value.Dir? && Feasible(c.value, steps[1..]))
  }

  // ---------------------------------------------------------------------
  // Reconciliation of one listing

  /** Reconciliation changes nothing when no entry carries the id or the
      first that does already has the desired name (lines 378-381). */
  lemma ReconcileNoop(es: seq<Entry>, id: string, desired: string)
    requires !Renames(es, id, desired)
    ensures Reconciled(es, id, desired) == es
  {
  }

  /** Otherwise exactly the first id-prefixed entry is renamed, keeping its
      contents, and every other entry is left alone (lines 383-385). */
  lemma ReconcileRenamesFirst(es: seq<Entry>, id: string, desired: string)
    requires Renames(es, id, desired)
    ensures var i := FirstWithPrefix(es, id).value;
            var r := Reconciled(es, id, desired);
            |r| == |es| && r[i] == Entry(desired, es[i].node) &&
            (forall j :: 0 <= j < i ==> !StartsWith(es[j].name, id)) &&
            forall j :: 0 <= j < |es| && j != i ==> r[j] == es[j]
  {
  }

  lemma SameNamesFirstWithPrefix(a: seq<Entry>, b: seq<Entry>, id: string)
    requires SameNames(a, b)
    ensures FirstWithPrefix(a, id) == FirstWithPrefix(b, id)
  {
  }

  /** After reconciling towards a name that starts with the id, the first
      id-prefixed entry carries that name: a second run renames nothing. */
  lemma ReconcileConverges(es: seq<Entry>, id: string, desired: string)
    requires StartsWith(desired, id) && HasPrefixed(es, id)
    ensures var r := Reconciled(es, id, desired);
            FirstWithPrefix(r, id) == FirstWithPrefix(es, id) &&
            r[FirstWithPrefix(es, id).value].name == desired &&
            !Renames(r, id, desired) && Reconciled(r, id, desired) == r
  {
    var i := FirstWithPrefix(es, id).value;
    var r := Reconciled(es, id, desired);
    assert r[i].name == desired;
    var f := FirstWithPrefix(r, id);
    assert f == Some(i) by {
      assert StartsWith(r[i].name, id);
      assert forall j :: 0 <= j < i ==> r[j] == es[j];
    }
  }

  /** Reconciliation keeps the set of entries that carry the id, up to the
      renamed one, and never makes a directory unwritable: with a free
      target, names stay unique. */
  lemma ReconcileKeepsUnique(es: seq<Entry>, id: string, desired: string)
    requires UniqueNames(es) && NoCollision(es, id, desired)
    ensures UniqueNames(Reconciled(es, id, desired))
    ensures SameNames(Reconciled(es, id, desired), es) ==> Reconciled(es, id, desired) == es
  {
    if Renames(es, id, desired) {
      var i := FirstWithPrefix(es, id).value;
      var r := Reconciled(es, id, desired);
      assert forall j :: 0 <= j < |es| && j != i ==> r[j] == es[j];
      assert forall j :: 0 <= j < |es| ==> es[j].name != desired;
    }
  }

  // ---------------------------------------------------------------------
  // One step of dir_path

  /** After one step the wanted segment exists and is the first entry that
      carries the id. */
  lemma StepFirst(es: seq<Entry>, st: PathStep)
    requires StartsWith(st.segment, st.id)
    ensures var r := StepEntries(es, st);
            Has(r, st.segment) &&
            FirstWithPrefix(r, st.id) == IndexOfName(r, st.segment) &&
            Reconciled(r, st.id, st.segment) == r && StepEntries(r, st) == r
  {
    var r := StepEntries(es, st);
    var rr := Reconciled(es, st.id, st.segment);
    if HasPrefixed(es, st.id) {
      ReconcileConverges(es, st.id, st.segment);
      var i := FirstWithPrefix(es, st.id).value;
      assert r == rr;
      var k := IndexOfName(r, st.segment);
      assert k == Some(i) by {
        assert r[i].name == st.segment;
        assert forall j :: 0 <= j < i ==> r[j].name != st.segment;
      }
    } else {
      assert rr == es;
      assert !Has(es, st.segment);
      assert r == es + [Entry(st.segment, Dir([]))];
      assert r[|es|].name == st.segment;
      var k := IndexOfName(r, st.segment);
      assert k == Some(|es|);
      var f := FirstWithPrefix(r, st.id);
      assert f == Some(|es|) by {
        assert StartsWith(r[|es|].name, st.id);
        assert forall j :: 0 <= j < |es| ==> r[j] == es[j];
      }
    }
  }

  function CountPrefixed(es: seq<Entry>, id: string): nat {
    if es == [] then 0
    else (if StartsWith(es[0].name, id) then 1 else 0) + CountPrefixed(es[1..], id)
  }

  lemma {:induction false} CountPrefixedReplace(es: seq<Entry>, i: nat, e: Entry, id: string)
    requires i < |es| && (StartsWith(es[i].name, id) <==> StartsWith(e.name, id))
    ensures CountPrefixed(es[i := e], id) == CountPrefixed(es, id)
  {
    if i > 0 {
      CountPrefixedReplace(es[1..], i - 1, e, id);
      assert es[i := e][1..] == es[1..][i - 1 := e];
    }
  }

  lemma {:induction false} CountPrefixedAppend(es: seq<Entry>, e: Entry, id: string)
    ensures CountPrefixed(es + [e], id) == CountPrefixed(es, id) + (if StartsWith(e.name, id) then 1 else 0)
  {
    if es != [] {
      CountPrefixedAppend(es[1..], e, id);
      assert (es + [e])[1..] == es[1..] + [e];
    }
  }

  lemma {:induction false} CountPrefixedZero(es: seq<Entry>, id: string)
    ensures CountPrefixed(es, id) == 0 <==> !HasPrefixed(es, id)
  {
    if es != [] {
      CountPrefixedZero(es[1..], id);
      assert forall j :: 1 <= j < |es| ==> es[j] == es[1..][j - 1];
    }
  }

  /** The no-duplicate guarantee of the reconciler: a step never adds a
      second entry for an id that already has one, and adds exactly one when
      there is none.  A directory holding at most one entry per id holds
      exactly one afterwards. */
  lemma StepCount(es: seq<Entry>, st: PathStep)
    requires StartsWith(st.segment, st.id)
    ensures var before := CountPrefixed(es, st.id);
            CountPrefixed(StepEntries(es, st), st.id) == (if before == 0 then 1 else before)
  {
    var rr := Reconciled(es, st.id, st.segment);
    CountPrefixedZero(es, st.id);
    if HasPrefixed(es, st.id) {
      var i := FirstWithPrefix(es, st.id).value;
      if es[i].name != st.segment {
        CountPrefixedReplace(es, i, Entry(st.segment, es[i].node), st.id);
      }
      ReconcileConverges(es, st.id, st.segment);
      assert rr[i].name == st.segment;
      assert StepEntries(es, st) == rr;
    } else {
      assert !Has(es, st.segment);
      CountPrefixedAppend(es, Entry(st.segment, Dir([])), st.id);
    }
  }

  // ---------------------------------------------------------------------
  // The whole of dir_path

  lemma PlaceIsDir(n: Node, steps: seq<PathStep>)
    requires n.Dir?
    ensures Place(n, steps).Dir?
  {
  }

  /** The entry for the first segment holds the rest of the placement. */
  lemma PlaceUnfold(n: Node, steps: seq<PathStep>)
    requires Feasible(n, steps) && steps != []
    ensures var m := Dir(StepEntries(n.entries, steps[0]));
            var c := Lookup(m, [steps[0].segment]).value;
            Lookup(m, [steps[0].segment]).Some? && c.Dir? &&
            Place(n, steps) == ReplaceAt(m, [steps[0].segment], Place(c, steps[1..]))
  {
  }

  /** One iteration of `dir_path` inside a larger tree: after the step at
      `dir`, the rest of the placement happens one level down. */
  lemma PlaceDescend(root: Node, dir: Path, steps: seq<PathStep>)
    requires IsDir(root, dir) && steps != []
    requires Feasible(Lookup(root, dir).value, steps)
    ensures var here := Lookup(root, dir).value;
            var root' := ReplaceAt(root, dir, Dir(StepEntries(here.entries, steps[0])));
            var dir' := dir + [steps[0].segment];
            IsDir(root', dir') &&
            Feasible(Lookup(root', dir').value, steps[1..]) &&
            ReplaceAt(root', dir', Place(Lookup(root', dir').value, steps[1..])) ==
            ReplaceAt(root, dir, Place(here, steps))
  {
    var here := Lookup(root, dir).value;
    var m := Dir(StepEntries(here.entries, steps[0]));
    var seg := steps[0].segment;
    PlaceUnfold(here, steps);
    var c := Lookup(m, [seg]).value;
    LookupAfterReplace(root, dir, [seg], m);
    ReplaceTwice(root, dir, [seg], m, Place(c, steps[1..]));
  }

  /** The first `k` segments: the first step's, then `k - 1` of the rest. */
  lemma SegmentsTake(steps: seq<PathStep>, k: nat)
    requires 1 <= k <= |steps|
    ensures Segments(steps)[..k] == [steps[0].segment] + Segments(steps[1..])[..k - 1]
  {
    var a := Segments(steps)[..k];
    var b := [steps[0].segment] + Segments(steps[1..])[..k - 1];
    assert |a| == |b|;
    forall i | 0 <= i < k ensures a[i] == b[i] {
      if i > 0 {
        assert b[i] == Segments(steps[1..])[i - 1] == steps[1..][i - 1].segment;
      }
    }
  }

  /** Every prefix of the built path is a directory afterwards (line 357). */
  lemma {:induction false} PlaceMakesPath(n: Node, steps: seq<PathStep>, k: nat)
    requires Feasible(n, steps) && k <= |steps|
    ensures IsDir(Place(n, steps), Segments(steps)[..k])
    decreases |steps|
  {
    if k == 0 {
      PlaceIsDir(n, steps);
    } else {
      PlaceUnfold(n, steps);
      var m := Dir(StepEntries(n.entries, steps[0]));
      var c := Lookup(m, [steps[0].segment]).value;
      PlaceMakesPath(c, steps[1..], k - 1);
      SegmentsTake(steps, k);
      LookupAfterReplace(m, [steps[0].segment], Segments(steps[1..])[..k - 1], Place(c, steps[1..]));
    }
  }

  /** Running `dir_path` a second time with the same resources changes
      nothing: the disk after one run is a fixed point, and the second run is
      as free of collisions as the first. */
  lemma {:induction false} PlaceIdempotent(n: Node, steps: seq<PathStep>)
    requires Feasible(n, steps) && IdPrefixed(steps)
    ensures Feasible(Place(n, steps), steps)
    ensures Place(Place(n, steps), steps) == Place(n, steps)
    decreases |steps|
  {
    if steps != [] {
      var st := steps[0];
      PlaceUnfold(n, steps);
      var r2 := StepEntries(n.entries, st);
      var m := Dir(r2);
      var c := Lookup(m, [st.segment]).value;
      var p' := Place(c, steps[1..]);
      PlaceIsDir(c, steps[1..]);
      assert IdPrefixed(steps[1..]) by {
        forall i | 0 <= i < |steps[1..]| ensures StartsWith(steps[1..][i].segment, steps[1..][i].id) {
          assert steps[1..][i] == steps[i + 1];
        }
      }
      PlaceIdempotent(c, steps[1..]);
      StepFirst(n.entries, st);
      var j := IndexOfName(r2, st.segment).value;
      var r3 := r2[j := Entry(st.segment, p')];
      assert Place(n, steps) == Dir(r3);
      assert SameNames(r3, r2);
      SameNamesFirstWithPrefix(r3, r2, st.id);
      IndexOfNameSameNames(r3, r2, st.segment);
      assert FirstWithPrefix(r3, st.id) == Some(j);
      assert Reconciled(r3, st.id, st.segment) == r3;
      assert Has(r3, st.segment);
      assert StepEntries(r3, st) == r3;
      LookupAfterReplace(m, [st.segment], [], p');
      assert [st.segment] + [] == [st.segment];
      assert Lookup(Dir(r3), [st.segment]) == Some(p');
      ReplaceTwice(m, [st.segment], [], p', p');
      assert [st.segment] + [] == [st.segment];
    }
  }

  // ---------------------------------------------------------------------
  // The attachment mirror of download_attachment!

  /** The attachments listing after `download_attachment!`: reconcile towards
      `fileName`, then add it only when no entry carries the id and the fetch
      succeeded (lines 437-447). */
  function Mirrored(es: seq<Entry>, id: string, fileName: string, fetchOk: bool): seq<Entry> {
    var r := Reconciled(es, id, fileName);
    if HasPrefixed(r, id) || !fetchOk then r else r + [Entry(fileName, File)]
  }

  lemma ReconciledKeepsPrefixed(es: seq<Entry>, id: string, desired: string)
    requires StartsWith(desired, id)
    ensures HasPrefixed(Reconciled(es, id, desired), id) <==> HasPrefixed(es, id)
  {
    if HasPrefixed(es, id) {
      var i := FirstWithPrefix(es, id).value;
      assert StartsWith(Reconciled(es, id, desired)[i].name, id);
    } else {
      assert Reconciled(es, id, desired) == es;
    }
  }

  /** Dedup: when an entry already carries the attachment's id nothing is
      fetched and nothing is added; otherwise at most the one file is added. */
  lemma MirrorDedup(es: seq<Entry>, id: string, fileName: string, fetchOk: bool)
    requires StartsWith(fileName, id)
    ensures HasPrefixed(es, id) ==> Mirrored(es, id, fileName, fetchOk) == Reconciled(es, id, fileName)
    ensures !HasPrefixed(es, id) ==>
              Mirrored(es, id, fileName, fetchOk) == es + (if fetchOk then [Entry(fileName, File)] else [])
  {
    ReconciledKeepsPrefixed(es, id, fileName);
  }

  /** After a mirror that found or fetched the file, the first entry that
      carries the id is the file under its current name, and mirroring again
      changes nothing: an attachment is downloaded once. */
  lemma MirrorConverges(es: seq<Entry>, id: string, fileName: string, fetchOk: bool, again: bool)
    requires StartsWith(fileName, id) && (HasPrefixed(es, id) || fetchOk)
    ensures var r := Mirrored(es, id, fileName, fetchOk);
            HasPrefixed(r, id) &&
            r[FirstWithPrefix(r, id).value].name == fileName &&
            Mirrored(r, id, fileName, again) == r
  {
    var r := Mirrored(es, id, fileName, fetchOk);
    ReconciledKeepsPrefixed(es, id, fileName);
    if HasPrefixed(es, id) {
      ReconcileConverges(es, id, fileName);
    } else {
      assert r == es + [Entry(fileName, File)];
      var f := FirstWithPrefix(r, id);
      assert f == Some(|es|) by {
        assert StartsWith(r[|es|].name, id);
        assert forall j :: 0 <= j < |es| ==> r[j] == es[j];
      }
    }
    assert HasPrefixed(r, id);
    ReconcileConverges(r, id, fileName);
  }

  // ---------------------------------------------------------------------
  // Examples

  /** The rename of an upstream-renamed section: `42-old-name` becomes
      `42-new-name` and keeps its contents. */
  lemma RenameExample(contents: Node)
    ensures var es := [Entry("42-old-name", contents)];
            Reconciled(es, "42", "42-new-name") == [Entry("42-new-name", contents)] &&
            Renames(es, "42", "42-new-name")
  {
    var es := [Entry("42-old-name", contents)];
    assert "42-old-name"[..2] == "42";
    assert FirstWithPrefix(es, "42") == Some(0);
  }

  /** The id-prefix gap kept from the source: reconciling id 1 renames the
      directory of id 10, because `"10-faq"` starts with `"1"`. */
  lemma PrefixGapExample(contents: Node)
    ensures var es := [Entry("10-faq", contents)];
            Reconciled(es, "1", "1-news") == [Entry("1-news", contents)]
  {
    var es := [Entry("10-faq", contents)];
    assert "10-faq"[..1] == "1";
    assert FirstWithPrefix(es, "1") == Some(0);
  }
}
