/** The part of the local file system the exporter touches: a tree of named
    entries.  A directory lists its entries in the order `Dir.entries`
    returns them; this model appends new entries at the end. */
module Disk {
  import opened Wrappers
  import opened Seqs

  datatype Node = File | Dir(entries: seq<Entry>)
  datatype Entry = Entry(name: string, node: Node)

  /** A directory path as its components: `"./a/b/"` is `["a", "b"]`. */
  type Path = seq<string>

  predicate Has(es: seq<Entry>, name: string) {
    exists j :: 0 <= j < |es| && es[j].name == name
  }

  /** The first entry with the given name. */
  function IndexOfName(es: seq<Entry>, name: string): (r: Option<nat>)
    ensures r.Some? ==> r.value < |es| && es[r.value].name == name &&
                        forall j :: 0 <= j < r.value ==> es[j].name != name
    ensures r.None? <==> !Has(es, name)
  {
    if es == [] then None
    else if es[0].name == name then Some(0)
    else match IndexOfName(es[1..], name)
      case None => None
      case Some(j) => Some(j + 1)
  }

  /** Two listings with the same names, entry by entry. */
  predicate SameNames(a: seq<Entry>, b: seq<Entry>) {
    |a| == |b| && forall j :: 0 <= j < |a| ==> a[j].name == b[j].name
  }

  lemma IndexOfNameSameNames(a: seq<Entry>, b: seq<Entry>, name: string)
    requires SameNames(a, b)
    ensures IndexOfName(a, name) == IndexOfName(b, name)
  {
  }

  /** The node a path leads to, if any. */
  function Lookup(n: Node, p: Path): Option<Node>
    decreases n
  {
    if p == [] then Some(n)
    else match n
      case File => None
      case Dir(es) =>
        match IndexOfName(es, p[0])
        case None => None
        case Some(i) => Lookup(es[i].node, p[1..])
  }

  predicate IsDir(root: Node, p: Path) {
    Lookup(root, p).Some? && Lookup(root, p).value.Dir?
  }

  /** The listing of the directory at `p`. */
  function EntriesAt(root: Node, p: Path): seq<Entry>
    requires IsDir(root, p)
  {
    Lookup(root, p).value.entries
  }

  /** The tree with the node at `p` replaced by `m`; everything else, including
      the names along `p`, is kept. */
  function ReplaceAt(n: Node, p: Path, m: Node): Node
    decreases n
  {
    if p == [] then m
    else match n
      case File => n
      case Dir(es) =>
        match IndexOfName(es, p[0])
        case None => n
        case Some(i) => Dir(es[i := Entry(es[i].name, ReplaceAt(es[i].node, p[1..], m))])
  }

  lemma {:induction false} LookupAfterReplace(r: Node, p: Path, q: Path, m: Node)
    requires Lookup(r, p).Some?
    ensures Lookup(ReplaceAt(r, p, m), p + q) == Lookup(m, q)
    decreases r
  {
    if p == [] {
      EmptyAppend(q);
    } else {
      var es := r.entries;
      var i := IndexOfName(es, p[0]).value;
      var es' := es[i := Entry(es[i].name, ReplaceAt(es[i].node, p[1..], m))];
      assert ReplaceAt(r, p, m) == Dir(es');
      IndexOfNameSameNames(es, es', p[0]);
      AppendTail(p, q);
      LookupAfterReplace(es[i].node, p[1..], q, m);
    }
  }

  lemma {:induction false} ReplaceTwice(r: Node, p: Path, q: Path, m: Node, x: Node)
    requires Lookup(r, p).Some?
    ensures ReplaceAt(ReplaceAt(r, p, m), p + q, x) == ReplaceAt(r, p, ReplaceAt(m, q, x))
    decreases r
  {
    if p == [] {
      EmptyAppend(q);
    } else {
      var es := r.entries;
      var i := IndexOfName(es, p[0]).value;
      var es' := es[i := Entry(es[i].name, ReplaceAt(es[i].node, p[1..], m))];
      IndexOfNameSameNames(es, es', p[0]);
      AppendTail(p, q);
      ReplaceTwice(es[i].node, p[1..], q, m, x);
      var e := Entry(es[i].name, ReplaceAt(es[i].node, p[1..], ReplaceAt(m, q, x)));
      assert es'[i := e] == es[i := e];
    }
  }

  lemma {:induction false} ReplaceWithSame(r: Node, p: Path)
    requires Lookup(r, p).Some?
    ensures ReplaceAt(r, p, Lookup(r, p).value) == r
    decreases r
  {
    if p != [] {
      var es := r.entries;
      var i := IndexOfName(es, p[0]).value;
      ReplaceWithSame(es[i].node, p[1..]);
      assert es[i := Entry(es[i].name, es[i].node)] == es;
    }
  }

  /** Looking up `p + q` is looking up `q` in what `p` leads to. */
  lemma LookupAppend(n: Node, p: Path, q: Path)
    requires Lookup(n, p).Some?
    ensures Lookup(n, p + q) == Lookup(Lookup(n, p).value, q)
  {
    ReplaceWithSame(n, p);
    LookupAfterReplace(n, p, q, Lookup(n, p).value);
  }

  /** A name inside a directory exists exactly when the listing has it. */
  lemma LookupChild(n: Node, dir: Path, name: string)
    requires IsDir(n, dir)
    ensures Lookup(n, dir + [name]).Some? <==> Has(EntriesAt(n, dir), name)
  {
    LookupAppend(n, dir, [name]);
  }

  /** A path exists exactly when its parent is a directory that lists its
      last component. */
  lemma {:induction false} LookupParent(n: Node, p: Path)
    requires p != []
    ensures Lookup(n, p).Some? <==>
              IsDir(n, p[..|p| - 1]) && Has(EntriesAt(n, p[..|p| - 1]), p[|p| - 1])
    decreases n
  {
    if |p| > 1 && n.Dir? {
      match IndexOfName(n.entries, p[0])
      case None =>
      case Some(i) =>
        var child := n.entries[i].node;
        LookupParent(child, p[1..]);
        assert p[1..][..|p[1..]| - 1] == p[..|p| - 1][1..];
        assert p[1..][|p[1..]| - 1] == p[|p| - 1];
    }
  }

  /** Replacing the same node twice keeps the second replacement. */
  lemma ReplaceReplace(r: Node, p: Path, m: Node, x: Node)
    requires Lookup(r, p).Some?
    ensures Lookup(ReplaceAt(r, p, m), p) == Some(m)
    ensures ReplaceAt(ReplaceAt(r, p, m), p, x) == ReplaceAt(r, p, x)
  {
    AppendEmpty(p);
    LookupAfterReplace(r, p, [], m);
    ReplaceTwice(r, p, [], m, x);
  }

  /** No directory lists two entries with the same name. */
  predicate UniqueNames(es: seq<Entry>) {
    forall i, j :: 0 <= i < j < |es| ==> es[i].name != es[j].name
  }

  predicate WellFormed(n: Node)
    decreases n
  {
    match n
    case File => true
    case Dir(es) => UniqueNames(es) && forall i :: 0 <= i < |es| ==> WellFormed(es[i].node)
  }

  lemma {:induction false} WellFormedReplace(r: Node, p: Path, m: Node)
    requires WellFormed(r) && WellFormed(m)
    ensures WellFormed(ReplaceAt(r, p, m))
    decreases r
  {
    if p != [] && r.Dir? && IndexOfName(r.entries, p[0]).Some? {
      var es := r.entries;
      var i := IndexOfName(es, p[0]).value;
      WellFormedReplace(es[i].node, p[1..], m);
      var es' := es[i := Entry(es[i].name, ReplaceAt(es[i].node, p[1..], m))];
      assert forall k :: 0 <= k < |es'| ==> es'[k].name == es[k].name;
    }
  }

  lemma {:induction false} WellFormedLookup(r: Node, p: Path)
    requires WellFormed(r) && Lookup(r, p).Some?
    ensures WellFormed(Lookup(r, p).value)
    decreases r
  {
    if p != [] {
      var i := IndexOfName(r.entries, p[0]).value;
      WellFormedLookup(r.entries[i].node, p[1..]);
    }
  }

  /** The disk as a mutable object: `FileUtils.mv`, `Dir.mkdir`, `File.exists?`
      and the creation of a file by `File.open(path, "w+")`. */
  class FileSystem {
    var root: Node

    ghost predicate Valid()
      reads this
    {
      root.Dir? && WellFormed(root)
    }

    constructor (initial: Node)
      requires initial.Dir? && WellFormed(initial)
      ensures Valid() && root == initial
    {
      root := initial;
    }

    /** `File.exists?`: the working directory exists, and any other path
        exists exactly when its parent directory lists its last component. */
    function Exists(p: Path): (b: bool)
      reads this
      ensures p == [] ==> b
      ensures p != [] ==> (b <==> IsDir(root, p[..|p| - 1]) && Has(EntriesAt(root, p[..|p| - 1]), p[|p| - 1]))
    {
      if p != [] then LookupParent(root, p); Lookup(root, p).Some?
      else true
    }

    /** `FileUtils.mv` of entry `i` of directory `dir` to a name not yet used
        there; the entry keeps its contents. */
    method Move(dir: Path, i: nat, newName: string)
      requires Valid() && IsDir(root, dir)
      requires i < |EntriesAt(root, dir)| && !Has(EntriesAt(root, dir), newName)
      modifies this
      ensures Valid()
      ensures var es := old(EntriesAt(root, dir));
              root == ReplaceAt(old(root), dir, Dir(es[i := Entry(newName, es[i].node)]))
    {
      var es := EntriesAt(root, dir);
      var es' := es[i := Entry(newName, es[i].node)];
      WellFormedLookup(root, dir);
      assert WellFormed(Dir(es')) by {
        assert forall k :: 0 <= k < |es'| && k != i ==> es'[k] == es[k];
      }
      WellFormedReplace(root, dir, Dir(es'));
      root := ReplaceAt(root, dir, Dir(es'));
    }

    /** `Dir.mkdir` of a new, empty directory `name` inside `dir`. */
    method MakeDir(dir: Path, name: string)
      requires Valid() && IsDir(root, dir) && !Has(EntriesAt(root, dir), name)
      modifies this
      ensures Valid()
      ensures root == ReplaceAt(old(root), dir, Dir(old(EntriesAt(root, dir)) + [Entry(name, Dir([]))]))
    {
      AddEntry(dir, Entry(name, Dir([])));
    }

    /** `File.open(dir/name, "w+")` for a file that is not there yet. */
    method CreateFile(dir: Path, name: string)
      requires Valid() && IsDir(root, dir) && !Has(EntriesAt(root, dir), name)
      modifies this
      ensures Valid()
      ensures root == ReplaceAt(old(root), dir, Dir(old(EntriesAt(root, dir)) + [Entry(name, File)]))
    {
      AddEntry(dir, Entry(name, File));
    }

    method AddEntry(dir: Path, e: Entry)
      requires Valid() && IsDir(root, dir) && !Has(EntriesAt(root, dir), e.name)
      requires WellFormed(e.node)
      modifies this
      ensures Valid()
      ensures root == ReplaceAt(old(root), dir, Dir(old(EntriesAt(root, dir)) + [e]))
    {
      var es := EntriesAt(root, dir);
      var es' := es + [e];
      WellFormedLookup(root, dir);
      assert WellFormed(Dir(es')) by {
        assert forall k :: 0 <= k < |es| ==> es'[k] == es[k];
      }
      WellFormedReplace(root, dir, Dir(es'));
      root := ReplaceAt(root, dir, Dir(es'));
    }
  }
}
