/** How the exporter names things on disk: `id.to_s`, the directory segment of
    a resource under each output type, the attachment file name, and the
    `"./a/b/"` path strings that `dir_path` returns. */
module Naming {
  import opened Wrappers
  import opened Slug

  /** `OUTPUT_TYPES = [:slugified, :id_only]` */
  datatype OutputType = Slugified | IdOnly

  /** A category, section or article as `dir_path` sees it: its id and its
      (already numbered) display name. */
  datatype Resource = Resource(id: nat, name: string)

  /** `ATTACHMENTS_DIR = './attachments/'`, and its single path component. */
  const AttachmentsDir: string := "./attachments/"
  const AttachmentsDirName: string := "attachments"

  predicate IsDigit(c: char) { '0' <= c <= '9' }

  function DigitChar(d: nat): char
    requires d < 10
  {
    ('0' as int + d) as char
  }

  /** `Integer#to_s`: the decimal digits of an id. */
  function NatToString(n: nat): (s: string)
    ensures |s| >= 1
    ensures forall i :: 0 <= i < |s| ==> IsDigit(s[i])
  {
    if n < 10 then [DigitChar(n)] else NatToString(n / 10) + [DigitChar(n % 10)]
  }

  predicate StartsWith(s: string, prefix: string) {
    |prefix| <= |s| && s[..|prefix|] == prefix
  }

  /** The directory segment of line 352: `"#{id}-#{slugify(name)}"` or `"#{id}"`. */
  function Segment(t: OutputType, id: nat, name: string): (seg: string)
    ensures StartsWith(seg, NatToString(id))
    ensures forall i :: 0 <= i < |seg| ==> IsSlugChar(seg[i])
    ensures t == IdOnly ==> seg == NatToString(id)
    ensures |seg| > |NatToString(id)| ==> seg[|NatToString(id)|] == '-'
  {
    var digits := NatToString(id);
    var seg := if t == IdOnly then digits else digits + "-" + Slugify(name);
    assert seg[..|digits|] == digits;
    seg
  }

  /** The string `dir_path` builds: `"./"` and then `segment + "/"` for each resource. */
  function DirString(t: OutputType, resources: seq<Resource>): string {
    if resources == [] then "./"
    else
      var last := resources[|resources| - 1];
      DirString(t, resources[..|resources| - 1]) + Segment(t, last.id, last.name) + "/"
  }

  /** `dir_path` grows by one segment per resource. */
  lemma DirStringStep(t: OutputType, resources: seq<Resource>, k: nat)
    requires k < |resources|
    ensures DirString(t, resources[..k + 1]) ==
            DirString(t, resources[..k]) + Segment(t, resources[k].id, resources[k].name) + "/"
  {
    assert resources[..k + 1][..k] == resources[..k];
  }

  function DropLeadingDots(s: string): (r: string)
    ensures |r| <= |s| && r == s[|s| - |r|..]
    ensures r != [] ==> r[0] != '.'
  {
    if s != [] && s[0] == '.' then DropLeadingDots(s[1..]) else s
  }

  /** Index of the last `.` in `s`, if any. */
  function LastDot(s: string): (r: Option<nat>)
    ensures r.Some? ==> r.value < |s| && s[r.value] == '.' &&
                        forall j :: r.value < j < |s| ==> s[j] != '.'
    ensures r.None? ==> forall j :: 0 <= j < |s| ==> s[j] != '.'
  {
    if s == [] then None
    else if s[|s| - 1] == '.' then Some(|s| - 1)
    else LastDot(s[..|s| - 1])
  }

  /** `File.extname` on a plain file name (no directory part): leading dots
      belong to the base name; otherwise everything from the last dot on. */
  function ExtName(fileName: string): string {
    var rest := DropLeadingDots(fileName);
    match LastDot(rest)
    case None => ""
    case Some(k) => rest[k..]
  }

  /** The local file name `download_attachment!` gives an attachment
      (lines 434-435). */
  function AttachmentFileName(t: OutputType, id: string, fileName: string): (name: string)
    ensures StartsWith(name, id)
  {
    var suffix := if t == Slugified then "-" + fileName else ExtName(fileName);
    assert (id + suffix)[..|id|] == id;
    id + suffix
  }

  /** `dir_path` of a chain one resource longer. */
  lemma DirStringSnoc(t: OutputType, resources: seq<Resource>, r: Resource)
    ensures DirString(t, resources + [r]) == DirString(t, resources) + Segment(t, r.id, r.name) + "/"
  {
    assert (resources + [r])[..|resources|] == resources;
  }

  /** The extension of `name.ext` is `.ext` whenever the name has a character
      other than a dot. */
  lemma ExtNameOfNameAndExt(name: string, ext: string)
    requires exists j :: 0 <= j < |name| && name[j] != '.'
    requires ext != [] && forall j :: 0 <= j < |ext| ==> ext[j] != '.'
    ensures ExtName(name + "." + ext) == "." + ext
  {
    var tail := "." + ext;
    var f := name + tail;
    assert f == name + "." + ext;
    var j :| 0 <= j < |name| && name[j] != '.';
    var rest := DropLeadingDots(f);
    var skipped := |f| - |rest|;
    assert skipped <= j by {
      LeadingDots(f);
      assert f[j] == name[j];
    }
    var dot := |name| - skipped;
    assert rest[dot..] == tail by {
      assert rest == f[skipped..];
      assert f[skipped..][dot..] == f[|name|..];
    }
    LastDotOfTail(rest, dot, ext);
  }

  /** A string that ends in `.ext`, with no dot in `ext`, has its last dot
      where that ending starts. */
  lemma LastDotOfTail(s: string, d: nat, ext: string)
    requires d <= |s| && s[d..] == "." + ext
    requires forall j :: 0 <= j < |ext| ==> ext[j] != '.'
    ensures LastDot(s) == Some(d)
  {
    assert s[d] == s[d..][0];
    forall k | d < k < |s| ensures s[k] != '.' {
      assert s[k] == s[d..][k - d] == ext[k - d - 1];
    }
    LastDotAt(s, d);
  }

  /** The last dot is the one with no dot after it. */
  lemma {:induction false} LastDotAt(s: string, d: nat)
    requires d < |s| && s[d] == '.'
    requires forall k :: d < k < |s| ==> s[k] != '.'
    ensures LastDot(s) == Some(d)
    decreases |s|
  {
    if d < |s| - 1 {
      var p := s[..|s| - 1];
      forall k | d <= k < |p| ensures p[k] == s[k] { }
      LastDotAt(p, d);
    }
  }

  lemma {:induction false} LeadingDots(s: string)
    ensures forall k :: 0 <= k < |s| - |DropLeadingDots(s)| ==> s[k] == '.'
  {
    if s != [] && s[0] == '.' {
      LeadingDots(s[1..]);
      forall k | 0 <= k < |s| - |DropLeadingDots(s)| ensures s[k] == '.' {
        if k > 0 { assert s[k] == s[1..][k - 1]; }
      }
    }
  }
}
