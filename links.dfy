/** The body rewriting of `convert_body`: attachment URLs become links into
    the local attachments directory, category/section/article URLs become
    links to the local copies found in the tree, and headings shift down one
    level when the body has an `<h1`. */
module Links {
  import opened Wrappers
  import opened Naming
  import opened Seqs

  datatype UrlKind = CategoryUrl | SectionUrl | ArticleUrl

  /** A body as the three URL patterns of lines 170, 178, 183 and 191 cut it:
      plain text, a quoted attachment URL with its captured id, file name and
      extension, or a help-center URL of some kind with its captured id and
      the whole matched text. */
  datatype Piece =
    | Text(text: string)
    | AttachmentUrl(contentUrl: string, id: string, name: string, ext: string)
    | ResourceUrl(kind: UrlKind, matched: string, id: string)

  /** `body` is either a String, cut into pieces, or some other value. */
  datatype Body = Markup(pieces: seq<Piece>) | NotText

  /** What a lookup sees of a category, section or article: `id.to_s` and
      `backup_path`. */
  datatype Ref = Ref(id: string, backupPath: string)

  /** The resources of the tree in traversal order, by kind. */
  datatype Index = Index(categories: seq<Ref>, sections: seq<Ref>, articles: seq<Ref>)

  /** `find { |r| r['id'].to_s == id }`: the first resource with the id. */
  function FirstWithId(refs: seq<Ref>, id: string): (r: Option<string>)
    ensures r.None? <==> forall j :: 0 <= j < |refs| ==> refs[j].id != id
    ensures r.Some? ==> exists j :: 0 <= j < |refs| && refs[j].id == id &&
                         r.value == refs[j].backupPath &&
                         forall k :: 0 <= k < j ==> refs[k].id != id
  {
    if refs == [] then None
    else if refs[0].id == id then Some(refs[0].backupPath)
    else
      var r := FirstWithId(refs[1..], id);
      assert forall j :: 1 <= j < |refs| ==> refs[j] == refs[1..][j - 1];
      r
  }

  /** Searching a concatenation finds in the first part before the second:
      the `break if found` of the nested loops. */
  lemma {:induction false} FirstWithIdAppend(a: seq<Ref>, b: seq<Ref>, id: string)
    ensures FirstWithId(a + b, id) ==
            if FirstWithId(a, id).Some? then FirstWithId(a, id) else FirstWithId(b, id)
  {
    if a == [] {
      assert a + b == b;
    } else {
      FirstWithIdAppend(a[1..], b, id);
      assert (a + b)[1..] == a[1..] + b;
    }
  }

  /** A search that found nothing in `before` and something in `here`
      has found the first match of `before + here + after`; one that found
      nothing in either has found nothing in `before + here`. */
  lemma FirstWithIdSplit(before: seq<Ref>, here: seq<Ref>, after: seq<Ref>, id: string)
    requires FirstWithId(before, id).None?
    ensures FirstWithId(before + here, id) == FirstWithId(here, id)
    ensures FirstWithId(here, id).Some? ==> FirstWithId(before + here + after, id) == FirstWithId(here, id)
  {
    FirstWithIdAppend(before, here, id);
    FirstWithIdAppend(before + here, after, id);
  }

  /** The resource at `i`, when no earlier one has the id, is the one found. */
  lemma FirstWithIdAt(refs: seq<Ref>, id: string, i: nat)
    requires i < |refs| && refs[i].id == id && forall j :: 0 <= j < i ==> refs[j].id != id
    ensures FirstWithId(refs, id) == Some(refs[i].backupPath)
  {
    var r := FirstWithId(refs, id);
    var j :| 0 <= j < |refs| && refs[j].id == id && r.value == refs[j].backupPath &&
             forall k :: 0 <= k < j ==> refs[k].id != id;
    assert j == i;
  }

  function Resolve(idx: Index, kind: UrlKind, id: string): Option<string> {
    match kind
    case CategoryUrl => FirstWithId(idx.categories, id)
    case SectionUrl => FirstWithId(idx.sections, id)
    case ArticleUrl => FirstWithId(idx.articles, id)
  }

  /** The replacement of line 176 for an attachment URL. */
  function AttachmentLink(t: OutputType, id: string, name: string, ext: string): string {
    var file := if t == Slugified then id + "-" + name + "." + ext else id + "." + ext;
    "\"../../../" + AttachmentsDir + file + "\""
  }

  /** The file name `convert_body` hands to `download_attachment!` for the same URL (line 174). */
  function DownloadedName(t: OutputType, id: string, name: string, ext: string): string {
    AttachmentFileName(t, id, name + "." + ext)
  }

  /** The link written for an attachment names exactly the file that
      `download_attachment!` stores for it, whenever the captured name has a
      character other than a dot (always, under `:slugified`). */
  lemma AttachmentLinkAgrees(t: OutputType, id: string, name: string, ext: string)
    requires t == Slugified || exists j :: 0 <= j < |name| && name[j] != '.'
    requires ext != [] && forall j :: 0 <= j < |ext| ==> ext[j] != '.'
    ensures AttachmentLink(t, id, name, ext) ==
            "\"../../../" + AttachmentsDir + DownloadedName(t, id, name, ext) + "\""
  {
    if t == IdOnly {
      ExtNameOfNameAndExt(name, ext);
    }
  }

  /** `File.extname` skips leading dots, so for a name made of dots only the
      link (`99.png`) and the stored file (`99`) differ under `:id_only`. */
  lemma DropLeadingDotsOfDots()
    ensures DropLeadingDots("..png") == "png"
  {
    assert "..png"[1..] == ".png" && ".png"[1..] == "png";
  }

  lemma ExtNameOfDots()
    ensures ExtName("..png") == ""
  {
    DropLeadingDotsOfDots();
    var s := "png";
    assert forall j :: 0 <= j < |s| ==> s[j] != '.';
  }

  lemma AttachmentLinkDotName()
    ensures AttachmentLink(IdOnly, "99", ".", "png") == "\"../../../" + AttachmentsDir + "99.png" + "\""
  {
    assert "99" + "." + "png" == "99.png";
  }

  lemma DownloadedDotName()
    ensures DownloadedName(IdOnly, "99", ".", "png") == "99"
  {
    var dots := "." + "." + "png";
    assert dots == "..png" by {
      assert |dots| == 5 && dots[0] == '.' && dots[1] == '.' && dots[2..] == "png";
    }
    ExtNameOfDots();
    assert AttachmentFileName(IdOnly, "99", "..png") == "99" + ExtName("..png");
    assert "99" + "" == "99";
  }

  /** What one piece becomes: attachment URLs always become a local link;
      a help-center URL becomes `"../../../" + backup_path` of the resource it
      names, or stays as it was (lines 181, 189, 200). */
  function RewritePiece(p: Piece, idx: Index, t: OutputType): string {
    match p
    case Text(s) => s
    case AttachmentUrl(_, id, name, ext) => AttachmentLink(t, id, name, ext)
    case ResourceUrl(kind, matched, id) =>
      match Resolve(idx, kind, id)
      case Some(path) => "../../../" + path
      case None => matched
  }

  function Rewritten(ps: seq<Piece>, idx: Index, t: OutputType): string {
    if ps == [] then ""
    else Rewritten(ps[..|ps| - 1], idx, t) + RewritePiece(ps[|ps| - 1], idx, t)
  }

  /** The rewritten text grows piece by piece. */
  lemma RewrittenStep(ps: seq<Piece>, k: nat, idx: Index, t: OutputType)
    requires k < |ps|
    ensures Rewritten(ps[..k + 1], idx, t) == Rewritten(ps[..k], idx, t) + RewritePiece(ps[k], idx, t)
  {
    TakeStep(ps, k);
  }

  // ---------------------------------------------------------------------
  // Heading shift (line 202)

  predicate IsH(c: char) { c == 'h' || c == 'H' }

  predicate IsShiftable(c: char) { '1' <= c <= '5' }

  function NextDigit(c: char): char
    requires IsShiftable(c)
  {
    (c as int + 1) as char
  }

  /** `/<h1/i` matches at the start of `s`. */
  predicate H1At(s: string) {
    |s| >= 3 && s[0] == '<' && IsH(s[1]) && s[2] == '1'
  }

  /** `body.match(/<h1/i)` */
  predicate ContainsH1(s: string) {
    exists i :: 0 <= i <= |s| - 3 && H1At(s[i..])
  }

  /** `gsub(/<(\/?)h([1-5])/i) { "<#{$1}h#{$2.to_i + 1}" }`: one left-to-right
      pass, each match replaced once. */
  function ShiftHeadings(s: string): (r: string)
    ensures |r| == |s|
    ensures |s| > 0 ==> r[0] == s[0]
  {
    if |s| >= 3 && s[0] == '<' && IsH(s[1]) && IsShiftable(s[2]) then
      "<h" + [NextDigit(s[2])] + ShiftHeadings(s[3..])
    else if |s| >= 4 && s[0] == '<' && s[1] == '/' && IsH(s[2]) && IsShiftable(s[3]) then
      "</h" + [NextDigit(s[3])] + ShiftHeadings(s[4..])
    else if s == [] then []
    else [s[0]] + ShiftHeadings(s[1..])
  }

  /** What the pass leaves at position `i` of `s`, read off the text
      around it: the `h` of a match `<hN` or `</hN` (N in 1..5) is written
      lower-case, its digit is raised by one, and every other character,
      `<h6` included, is kept. */
  function ShiftedAt(s: string, i: nat): char
    requires i < |s|
  {
    if i + 1 < |s| && IsH(s[i]) && IsShiftable(s[i + 1]) &&
       ((i >= 1 && s[i - 1] == '<') || (i >= 2 && s[i - 2] == '<' && s[i - 1] == '/'))
    then 'h'
    else if i >= 2 && IsShiftable(s[i]) && IsH(s[i - 1]) &&
            (s[i - 2] == '<' || (i >= 3 && s[i - 3] == '<' && s[i - 2] == '/'))
    then NextDigit(s[i])
    else s[i]
  }

  /** Past a match `<hN` at the start, `ShiftedAt` reads only the rest. */
  lemma ShiftedAtAfterOpen(s: string, i: nat)
    requires |s| >= 3 && s[0] == '<' && IsH(s[1]) && IsShiftable(s[2]) && 3 <= i < |s|
    ensures ShiftedAt(s, i) == ShiftedAt(s[3..], i - 3)
  {
    var rest := s[3..];
    assert forall j :: 0 <= j < |rest| ==> rest[j] == s[j + 3];
  }

  /** Past a match `</hN` at the start, `ShiftedAt` reads only the rest. */
  lemma ShiftedAtAfterClose(s: string, i: nat)
    requires |s| >= 4 && s[0] == '<' && s[1] == '/' && IsH(s[2]) && IsShiftable(s[3]) && 4 <= i < |s|
    ensures ShiftedAt(s, i) == ShiftedAt(s[4..], i - 4)
  {
    var rest := s[4..];
    assert forall j :: 0 <= j < |rest| ==> rest[j] == s[j + 4];
  }

  /** Without a match at the start, `ShiftedAt` past the first character
      reads only the rest. */
  lemma ShiftedAtAfterOther(s: string, i: nat)
    requires s != [] && 1 <= i < |s|
    requires !(|s| >= 3 && s[0] == '<' && IsH(s[1]) && IsShiftable(s[2]))
    requires !(|s| >= 4 && s[0] == '<' && s[1] == '/' && IsH(s[2]) && IsShiftable(s[3]))
    ensures ShiftedAt(s, i) == ShiftedAt(s[1..], i - 1)
  {
    var rest := s[1..];
    assert forall j :: 0 <= j < |rest| ==> rest[j] == s[j + 1];
  }

  /** The pass rewrites every character as `ShiftedAt` says: matches never
      overlap, since each starts with the only `<` it contains, so the
      single left-to-right pass of `gsub` is a position-by-position
      rewrite and a raised digit is never raised again. */
  lemma {:induction false} ShiftHeadingsAt(s: string)
    ensures forall i :: 0 <= i < |s| ==> ShiftHeadings(s)[i] == ShiftedAt(s, i)
    decreases |s|
  {
    var r := ShiftHeadings(s);
    if |s| >= 3 && s[0] == '<' && IsH(s[1]) && IsShiftable(s[2]) {
      var rest := s[3..];
      ShiftHeadingsAt(rest);
      var d := NextDigit(s[2]);
      assert r == "<h" + [d] + ShiftHeadings(rest);
      assert r[0] == '<' && r[1] == 'h' && r[2] == d;
      forall i | 3 <= i < |s|
        ensures r[i] == ShiftedAt(s, i)
      {
        ShiftedAtAfterOpen(s, i);
      }
    } else if |s| >= 4 && s[0] == '<' && s[1] == '/' && IsH(s[2]) && IsShiftable(s[3]) {
      var rest := s[4..];
      ShiftHeadingsAt(rest);
      var d := NextDigit(s[3]);
      assert r == "</h" + [d] + ShiftHeadings(rest);
      assert r[0] == '<' && r[1] == '/' && r[2] == 'h' && r[3] == d;
      forall i | 4 <= i < |s|
        ensures r[i] == ShiftedAt(s, i)
      {
        ShiftedAtAfterClose(s, i);
      }
    } else if s != [] {
      var rest := s[1..];
      ShiftHeadingsAt(rest);
      assert r == [s[0]] + ShiftHeadings(rest);
      forall i | 1 <= i < |s|
        ensures r[i] == ShiftedAt(s, i)
      {
        ShiftedAtAfterOther(s, i);
      }
    }
  }

  /** The heading pass, applied only when the body has an `<h1`. */
  function HeadingPass(s: string): string {
    if ContainsH1(s) then ShiftHeadings(s) else s
  }

  /** `convert_body`: a non-String body is returned unchanged; a String body
      has its URLs rewritten and then goes through the heading pass. */
  function Converted(b: Body, idx: Index, t: OutputType): Body {
    match b
    case NotText => NotText
    case Markup(ps) => Markup([Text(HeadingPass(Rewritten(ps, idx, t)))])
  }

  lemma ContainsH1Cons(c: char, s: string)
    ensures ContainsH1([c] + s) <==> H1At([c] + s) || ContainsH1(s)
  {
    var t := [c] + s;
    assert t[0..] == t;
    if ContainsH1(t) {
      var i :| 0 <= i <= |t| - 3 && H1At(t[i..]);
      if i > 0 {
        assert t[i..] == s[i - 1..];
        assert H1At(s[i - 1..]);
      }
    }
    if ContainsH1(s) {
      var i :| 0 <= i <= |s| - 3 && H1At(s[i..]);
      assert t[i + 1..] == s[i..];
      assert H1At(t[i + 1..]);
    }
  }

  lemma ContainsH1Short(s: string)
    requires |s| < 3
    ensures !ContainsH1(s)
  {
  }

  /** The pass leaves no `<h1` behind (in either case). */
  lemma {:induction false} NoH1AfterShift(s: string)
    ensures !ContainsH1(ShiftHeadings(s))
    decreases |s|
  {
    var r := ShiftHeadings(s);
    if |s| >= 3 && s[0] == '<' && IsH(s[1]) && IsShiftable(s[2]) {
      var rest := ShiftHeadings(s[3..]);
      NoH1AfterShift(s[3..]);
      ConsThree('<', 'h', NextDigit(s[2]), rest);
      assert r == ['<'] + (['h'] + ([NextDigit(s[2])] + rest));
      ContainsH1Cons(NextDigit(s[2]), rest);
      ContainsH1Cons('h', [NextDigit(s[2])] + rest);
      ContainsH1Cons('<', ['h'] + ([NextDigit(s[2])] + rest));
    } else if |s| >= 4 && s[0] == '<' && s[1] == '/' && IsH(s[2]) && IsShiftable(s[3]) {
      var rest := ShiftHeadings(s[4..]);
      NoH1AfterShift(s[4..]);
      ConsFour('<', '/', 'h', NextDigit(s[3]), rest);
      assert r == ['<'] + (['/'] + (['h'] + ([NextDigit(s[3])] + rest)));
      ContainsH1Cons(NextDigit(s[3]), rest);
      ContainsH1Cons('h', [NextDigit(s[3])] + rest);
      ContainsH1Cons('/', ['h'] + ([NextDigit(s[3])] + rest));
      ContainsH1Cons('<', ['/'] + (['h'] + ([NextDigit(s[3])] + rest)));
    } else if s != [] {
      var rest := ShiftHeadings(s[1..]);
      NoH1AfterShift(s[1..]);
      assert r == [s[0]] + rest;
      ContainsH1Cons(s[0], rest);
      // r cannot start with "<h1": s would then have started with a match
      assert !H1At(r);
    }
  }

  /** After conversion no `<h1` remains, so converting again changes nothing. */
  lemma HeadingPassIdempotent(s: string)
    ensures !ContainsH1(HeadingPass(s))
    ensures HeadingPass(HeadingPass(s)) == HeadingPass(s)
  {
    NoH1AfterShift(s);
  }

  /** Without an `<h1`, even `<h2`…`<h5` stay as they are. */
  lemma HeadingPassNeedsH1(s: string)
    requires !ContainsH1(s)
    ensures HeadingPass(s) == s
  {
  }

  lemma ShiftExamples()
    ensures ShiftHeadings("<h1>") == "<h2>"
    ensures ShiftHeadings("</H5>") == "</h6>"
    ensures ShiftHeadings("<h6>") == "<h6>"
  {
    assert ShiftHeadings(">") == ">" by { assert ">"[1..] == []; }
    assert "<h1>"[3..] == ">" && "</H5>"[4..] == ">";
    assert ShiftHeadings("6>") == "6>" by { assert "6>"[1..] == ">"; }
    assert ShiftHeadings("h6>") == "h6>" by { assert "h6>"[1..] == "6>"; }
    assert "<h6>"[1..] == "h6>";
  }

  /** `convert_body` is idempotent on what it produces: the converted body
      is one piece of text, so a second conversion finds no attachment or
      help-center URL to rewrite (the URLs left unresolved are kept as plain
      text), and it has no `<h1`, so the heading pass leaves it alone. */
  lemma ConvertedIdempotent(b: Body, idx: Index, t: OutputType)
    ensures Converted(Converted(b, idx, t), idx, t) == Converted(b, idx, t)
  {
    if b.Markup? {
      var s := HeadingPass(Rewritten(b.pieces, idx, t));
      HeadingPassIdempotent(Rewritten(b.pieces, idx, t));
      var ps := [Text(s)];
      TakeEnds(ps);
      assert Rewritten(ps, idx, t) == s;
    }
  }

  /** A help-center URL resolves to the first resource of its kind, in
      traversal order, whose id is the captured one; if there is none the
      matched text stays. */
  lemma ResourceUrlResolution(kind: UrlKind, matched: string, id: string, idx: Index, t: OutputType,
                              refs: seq<Ref>, j: nat)
    requires refs == (match kind
                      case CategoryUrl => idx.categories
                      case SectionUrl => idx.sections
                      case ArticleUrl => idx.articles)
    requires j < |refs| && refs[j].id == id && forall k :: 0 <= k < j ==> refs[k].id != id
    ensures RewritePiece(ResourceUrl(kind, matched, id), idx, t) == "../../../" + refs[j].backupPath
  {
    var r := FirstWithId(refs, id);
    var j' :| 0 <= j' < |refs| && refs[j'].id == id && r.value == refs[j'].backupPath &&
              forall k :: 0 <= k < j' ==> refs[k].id != id;
    assert j' == j;
  }

  lemma UnresolvedUrlStays(kind: UrlKind, matched: string, id: string, idx: Index, t: OutputType)
    requires forall r :: r in idx.categories + idx.sections + idx.articles ==> r.id != id
    ensures RewritePiece(ResourceUrl(kind, matched, id), idx, t) == matched
  {
    assert forall j :: 0 <= j < |idx.categories| ==> idx.categories[j] in idx.categories + idx.sections + idx.articles;
    assert forall j :: 0 <= j < |idx.sections| ==> idx.sections[j] in idx.categories + idx.sections + idx.articles;
    assert forall j :: 0 <= j < |idx.articles| ==> idx.articles[j] in idx.categories + idx.sections + idx.articles;
  }
}
