/** `slugify` of the exporter: a display name turned into a file-system safe
    token.  The model works on characters; only ASCII letters are downcased. */
module Slug {

  /** The characters Ruby's `String#strip` removes at either end. */
  predicate IsStripSpace(c: char) {
    c == ' ' || c == '\t' || c == '\n' || c == '\U{B}' || c == '\U{C}' || c == '\r' || c == '\0'
  }

  predicate IsUpper(c: char) { 'A' <= c <= 'Z' }

  /** What the character class `[\w-]` admits. */
  predicate IsWordOrHyphen(c: char) {
    'a' <= c <= 'z' || 'A' <= c <= 'Z' || '0' <= c <= '9' || c == '_' || c == '-'
  }

  /** The characters a slug can be made of. */
  predicate IsSlugChar(c: char) {
    'a' <= c <= 'z' || '0' <= c <= '9' || c == '_' || c == '-'
  }

  function Downcase(c: char): char {
    if IsUpper(c) then (c as int + 32) as char else c
  }

  function DowncaseAll(s: string): string {
    seq(|s|, i requires 0 <= i < |s| => Downcase(s[i]))
  }

  function StripLeft(s: string): string {
    if |s| > 0 && IsStripSpace(s[0]) then StripLeft(s[1..]) else s
  }

  function StripRight(s: string): string {
    if |s| > 0 && IsStripSpace(s[|s| - 1]) then StripRight(s[..|s| - 1]) else s
  }

  function Strip(s: string): string {
    StripRight(StripLeft(s))
  }

  /** `gsub(' ', '-')`: every single space becomes a hyphen, runs are kept. */
  function SpacesToHyphens(s: string): string {
    seq(|s|, i requires 0 <= i < |s| => if s[i] == ' ' then '-' else s[i])
  }

  /** `gsub(/[^\w-]/, '')`: drop every character outside `[A-Za-z0-9_-]`. */
  function KeepWordChars(s: string): string {
    if s == [] then []
    else (if IsWordOrHyphen(s[0]) then [s[0]] else []) + KeepWordChars(s[1..])
  }

  /** `text.to_s.downcase.strip.gsub(' ', '-').gsub(/[^\w-]/, '')` */
  function Slugify(text: string): (slug: string)
    ensures |slug| <= |text|
    ensures forall i :: 0 <= i < |slug| ==> IsSlugChar(slug[i])
  {
    var lowered := DowncaseAll(text);
    var stripped := Strip(lowered);
    StripIsSlice(lowered);
    var hyphened := SpacesToHyphens(stripped);
    KeepWordCharsFrom(hyphened);
    KeepWordChars(hyphened)
  }

  lemma {:induction false} StripLeftIsSlice(s: string) returns (a: nat)
    ensures a <= |s| && StripLeft(s) == s[a..]
  {
    if |s| > 0 && IsStripSpace(s[0]) {
      var a' := StripLeftIsSlice(s[1..]);
      a := a' + 1;
      assert s[1..][a'..] == s[a..];
    } else {
      a := 0;
    }
  }

  lemma {:induction false} StripRightIsSlice(s: string) returns (b: nat)
    ensures b <= |s| && StripRight(s) == s[..b]
  {
    if |s| > 0 && IsStripSpace(s[|s| - 1]) {
      b := StripRightIsSlice(s[..|s| - 1]);
      assert s[..|s| - 1][..b] == s[..b];
    } else {
      b := |s|;
      assert s == s[..|s|];
    }
  }

  /** Stripping keeps a contiguous part of its input. */
  lemma StripIsSlice(s: string)
    ensures |Strip(s)| <= |s|
    ensures forall i :: 0 <= i < |Strip(s)| ==> Strip(s)[i] in s
  {
    var a := StripLeftIsSlice(s);
    var t := s[a..];
    var b := StripRightIsSlice(t);
    forall i | 0 <= i < b ensures t[..b][i] in s {
      assert t[..b][i] == s[a + i];
    }
  }

  /** What survives the filter is a word character or hyphen taken from the input. */
  lemma {:induction false} KeepWordCharsFrom(s: string)
    ensures |KeepWordChars(s)| <= |s|
    ensures forall i :: 0 <= i < |KeepWordChars(s)| ==>
              IsWordOrHyphen(KeepWordChars(s)[i]) && KeepWordChars(s)[i] in s
  {
    if s != [] {
      KeepWordCharsFrom(s[1..]);
      var head := if IsWordOrHyphen(s[0]) then [s[0]] else [];
      assert KeepWordChars(s) == head + KeepWordChars(s[1..]);
      forall i | 0 <= i < |KeepWordChars(s)|
        ensures IsWordOrHyphen(KeepWordChars(s)[i]) && KeepWordChars(s)[i] in s
      {
        if i >= |head| {
          assert KeepWordChars(s)[i] == KeepWordChars(s[1..])[i - |head|];
          assert KeepWordChars(s)[i] in s[1..];
        }
      }
    }
  }

  predicate IsSlug(s: string) {
    forall i :: 0 <= i < |s| ==> IsSlugChar(s[i])
  }

  lemma {:induction false} KeepWordCharsOfSlug(s: string)
    requires IsSlug(s)
    ensures KeepWordChars(s) == s
  {
    if s != [] {
      KeepWordCharsOfSlug(s[1..]);
      assert [s[0]] + s[1..] == s;
    }
  }

  lemma StripOfSlug(s: string)
    requires IsSlug(s)
    ensures Strip(s) == s
  {
    if |s| > 0 {
      assert !IsStripSpace(s[0]) && !IsStripSpace(s[|s| - 1]);
    }
  }

  /** A slug is a fixed point of `slugify`: slugifying an existing directory
      name's slug gives it back, so names are stable across runs. */
  lemma SlugifyIdempotent(text: string)
    ensures Slugify(Slugify(text)) == Slugify(text)
  {
    var s := Slugify(text);
    assert DowncaseAll(s) == s;
    StripOfSlug(s);
    assert SpacesToHyphens(s) == s;
    KeepWordCharsOfSlug(s);
  }

  lemma SlugifyEmpty()
    ensures Slugify("") == ""
  {
    assert DowncaseAll("") == "";
  }

  lemma {:induction false} KeepWordCharsAppend(x: string, y: string)
    ensures KeepWordChars(x + y) == KeepWordChars(x) + KeepWordChars(y)
  {
    if x != [] {
      KeepWordCharsAppend(x[1..], y);
      assert (x + y)[1..] == x[1..] + y;
    } else {
      assert x + y == y;
    }
  }

  lemma KeepWordCharsOfLiterals()
    ensures KeepWordChars("hello") == "hello"
    ensures KeepWordChars("-world") == "-world"
    ensures KeepWordChars(",") == "" && KeepWordChars("!") == ""
  {
    var x, z := "hello", "-world";
    assert IsSlug(x) by {
      forall i | 0 <= i < |x| ensures IsSlugChar(x[i]) { }
    }
    assert IsSlug(z) by {
      forall i | 0 <= i < |z| ensures IsSlugChar(z[i]) { }
    }
    KeepWordCharsOfSlug(x);
    KeepWordCharsOfSlug(z);
    assert ","[1..] == [] && "!"[1..] == [];
  }

  lemma KeepWordCharsExample()
    ensures KeepWordChars("hello,-world!") == "hello-world"
  {
    var x, y, z, w := "hello", ",", "-world", "!";
    calc {
      KeepWordChars("hello,-world!");
      { assert "hello,-world!" == (x + y + z) + w; }
      KeepWordChars((x + y + z) + w);
      { KeepWordCharsAppend(x + y + z, w); }
      KeepWordChars((x + y) + z) + KeepWordChars(w);
      { KeepWordCharsAppend(x + y, z); }
      KeepWordChars(x + y) + KeepWordChars(z) + KeepWordChars(w);
      { KeepWordCharsAppend(x, y); }
      KeepWordChars(x) + KeepWordChars(y) + KeepWordChars(z) + KeepWordChars(w);
      { KeepWordCharsOfLiterals(); }
      "hello" + "" + "-world" + "";
      "hello-world";
    }
  }

  lemma SlugifyExample()
    ensures Slugify("Hello, World!") == "hello-world"
    ensures Slugify("hello, world!") == "hello-world"
  {
    DowncaseExample();
    var lowered := "hello, world!";
    assert Strip(lowered) == lowered by {
      assert !IsStripSpace(lowered[0]) && !IsStripSpace(lowered[|lowered| - 1]);
    }
    SpacesToHyphensExample();
    KeepWordCharsExample();
  }

  lemma DowncaseExample()
    ensures DowncaseAll("Hello, World!") == "hello, world!"
    ensures DowncaseAll("hello, world!") == "hello, world!"
  {
  }

  lemma SpacesToHyphensExample()
    ensures SpacesToHyphens("hello, world!") == "hello,-world!"
  {
  }
}
