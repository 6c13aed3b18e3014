/** Recognising screenshot files by extension and normalising a file name before the
    season/episode patterns are tried (screens.py, `is_image_file` and the first lines of
    `extract_episode_info`). */
module FileName {
  import opened Wrappers
  import opened Chars
  import opened Text

  /** The alternatives of `\.(jpg|jpeg|png|gif|bmp)$`, in the order the regex tries them. */
  const ImageExtensions: seq<string> := ["jpg", "jpeg", "png", "gif", "bmp"]

  /** `$` without MULTILINE: the end of the text, or the position of a final newline. */
  predicate AtEnd(s: string, i: nat) {
    i == |s| || (i + 1 == |s| && s[i] == '\n')
  }

  /** The literal `lit` (lower case) occurs at `i`, ignoring case. */
  predicate LitAt(s: string, i: nat, lit: string) {
    i + |lit| <= |s| && Lower(s[i..i + |lit|]) == lit
  }

  /** The alternative `lit` matches at `i` and is followed by `$`. */
  predicate AlternativeMatches(s: string, i: nat, lit: string) {
    LitAt(s, i, lit) && AtEnd(s, i + |lit|)
  }

  /** `(jpg|jpeg|png|gif|bmp)$` at `i`: the first alternative of `alts`, in order, that
      matches there. */
  function FirstAlternative(s: string, i: nat, alts: seq<string>): (r: Option<string>)
    ensures r.Some? ==> r.value in alts && AlternativeMatches(s, i, r.value)
    ensures r.None? ==> forall e :: e in alts ==> !AlternativeMatches(s, i, e)
  {
    if alts == [] then None
    else if AlternativeMatches(s, i, alts[0]) then Some(alts[0])
    else FirstAlternative(s, i, alts[1..])
  }

  function AlternativeAt(s: string, i: nat): Option<string> {
    FirstAlternative(s, i, ImageExtensions)
  }

  /** The end of a match of `\.(jpg|jpeg|png|gif|bmp)$` starting at `p`, if any. */
  function ExtensionMatchAt(s: string, p: nat): Option<nat> {
    if p < |s| && s[p] == '.' then
      match AlternativeAt(s, p + 1)
      case Some(e) => Some(p + 1 + |e|)
      case None => None
    else None
  }

  /** `re.search`: the leftmost start at or after `from` where the pattern matches, with the
      end of that match. */
  function FindExtension(s: string, from: nat): Option<(nat, nat)>
    requires from <= |s|
    decreases |s| - from
  {
    match ExtensionMatchAt(s, from)
    case Some(e) => Some((from, e))
    case None => if from == |s| then None else FindExtension(s, from + 1)
  }

  /** `is_image_file`: the extension pattern finds a match somewhere in the name, which
      happens exactly when the name ends in an image suffix. */
  function IsImageFile(f: string): (r: bool)
    ensures r <==> HasImageSuffix(f)
  {
    SearchFindsSuffix(f);
    FindExtension(f, 0).Some?
  }

  /** `re.sub(r'\.(jpg|jpeg|png|gif|bmp)$', '', s[from..], flags=re.IGNORECASE)`: each match,
      scanning left to right, is deleted. */
  function RemoveExtensions(s: string, from: nat): string
    requires from <= |s|
    decreases |s| - from
  {
    match FindExtension(s, from)
    case None => s[from..]
    case Some((p, e)) =>
      FindExtensionFound(s, from);
      MatchShape(s, p);
      s[from..p] + RemoveExtensions(s, e)
  }

  /** The first substitution of line 26: a name that is not an image file is left as it is;
      otherwise the image suffix is cut off at its dot, keeping only a final newline. */
  function StripExtension(f: string): (r: string)
    ensures !IsImageFile(f) ==> r == f
    ensures IsImageFile(f) ==>
      exists p: nat :: p < |f| && ImageSuffixAt(f, p) && r == f[..p] + (if f[|f| - 1] == '\n' then "\n" else "")
  {
    RemoveShape(f);
    RemoveExtensions(f, 0)
  }

  /** The name the season/episode patterns see: extension removed, runs of `_` and `-` turned
      into one space, runs of whitespace turned into one space, and both ends stripped. The
      result is the name's words joined by single spaces. */
  function CleanName(f: string): (r: string)
    ensures WellSpaced(r)
    ensures r == Join(Split(StripExtension(f), Separator))
  {
    var x := StripExtension(f);
    CleanNameIsJoinedWords(x);
    Strip(SubRuns(SubRuns(x, DashOrUnderscore), Whitespace))
  }

  /* ---------------------------------------------------------------------------------------
     An independent statement of the extension rule
     --------------------------------------------------------------------------------------- */

  /** `s` ends with `suffix`, ignoring the case of ASCII letters. */
  predicate EndsWithIgnoringCase(s: string, suffix: string) {
    |suffix| <= |s| && Lower(s[|s| - |suffix|..]) == suffix
  }

  /** From `p` on, the name is a dot and an image extension in any case, and at most a
      final newline. */
  predicate ImageSuffixAt(f: string, p: nat) {
    p <= |f| && exists e :: e in ImageExtensions && (Lower(f[p..]) == "." + e || Lower(f[p..]) == "." + e + "\n")
  }

  /** The name ends with a dot and one of the five extensions, in any case, optionally
      followed by one final newline (which `$` lets through). */
  predicate HasImageSuffix(f: string) {
    exists e :: e in ImageExtensions && (EndsWithIgnoringCase(f, "." + e) || EndsWithIgnoringCase(f, "." + e + "\n"))
  }

  /* ---------------------------------------------------------------------------------------
     Lemmas
     --------------------------------------------------------------------------------------- */

  lemma {:induction false} FindExtensionFound(s: string, from: nat)
    requires from <= |s|
    ensures var r := FindExtension(s, from);
      r.Some? ==> from <= r.value.0 && ExtensionMatchAt(s, r.value.0) == Some(r.value.1)
    decreases |s| - from
  {
    if ExtensionMatchAt(s, from).None? && from < |s| {
      FindExtensionFound(s, from + 1);
    }
  }

  lemma {:induction false} FindExtensionComplete(s: string, from: nat, q: nat)
    requires from <= q <= |s|
    requires ExtensionMatchAt(s, q).Some?
    ensures FindExtension(s, from).Some?
    decreases q - from
  {
    if from < q && ExtensionMatchAt(s, from).None? {
      FindExtensionComplete(s, from + 1, q);
    }
  }

  lemma {:induction false} FindExtensionNone(s: string, from: nat)
    requires from <= |s|
    requires forall q :: from <= q <= |s| ==> ExtensionMatchAt(s, q).None?
    ensures FindExtension(s, from).None?
    decreases |s| - from
  {
    if from < |s| {
      FindExtensionNone(s, from + 1);
    }
  }

  /** What a match at `p` looks like: a dot, an extension in any case, and `$`. */
  lemma MatchShape(s: string, p: nat)
    requires ExtensionMatchAt(s, p).Some?
    ensures p < |s| && s[p] == '.'
    ensures var e := AlternativeAt(s, p + 1).value;
      && e in ImageExtensions
      && ExtensionMatchAt(s, p).value == p + 1 + |e|
      && LitAt(s, p + 1, e)
      && AtEnd(s, p + 1 + |e|)
  {
  }

  /** The extensions are non-empty runs of lower-case letters. */
  lemma ExtensionLetters(e: string)
    requires e in ImageExtensions
    ensures |e| > 0 && forall j :: 0 <= j < |e| ==> IsLower(e[j])
  {
  }

  lemma LitAtChar(s: string, i: nat, lit: string, j: nat)
    requires LitAt(s, i, lit) && j < |lit|
    ensures ToLower(s[i + j]) == lit[j]
  {
    assert Lower(s[i..i + |lit|])[j] == ToLower(s[i + j]);
  }

  /** The dot of a match is the last dot of the name. */
  lemma MatchIsLastDot(s: string, p: nat)
    requires ExtensionMatchAt(s, p).Some?
    ensures forall i :: p < i < |s| ==> s[i] != '.'
  {
    MatchShape(s, p);
    var e := AlternativeAt(s, p + 1).value;
    ExtensionLetters(e);
    LetterLitNoDot(s, p + 1, e);
  }

  lemma LetterLitNoDot(s: string, i: nat, lit: string)
    requires LitAt(s, i, lit)
    requires forall j :: 0 <= j < |lit| ==> IsLower(lit[j])
    ensures forall k :: i <= k < i + |lit| ==> s[k] != '.'
  {
    forall k | i <= k < i + |lit|
      ensures s[k] != '.'
    {
      LitAtChar(s, i, lit, k - i);
    }
  }

  /** A name has at most one extension match. */
  lemma MatchUnique(s: string, p: nat)
    requires ExtensionMatchAt(s, p).Some?
    ensures forall q :: ExtensionMatchAt(s, q).Some? ==> q == p
  {
    forall q | ExtensionMatchAt(s, q).Some?
      ensures q == p
    {
      MatchIsLastDot(s, p);
      MatchIsLastDot(s, q);
      MatchShape(s, p);
      MatchShape(s, q);
    }
  }

  /** The search for the extension pattern succeeds exactly on the names with an image
      suffix. */
  lemma SearchFindsSuffix(f: string)
    ensures FindExtension(f, 0).Some? <==> HasImageSuffix(f)
  {
    if FindExtension(f, 0).Some? {
      FindExtensionFound(f, 0);
      var p := FindExtension(f, 0).value.0;
      MatchSuffix(f, p);
    }
    if HasImageSuffix(f) {
      var e :| e in ImageExtensions && (EndsWithIgnoringCase(f, "." + e) || EndsWithIgnoringCase(f, "." + e + "\n"));
      var p := SuffixMatch(f, e);
      FindExtensionComplete(f, 0, p);
    }
  }

  lemma EndsWithPointwise(f: string, suf: string)
    requires |suf| <= |f|
    requires forall j :: 0 <= j < |suf| ==> ToLower(f[|f| - |suf| + j]) == suf[j]
    ensures EndsWithIgnoringCase(f, suf)
  {
    var t := Lower(f[|f| - |suf|..]);
    assert forall j :: 0 <= j < |suf| ==> t[j] == ToLower(f[|f| - |suf| + j]);
  }

  lemma DotLitSuffix(f: string, p: nat, e: string, suf: string)
    requires p < |f| && f[p] == '.' && LitAt(f, p + 1, e)
    requires |suf| == |f| - p && suf[..1 + |e|] == "." + e
    requires forall j :: 1 + |e| <= j < |suf| ==> ToLower(f[p + j]) == suf[j]
    ensures EndsWithIgnoringCase(f, suf)
  {
    forall j | 0 <= j < |suf|
      ensures ToLower(f[|f| - |suf| + j]) == suf[j]
    {
      if 1 <= j <= |e| {
        LitAtChar(f, p + 1, e, j - 1);
        assert suf[j] == suf[..1 + |e|][j];
      } else if j == 0 {
        assert suf[0] == suf[..1 + |e|][0];
      }
    }
    EndsWithPointwise(f, suf);
  }

  /** A match gives an image suffix, starting at the match. */
  lemma MatchSuffix(f: string, p: nat)
    requires ExtensionMatchAt(f, p).Some?
    ensures HasImageSuffix(f) && ImageSuffixAt(f, p)
  {
    MatchShape(f, p);
    var e := AlternativeAt(f, p + 1).value;
    if p + 1 + |e| == |f| {
      DotLitSuffix(f, p, e, "." + e);
      assert EndsWithIgnoringCase(f, "." + e);
      assert Lower(f[p..]) == "." + e;
    } else {
      var suf := "." + e + "\n";
      assert suf[..1 + |e|] == "." + e;
      DotLitSuffix(f, p, e, suf);
      assert Lower(f[p..]) == suf;
    }
  }

  /** A dot and a literal, read without case, at `p`. */
  lemma DotAndLit(f: string, p: nat, lit: string)
    requires p + 1 + |lit| <= |f| && Lower(f[p..p + 1 + |lit|]) == "." + lit
    ensures f[p] == '.' && LitAt(f, p + 1, lit)
  {
    var a := f[p..p + 1];
    var b := f[p + 1..p + 1 + |lit|];
    assert f[p..p + 1 + |lit|] == a + b;
    LowerAppend(a, b);
    assert Lower(a) + Lower(b) == "." + lit;
    assert Lower(b) == (Lower(a) + Lower(b))[1..] == lit;
    assert ToLower(f[p]) == Lower(a)[0] == '.';
  }

  lemma MatchFromAlternative(f: string, p: nat, e: string)
    requires p < |f| && f[p] == '.' && e in ImageExtensions && AlternativeMatches(f, p + 1, e)
    ensures ExtensionMatchAt(f, p).Some?
  {
  }

  lemma PlainSuffixMatch(f: string, e: string)
    requires e in ImageExtensions && EndsWithIgnoringCase(f, "." + e)
    ensures ExtensionMatchAt(f, |f| - |e| - 1).Some?
  {
    var p := |f| - |e| - 1;
    assert f[p..] == f[p..p + 1 + |e|];
    DotAndLit(f, p, e);
    MatchFromAlternative(f, p, e);
  }

  lemma NewlineSuffixMatch(f: string, e: string)
    requires e in ImageExtensions && EndsWithIgnoringCase(f, "." + e + "\n")
    ensures ExtensionMatchAt(f, |f| - |e| - 2).Some?
  {
    var p := |f| - |e| - 2;
    var a := f[p..p + 1 + |e|];
    var b := f[|f| - 1..];
    assert f[p..] == a + b;
    LowerAppend(a, b);
    assert Lower(a) == (Lower(a) + Lower(b))[..1 + |e|] == ("." + e + "\n")[..1 + |e|] == "." + e;
    assert ToLower(f[|f| - 1]) == Lower(b)[0] == '\n';
    DotAndLit(f, p, e);
    MatchFromAlternative(f, p, e);
  }

  /** An image suffix gives a match, at the suffix's dot. */
  lemma SuffixMatch(f: string, e: string) returns (p: nat)
    requires e in ImageExtensions
    requires EndsWithIgnoringCase(f, "." + e) || EndsWithIgnoringCase(f, "." + e + "\n")
    ensures p < |f| && ExtensionMatchAt(f, p).Some?
    ensures EndsWithIgnoringCase(f, "." + e) ==> p + 1 + |e| == |f|
    ensures !EndsWithIgnoringCase(f, "." + e) ==> p + 2 + |e| == |f|
  {
    if EndsWithIgnoringCase(f, "." + e) {
      p := |f| - |e| - 1;
      PlainSuffixMatch(f, e);
    } else {
      p := |f| - |e| - 2;
      NewlineSuffixMatch(f, e);
    }
  }

  /** When the name matches at `p`, the rewrite deletes exactly that match. */
  lemma StripAtMatch(f: string, p: nat)
    requires ExtensionMatchAt(f, p).Some?
    ensures RemoveExtensions(f, 0) == f[..p] + f[ExtensionMatchAt(f, p).value..]
  {
    MatchUnique(f, p);
    FindExtensionComplete(f, 0, p);
    FindExtensionFound(f, 0);
    MatchShape(f, p);
    var m := ExtensionMatchAt(f, p).value;
    assert FindExtension(f, 0) == Some((p, m));
    FindExtensionNone(f, m);
    assert RemoveExtensions(f, m) == f[m..];
  }

  /** A match runs to the end of the name, or to its final newline. */
  lemma MatchEnd(f: string, p: nat)
    requires ExtensionMatchAt(f, p).Some?
    ensures f[|f| - 1] != '\n' ==> ExtensionMatchAt(f, p).value == |f|
    ensures f[|f| - 1] == '\n' ==> ExtensionMatchAt(f, p).value == |f| - 1
  {
    MatchShape(f, p);
    var e := AlternativeAt(f, p + 1).value;
    ExtensionLetters(e);
    if p + 1 + |e| == |f| {
      LitAtChar(f, p + 1, e, |e| - 1);
    }
  }

  /** A name built from a base, a dot and an extension ends with that extension. */
  lemma ExtensionSuffix(base: string, ext: string)
    requires Lower(ext) in ImageExtensions
    ensures var f := base + "." + ext;
      EndsWithIgnoringCase(f, "." + Lower(ext)) && f[|f| - 1] != '\n'
  {
    var f := base + "." + ext;
    assert f[|f| - |"." + ext|..] == "." + ext;
    LowerAppend(".", ext);
    ExtensionLetters(Lower(ext));
    assert ToLower(f[|f| - 1]) == Lower(ext)[|ext| - 1];
  }

  /** The extension rule deletes exactly one trailing image extension, of any case, and
      nothing else. */
  lemma StripExtensionExact(base: string, ext: string)
    requires Lower(ext) in ImageExtensions
    ensures StripExtension(base + "." + ext) == base
  {
    var f := base + "." + ext;
    PlainExtensionMatch(base, ext);
    StripAtMatch(f, |base|);
    assert f[..|base|] == base;
    assert f[|f|..] == [];
  }

  lemma PlainExtensionMatch(base: string, ext: string)
    requires Lower(ext) in ImageExtensions
    ensures var f := base + "." + ext; ExtensionMatchAt(f, |base|) == Some(|f|)
  {
    var f := base + "." + ext;
    ExtensionSuffix(base, ext);
    var p := SuffixMatch(f, Lower(ext));
    assert p == |base|;
    MatchEnd(f, p);
  }

  lemma NewlineEndsNoExtension(f: string, e: string)
    requires e in ImageExtensions
    requires |f| > 0 && f[|f| - 1] == '\n'
    ensures !EndsWithIgnoringCase(f, "." + e)
  {
    ExtensionLetters(e);
    if |"." + e| <= |f| {
      assert Lower(f[|f| - |"." + e|..])[|e|] == ToLower(f[|f| - 1]) == '\n';
    }
  }

  lemma NewlineExtensionSuffix(base: string, ext: string)
    requires Lower(ext) in ImageExtensions
    ensures var f := base + "." + ext + "\n"; EndsWithIgnoringCase(f, "." + Lower(ext) + "\n")
  {
    var f := base + "." + ext + "\n";
    assert f[|f| - |"." + ext + "\n"|..] == "." + ext + "\n";
    LowerAppend(".", ext);
    LowerAppend("." + ext, "\n");
  }

  /** With a final newline after the extension, the extension goes and the newline stays. */
  lemma StripExtensionExactNewline(base: string, ext: string)
    requires Lower(ext) in ImageExtensions
    ensures StripExtension(base + "." + ext + "\n") == base + "\n"
  {
    var f := base + "." + ext + "\n";
    NewlineExtensionMatch(base, ext);
    StripAtMatch(f, |base|);
    assert f[..|base|] == base;
    assert f[|f| - 1..] == "\n";
  }

  lemma NewlineExtensionMatch(base: string, ext: string)
    requires Lower(ext) in ImageExtensions
    ensures var f := base + "." + ext + "\n"; ExtensionMatchAt(f, |base|) == Some(|f| - 1)
  {
    var f := base + "." + ext + "\n";
    NewlineExtensionSuffix(base, ext);
    assert f[|f| - 1] == '\n';
    NewlineMatchAt(f, Lower(ext), |base|);
  }

  lemma NewlineMatchAt(f: string, e: string, p: nat)
    requires e in ImageExtensions && |f| == p + |e| + 2 && f[|f| - 1] == '\n'
    requires EndsWithIgnoringCase(f, "." + e + "\n")
    ensures ExtensionMatchAt(f, p) == Some(|f| - 1)
  {
    NewlineEndsNoExtension(f, e);
    var q := SuffixMatch(f, e);
    MatchEnd(f, q);
  }

  /** The shape of the substitution's result, read off the search. */
  lemma RemoveShape(f: string)
    ensures FindExtension(f, 0).None? ==> RemoveExtensions(f, 0) == f
    ensures FindExtension(f, 0).Some? ==>
      exists p: nat :: p < |f| && ImageSuffixAt(f, p) && RemoveExtensions(f, 0) == f[..p] + (if f[|f| - 1] == '\n' then "\n" else "")
  {
    if FindExtension(f, 0).Some? {
      FindExtensionFound(f, 0);
      var p := FindExtension(f, 0).value.0;
      MatchSuffix(f, p);
      RemoveAtMatch(f, p);
    }
  }

  lemma RemoveAtMatch(f: string, p: nat)
    requires ExtensionMatchAt(f, p).Some?
    ensures p < |f|
    ensures RemoveExtensions(f, 0) == f[..p] + (if f[|f| - 1] == '\n' then "\n" else "")
  {
    MatchShape(f, p);
    StripAtMatch(f, p);
    MatchEnd(f, p);
    var m := ExtensionMatchAt(f, p).value;
    if f[|f| - 1] == '\n' {
      assert f[m..] == "\n";
    } else {
      assert f[m..] == "";
    }
  }

  /** Composition of the three rewrites and the strip: a well-spaced join of the words. */
  lemma CleanNameIsJoinedWords(x: string)
    ensures var c := Strip(SubRuns(SubRuns(x, DashOrUnderscore), Whitespace));
      WellSpaced(c) && c == Join(Split(x, Separator))
  {
    var y := SubRuns(x, DashOrUnderscore);
    var z := SubRuns(y, Whitespace);
    var c := Strip(z);
    SubRunsAvoids(x, DashOrUnderscore, false);
    assert y == SubRunsFrom(x, DashOrUnderscore, false);
    assert Avoids(y, DashOrUnderscore);
    SubRunsAvoids(y, Whitespace, false);
    SubRunsSingleSpaces(y, false);
    SubRunsClass(y, Whitespace, false);
    assert z == SubRunsFrom(y, Whitespace, false);
    forall i | 0 <= i < |z|
      ensures In(z[i], Separator) ==> z[i] == ' '
    {
      assert !In(z[i], DashOrUnderscore);
      assert In(z[i], Whitespace) ==> z[i] == ' ';
    }
    assert Collapsed(z);
    StripWellSpaced(z);
    SplitStrip(z, Separator);
    SplitSubRuns(y, Whitespace);
    SplitSubRuns(x, DashOrUnderscore);
    WellSpacedIsJoinOfWords(c);
  }

  /** A name without a dot has no extension to remove. */
  lemma DotlessNotImage(f: string)
    requires forall i :: 0 <= i < |f| ==> f[i] != '.'
    ensures !IsImageFile(f)
  {
    forall suffix: string | |suffix| > 0 && suffix[0] == '.' ensures !EndsWithIgnoringCase(f, suffix) {
      if |suffix| <= |f| {
        var k := |f| - |suffix|;
        assert Lower(f[k..])[0] == ToLower(f[k]) != '.';
      }
    }
  }

  /** A name with no dot and no separator character is its own cleaned name. */
  lemma PlainNameIsClean(f: string)
    requires f != []
    requires forall i :: 0 <= i < |f| ==> f[i] != '.' && !In(f[i], Separator)
    ensures CleanName(f) == f
  {
    DotlessNotImage(f);
    SplitOneWord(f, Separator);
  }
}
