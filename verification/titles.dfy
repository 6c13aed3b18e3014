/** The title-casing step of `extract_episode_info` (screens.py lines 88-95): the title is
    split on whitespace, the first word and every word outside the small-word list are
    capitalised, the small words after the first are lower-cased, and the words are joined
    with single spaces. */
module Titles {
  import opened Chars
  import opened Text

  /** Words kept in lower case unless they open the title. */
  const SmallWords: set<string> :=
    {"a", "an", "and", "as", "at", "but", "by", "for", "if", "in", "of", "on", "or", "the", "to", "up"}

  /** `str.capitalize()`: the first character in upper case, the rest in lower case. */
  function Capitalize(w: string): (r: string)
    ensures |r| == |w|
    ensures |w| > 0 ==> r[0] == ToUpper(w[0])
    ensures forall i :: 1 <= i < |w| ==> r[i] == ToLower(w[i])
  {
    if w == [] then [] else [ToUpper(w[0])] + Lower(w[1..])
  }

  /** The case the loop gives the word at position `i`. */
  function CaseWord(w: string, i: nat): string {
    if i == 0 || Lower(w) !in SmallWords then Capitalize(w) else Lower(w)
  }

  function CaseWords(ws: seq<string>): (r: seq<string>)
    ensures |r| == |ws|
    ensures forall i :: 0 <= i < |ws| ==> r[i] == CaseWord(ws[i], i)
  {
    seq(|ws|, i requires 0 <= i < |ws| => CaseWord(ws[i], i))
  }

  /** `' '.join(...)` of the re-cased words of `title.split()`: splitting the result gives back
      the re-cased words, one word out for each word in, and the result is exactly those words
      joined by single spaces. */
  function TitleCase(title: string): (r: string)
    ensures Split(r, Whitespace) == CaseWords(Split(title, Whitespace))
    ensures |Split(r, Whitespace)| == |Split(title, Whitespace)|
    ensures r == Join(Split(r, Whitespace))
  {
    var cs := CaseWords(Split(title, Whitespace));
    CaseWordsAreWords(Split(title, Whitespace));
    SplitJoin(cs, Whitespace);
    Join(cs)
  }

  /** The loop of lines 89-95, rewriting `words[i]` in place. */
  method TitleCaseWords(words: seq<string>) returns (out: seq<string>)
    ensures |out| == |words|
    ensures |words| > 0 ==> out[0] == Capitalize(words[0])
    ensures forall i :: 1 <= i < |words| && Lower(words[i]) in SmallWords ==> out[i] == Lower(words[i])
    ensures forall i :: 1 <= i < |words| && Lower(words[i]) !in SmallWords ==> out[i] == Capitalize(words[i])
  {
    out := words;
    var i := 0;
    while i < |out|
      invariant 0 <= i <= |out| == |words|
      invariant forall k :: 0 <= k < i ==> out[k] == CaseWord(words[k], k)
      invariant forall k :: i <= k < |out| ==> out[k] == words[k]
    {
      var word := out[i];
      if i == 0 || Lower(word) !in SmallWords {
        out := out[i := Capitalize(word)];
      } else {
        out := out[i := Lower(word)];
      }
      i := i + 1;
    }
  }

  /* ---------------------------------------------------------------------------------------
     Lemmas
     --------------------------------------------------------------------------------------- */

  lemma CapitalizeLower(w: string)
    ensures Lower(Capitalize(w)) == Lower(w)
  {
    if w != [] {
      CaseMappingKeepsClasses(w[0]);
    }
  }

  lemma CapitalizeIdempotent(w: string)
    ensures Capitalize(Capitalize(w)) == Capitalize(w)
  {
    if w != [] {
      CaseMappingKeepsClasses(w[0]);
      assert ToUpper(ToUpper(w[0])) == ToUpper(w[0]) by {
        CaseMappingKeepsClasses(ToUpper(w[0]));
      }
    }
  }

  /** Case mapping keeps a word a word: same length, and no whitespace appears. */
  lemma CaseWordIsWord(w: string, i: nat)
    requires IsWord(w, Whitespace)
    ensures IsWord(CaseWord(w, i), Whitespace)
  {
    var r := CaseWord(w, i);
    forall k | 0 <= k < |r|
      ensures !In(r[k], Whitespace)
    {
      CaseMappingKeepsClasses(w[k]);
    }
  }

  lemma CaseWordsAreWords(ws: seq<string>)
    requires AreWords(ws, Whitespace)
    ensures AreWords(CaseWords(ws), Whitespace)
  {
    var r := CaseWords(ws);
    forall v | v in r
      ensures IsWord(v, Whitespace)
    {
      var i :| 0 <= i < |r| && r[i] == v;
      CaseWordIsWord(ws[i], i);
    }
  }

  lemma CaseWordIdempotent(w: string, i: nat)
    ensures CaseWord(CaseWord(w, i), i) == CaseWord(w, i)
  {
    CapitalizeLower(w);
    CapitalizeIdempotent(w);
    LowerIdempotent(w);
  }

  /** Title-casing a title-cased text changes nothing. */
  lemma TitleCaseIdempotent(title: string)
    ensures TitleCase(TitleCase(title)) == TitleCase(title)
  {
    var ws := Split(title, Whitespace);
    var cs := CaseWords(ws);
    forall i | 0 <= i < |cs|
      ensures CaseWords(cs)[i] == cs[i]
    {
      CaseWordIdempotent(ws[i], i);
    }
    assert CaseWords(cs) == cs;
  }

  /** The title-casing rule word by word: as many words as before, the first capitalised, the
      later small words in lower case and every other word capitalised. */
  lemma TitleCaseRule(title: string)
    ensures var ws := Split(title, Whitespace);
      var rs := Split(TitleCase(title), Whitespace);
      && |rs| == |ws|
      && (|ws| > 0 ==> rs[0] == Capitalize(ws[0]))
      && (forall i :: 1 <= i < |ws| && Lower(ws[i]) in SmallWords ==> rs[i] == Lower(ws[i]))
      && (forall i :: 1 <= i < |ws| && Lower(ws[i]) !in SmallWords ==> rs[i] == Capitalize(ws[i]))
  {
  }
}
