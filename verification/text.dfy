/** The string operations the analyzer applies with `re.sub`, `str.split()`, `' '.join` and
    `str.strip()`, each written as a left-to-right scan over the characters. */
module Text {
  import opened Chars

  /** The character classes the analyzer collapses: `\s`, `[_\-]`, and both together. */
  datatype CharClass = Whitespace | DashOrUnderscore | Separator

  predicate In(c: char, cls: CharClass) {
    match cls
    case Whitespace => IsSpace(c)
    case DashOrUnderscore => c == '_' || c == '-'
    case Separator => IsSpace(c) || c == '_' || c == '-'
  }

  /** No character of `s` belongs to `cls`. */
  predicate Avoids(s: string, cls: CharClass) {
    forall i :: 0 <= i < |s| ==> !In(s[i], cls)
  }

  predicate IsWord(w: string, cls: CharClass) {
    |w| > 0 && Avoids(w, cls)
  }

  /** The words of a split: non-empty and free of separator characters. */
  predicate AreWords(ws: seq<string>, cls: CharClass) {
    forall w :: w in ws ==> IsWord(w, cls)
  }

  /** `re.sub('[cls]+', ' ', s)`: every maximal run of `cls` characters becomes one space and
      every other character is copied. `inRun` says whether the scan is inside a run whose
      space has already been written. */
  function SubRunsFrom(s: string, cls: CharClass, inRun: bool): string {
    if s == [] then []
    else if In(s[0], cls) then
      if inRun then SubRunsFrom(s[1..], cls, true) else " " + SubRunsFrom(s[1..], cls, true)
    else [s[0]] + SubRunsFrom(s[1..], cls, false)
  }

  function SubRuns(s: string, cls: CharClass): string {
    SubRunsFrom(s, cls, false)
  }

  /** The word being accumulated, as a list of zero or one finished words. */
  function Flush(cur: string): seq<string> {
    if cur == [] then [] else [cur]
  }

  /** `s.split()` with no argument, over `cls`, after a partial word `cur` has been read. */
  function SplitFrom(s: string, cls: CharClass, cur: string): seq<string> {
    if s == [] then Flush(cur)
    else if In(s[0], cls) then Flush(cur) + SplitFrom(s[1..], cls, [])
    else SplitFrom(s[1..], cls, cur + [s[0]])
  }

  /** `s.split()`: the maximal runs of non-`cls` characters, in order; leading, trailing and
      repeated separators produce no empty words. */
  function Split(s: string, cls: CharClass): (ws: seq<string>)
    ensures AreWords(ws, cls)
  {
    SplitFromWords(s, cls, []);
    SplitFrom(s, cls, [])
  }

  /** `' '.join(ws)`. */
  function Join(ws: seq<string>): string {
    if ws == [] then ""
    else if |ws| == 1 then ws[0]
    else ws[0] + " " + Join(ws[1..])
  }

  function StripLeft(s: string): (r: string)
    ensures |r| <= |s| && r == s[|s| - |r|..]
    ensures r == [] || !IsSpace(r[0])
    ensures forall i :: 0 <= i < |s| - |r| ==> IsSpace(s[i])
  {
    if s != [] && IsSpace(s[0]) then StripLeft(s[1..]) else s
  }

  function StripRight(s: string): (r: string)
    ensures |r| <= |s| && r == s[..|r|]
    ensures r == [] || !IsSpace(r[|r| - 1])
    ensures forall i :: |r| <= i < |s| ==> IsSpace(s[i])
  {
    if s != [] && IsSpace(s[|s| - 1]) then StripRight(s[..|s| - 1]) else s
  }

  /** `s.strip()`. */
  function Strip(s: string): string {
    StripRight(StripLeft(s))
  }

  /** The shape of a normalised name: the only separator character is the plain space, it
      never starts or ends the text, and it never appears twice in a row. */
  predicate WellSpaced(s: string) {
    && (forall i :: 0 <= i < |s| ==> In(s[i], Separator) ==> s[i] == ' ')
    && (|s| > 0 ==> s[0] != ' ' && s[|s| - 1] != ' ')
    && (forall i :: 0 <= i < |s| - 1 ==> !(s[i] == ' ' && s[i + 1] == ' '))
  }

  /* ---------------------------------------------------------------------------------------
     Splitting
     --------------------------------------------------------------------------------------- */

  lemma {:induction false} SplitFromWords(s: string, cls: CharClass, cur: string)
    requires Avoids(cur, cls)
    ensures AreWords(SplitFrom(s, cls, cur), cls)
  {
    if s != [] {
      if In(s[0], cls) {
        SplitFromWords(s[1..], cls, []);
      } else {
        SplitFromWords(s[1..], cls, cur + [s[0]]);
      }
    }
  }

  /** Reading a separator-free word just extends the partial word. */
  lemma {:induction false} SplitFromWord(w: string, rest: string, cls: CharClass, cur: string)
    requires Avoids(w, cls)
    ensures SplitFrom(w + rest, cls, cur) == SplitFrom(rest, cls, cur + w)
  {
    if w == [] {
      assert w + rest == rest;
      assert cur + w == cur;
    } else {
      assert (w + rest)[1..] == w[1..] + rest;
      assert !In(w[0], cls);
      SplitFromWord(w[1..], rest, cls, cur + [w[0]]);
      assert cur + [w[0]] + w[1..] == cur + w;
    }
  }

  /** A word followed by a space: the word is finished and the split goes on after it. */
  lemma SplitWordSpace(w: string, j: string, cls: CharClass)
    requires IsWord(w, cls) && In(' ', cls)
    ensures Split(w + (" " + j), cls) == [w] + Split(j, cls)
  {
    SplitFromWord(w, " " + j, cls, []);
    assert [] + w == w;
    assert (" " + j)[1..] == j;
  }

  lemma SplitOneWord(w: string, cls: CharClass)
    requires IsWord(w, cls)
    ensures Split(w, cls) == [w]
  {
    SplitFromWord(w, [], cls, []);
    assert w + [] == w && [] + w == w;
  }

  lemma JoinCons(ws: seq<string>)
    requires |ws| > 1
    ensures Join(ws) == ws[0] + (" " + Join(ws[1..]))
  {
  }

  /** Splitting a join of words gives the words back. */
  lemma {:induction false} SplitJoin(ws: seq<string>, cls: CharClass)
    requires AreWords(ws, cls)
    requires In(' ', cls)
    ensures Split(Join(ws), cls) == ws
  {
    if ws != [] {
      assert ws[0] in ws;
      if |ws| == 1 {
        SplitOneWord(ws[0], cls);
      } else {
        var tail := ws[1..];
        assert AreWords(tail, cls) by {
          forall v | v in tail ensures IsWord(v, cls) {
            assert v in ws;
          }
        }
        SplitJoin(tail, cls);
        JoinCons(ws);
        SplitWordSpace(ws[0], Join(tail), cls);
        assert ws == [ws[0]] + tail;
      }
    }
  }

  /** What a well-spaced text demands of the part not yet read. */
  predicate SpacedRest(s: string) {
    && (forall i :: 0 <= i < |s| ==> In(s[i], Separator) ==> s[i] == ' ')
    && (forall i :: 0 <= i < |s| - 1 ==> !(s[i] == ' ' && s[i + 1] == ' '))
    && (|s| > 0 ==> s[|s| - 1] != ' ')
  }

  lemma SpacedRestTail(s: string)
    requires SpacedRest(s) && |s| > 0
    ensures SpacedRest(s[1..])
    ensures s[0] == ' ' ==> |s| > 1 && s[1] != ' '
  {
    var t := s[1..];
    assert forall i :: 0 <= i < |t| ==> t[i] == s[i + 1];
  }

  lemma JoinConsSpace(w: string, x: seq<string>)
    requires x != []
    ensures Join([w] + x) == w + (" " + Join(x))
  {
    assert ([w] + x)[1..] == x;
  }

  /** A well-spaced text is the join of its words. */
  lemma {:induction false} JoinSplitFrom(s: string, cur: string)
    requires Avoids(cur, Separator) && SpacedRest(s)
    requires |s| > 0 && cur == [] ==> s[0] != ' '
    ensures Join(SplitFrom(s, Separator, cur)) == cur + s
  {
    if s == [] {
      assert cur + s == cur;
    } else {
      var t := s[1..];
      SpacedRestTail(s);
      if In(s[0], Separator) {
        JoinSplitFrom(t, []);
        var x := SplitFrom(t, Separator, []);
        assert Join(x) == t && x != [];
        JoinConsSpace(cur, x);
        assert s == " " + t;
      } else {
        assert Avoids(cur + [s[0]], Separator);
        JoinSplitFrom(t, cur + [s[0]]);
        assert cur + [s[0]] + t == cur + s;
      }
    }
  }

  lemma WellSpacedIsJoinOfWords(s: string)
    requires WellSpaced(s)
    ensures Join(Split(s, Separator)) == s
  {
    JoinSplitFrom(s, []);
    assert [] + s == s;
  }

  /** Separators that `str.strip()` removes do not change the split. */
  lemma {:induction false} SplitStripLeft(s: string, cls: CharClass)
    requires In(' ', cls) && (cls == Whitespace || cls == Separator)
    ensures Split(StripLeft(s), cls) == Split(s, cls)
  {
    if s != [] && IsSpace(s[0]) {
      assert In(s[0], cls);
      assert SplitFrom(s, cls, []) == [] + SplitFrom(s[1..], cls, []);
      calc {
        Split(StripLeft(s), cls);
        Split(StripLeft(s[1..]), cls);
        { SplitStripLeft(s[1..], cls); }
        Split(s[1..], cls);
        SplitFrom(s[1..], cls, []);
        Split(s, cls);
      }
    } else {
      assert StripLeft(s) == s;
    }
  }

  lemma {:induction false} SplitFromDropLast(a: string, c: char, cls: CharClass, cur: string)
    requires In(c, cls)
    ensures SplitFrom(a + [c], cls, cur) == SplitFrom(a, cls, cur)
  {
    if a == [] {
      assert a + [c] == [c];
    } else {
      assert (a + [c])[1..] == a[1..] + [c];
      if In(a[0], cls) {
        SplitFromDropLast(a[1..], c, cls, []);
      } else {
        SplitFromDropLast(a[1..], c, cls, cur + [a[0]]);
      }
    }
  }

  lemma {:induction false} SplitStripRight(s: string, cls: CharClass)
    requires cls == Whitespace || cls == Separator
    ensures Split(StripRight(s), cls) == Split(s, cls)
    decreases |s|
  {
    if s != [] && IsSpace(s[|s| - 1]) {
      var init := s[..|s| - 1];
      SplitStripRight(init, cls);
      assert s == init + [s[|s| - 1]];
      SplitFromDropLast(init, s[|s| - 1], cls, []);
    }
  }

  lemma SplitStrip(s: string, cls: CharClass)
    requires cls == Whitespace || cls == Separator
    ensures Split(Strip(s), cls) == Split(s, cls)
  {
    SplitStripLeft(s, cls);
    SplitStripRight(StripLeft(s), cls);
  }

  /** Collapsing runs of separator characters into one space does not change the words. */
  lemma {:induction false} SplitFromSubRuns(s: string, cls: CharClass, inRun: bool, cur: string)
    requires cls == Whitespace || cls == DashOrUnderscore
    requires inRun ==> cur == []
    ensures SplitFrom(SubRunsFrom(s, cls, inRun), Separator, cur) == SplitFrom(s, Separator, cur)
  {
    if s != [] {
      var t := s[1..];
      if In(s[0], cls) {
        SplitFromSubRuns(t, cls, true, []);
        if !inRun {
          assert (" " + SubRunsFrom(t, cls, true))[1..] == SubRunsFrom(t, cls, true);
        }
      } else {
        var out := [s[0]] + SubRunsFrom(t, cls, false);
        assert out[1..] == SubRunsFrom(t, cls, false);
        if In(s[0], Separator) {
          SplitFromSubRuns(t, cls, false, []);
        } else {
          SplitFromSubRuns(t, cls, false, cur + [s[0]]);
        }
      }
    }
  }

  lemma SplitSubRuns(s: string, cls: CharClass)
    requires cls == Whitespace || cls == DashOrUnderscore
    ensures Split(SubRuns(s, cls), Separator) == Split(s, Separator)
  {
    SplitFromSubRuns(s, cls, false, []);
  }

  /* ---------------------------------------------------------------------------------------
     Spacing
     --------------------------------------------------------------------------------------- */

  /** Every `cls` character of `r` is a plain space. */
  predicate OnlySpaceOf(r: string, cls: CharClass) {
    forall i :: 0 <= i < |r| ==> In(r[i], cls) ==> r[i] == ' '
  }

  lemma OnlySpaceOfCons(c: char, rest: string, cls: CharClass)
    requires OnlySpaceOf(rest, cls) && (In(c, cls) ==> c == ' ')
    ensures OnlySpaceOf([c] + rest, cls)
  {
    var r := [c] + rest;
    assert forall i :: 1 <= i < |r| ==> r[i] == rest[i - 1];
  }

  /** Every `cls` character the rewrite writes is the space of a run. */
  lemma {:induction false} SubRunsClass(s: string, cls: CharClass, inRun: bool)
    requires cls == Whitespace || cls == DashOrUnderscore
    ensures OnlySpaceOf(SubRunsFrom(s, cls, inRun), cls)
  {
    if s != [] {
      var rest := SubRunsFrom(s[1..], cls, In(s[0], cls));
      SubRunsClass(s[1..], cls, In(s[0], cls));
      if !In(s[0], cls) {
        OnlySpaceOfCons(s[0], rest, cls);
      } else if !inRun {
        assert In(' ', cls) ==> ' ' == ' ';
        OnlySpaceOfCons(' ', rest, cls);
      }
    }
  }

  /** No two whitespace characters in a row. */
  predicate NoSpacePair(r: string) {
    forall i :: 0 <= i < |r| - 1 ==> !(IsSpace(r[i]) && IsSpace(r[i + 1]))
  }

  lemma NoSpacePairCons(c: char, rest: string)
    requires NoSpacePair(rest)
    requires IsSpace(c) && rest != [] ==> !IsSpace(rest[0])
    ensures NoSpacePair([c] + rest)
  {
    var r := [c] + rest;
    forall i | 0 <= i < |r| - 1
      ensures !(IsSpace(r[i]) && IsSpace(r[i + 1]))
    {
      if i > 0 {
        assert r[i] == rest[i - 1] && r[i + 1] == rest[i];
      }
    }
  }

  /** Rewriting whitespace never leaves two whitespace characters in a row, and inside a run
      the output does not start with one. */
  lemma {:induction false} SubRunsSingleSpaces(s: string, inRun: bool)
    ensures var r := SubRunsFrom(s, Whitespace, inRun);
      NoSpacePair(r) && (inRun && r != [] ==> !IsSpace(r[0]))
  {
    if s != [] {
      var rest := SubRunsFrom(s[1..], Whitespace, In(s[0], Whitespace));
      SubRunsSingleSpaces(s[1..], In(s[0], Whitespace));
      if !In(s[0], Whitespace) {
        NoSpacePairCons(s[0], rest);
      } else if !inRun {
        NoSpacePairCons(' ', rest);
      }
    }
  }

  lemma AvoidsCons(c: char, rest: string, cls: CharClass)
    requires !In(c, cls) && Avoids(rest, cls)
    ensures Avoids([c] + rest, cls)
  {
    var r := [c] + rest;
    assert forall i :: 1 <= i < |r| ==> r[i] == rest[i - 1];
  }

  /** The rewrite adds no `_` or `-`. */
  lemma {:induction false} SubRunsAvoids(s: string, cls: CharClass, inRun: bool)
    requires cls == Whitespace || cls == DashOrUnderscore
    requires cls == Whitespace ==> Avoids(s, DashOrUnderscore)
    ensures Avoids(SubRunsFrom(s, cls, inRun), DashOrUnderscore)
  {
    if s != [] {
      var rest := SubRunsFrom(s[1..], cls, In(s[0], cls));
      assert cls == Whitespace ==> Avoids(s[1..], DashOrUnderscore) && !In(s[0], DashOrUnderscore);
      SubRunsAvoids(s[1..], cls, In(s[0], cls));
      if !In(s[0], cls) {
        AvoidsCons(s[0], rest, DashOrUnderscore);
      } else if !inRun {
        AvoidsCons(' ', rest, DashOrUnderscore);
      }
    }
  }

  lemma {:induction false} StripLeftKeeps(s: string, k: nat)
    requires k <= |s| && (forall i :: 0 <= i < k ==> IsSpace(s[i]))
    ensures |StripLeft(s)| <= |s| - k
  {
    if k > 0 {
      StripLeftKeeps(s[1..], k - 1);
    }
  }

  /** The shape the two rewrites leave: separators are plain spaces, never two in a row. */
  predicate Collapsed(r: string) {
    && (forall i :: 0 <= i < |r| ==> In(r[i], Separator) ==> r[i] == ' ')
    && NoSpacePair(r)
  }

  lemma CollapsedSlice(r: string, a: nat, b: nat)
    requires Collapsed(r) && a <= b <= |r|
    ensures Collapsed(r[a..b])
  {
    var x := r[a..b];
    assert forall i :: 0 <= i < |x| ==> x[i] == r[a + i];
  }

  lemma CollapsedWellSpaced(x: string)
    requires Collapsed(x)
    requires |x| > 0 ==> !IsSpace(x[0]) && !IsSpace(x[|x| - 1])
    ensures WellSpaced(x)
  {
    assert IsSpace(' ');
  }

  lemma StripLeftCollapsed(r: string)
    requires Collapsed(r)
    ensures Collapsed(StripLeft(r))
  {
    CollapsedSlice(r, |r| - |StripLeft(r)|, |r|);
  }

  /** `str.strip()` of a rewritten text is well spaced. */
  lemma StripWellSpaced(r: string)
    requires Collapsed(r)
    ensures WellSpaced(Strip(r))
  {
    var l := StripLeft(r);
    var x := StripRight(l);
    StripLeftCollapsed(r);
    CollapsedSlice(l, 0, |x|);
    if |x| > 0 {
      assert x[0] == l[0];
    }
    CollapsedWellSpaced(x);
  }
}
