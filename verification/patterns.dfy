/** The four season/episode patterns of screens.py, tried in order on the cleaned name. */
module Patterns {
  import opened Wrappers
  import opened Chars
  import opened Matcher

  /** `(?:Season?\s*)?(\d+)x(\d+)`, e.g. "1x05" or "Season 1x05". */
  const NxM: Regex := Regex([Word("seaso"), OptLit('n'), Spaces], [Number, Word("x"), Number])
  /** `S(\d+)E(\d+)`, e.g. "S01E08". */
  const SxxEyy: Regex := Regex([], [Word("s"), Number, Word("e"), Number])
  /** `Season\s*(\d+)\s*Episode\s*(\d+)`, e.g. "Season 1 Episode 5". */
  const SeasonEpisode: Regex :=
    Regex([], [Word("season"), Spaces, Number, Spaces, Word("episode"), Spaces, Number])
  /** `(\d+)\s*x\s*(\d+)`, e.g. "3 x 12". */
  const SpacedNxM: Regex := Regex([], [Number, Spaces, Word("x"), Spaces, Number])

  /** The patterns in the order they are tried. */
  const Ladder: seq<Regex> := [NxM, SxxEyy, SeasonEpisode, SpacedNxM]

  /** The optional prefix has no group, the body has two, and neither needs backtracking. */
  predicate WellFormed(rx: Regex) {
    && Groups(rx.prefix) == 0
    && Groups(rx.body) == 2
    && Separated(Full(rx))
    && Separated(rx.body)
  }

  lemma NxMBodySeparated()
    ensures Separated(NxM.body)
  {
    var b := NxM.body;
    assert b[3..] == [];
    SeparatedStep(b, 2);
    SeparatedStep(b, 1);
    ExcludesStep(b, 1, DigitLead);
    SeparatedStep(b, 0);
    assert b[0..] == b;
  }

  lemma NxMFullSeparated()
    ensures Separated(Full(NxM))
  {
    var f := Full(NxM);
    assert f == [Word("seaso"), OptLit('n'), Spaces, Number, Word("x"), Number];
    assert f[3..] == NxM.body;
    NxMBodySeparated();
    ExcludesStep(f, 3, SpaceLead);
    SeparatedStep(f, 2);
    ExcludesStep(f, 3, LetterLead('n'));
    ExcludesStep(f, 2, LetterLead('n'));
    SeparatedStep(f, 1);
    SeparatedStep(f, 0);
    assert f[0..] == f;
  }

  lemma NxMGroups()
    ensures Groups(NxM.prefix) == 0 && Groups(NxM.body) == 2
  {
    var b := NxM.body;
    assert b[3..] == [];
    GroupsStep(b, 2);
    GroupsStep(b, 1);
    GroupsStep(b, 0);
    assert b[0..] == b;
    var p := NxM.prefix;
    assert p[3..] == [];
    GroupsStep(p, 2);
    GroupsStep(p, 1);
    GroupsStep(p, 0);
    assert p[0..] == p;
  }

  lemma NxMWellFormed()
    ensures WellFormed(NxM)
  {
    NxMFullSeparated();
    NxMBodySeparated();
    NxMGroups();
  }

  /** A pattern without an optional part is well formed when its body is. */
  lemma PlainWellFormed(rx: Regex)
    requires rx.prefix == [] && Groups(rx.body) == 2 && Separated(rx.body)
    ensures WellFormed(rx)
  {
    assert Full(rx) == rx.body;
  }

  lemma SxxEyySeparated()
    ensures Separated(SxxEyy.body)
  {
    var b := SxxEyy.body;
    assert b[4..] == [];
    SeparatedStep(b, 3);
    SeparatedStep(b, 2);
    ExcludesStep(b, 2, DigitLead);
    SeparatedStep(b, 1);
    SeparatedStep(b, 0);
    assert b[0..] == b;
  }

  lemma SxxEyyGroups()
    ensures Groups(SxxEyy.body) == 2
  {
    var b := SxxEyy.body;
    assert b[4..] == [];
    GroupsStep(b, 3);
    GroupsStep(b, 2);
    GroupsStep(b, 1);
    GroupsStep(b, 0);
    assert b[0..] == b;
  }

  lemma SxxEyyWellFormed()
    ensures WellFormed(SxxEyy)
  {
    SxxEyySeparated();
    SxxEyyGroups();
    PlainWellFormed(SxxEyy);
  }

  lemma SeasonEpisodeSeparated()
    ensures Separated(SeasonEpisode.body)
  {
    var b := SeasonEpisode.body;
    assert b[7..] == [];
    SeparatedStep(b, 6);
    ExcludesStep(b, 6, SpaceLead);
    SeparatedStep(b, 5);
    SeparatedStep(b, 4);
    ExcludesStep(b, 4, SpaceLead);
    SeparatedStep(b, 3);
    ExcludesStep(b, 4, DigitLead);
    ExcludesStep(b, 3, DigitLead);
    SeparatedStep(b, 2);
    ExcludesStep(b, 2, SpaceLead);
    SeparatedStep(b, 1);
    SeparatedStep(b, 0);
    assert b[0..] == b;
  }

  lemma SeasonEpisodeGroups()
    ensures Groups(SeasonEpisode.body) == 2
  {
    var b := SeasonEpisode.body;
    assert b[7..] == [];
    GroupsStep(b, 6);
    GroupsStep(b, 5);
    GroupsStep(b, 4);
    GroupsStep(b, 3);
    GroupsStep(b, 2);
    GroupsStep(b, 1);
    GroupsStep(b, 0);
    assert b[0..] == b;
  }

  lemma SeasonEpisodeWellFormed()
    ensures WellFormed(SeasonEpisode)
  {
    SeasonEpisodeSeparated();
    SeasonEpisodeGroups();
    PlainWellFormed(SeasonEpisode);
  }

  lemma SpacedNxMSeparated()
    ensures Separated(SpacedNxM.body)
  {
    var b := SpacedNxM.body;
    assert b[5..] == [];
    SeparatedStep(b, 4);
    ExcludesStep(b, 4, SpaceLead);
    SeparatedStep(b, 3);
    SeparatedStep(b, 2);
    ExcludesStep(b, 2, SpaceLead);
    SeparatedStep(b, 1);
    ExcludesStep(b, 2, DigitLead);
    ExcludesStep(b, 1, DigitLead);
    SeparatedStep(b, 0);
    assert b[0..] == b;
  }

  lemma SpacedNxMGroups()
    ensures Groups(SpacedNxM.body) == 2
  {
    var b := SpacedNxM.body;
    assert b[5..] == [];
    GroupsStep(b, 4);
    GroupsStep(b, 3);
    GroupsStep(b, 2);
    GroupsStep(b, 1);
    GroupsStep(b, 0);
    assert b[0..] == b;
  }

  lemma SpacedNxMWellFormed()
    ensures WellFormed(SpacedNxM)
  {
    SpacedNxMSeparated();
    SpacedNxMGroups();
    PlainWellFormed(SpacedNxM);
  }

  lemma LadderWellFormed()
    ensures forall k :: 0 <= k < |Ladder| ==> WellFormed(Ladder[k])
  {
    forall k | 0 <= k < |Ladder|
      ensures WellFormed(Ladder[k])
    {
      if k == 0 {
        NxMWellFormed();
      } else if k == 1 {
        SxxEyyWellFormed();
      } else if k == 2 {
        SeasonEpisodeWellFormed();
      } else {
        SpacedNxMWellFormed();
      }
    }
  }

  /* ---------------------------------------------------------------------------------------
     The ladder
     --------------------------------------------------------------------------------------- */

  /** `int(match.group(1))`, `int(match.group(2))`. */
  function Numbers(h: Hit): (nat, nat)
    requires |h.groups| == 2 && AllDigits(h.groups[0]) && AllDigits(h.groups[1])
  {
    (DecimalValue(h.groups[0]), DecimalValue(h.groups[1]))
  }

  /** The numbers of a pattern's leftmost match in `s`, if it matches anywhere. */
  function Find(rx: Regex, s: string): (r: Option<(nat, nat)>)
    requires WellFormed(rx)
    ensures r.Some? <==> Search(rx, s, 0).Some?
  {
    match Search(rx, s, 0)
    case None => None
    case Some((_, h)) =>
      GroupsAppend(rx.prefix, rx.body);
      Some(Numbers(h))
  }

  /** The numbers of the first pattern of `pats` that matches somewhere in `s`. */
  function FirstMatch(pats: seq<Regex>, s: string): (r: Option<(nat, nat)>)
    requires forall k :: 0 <= k < |pats| ==> WellFormed(pats[k])
  {
    if pats == [] then None
    else match Find(pats[0], s)
      case Some(v) => Some(v)
      case None => FirstMatch(pats[1..], s)
  }

  /** The season and episode numbers `extract_episode_info` reads from a cleaned name: none
      exactly when none of the four patterns matches, and otherwise the capture of the first
      pattern that matches. */
  function SeasonAndEpisode(clean: string): (r: Option<(nat, nat)>)
    ensures r.None? <==> forall j :: 0 <= j < |Ladder| ==> Search(Ladder[j], clean, 0).None?
    ensures r.Some? ==>
      exists k :: 0 <= k < |Ladder| && Search(Ladder[k], clean, 0).Some? &&
                  (LadderWellFormed(); r == Find(Ladder[k], clean)) &&
                  forall j :: 0 <= j < k ==> Search(Ladder[j], clean, 0).None?
  {
    LadderWellFormed();
    FirstMatchNone(Ladder, clean);
    FirstMatchSome(Ladder, clean);
    FirstMatch(Ladder, clean)
  }

  /* ---------------------------------------------------------------------------------------
     Lemmas
     --------------------------------------------------------------------------------------- */

  /** The first pattern that matches decides, whatever the later ones would say. */
  lemma {:induction false} FirstMatchPicksFirst(pats: seq<Regex>, s: string, k: nat)
    requires forall j :: 0 <= j < |pats| ==> WellFormed(pats[j])
    requires k < |pats| && Find(pats[k], s).Some?
    requires forall j :: 0 <= j < k ==> Find(pats[j], s).None?
    ensures FirstMatch(pats, s) == Find(pats[k], s)
  {
    if k > 0 {
      assert Find(pats[0], s).None?;
      FirstMatchPicksFirst(pats[1..], s, k - 1);
    }
  }

  /** Nothing is read exactly when no pattern matches anywhere. */
  lemma {:induction false} FirstMatchNone(pats: seq<Regex>, s: string)
    requires forall j :: 0 <= j < |pats| ==> WellFormed(pats[j])
    ensures FirstMatch(pats, s).None? <==> forall j :: 0 <= j < |pats| ==> Find(pats[j], s).None?
  {
    if pats != [] {
      FirstMatchNone(pats[1..], s);
      assert forall j :: 1 <= j < |pats| ==> pats[1..][j - 1] == pats[j];
    }
  }

  /** When something is read, it is the capture of a pattern that matches while every
      pattern before it does not. */
  lemma {:induction false} FirstMatchSome(pats: seq<Regex>, s: string)
    requires forall j :: 0 <= j < |pats| ==> WellFormed(pats[j])
    ensures FirstMatch(pats, s).Some? ==>
      exists k :: 0 <= k < |pats| && Search(pats[k], s, 0).Some? && FirstMatch(pats, s) == Find(pats[k], s) &&
                  forall j :: 0 <= j < k ==> Search(pats[j], s, 0).None?
  {
    if pats != [] && Find(pats[0], s).None? && FirstMatch(pats, s).Some? {
      var rest := pats[1..];
      FirstMatchSome(rest, s);
      var k :| 0 <= k < |rest| && Search(rest[k], s, 0).Some? && FirstMatch(rest, s) == Find(rest[k], s) &&
               forall j :: 0 <= j < k ==> Search(rest[j], s, 0).None?;
      assert FirstMatch(pats, s) == FirstMatch(rest, s);
      assert rest[k] == pats[k + 1];
      forall j | 0 <= j < k + 1
        ensures Search(pats[j], s, 0).None?
      {
        if j > 0 {
          assert rest[j - 1] == pats[j];
        }
      }
      assert Search(pats[k + 1], s, 0).Some? && FirstMatch(pats, s) == Find(pats[k + 1], s);
    }
  }

  /** Pattern `k` of the ladder decides when it is the first to match. */
  lemma LadderPriority(clean: string, k: nat)
    requires k < |Ladder| && Search(Ladder[k], clean, 0).Some?
    requires forall j :: 0 <= j < k ==> Search(Ladder[j], clean, 0).None?
    ensures (LadderWellFormed(); SeasonAndEpisode(clean) == Find(Ladder[k], clean))
  {
    LadderWellFormed();
    FirstMatchPicksFirst(Ladder, clean, k);
  }


  /** The matcher reports what Python's backtracking engine reports: the same leftmost
      position and the same groups. */
  lemma SearchIsEngineSearch(rx: Regex, s: string, from: nat)
    requires WellFormed(rx) && from <= |s|
    ensures var r := Search(rx, s, from);
      && (r.Some? ==> BacktrackAt(rx, s, r.value.0) == Some(r.value.1))
      && (r.Some? ==> forall q :: from <= q < r.value.0 ==> BacktrackAt(rx, s, q).None?)
      && (r.None? ==> forall q :: from <= q <= |s| ==> BacktrackAt(rx, s, q).None?)
  {
    forall q | 0 <= q <= |s|
      ensures BacktrackAt(rx, s, q) == GreedyAt(rx, s, q)
    {
      BacktrackAtIsGreedyAt(rx, s, q);
    }
  }

  /* ---------------------------------------------------------------------------------------
     The optional part of the first pattern
     --------------------------------------------------------------------------------------- */

  /** `(\d+)x(\d+)`: the first pattern without its optional part. */
  const BareNxM: Regex := Regex([], NxM.body)

  /** Positions where the pattern cannot match do not change where the search stops. */
  lemma SearchSkips(rx: Regex, s: string, from: nat, q: nat)
    requires from <= q <= |s|
    requires forall k :: from <= k < q ==> GreedyAt(rx, s, k).None?
    ensures Search(rx, s, from) == Search(rx, s, q)
  {
    var r1 := Search(rx, s, from);
    var r2 := Search(rx, s, q);
    if r1.Some? {
      var p1 := r1.value.0;
      assert q <= p1;
      assert r2.Some?;
      var p2 := r2.value.0;
      assert p1 <= p2 && p2 <= p1;
    }
  }

  /** `Season?\s*` captures nothing and consumes no digit. */
  lemma SeasonPrefixHasNoDigit(s: string, i: nat)
    requires i <= |s|
    ensures var r := Greedy(s, i, NxM.prefix);
      r.Some? ==> r.value.groups == [] && forall k :: i <= k < r.value.end ==> !IsDigit(s[k])
  {
    assert DigitFree(NxM.prefix) by {
      var w := "seaso";
      assert forall j :: 0 <= j < |w| ==> !IsDigit(w[j]);
    }
    DigitFreeConsumesNoDigit(s, i, NxM.prefix);
  }

  lemma BareNxMNeedsDigit(s: string, k: nat)
    requires k < |s| && !IsDigit(s[k])
    ensures GreedyAt(BareNxM, s, k).None?
  {
    assert Full(BareNxM) == NxM.body;
    assert RunEnd(s, k, Number) == k;
  }

  /** The optional `Season?\s*` never changes what the first pattern reads: it matches
      where `(\d+)x(\d+)` alone matches, with the same groups. */
  lemma {:induction false} NxMPrefixIrrelevant(s: string, from: nat)
    requires from <= |s|
    ensures Search(NxM, s, from).Some? <==> Search(BareNxM, s, from).Some?
    ensures Search(NxM, s, from).Some? ==>
      Search(NxM, s, from).value.1.groups == Search(BareNxM, s, from).value.1.groups
    decreases |s| - from
  {
    assert Full(BareNxM) == NxM.body;
    GreedyAppend(s, from, NxM.prefix, NxM.body);
    if GreedyAt(NxM, s, from).None? {
      if from < |s| {
        NxMPrefixIrrelevant(s, from + 1);
      }
    } else if Greedy(s, from, Full(NxM)).Some? {
      var p := Greedy(s, from, NxM.prefix).value;
      SeasonPrefixHasNoDigit(s, from);
      forall k | from <= k < p.end
        ensures GreedyAt(BareNxM, s, k).None?
      {
        BareNxMNeedsDigit(s, k);
      }
      SearchSkips(BareNxM, s, from, p.end);
      var h2 := Greedy(s, p.end, NxM.body).value;
      assert [] + h2.groups == h2.groups;
    }
  }

  /* ---------------------------------------------------------------------------------------
     Consequences
     --------------------------------------------------------------------------------------- */

  lemma NoXWord(s: string, i: nat)
    requires forall k :: 0 <= k < |s| ==> ToLower(s[k]) != 'x'
    ensures !WordAt(s, i, "x")
  {
    if i < |s| {
      assert ToLower(s[i + 0]) != "x"[0];
    }
  }

  lemma NoXNoBareNxMAt(s: string, q: nat)
    requires q <= |s|
    requires forall k :: 0 <= k < |s| ==> ToLower(s[k]) != 'x'
    ensures GreedyAt(BareNxM, s, q).None?
  {
    var b := NxM.body;
    assert Full(BareNxM) == b;
    assert b[0] == Number && b[1..][0] == Word("x");
    NoXWord(s, RunEnd(s, q, Number));
  }

  lemma NoXNoSpacedNxMAt(s: string, q: nat)
    requires q <= |s|
    requires forall k :: 0 <= k < |s| ==> ToLower(s[k]) != 'x'
    ensures GreedyAt(SpacedNxM, s, q).None?
  {
    var b := SpacedNxM.body;
    assert Full(SpacedNxM) == b;
    assert b[0] == Number && b[1..][0] == Spaces && b[1..][1..][0] == Word("x");
    var j := RunEnd(s, q, Number);
    NoXWord(s, RunEnd(s, j, Spaces));
  }

  /** Without an `x` the two `NxM` patterns cannot match. */
  lemma NoXNoNxM(s: string)
    requires forall k :: 0 <= k < |s| ==> ToLower(s[k]) != 'x'
    ensures Search(NxM, s, 0).None? && Search(SpacedNxM, s, 0).None?
  {
    forall q | 0 <= q <= |s|
      ensures GreedyAt(BareNxM, s, q).None? && GreedyAt(SpacedNxM, s, q).None?
    {
      NoXNoBareNxMAt(s, q);
      NoXNoSpacedNxMAt(s, q);
    }
    NxMPrefixIrrelevant(s, 0);
  }

  lemma FirstRungFails(clean: string)
    requires Search(NxM, clean, 0).None?
    ensures forall j :: 0 <= j < 1 ==> Search(Ladder[j], clean, 0).None?
  {
    assert Ladder[0] == NxM;
  }

  /** A name with `S<digits>E<digits>` and no `<digits>x<digits>` reads its numbers from the
      leftmost `S<digits>E<digits>`. */
  lemma SxxEyyDecides(clean: string)
    requires Search(BareNxM, clean, 0).None?
    requires Search(SxxEyy, clean, 0).Some?
    ensures (SxxEyyWellFormed(); SeasonAndEpisode(clean) == Find(SxxEyy, clean))
  {
    NxMPrefixIrrelevant(clean, 0);
    FirstRungFails(clean);
    assert Ladder[1] == SxxEyy;
    LadderPriority(clean, 1);
  }

  lemma GreedyWordHead(s: string, i: nat, toks: seq<Token>)
    requires i <= |s| && toks != [] && toks[0].Word? && WordAt(s, i, toks[0].w)
    ensures Greedy(s, i, toks) == Greedy(s, i + |toks[0].w|, toks[1..])
  {
  }

  lemma GreedyNumberHead(s: string, i: nat, j: nat, toks: seq<Token>, h: Hit)
    requires i < j <= |s| && toks != [] && toks[0] == Number
    requires RunEnd(s, i, Number) == j && Greedy(s, j, toks[1..]) == Some(h)
    ensures Greedy(s, i, toks) == Some(Hit(h.end, [s[i..j]] + h.groups))
  {
  }

  /** The text `S<a>E<b>` with `a` and `b` digits, as the tag `S01E08`. */
  function Tag(a: string, b: string): string {
    "S" + a + "E" + b
  }

  /** `s` is laid out as `S<a>E<b>`. */
  predicate TagParts(s: string, a: string, b: string) {
    && |a| > 0 && |b| > 0 && AllDigits(a) && AllDigits(b)
    && |s| == |a| + |b| + 2 && s[0] == 'S' && s[|a| + 1] == 'E'
    && s[1..|a| + 1] == a && s[|a| + 2..] == b
  }

  lemma TagShape(a: string, b: string)
    requires |a| > 0 && |b| > 0 && AllDigits(a) && AllDigits(b)
    ensures TagParts(Tag(a, b), a, b)
  {
  }

  /** The tail `E(\d+)` of `S(\d+)E(\d+)` reads `E<b>`. */
  lemma EpisodeOfTag(s: string, a: string, b: string, toks: seq<Token>)
    requires TagParts(s, a, b) && toks == SxxEyy.body
    ensures Greedy(s, |a| + 1, toks[2..]) == Some(Hit(|s|, [b]))
  {
    var n := |a|;
    assert toks[4..] == [] && toks[3..][1..] == toks[4..] && toks[2..][1..] == toks[3..];
    assert s[n + 2..|s|] == b;
    RunEndOfDigits(s, n + 2, |s|);
    GreedyNumberHead(s, n + 2, |s|, toks[3..], Hit(|s|, []));
    assert [b] + [] == [b];
    assert WordAt(s, n + 1, "e");
    GreedyWordHead(s, n + 1, toks[2..]);
  }

  /** `S(\d+)E(\d+)` reads the whole of `S<a>E<b>`, capturing `a` and `b`. */
  lemma SxxEyyOnTagParts(s: string, a: string, b: string, toks: seq<Token>)
    requires TagParts(s, a, b) && toks == SxxEyy.body
    ensures Greedy(s, 0, toks) == Some(Hit(|s|, [a, b]))
  {
    var n := |a|;
    EpisodeOfTag(s, a, b, toks);
    assert toks[1..][1..] == toks[2..];
    RunEndOfDigits(s, 1, n + 1);
    GreedyNumberHead(s, 1, n + 1, toks[1..], Hit(|s|, [b]));
    assert [a] + [b] == [a, b];
    assert WordAt(s, 0, "s");
    GreedyWordHead(s, 0, toks);
  }

  lemma TagHasNoX(a: string, b: string)
    requires AllDigits(a) && AllDigits(b)
    ensures forall k :: 0 <= k < |Tag(a, b)| ==> ToLower(Tag(a, b)[k]) != 'x'
  {
    var s := Tag(a, b);
    forall k | 0 <= k < |s|
      ensures ToLower(s[k]) != 'x'
    {
      if 0 < k <= |a| {
        assert s[k] == a[k - 1];
      } else if |a| + 1 < k {
        assert s[k] == b[k - |a| - 2];
      }
    }
  }

  lemma TagNoNxM(a: string, b: string)
    requires AllDigits(a) && AllDigits(b)
    ensures Search(BareNxM, Tag(a, b), 0).None?
  {
    TagHasNoX(a, b);
    NoXNoNxM(Tag(a, b));
    NxMPrefixIrrelevant(Tag(a, b), 0);
  }

  lemma TagMatchesSxxEyy(a: string, b: string)
    requires |a| > 0 && |b| > 0 && AllDigits(a) && AllDigits(b)
    ensures Search(SxxEyy, Tag(a, b), 0) == Some((0, Hit(|Tag(a, b)|, [a, b])))
  {
    TagShape(a, b);
    SxxEyyOnTagParts(Tag(a, b), a, b, SxxEyy.body);
    assert Full(SxxEyy) == SxxEyy.body;
  }

  /** A name that is just `S<a>E<b>` reads as season `a`, episode `b`. */
  lemma SxxEyyTagReads(a: string, b: string)
    requires |a| > 0 && |b| > 0 && AllDigits(a) && AllDigits(b)
    ensures SeasonAndEpisode(Tag(a, b)) == Some((DecimalValue(a), DecimalValue(b)))
  {
    TagNoNxM(a, b);
    TagMatchesSxxEyy(a, b);
    SxxEyyDecides(Tag(a, b));
  }
}
