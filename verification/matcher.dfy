/** The fragment of Python's regular expressions the season/episode patterns use, matched
    under `re.IGNORECASE`: letters, an optional letter, `\s*` and the capturing group
    `(\d+)`. Two matchers are defined: `Backtrack`, which tries the alternatives in the order
    Python's engine does (greedy quantifiers first try one more repetition, `?` first tries
    the letter), and `Greedy`, a single left-to-right pass that never gives anything back.
    `BacktrackIsGreedy` shows they agree whenever no run can be followed by a character of
    its own class. */
module Matcher {
  import opened Wrappers
  import opened Chars

  /** One element of a pattern. Letters are stored in lower case. */
  datatype Token =
    | Word(w: string)   // the letters of `w`, either case
    | OptLit(c: char)   // `c?`
    | Spaces            // `\s*`
    | Number            // `(\d+)`

  /** A successful match: where it ends and the text of each `(\d+)` group, in order. */
  datatype Hit = Hit(end: nat, groups: seq<string>)

  /** `(?:prefix)?body`. A pattern without an optional part has an empty prefix. */
  datatype Regex = Regex(prefix: seq<Token>, body: seq<Token>)

  /** The pattern with its optional part present. */
  function Full(rx: Regex): seq<Token> {
    rx.prefix + rx.body
  }

  predicate LitHere(s: string, i: nat, c: char) {
    i < |s| && ToLower(s[i]) == c
  }

  predicate WordAt(s: string, i: nat, w: string) {
    i + |w| <= |s| && forall j :: 0 <= j < |w| ==> ToLower(s[i + j]) == w[j]
  }

  /** Characters a run token repeats. */
  predicate InRun(ch: char, t: Token) {
    match t
    case Spaces => IsSpace(ch)
    case Number => IsDigit(ch)
    case _ => false
  }

  predicate IsRun(t: Token) {
    t == Spaces || t == Number
  }

  /** The number of capturing groups. */
  function Groups(toks: seq<Token>): nat {
    if toks == [] then 0 else (if toks[0] == Number then 1 else 0) + Groups(toks[1..])
  }

  lemma GroupsStep(toks: seq<Token>, k: nat)
    requires k < |toks|
    ensures Groups(toks[k..]) == (if toks[k] == Number then 1 else 0) + Groups(toks[k + 1..])
  {
    assert toks[k..][1..] == toks[k + 1..];
  }

  /* ---------------------------------------------------------------------------------------
     Backtracking semantics
     --------------------------------------------------------------------------------------- */

  /** The first match of `toks` at `i` in the engine's order of trying. */
  function Backtrack(s: string, i: nat, toks: seq<Token>): Option<Hit>
    requires i <= |s|
    decreases |toks|, |s| - i, 1
  {
    if toks == [] then Some(Hit(i, []))
    else match toks[0]
      case Word(w) => if WordAt(s, i, w) then Backtrack(s, i + |w|, toks[1..]) else None
      case OptLit(c) =>
        if LitHere(s, i, c) && Backtrack(s, i + 1, toks[1..]).Some? then Backtrack(s, i + 1, toks[1..])
        else Backtrack(s, i, toks[1..])
      case Spaces => BacktrackRun(s, i, i, Spaces, toks[1..])
      case Number => BacktrackRun(s, i, i, Number, toks[1..])
  }

  /** A run token that has consumed `s[start..i]`: first try one more repetition, and only
      when that fails stop here and go on with `rest`. */
  function BacktrackRun(s: string, start: nat, i: nat, t: Token, rest: seq<Token>): Option<Hit>
    requires IsRun(t) && start <= i <= |s|
    decreases |rest| + 1, |s| - i, 0
  {
    if i < |s| && InRun(s[i], t) && BacktrackRun(s, start, i + 1, t, rest).Some? then
      BacktrackRun(s, start, i + 1, t, rest)
    else if t == Number && i == start then None
    else match Backtrack(s, i, rest)
      case None => None
      case Some(h) => Some(if t == Number then Hit(h.end, [s[start..i]] + h.groups) else h)
  }

  /** `re.match` of `(?:prefix)?body` at `p`: the optional group is tried first. */
  function BacktrackAt(rx: Regex, s: string, p: nat): Option<Hit>
    requires p <= |s|
  {
    if Backtrack(s, p, Full(rx)).Some? then Backtrack(s, p, Full(rx))
    else Backtrack(s, p, rx.body)
  }

  /* ---------------------------------------------------------------------------------------
     The greedy matcher
     --------------------------------------------------------------------------------------- */

  /** The end of the longest run of `t` characters starting at `i`. */
  function RunEnd(s: string, i: nat, t: Token): (j: nat)
    requires i <= |s|
    ensures i <= j <= |s|
    ensures forall k :: i <= k < j ==> InRun(s[k], t)
    ensures j == |s| || !InRun(s[j], t)
    decreases |s| - i
  {
    if i < |s| && InRun(s[i], t) then RunEnd(s, i + 1, t) else i
  }

  /** A run of digits ends at the first character that is not a digit, or at the end. */
  lemma {:induction false} RunEndOfDigits(s: string, i: nat, j: nat)
    requires i <= j <= |s| && AllDigits(s[i..j]) && (j == |s| || !IsDigit(s[j]))
    ensures RunEnd(s, i, Number) == j
    decreases j - i
  {
    if i < j {
      assert s[i..j][0] == s[i];
      assert s[i + 1..j] == s[i..j][1..];
      RunEndOfDigits(s, i + 1, j);
    }
  }

  /** One pass: every run takes all it can, an optional letter is taken when present. */
  function Greedy(s: string, i: nat, toks: seq<Token>): (r: Option<Hit>)
    requires i <= |s|
    ensures r.Some? ==> i <= r.value.end <= |s| && |r.value.groups| == Groups(toks)
    ensures r.Some? ==> forall g :: g in r.value.groups ==> |g| > 0 && AllDigits(g)
    decreases |toks|
  {
    if toks == [] then Some(Hit(i, []))
    else match toks[0]
      case Word(w) => if WordAt(s, i, w) then Greedy(s, i + |w|, toks[1..]) else None
      case OptLit(c) => if LitHere(s, i, c) then Greedy(s, i + 1, toks[1..]) else Greedy(s, i, toks[1..])
      case Spaces => Greedy(s, RunEnd(s, i, Spaces), toks[1..])
      case Number =>
        var j := RunEnd(s, i, Number);
        if j == i then None
        else match Greedy(s, j, toks[1..])
          case None => None
          case Some(h) => Some(Hit(h.end, [s[i..j]] + h.groups))
  }

  function GreedyAt(rx: Regex, s: string, p: nat): (r: Option<Hit>)
    requires p <= |s|
    ensures r.Some? ==> p <= r.value.end <= |s|
    ensures r.Some? ==> forall g :: g in r.value.groups ==> |g| > 0 && AllDigits(g)
    ensures r.Some? ==> |r.value.groups| == Groups(Full(rx)) || |r.value.groups| == Groups(rx.body)
  {
    if Greedy(s, p, Full(rx)).Some? then Greedy(s, p, Full(rx))
    else Greedy(s, p, rx.body)
  }

  /** `re.search`: the leftmost position at or after `from` where the pattern matches. */
  function Search(rx: Regex, s: string, from: nat): (r: Option<(nat, Hit)>)
    requires from <= |s|
    ensures r.Some? ==> from <= r.value.0 <= |s| && GreedyAt(rx, s, r.value.0) == Some(r.value.1)
    ensures r.Some? ==> forall q :: from <= q < r.value.0 ==> GreedyAt(rx, s, q).None?
    ensures r.None? ==> forall q :: from <= q <= |s| ==> GreedyAt(rx, s, q).None?
    decreases |s| - from
  {
    match GreedyAt(rx, s, from)
    case Some(h) => Some((from, h))
    case None => if from == |s| then None else Search(rx, s, from + 1)
  }

  /* ---------------------------------------------------------------------------------------
     When the two agree
     --------------------------------------------------------------------------------------- */

  /** What the first character of some text can be. */
  datatype Lead = DigitLead | SpaceLead | LetterLead(c: char)

  predicate Hits(ch: char, x: Lead) {
    match x
    case DigitLead => IsDigit(ch)
    case SpaceLead => IsSpace(ch)
    case LetterLead(c) => ToLower(ch) == c
  }

  function LeadOf(t: Token): Lead
    requires IsRun(t)
  {
    if t == Spaces then SpaceLead else DigitLead
  }

  /** No character that a run of `t` repeats is in `x`. */
  predicate Apart(t: Token, x: Lead)
    requires IsRun(t)
  {
    match x
    case DigitLead => t == Spaces
    case SpaceLead => t == Number
    case LetterLead(c) => !InRun(c, t)
  }

  /** No match of `toks` can begin with a character in `x`. */
  predicate Excludes(toks: seq<Token>, x: Lead)
    decreases |toks|, 1
  {
    toks != [] && HeadExcludes(toks[0], toks[1..], x)
  }

  /** No match of `[t] + rest` can begin with a character in `x`. */
  predicate HeadExcludes(t: Token, rest: seq<Token>, x: Lead)
    decreases |rest| + 1, 0
  {
    match t
    case Word(w) => w != [] && !Hits(w[0], x)
    case OptLit(c) => !Hits(c, x) && Excludes(rest, x)
    case Spaces => Apart(Spaces, x) && Excludes(rest, x)
    case Number => Apart(Number, x)
  }

  /** A run or an optional letter `t` is followed by something that cannot start with what
      `t` consumes. */
  predicate HeadSeparated(t: Token, rest: seq<Token>) {
    match t
    case Word(_) => true
    case OptLit(c) => rest == [] || Excludes(rest, LetterLead(c))
    case Spaces => rest == [] || Excludes(rest, SpaceLead)
    case Number => rest == [] || Excludes(rest, DigitLead)
  }

  /** Every run and optional letter is separated, so giving a character back never helps. */
  predicate Separated(toks: seq<Token>)
    decreases |toks|
  {
    toks == [] || (HeadSeparated(toks[0], toks[1..]) && Separated(toks[1..]))
  }

  /** Building `Separated` one token at a time, from the end of a pattern. */
  lemma SeparatedStep(toks: seq<Token>, k: nat)
    requires k < |toks| && HeadSeparated(toks[k], toks[k + 1..]) && Separated(toks[k + 1..])
    ensures Separated(toks[k..])
  {
    assert toks[k..][1..] == toks[k + 1..];
  }

  lemma ExcludesStep(toks: seq<Token>, k: nat, x: Lead)
    requires k < |toks| && HeadExcludes(toks[k], toks[k + 1..], x)
    ensures Excludes(toks[k..], x)
  {
    assert toks[k..][1..] == toks[k + 1..];
  }

  lemma HitsLower(ch: char, x: Lead)
    requires Hits(ch, x)
    ensures Hits(ToLower(ch), x)
  {
    CaseMappingKeepsClasses(ch);
  }

  lemma ApartHits(ch: char, t: Token, x: Lead)
    requires IsRun(t) && Apart(t, x) && Hits(ch, x)
    ensures !InRun(ch, t)
  {
  }

  /** A text starting with an excluded character does not match. */
  lemma {:induction false} NoMatchOnExcluded(s: string, i: nat, toks: seq<Token>, x: Lead)
    requires i < |s| && Excludes(toks, x) && Hits(s[i], x)
    ensures Backtrack(s, i, toks).None?
    decreases |toks|
  {
    HitsLower(s[i], x);
    match toks[0]
    case Word(w) =>
    case OptLit(c) =>
      NoMatchOnExcluded(s, i, toks[1..], x);
    case Spaces =>
      ApartHits(s[i], Spaces, x);
      NoMatchOnExcluded(s, i, toks[1..], x);
    case Number =>
      ApartHits(s[i], Number, x);
  }

  /** A run followed by a separated rest behaves as if it took the longest run. */
  lemma {:induction false} BacktrackRunGreedy(s: string, start: nat, i: nat, t: Token, rest: seq<Token>)
    requires IsRun(t) && start <= i <= |s|
    requires rest == [] || Excludes(rest, LeadOf(t))
    ensures BacktrackRun(s, start, i, t, rest) == BacktrackRun(s, start, RunEnd(s, i, t), t, rest)
    decreases |s| - i
  {
    if i < |s| && InRun(s[i], t) {
      BacktrackRunGreedy(s, start, i + 1, t, rest);
      if rest != [] {
        NoMatchOnExcluded(s, i, rest, LeadOf(t));
      }
    }
  }

  /** The greedy pass computes the engine's first match on separated patterns. */
  lemma {:induction false} BacktrackIsGreedy(s: string, i: nat, toks: seq<Token>)
    requires i <= |s| && Separated(toks)
    ensures Backtrack(s, i, toks) == Greedy(s, i, toks)
    decreases |toks|
  {
    if toks != [] {
      var rest := toks[1..];
      match toks[0]
      case Word(w) =>
        if WordAt(s, i, w) {
          BacktrackIsGreedy(s, i + |w|, rest);
        }
      case OptLit(c) =>
        BacktrackIsGreedy(s, i, rest);
        if LitHere(s, i, c) {
          BacktrackIsGreedy(s, i + 1, rest);
          if rest != [] {
            NoMatchOnExcluded(s, i, rest, LetterLead(c));
          }
        }
      case Spaces =>
        var j := RunEnd(s, i, Spaces);
        BacktrackRunGreedy(s, i, i, Spaces, rest);
        BacktrackIsGreedy(s, j, rest);
      case Number =>
        var j := RunEnd(s, i, Number);
        BacktrackRunGreedy(s, i, i, Number, rest);
        BacktrackIsGreedy(s, j, rest);
    }
  }

  lemma BacktrackAtIsGreedyAt(rx: Regex, s: string, p: nat)
    requires p <= |s| && Separated(Full(rx)) && Separated(rx.body)
    ensures BacktrackAt(rx, s, p) == GreedyAt(rx, s, p)
  {
    BacktrackIsGreedy(s, p, Full(rx));
    BacktrackIsGreedy(s, p, rx.body);
  }

  /* ---------------------------------------------------------------------------------------
     Composition
     --------------------------------------------------------------------------------------- */

  lemma {:induction false} GroupsAppend(a: seq<Token>, b: seq<Token>)
    ensures Groups(a + b) == Groups(a) + Groups(b)
  {
    if a == [] {
      assert a + b == b;
    } else {
      assert (a + b)[0] == a[0] && (a + b)[1..] == a[1..] + b;
      GroupsAppend(a[1..], b);
    }
  }

  /** Go on with `b` after the match `r`, appending the groups. */
  function Then(s: string, r: Option<Hit>, b: seq<Token>): Option<Hit>
    requires r.Some? ==> r.value.end <= |s|
  {
    match r
    case None => None
    case Some(h1) =>
      match Greedy(s, h1.end, b)
      case None => None
      case Some(h2) => Some(Hit(h2.end, h1.groups + h2.groups))
  }

  /** Where a token other than `(\d+)` leaves the greedy pass, if it matches at `i`. */
  function Step(s: string, i: nat, t: Token): (r: Option<nat>)
    requires i <= |s| && t != Number
    ensures r.Some? ==> i <= r.value <= |s|
  {
    match t
    case Word(w) => if WordAt(s, i, w) then Some(i + |w|) else None
    case OptLit(c) => if LitHere(s, i, c) then Some(i + 1) else Some(i)
    case Spaces => Some(RunEnd(s, i, Spaces))
  }

  lemma GreedyStep(s: string, i: nat, toks: seq<Token>)
    requires i <= |s| && toks != [] && toks[0] != Number
    ensures Greedy(s, i, toks) == match Step(s, i, toks[0])
      case None => None
      case Some(j) => Greedy(s, j, toks[1..])
  {
  }

  /** Matching `a + b` is matching `a` and then `b` where `a` stopped. */
  lemma {:induction false} GreedyAppend(s: string, i: nat, a: seq<Token>, b: seq<Token>)
    requires i <= |s|
    ensures Greedy(s, i, a + b) == Then(s, Greedy(s, i, a), b)
    decreases |a|, 1
  {
    if a == [] {
      assert a + b == b;
      match Greedy(s, i, b)
      case None =>
      case Some(h) => assert [] + h.groups == h.groups;
    } else {
      assert (a + b)[0] == a[0] && (a + b)[1..] == a[1..] + b;
      if a[0] == Number {
        GreedyAppendNumber(s, i, a, b);
      } else {
        GreedyStep(s, i, a);
        GreedyStep(s, i, a + b);
        match Step(s, i, a[0])
        case None =>
        case Some(j) => GreedyAppend(s, j, a[1..], b);
      }
    }
  }

  lemma {:induction false} GreedyAppendNumber(s: string, i: nat, a: seq<Token>, b: seq<Token>)
    requires i <= |s| && a != [] && a[0] == Number
    requires (a + b)[0] == a[0] && (a + b)[1..] == a[1..] + b
    ensures Greedy(s, i, a + b) == Then(s, Greedy(s, i, a), b)
    decreases |a|, 0
  {
    var j := RunEnd(s, i, Number);
    if j > i {
      GreedyAppend(s, j, a[1..], b);
      match Greedy(s, j, a[1..])
      case None =>
      case Some(h1) =>
        match Greedy(s, h1.end, b)
        case None =>
        case Some(h2) =>
          assert [s[i..j]] + (h1.groups + h2.groups) == ([s[i..j]] + h1.groups) + h2.groups;
    }
  }

  /** A token that can only consume letters other than digits, or spaces. */
  predicate TokenDigitFree(t: Token) {
    match t
    case Word(w) => forall j :: 0 <= j < |w| ==> !IsDigit(w[j])
    case OptLit(c) => !IsDigit(c)
    case Spaces => true
    case Number => false
  }

  predicate DigitFree(toks: seq<Token>) {
    forall k :: 0 <= k < |toks| ==> TokenDigitFree(toks[k])
  }

  lemma DigitFreeTail(toks: seq<Token>)
    requires toks != [] && DigitFree(toks)
    ensures DigitFree(toks[1..])
  {
    forall k | 0 <= k < |toks[1..]| ensures toks[1..][k] == toks[k + 1] { }
  }

  /** A digit-free token consumes no digit. */
  lemma StepHasNoDigit(s: string, i: nat, t: Token)
    requires i <= |s| && TokenDigitFree(t)
    ensures Step(s, i, t).Some? ==> forall k :: i <= k < Step(s, i, t).value ==> !IsDigit(s[k])
  {
    match t
    case Word(w) =>
      if WordAt(s, i, w) {
        forall k | i <= k < i + |w|
          ensures !IsDigit(s[k])
        {
          CaseMappingKeepsClasses(s[k]);
          assert ToLower(s[k]) == w[k - i];
        }
      }
    case OptLit(c) =>
      if LitHere(s, i, c) {
        CaseMappingKeepsClasses(s[i]);
      }
    case Spaces =>
  }

  /** A digit-free pattern captures nothing and consumes no digit. */
  lemma {:induction false} DigitFreeConsumesNoDigit(s: string, i: nat, toks: seq<Token>)
    requires i <= |s| && DigitFree(toks)
    ensures var r := Greedy(s, i, toks);
      r.Some? ==> r.value.groups == [] && forall k :: i <= k < r.value.end ==> !IsDigit(s[k])
    decreases |toks|
  {
    if toks != [] {
      assert TokenDigitFree(toks[0]);
      DigitFreeTail(toks);
      GreedyStep(s, i, toks);
      StepHasNoDigit(s, i, toks[0]);
      match Step(s, i, toks[0])
      case None =>
      case Some(j) =>
        DigitFreeConsumesNoDigit(s, j, toks[1..]);
    }
  }
}
