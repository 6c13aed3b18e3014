/** `extract_episode_info` and its `EpisodeInfo` record (screens.py lines 15-105). The title
    found by the regular expressions of lines 47-85 is an input here. */
module Episodes {
  import opened Wrappers
  import opened Chars
  import opened Text
  import opened FileName
  import opened Matcher
  import opened Patterns
  import opened Titles

  datatype EpisodeInfo = EpisodeInfo(
    season: Option<nat>,
    episode: Option<nat>,
    episodeId: Option<string>,
    title: Option<string>,
    isSpecial: bool)

  /** `f"S{season}E{episode}"`: plain decimal numbers, no padding. */
  function EpisodeId(season: nat, episode: nat): (id: string)
    ensures |id| == 2 + |Decimal(season)| + |Decimal(episode)|
    ensures id[0] == 'S' && id[1 + |Decimal(season)|] == 'E'
    ensures |Decimal(season)| > 1 ==> id[1] != '0'
    ensures |Decimal(episode)| > 1 ==> id[2 + |Decimal(season)|] != '0'
  {
    "S" + Decimal(season) + "E" + Decimal(episode)
  }

  /** Reads a tag `S<digits>E<digits>` back into its two numbers. */
  function ParseEpisodeId(id: string): Option<(nat, nat)> {
    if |id| < 4 || id[0] != 'S' then None
    else
      var j := RunEnd(id, 1, Number);
      if j == 1 || j + 1 >= |id| || id[j] != 'E' || !AllDigits(id[j + 1..]) then None
      else Some((DecimalValue(id[1..j]), DecimalValue(id[j + 1..])))
  }

  /** The facts every record `extract_episode_info` builds satisfies. */
  predicate Consistent(info: EpisodeInfo) {
    && (info.season.Some? <==> info.episode.Some?)
    && (info.episodeId.Some? <==> info.season.Some?)
    && (info.episodeId.Some? ==> info.episodeId.value == EpisodeId(info.season.value, info.episode.value))
    && (info.isSpecial <==> info.season == Some(0))
  }

  /** Lines 76-95 without the cosmetic rewrites: a missing or empty title stays as it is, and
      any other title becomes its re-cased words joined by single spaces. */
  function FinishTitle(raw: Option<string>): (r: Option<string>)
    ensures r.None? <==> raw.None?
    ensures raw == Some("") ==> r == Some("")
    ensures raw.Some? ==> Split(r.value, Whitespace) == CaseWords(Split(raw.value, Whitespace))
    ensures raw.Some? ==> r.value == Join(Split(r.value, Whitespace))
  {
    match raw
    case None => None
    case Some(t) => Some(if t == "" then t else TitleCase(t))
  }

  /** `extract_episode_info(filename)`, given the title lines 47-85 find in the cleaned name. */
  function ExtractEpisodeInfo(filename: string, rawTitle: Option<string>): (info: EpisodeInfo)
    ensures Consistent(info)
    ensures info.season.Some? <==> SeasonAndEpisode(CleanName(filename)).Some?
    ensures info.season.Some? ==>
      SeasonAndEpisode(CleanName(filename)) == Some((info.season.value, info.episode.value))
    ensures info.episodeId.Some? ==>
      ParseEpisodeId(info.episodeId.value) == Some((info.season.value, info.episode.value))
    ensures info.title == FinishTitle(rawTitle)
    ensures info.title.None? <==> rawTitle.None?
    ensures rawTitle.Some? ==>
      Split(info.title.value, Whitespace) == CaseWords(Split(rawTitle.value, Whitespace)) &&
      info.title.value == Join(Split(info.title.value, Whitespace))
  {
    var se := SeasonAndEpisode(CleanName(filename));
    match se
    case None => EpisodeInfo(None, None, None, FinishTitle(rawTitle), false)
    case Some((s, e)) =>
      ParseEpisodeIdRoundTrip(s, e);
      EpisodeInfo(Some(s), Some(e), Some(EpisodeId(s, e)), FinishTitle(rawTitle), s == 0)
  }

  /* ---------------------------------------------------------------------------------------
     Lemmas
     --------------------------------------------------------------------------------------- */

  /** The tag reads back as the numbers it was made from. */
  lemma ParseEpisodeIdRoundTrip(season: nat, episode: nat)
    ensures ParseEpisodeId(EpisodeId(season, episode)) == Some((season, episode))
  {
    var a := Decimal(season);
    var b := Decimal(episode);
    var id := EpisodeId(season, episode);
    var j := 1 + |a|;
    assert id[1..j] == a;
    assert id[j] == 'E';
    assert id[j + 1..] == b;
    RunEndOfDigits(id, 1, j);
    DecimalRoundTrip(season);
    DecimalRoundTrip(episode);
  }

  /** Used as a file name, the tag survives normalisation unchanged, and the pattern ladder
      reads the cleaned name as the same two numbers. */
  lemma EpisodeIdReadsBack(season: nat, episode: nat)
    ensures CleanName(EpisodeId(season, episode)) == EpisodeId(season, episode)
    ensures SeasonAndEpisode(CleanName(EpisodeId(season, episode))) == Some((season, episode))
  {
    var a := Decimal(season);
    var b := Decimal(episode);
    var id := EpisodeId(season, episode);
    assert id == Tag(a, b);
    forall i | 0 <= i < |id| ensures id[i] != '.' && !In(id[i], Separator) {
      assert id[i] == 'S' || id[i] == 'E' || IsDigit(id[i]);
    }
    PlainNameIsClean(id);
    SxxEyyTagReads(a, b);
    DecimalRoundTrip(season);
    DecimalRoundTrip(episode);
  }

  /** Different numbers give different tags. */
  lemma EpisodeIdInjective(s1: nat, e1: nat, s2: nat, e2: nat)
    requires EpisodeId(s1, e1) == EpisodeId(s2, e2)
    ensures s1 == s2 && e1 == e2
  {
    ParseEpisodeIdRoundTrip(s1, e1);
    ParseEpisodeIdRoundTrip(s2, e2);
  }
}
