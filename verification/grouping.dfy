/** The grouping loop of `analyze_distribution` (screens.py lines 121-148): every image file is
    either set aside as unidentified or filed under the key of its episode. */
module Grouping {
  import opened Wrappers
  import opened FileName
  import opened Episodes

  /** One `(filename, episode_info)` pair. */
  datatype Entry = Entry(name: string, info: EpisodeInfo)

  /** Python truthiness of an optional string: present and non-empty. */
  predicate Truthy(o: Option<string>) {
    o.Some? && o.value != ""
  }

  /** Neither an episode tag nor a title: the file goes to the unidentified list. On a record
      `extract_episode_info` built, that is: no season was read and the title is missing or
      empty. */
  predicate IsUnidentified(info: EpisodeInfo): (r: bool)
    ensures Consistent(info) ==> (r <==> info.season.None? && !Truthy(info.title))
  {
    !Truthy(info.episodeId) && !Truthy(info.title)
  }

  /** `episode_id or f"Unknown-{title or 'Untitled'}"`. On a consistent record an episode's
      key is its tag, starting with 'S', and any other key starts with 'U'; for a file that is
      grouped at all, the `'Untitled'` fallback never applies. */
  function GroupKey(info: EpisodeInfo): (k: string)
    ensures |k| > 0
    ensures Consistent(info) ==> (k[0] == 'S' <==> info.season.Some?)
    ensures Consistent(info) && info.season.Some? ==> k == EpisodeId(info.season.value, info.episode.value)
    ensures Consistent(info) && !IsUnidentified(info) && info.season.None? ==> k == "Unknown-" + info.title.value
  {
    if Truthy(info.episodeId) then info.episodeId.value
    else "Unknown-" + (if Truthy(info.title) then info.title.value else "Untitled")
  }

  /** The elements of `xs` that satisfy `keep`, in order. */
  function Filter<T>(xs: seq<T>, keep: T -> bool): (r: seq<T>)
    ensures |r| <= |xs|
  {
    if xs == [] then [] else (if keep(xs[0]) then [xs[0]] else []) + Filter(xs[1..], keep)
  }

  /** Every element is kept exactly as often as it occurs, if `keep` accepts it. */
  lemma {:induction false} FilterCount<T>(xs: seq<T>, keep: T -> bool, x: T)
    ensures multiset(Filter(xs, keep))[x] == if keep(x) then multiset(xs)[x] else 0
  {
    if xs != [] {
      assert xs == [xs[0]] + xs[1..];
      FilterCount(xs[1..], keep, x);
    }
  }

  lemma {:induction false} FilterAppend<T>(a: seq<T>, b: seq<T>, keep: T -> bool)
    ensures Filter(a + b, keep) == Filter(a, keep) + Filter(b, keep)
  {
    if a == [] {
      assert a + b == b;
    } else {
      var head := if keep(a[0]) then [a[0]] else [];
      assert (a + b)[0] == a[0] && (a + b)[1..] == a[1..] + b;
      calc {
        Filter(a + b, keep);
        head + Filter(a[1..] + b, keep);
        { FilterAppend(a[1..], b, keep); }
        head + (Filter(a[1..], keep) + Filter(b, keep));
        (head + Filter(a[1..], keep)) + Filter(b, keep);
        Filter(a, keep) + Filter(b, keep);
      }
    }
  }

  /** The names the directory scan keeps: those `is_image_file` accepts, each as often as it
      occurs, in order (lemma `ImageFilesAppend`). */
  function ImageFiles(names: seq<string>): (r: seq<string>)
    ensures |r| <= |names|
    ensures forall n :: n in r <==> n in names && IsImageFile(n)
    ensures forall n :: multiset(r)[n] == if IsImageFile(n) then multiset(names)[n] else 0
  {
    forall n ensures multiset(Filter(names, IsImageFile))[n] == if IsImageFile(n) then multiset(names)[n] else 0 {
      FilterCount(names, IsImageFile, n);
    }
    Filter(names, IsImageFile)
  }

  /** The scan keeps the order of the listing: the kept names of a concatenation are the kept
      names of the first part followed by those of the second. */
  lemma ImageFilesAppend(a: seq<string>, b: seq<string>)
    ensures ImageFiles(a + b) == ImageFiles(a) + ImageFiles(b)
  {
    FilterAppend(a, b, IsImageFile);
  }

  /* ---------------------------------------------------------------------------------------
     Reference definitions, one entry at a time from the front of the list
     --------------------------------------------------------------------------------------- */

  /** Names of the unidentified entries, in order. */
  function Unidentified(es: seq<Entry>): seq<string> {
    if es == [] then []
    else
      var last := es[|es| - 1];
      Unidentified(es[..|es| - 1]) + (if IsUnidentified(last.info) then [last.name] else [])
  }

  /** The identified entries filed under `key`, in order. */
  function Members(es: seq<Entry>, key: string): seq<Entry> {
    if es == [] then []
    else
      var last := es[|es| - 1];
      Members(es[..|es| - 1], key)
        + (if !IsUnidentified(last.info) && GroupKey(last.info) == key then [last] else [])
  }

  /** The keys in the order they first occur, which is the order of the dictionary. */
  function Keys(es: seq<Entry>): seq<string> {
    if es == [] then []
    else
      var last := es[|es| - 1];
      var ks := Keys(es[..|es| - 1]);
      if !IsUnidentified(last.info) && GroupKey(last.info) !in ks then ks + [GroupKey(last.info)] else ks
  }

  /** Sum of the group sizes over `ks`. */
  function SumSizes(es: seq<Entry>, ks: seq<string>): nat {
    if ks == [] then 0 else SumSizes(es, ks[..|ks| - 1]) + |Members(es, ks[|ks| - 1])|
  }

  /** Sum of the sizes of the groups of `groups` named in `ks`. */
  function Total(groups: map<string, seq<Entry>>, ks: seq<string>): nat
    requires forall k :: k in ks ==> k in groups
  {
    if ks == [] then 0 else Total(groups, ks[..|ks| - 1]) + |groups[ks[|ks| - 1]]|
  }

  /** No element occurs twice. */
  predicate Distinct<T(==)>(s: seq<T>) {
    forall i, j :: 0 <= i < j < |s| ==> s[i] != s[j]
  }

  /* ---------------------------------------------------------------------------------------
     The loop
     --------------------------------------------------------------------------------------- */

  /** Lines 133-145: files every entry under its key or sets its name aside. The groups are
      non-empty, hold exactly the identified entries with their key, and together with the
      unidentified names account for every entry once. */
  method GroupEntries(es: seq<Entry>) returns (groups: map<string, seq<Entry>>, keys: seq<string>, unidentified: seq<string>)
    ensures forall k :: k in groups <==> k in keys
    ensures forall k :: k in groups ==> groups[k] == Members(es, k)
    ensures Distinct(keys)
    ensures forall k :: k in groups ==> |groups[k]| > 0
    ensures forall k, e :: k in groups && e in groups[k] ==> e in es && !IsUnidentified(e.info) && GroupKey(e.info) == k
    ensures forall i :: 0 <= i < |es| && !IsUnidentified(es[i].info) ==>
      GroupKey(es[i].info) in groups && es[i] in groups[GroupKey(es[i].info)]
    ensures forall n :: n in unidentified <==> exists i :: 0 <= i < |es| && es[i].name == n && IsUnidentified(es[i].info)
    ensures |unidentified| + Total(groups, keys) == |es|
  {
    groups := map[];
    keys := [];
    unidentified := [];
    var i := 0;
    while i < |es|
      invariant 0 <= i <= |es|
      invariant unidentified == Unidentified(es[..i])
      invariant keys == Keys(es[..i])
      invariant forall k :: k in groups <==> k in keys
      invariant forall k :: k in groups ==> groups[k] == Members(es[..i], k)
    {
      var e := es[i];
      assert es[..i + 1][..i] == es[..i];
      if IsUnidentified(e.info) {
        unidentified := unidentified + [e.name];
      } else {
        var key := GroupKey(e.info);
        if key in groups {
          groups := groups[key := groups[key] + [e]];
        } else {
          KeysAreNonEmptyGroups(es[..i]);
          groups := groups[key := [e]];
          keys := keys + [key];
        }
      }
      i := i + 1;
    }
    assert es[..|es|] == es;
    KeysDistinct(es);
    KeysAreNonEmptyGroups(es);
    forall k | k in groups
      ensures forall e :: e in groups[k] ==> e in es && !IsUnidentified(e.info) && GroupKey(e.info) == k
    {
      MembersSound(es, k);
    }
    MembersComplete(es);
    UnidentifiedNames(es);
    PartitionCount(es);
    TotalIsSumSizes(groups, es, keys);
  }

  /* ---------------------------------------------------------------------------------------
     Lemmas
     --------------------------------------------------------------------------------------- */

  lemma {:induction false} MembersSound(es: seq<Entry>, key: string)
    ensures forall e :: e in Members(es, key) ==> e in es && !IsUnidentified(e.info) && GroupKey(e.info) == key
  {
    if es != [] {
      MembersSound(es[..|es| - 1], key);
    }
  }

  lemma {:induction false} MembersComplete(es: seq<Entry>)
    ensures forall i :: 0 <= i < |es| && !IsUnidentified(es[i].info) ==> es[i] in Members(es, GroupKey(es[i].info))
  {
    if es != [] {
      var front := es[..|es| - 1];
      MembersComplete(front);
      forall i | 0 <= i < |es| - 1 && !IsUnidentified(es[i].info)
        ensures es[i] in Members(es, GroupKey(es[i].info))
      {
        assert es[i] == front[i];
      }
    }
  }

  lemma {:induction false} UnidentifiedNames(es: seq<Entry>)
    ensures forall n :: n in Unidentified(es) <==> exists i :: 0 <= i < |es| && es[i].name == n && IsUnidentified(es[i].info)
  {
    if es != [] {
      var front := es[..|es| - 1];
      UnidentifiedNames(front);
      forall n | n in Unidentified(es)
        ensures exists i :: 0 <= i < |es| && es[i].name == n && IsUnidentified(es[i].info)
      {
        if n in Unidentified(front) {
          var i :| 0 <= i < |front| && front[i].name == n && IsUnidentified(front[i].info);
          assert es[i] == front[i];
        } else {
          assert es[|es| - 1].name == n;
        }
      }
      forall n | exists i :: 0 <= i < |es| && es[i].name == n && IsUnidentified(es[i].info)
        ensures n in Unidentified(es)
      {
        var i :| 0 <= i < |es| && es[i].name == n && IsUnidentified(es[i].info);
        if i < |front| {
          assert front[i] == es[i];
        }
      }
    }
  }

  /** A key is listed exactly when its group is non-empty. */
  lemma {:induction false} KeysAreNonEmptyGroups(es: seq<Entry>)
    ensures forall k :: k in Keys(es) <==> |Members(es, k)| > 0
  {
    if es != [] {
      KeysAreNonEmptyGroups(es[..|es| - 1]);
    }
  }

  lemma {:induction false} KeysDistinct(es: seq<Entry>)
    ensures Distinct(Keys(es))
  {
    if es != [] {
      KeysDistinct(es[..|es| - 1]);
    }
  }

  /** Adding one entry leaves the sum over keys that are not its own unchanged. */
  lemma {:induction false} SumSizesOther(es: seq<Entry>, e: Entry, ks: seq<string>)
    requires IsUnidentified(e.info) || GroupKey(e.info) !in ks
    ensures SumSizes(es + [e], ks) == SumSizes(es, ks)
  {
    assert (es + [e])[..|es|] == es;
    if ks != [] {
      SumSizesOther(es, e, ks[..|ks| - 1]);
    }
  }

  /** Adding one entry grows the sum over distinct keys holding its own by one. */
  lemma {:induction false} SumSizesOwn(es: seq<Entry>, e: Entry, ks: seq<string>)
    requires !IsUnidentified(e.info) && GroupKey(e.info) in ks && Distinct(ks)
    ensures SumSizes(es + [e], ks) == SumSizes(es, ks) + 1
  {
    assert (es + [e])[..|es|] == es;
    var front := ks[..|ks| - 1];
    if ks[|ks| - 1] == GroupKey(e.info) {
      assert GroupKey(e.info) !in front;
      SumSizesOther(es, e, front);
    } else {
      assert GroupKey(e.info) in front;
      SumSizesOwn(es, e, front);
    }
  }

  /** Every entry is counted once: unidentified names plus the group sizes give the count. */
  lemma {:induction false} PartitionCount(es: seq<Entry>)
    ensures |Unidentified(es)| + SumSizes(es, Keys(es)) == |es|
  {
    if es != [] {
      var front := es[..|es| - 1];
      var e := es[|es| - 1];
      assert es == front + [e];
      PartitionCount(front);
      var ks := Keys(front);
      if IsUnidentified(e.info) {
        SumSizesOther(front, e, ks);
      } else if GroupKey(e.info) in ks {
        KeysDistinct(front);
        SumSizesOwn(front, e, ks);
      } else {
        SumSizesOther(front, e, ks);
        KeysAreNonEmptyGroups(front);
        var g := GroupKey(e.info);
        assert Keys(es) == ks + [g];
        assert (ks + [g])[..|ks|] == ks;
        assert |Members(es, g)| == 1;
      }
    }
  }

  lemma {:induction false} TotalIsSumSizes(groups: map<string, seq<Entry>>, es: seq<Entry>, ks: seq<string>)
    requires forall k :: k in ks ==> k in groups && groups[k] == Members(es, k)
    ensures Total(groups, ks) == SumSizes(es, ks)
  {
    if ks != [] {
      TotalIsSumSizes(groups, es, ks[..|ks| - 1]);
    }
  }

  /** Entries that share a key share their season, episode and special flag, so the first
      file of a group speaks for all of it. */
  lemma SameKeySameEpisode(a: EpisodeInfo, b: EpisodeInfo)
    requires Consistent(a) && Consistent(b) && GroupKey(a) == GroupKey(b)
    ensures a.season == b.season && a.episode == b.episode && a.isSpecial == b.isSpecial
  {
    if a.episodeId.Some? {
      EpisodeIdInjective(a.season.value, a.episode.value, b.season.value, b.episode.value);
    }
  }

  /** Two grouped files share a key exactly when both carry the same season and episode, or
      neither carries a season and both carry the same title. */
  lemma GroupKeyMeans(a: EpisodeInfo, b: EpisodeInfo)
    requires Consistent(a) && Consistent(b) && !IsUnidentified(a) && !IsUnidentified(b)
    ensures GroupKey(a) == GroupKey(b) <==>
      || (a.season.Some? && a.season == b.season && a.episode == b.episode)
      || (a.season.None? && b.season.None? && a.title == b.title)
  {
    if GroupKey(a) == GroupKey(b) {
      if a.season.Some? {
        SameKeySameEpisode(a, b);
      } else {
        var u := "Unknown-";
        assert GroupKey(a)[|u|..] == a.title.value;
        assert GroupKey(b)[|u|..] == b.title.value;
      }
    }
  }
}
