/** `sort_key` and the `sorted` call of `analyze_distribution` (screens.py lines 156-171):
    normal episodes first by season and episode, then specials, then groups with no season. */
module Ordering {
  import opened Wrappers
  import opened Chars
  import opened Episodes
  import opened Grouping

  /** The tuple `(tier, season, episode, key)` that `sort_key` returns. */
  datatype SortKey = SortKey(tier: nat, season: nat, episode: nat, key: string)

  /** Python's `x or 0` on an optional number. */
  function OrZero(o: Option<nat>): nat {
    if o.Some? && o.value != 0 then o.value else 0
  }

  /** `sort_key` for a group `key` whose first file carries `info`. */
  function SortKeyOf(info: EpisodeInfo, key: string): (r: SortKey)
    ensures r.key == key
    ensures r.tier == 0 <==> info.season.Some? && info.season.value != 0
    ensures r.tier == 1 <==> info.season == Some(0)
    ensures r.tier == 2 <==> info.season.None?
    ensures r.tier == 0 ==> r.season == info.season.value && (info.episode.Some? ==> r.episode == info.episode.value)
    ensures r.tier == 0 && info.episode.None? ==> r.episode == 0
    ensures r.tier != 0 ==> r.season == 0 && r.episode == 0
  {
    if info.season == Some(0) then SortKey(1, 0, 0, key)
    else if info.season.None? then SortKey(2, 0, 0, key)
    else SortKey(0, OrZero(info.season), OrZero(info.episode), key)
  }

  /** Python's `<` on strings: code point by code point, a proper prefix first. */
  predicate StrLess(a: string, b: string) {
    if a == [] then b != []
    else if b == [] then false
    else if a[0] != b[0] then a[0] < b[0]
    else StrLess(a[1..], b[1..])
  }

  /** Python's `<` on the tuples: field by field from the left. */
  predicate KeyLess(x: SortKey, y: SortKey) {
    || x.tier < y.tier
    || (x.tier == y.tier && x.season < y.season)
    || (x.tier == y.tier && x.season == y.season && x.episode < y.episode)
    || (x.tier == y.tier && x.season == y.season && x.episode == y.episode && StrLess(x.key, y.key))
  }

  /** A `(key, files)` item of the dictionary; `sort_key` reads its first file. */
  datatype Item = Item(key: string, files: seq<Entry>)

  predicate HasFiles(items: seq<Item>) {
    forall i :: 0 <= i < |items| ==> |items[i].files| > 0
  }

  function KeyOf(item: Item): SortKey
    requires |item.files| > 0
  {
    SortKeyOf(item.files[0].info, item.key)
  }

  /** No item sorts before one that comes earlier. */
  predicate Sorted(items: seq<Item>)
    requires HasFiles(items)
  {
    forall i, j :: 0 <= i < j < |items| ==> !KeyLess(KeyOf(items[j]), KeyOf(items[i]))
  }

  /** Puts `x` after every item of the sorted `s` that does not sort after it. */
  function Insert(x: Item, s: seq<Item>): (r: seq<Item>)
    requires |x.files| > 0 && HasFiles(s) && Sorted(s)
    ensures HasFiles(r) && Sorted(r)
    ensures multiset(r) == multiset(s) + multiset{x}
    ensures |r| == |s| + 1
  {
    if s == [] then [x]
    else if KeyLess(KeyOf(x), KeyOf(s[0])) then
      InsertFront(x, s);
      [x] + s
    else
      SortedTail(s);
      var t := Insert(x, s[1..]);
      InsertAfterHead(x, s, t);
      [s[0]] + t
  }

  /** `sorted(items, key=sort_key)`. */
  function SortItems(items: seq<Item>): (r: seq<Item>)
    requires HasFiles(items)
    ensures HasFiles(r) && Sorted(r)
    ensures multiset(r) == multiset(items)
    ensures |r| == |items|
  {
    if items == [] then []
    else
      var front := items[..|items| - 1];
      assert items == front + [items[|items| - 1]];
      Insert(items[|items| - 1], SortItems(front))
  }

  /** The dictionary's items in insertion order, as `episodes.items()` yields them. */
  function ItemsOf(groups: map<string, seq<Entry>>, keys: seq<string>): (r: seq<Item>)
    requires forall k :: k in keys ==> k in groups
    ensures |r| == |keys|
    ensures forall i :: 0 <= i < |keys| ==> r[i] == Item(keys[i], groups[keys[i]])
  {
    seq(|keys|, i requires 0 <= i < |keys| => Item(keys[i], groups[keys[i]]))
  }

  /* ---------------------------------------------------------------------------------------
     Lemmas
     --------------------------------------------------------------------------------------- */

  lemma {:induction false} StrLessIrreflexive(a: string)
    ensures !StrLess(a, a)
  {
    if a != [] {
      StrLessIrreflexive(a[1..]);
    }
  }

  lemma {:induction false} StrLessTransitive(a: string, b: string, c: string)
    requires StrLess(a, b) && StrLess(b, c)
    ensures StrLess(a, c)
  {
    if a != [] && a[0] == b[0] && b[0] == c[0] {
      StrLessTransitive(a[1..], b[1..], c[1..]);
    }
  }

  lemma {:induction false} StrLessTotal(a: string, b: string)
    requires a != b
    ensures StrLess(a, b) || StrLess(b, a)
  {
    if a != [] && b != [] && a[0] == b[0] {
      assert a == [a[0]] + a[1..] && b == [b[0]] + b[1..];
      StrLessTotal(a[1..], b[1..]);
    }
  }

  lemma StrLessAsymmetric(a: string, b: string)
    requires StrLess(a, b)
    ensures !StrLess(b, a)
  {
    if StrLess(b, a) {
      StrLessTransitive(a, b, a);
      StrLessIrreflexive(a);
    }
  }

  /** The tuple order is a strict total order on tuples with different keys. */
  lemma KeyLessStrictTotal(x: SortKey, y: SortKey, z: SortKey)
    ensures !KeyLess(x, x)
    ensures KeyLess(x, y) ==> !KeyLess(y, x)
    ensures KeyLess(x, y) && KeyLess(y, z) ==> KeyLess(x, z)
    ensures x.key != y.key ==> KeyLess(x, y) || KeyLess(y, x)
  {
    StrLessIrreflexive(x.key);
    if StrLess(x.key, y.key) {
      StrLessAsymmetric(x.key, y.key);
    }
    if StrLess(x.key, y.key) && StrLess(y.key, z.key) {
      StrLessTransitive(x.key, y.key, z.key);
    }
    if x.key != y.key {
      StrLessTotal(x.key, y.key);
    }
  }

  lemma KeyLessTransitiveAll(x: Item, s: seq<Item>)
    requires |x.files| > 0 && HasFiles(s) && Sorted(s) && s != []
    requires KeyLess(KeyOf(x), KeyOf(s[0]))
    ensures forall j :: 0 <= j < |s| ==> !KeyLess(KeyOf(s[j]), KeyOf(x))
  {
    forall j | 0 <= j < |s|
      ensures !KeyLess(KeyOf(s[j]), KeyOf(x))
    {
      KeyLessStrictTotal(KeyOf(x), KeyOf(s[0]), KeyOf(s[j]));
      KeyLessStrictTotal(KeyOf(s[j]), KeyOf(x), KeyOf(s[0]));
      KeyLessStrictTotal(KeyOf(s[0]), KeyOf(s[j]), KeyOf(x));
    }
  }

  lemma SortedTail(s: seq<Item>)
    requires HasFiles(s) && Sorted(s) && s != []
    ensures HasFiles(s[1..]) && Sorted(s[1..])
  {
    assert forall i :: 0 <= i < |s| - 1 ==> s[1..][i] == s[i + 1];
  }

  lemma InsertFront(x: Item, s: seq<Item>)
    requires |x.files| > 0 && HasFiles(s) && Sorted(s) && s != []
    requires KeyLess(KeyOf(x), KeyOf(s[0]))
    ensures HasFiles([x] + s) && Sorted([x] + s)
    ensures multiset([x] + s) == multiset(s) + multiset{x}
  {
    KeyLessTransitiveAll(x, s);
    var r := [x] + s;
    forall i, j | 0 <= i < j < |r|
      ensures !KeyLess(KeyOf(r[j]), KeyOf(r[i]))
    {
      assert r[j] == s[j - 1];
      if i > 0 {
        assert r[i] == s[i - 1];
      }
    }
  }

  lemma InsertAfterHead(x: Item, s: seq<Item>, t: seq<Item>)
    requires |x.files| > 0 && HasFiles(s) && Sorted(s) && s != []
    requires !KeyLess(KeyOf(x), KeyOf(s[0]))
    requires HasFiles(t) && Sorted(t) && multiset(t) == multiset(s[1..]) + multiset{x}
    ensures HasFiles([s[0]] + t) && Sorted([s[0]] + t)
    ensures multiset([s[0]] + t) == multiset(s) + multiset{x}
    ensures |[s[0]] + t| == |s| + 1
  {
    assert s == [s[0]] + s[1..];
    var r := [s[0]] + t;
    HeadBeforeRest(x, s, t);
    forall i, j | 0 <= i < j < |r|
      ensures !KeyLess(KeyOf(r[j]), KeyOf(r[i]))
    {
      if i > 0 {
        assert r[i] == t[i - 1] && r[j] == t[j - 1];
      } else {
        assert r[j] == t[j - 1];
      }
    }
  }

  /** Nothing of `t`, which holds `x` and the tail of `s`, sorts before the head of `s`. */
  lemma HeadBeforeRest(x: Item, s: seq<Item>, t: seq<Item>)
    requires |x.files| > 0 && HasFiles(s) && Sorted(s) && s != []
    requires !KeyLess(KeyOf(x), KeyOf(s[0]))
    requires HasFiles(t) && multiset(t) == multiset(s[1..]) + multiset{x}
    ensures forall j :: 0 <= j < |t| ==> !KeyLess(KeyOf(t[j]), KeyOf(s[0]))
  {
    forall j | 0 <= j < |t|
      ensures !KeyLess(KeyOf(t[j]), KeyOf(s[0]))
    {
      assert t[j] in multiset(t);
      if t[j] != x {
        assert t[j] in multiset(s[1..]);
        var k :| 0 <= k < |s[1..]| && s[1..][k] == t[j];
        assert s[k + 1] == t[j];
      }
    }
  }

  /** Items with different keys come out strictly ascending. */
  lemma SortedStrictly(items: seq<Item>)
    requires HasFiles(items) && Sorted(items)
    requires forall i, j :: 0 <= i < j < |items| ==> items[i].key != items[j].key
    ensures forall i, j :: 0 <= i < j < |items| ==> KeyLess(KeyOf(items[i]), KeyOf(items[j]))
  {
    forall i, j | 0 <= i < j < |items|
      ensures KeyLess(KeyOf(items[i]), KeyOf(items[j]))
    {
      KeyLessStrictTotal(KeyOf(items[i]), KeyOf(items[j]), KeyOf(items[i]));
    }
  }

  /** The three tiers: a group with a non-zero season comes before a special, and a special
      before a group with no season; normal episodes ascend by season, then episode. */
  predicate InReportOrder(a: EpisodeInfo, b: EpisodeInfo) {
    && (b.season.Some? && b.season.value != 0 ==> a.season.Some? && a.season.value != 0)
    && (b.season == Some(0) ==> a.season.Some?)
    && (a.season.Some? && a.season.value != 0 && b.season.Some? && b.season.value != 0 ==>
          a.season.value <= b.season.value)
    && (a.season.Some? && a.season.value != 0 && a.season == b.season && a.episode.Some? && b.episode.Some? ==>
          a.episode.value <= b.episode.value)
  }

  /** Each file with the record `extract_episode_info` builds for it. */
  function Entries(files: seq<string>, titleOf: string -> Option<string>): (es: seq<Entry>)
    ensures |es| == |files|
    ensures forall i :: 0 <= i < |es| ==> es[i].name == files[i]
    ensures forall e :: e in es ==> Consistent(e.info)
  {
    seq(|files|, i requires 0 <= i < |files| => Entry(files[i], ExtractEpisodeInfo(files[i], titleOf(files[i]))))
  }

  /** The pure part of `analyze_distribution`: keep the image files, read each one, group them
      and sort the groups. Every identified file sits in the group of its key and nowhere
      else, every other file is set aside as unidentified, every group is one episode, and
      the groups come out in strictly ascending `sort_key` order and so in the three tiers.
      `failed` marks the error exit: with no group to report, `min` of line 153 raises and
      the run ends through the handler of `main` (an empty image list ends it earlier, at
      line 124); then every image file was unidentified. */
  method Analyze(names: seq<string>, titleOf: string -> Option<string>)
    returns (groups: map<string, seq<Entry>>, keys: seq<string>, report: seq<Item>, unidentified: seq<string>, failed: bool)
    ensures forall k :: k in keys <==> k in groups
    ensures var es := Entries(ImageFiles(names), titleOf);
      forall k :: k in groups ==> groups[k] == Members(es, k)
    ensures var es := Entries(ImageFiles(names), titleOf);
      forall k, e :: k in groups && e in groups[k] ==> e in es && !IsUnidentified(e.info) && GroupKey(e.info) == k
    ensures var es := Entries(ImageFiles(names), titleOf);
      forall i :: 0 <= i < |es| && !IsUnidentified(es[i].info) ==>
        GroupKey(es[i].info) in groups && es[i] in groups[GroupKey(es[i].info)]
    ensures var es := Entries(ImageFiles(names), titleOf);
      forall n :: n in unidentified <==> exists i :: 0 <= i < |es| && es[i].name == n && IsUnidentified(es[i].info)
    ensures |unidentified| + Total(groups, keys) == |ImageFiles(names)|
    ensures HasFiles(report) && multiset(report) == multiset(ItemsOf(groups, keys))
    ensures forall i, j :: 0 <= i < j < |report| ==> KeyLess(KeyOf(report[i]), KeyOf(report[j]))
    ensures forall i, j :: 0 <= i < j < |report| ==> InReportOrder(report[i].files[0].info, report[j].files[0].info)
    ensures forall i, e :: 0 <= i < |report| && e in report[i].files ==> SameEpisode(e.info, report[i].files[0].info)
    ensures failed <==> keys == []
    ensures failed <==> report == []
    ensures ImageFiles(names) == [] ==> failed
    ensures failed ==> forall n :: n in ImageFiles(names) ==> n in unidentified
  {
    var files := ImageFiles(names);
    var es := Entries(files, titleOf);
    groups, keys, unidentified := GroupByEpisode(es);
    report := Order(groups, keys);
    ReportShareEpisode(report, groups);
    assert |report| == |multiset(report)| == |ItemsOf(groups, keys)| == |keys|;
    failed := keys == [];
    if failed {
      NoGroupAllUnidentified(files, es, groups, unidentified);
    }
  }

  /** With no group at all, every file was set aside. */
  lemma NoGroupAllUnidentified(files: seq<string>, es: seq<Entry>, groups: map<string, seq<Entry>>, unidentified: seq<string>)
    requires |es| == |files| && forall i :: 0 <= i < |es| ==> es[i].name == files[i]
    requires forall k :: k !in groups
    requires forall i :: 0 <= i < |es| && !IsUnidentified(es[i].info) ==> GroupKey(es[i].info) in groups
    requires forall n :: n in unidentified <==> exists i :: 0 <= i < |es| && es[i].name == n && IsUnidentified(es[i].info)
    ensures forall n :: n in files ==> n in unidentified
  {
    forall n | n in files
      ensures n in unidentified
    {
      var i :| 0 <= i < |files| && files[i] == n;
      assert es[i].name == n;
    }
  }

  /** The grouping loop on records `extract_episode_info` built: the partition of
      `GroupEntries`, and in addition each group is one episode. */
  method GroupByEpisode(es: seq<Entry>) returns (groups: map<string, seq<Entry>>, keys: seq<string>, unidentified: seq<string>)
    requires forall e :: e in es ==> Consistent(e.info)
    ensures forall k :: k in keys <==> k in groups
    ensures Distinct(keys)
    ensures forall k :: k in groups ==> |groups[k]| > 0
    ensures forall k :: k in groups ==> groups[k] == Members(es, k)
    ensures forall k, e :: k in groups && e in groups[k] ==> e in es && !IsUnidentified(e.info) && GroupKey(e.info) == k
    ensures forall i :: 0 <= i < |es| && !IsUnidentified(es[i].info) ==>
      GroupKey(es[i].info) in groups && es[i] in groups[GroupKey(es[i].info)]
    ensures forall n :: n in unidentified <==> exists i :: 0 <= i < |es| && es[i].name == n && IsUnidentified(es[i].info)
    ensures forall k, e :: k in groups && e in groups[k] ==> SameEpisode(e.info, groups[k][0].info)
    ensures |unidentified| + Total(groups, keys) == |es|
  {
    groups, keys, unidentified := GroupEntries(es);
    GroupsShareEpisode(es, groups);
  }

  lemma ReportShareEpisode(report: seq<Item>, groups: map<string, seq<Entry>>)
    requires forall i :: 0 <= i < |report| ==> report[i].key in groups && report[i].files == groups[report[i].key]
    requires forall k :: k in groups ==> |groups[k]| > 0
    requires forall k, e :: k in groups && e in groups[k] ==> SameEpisode(e.info, groups[k][0].info)
    ensures forall i, e :: 0 <= i < |report| && e in report[i].files ==> SameEpisode(e.info, report[i].files[0].info)
  {
    forall i, e | 0 <= i < |report| && e in report[i].files
      ensures SameEpisode(e.info, report[i].files[0].info)
    {
      var k := report[i].key;
      assert e in groups[k];
    }
  }

  /** `sorted(episodes.items(), key=sort_key)`: the dictionary's groups in strictly ascending
      `sort_key` order, which puts them in the three tiers. */
  method Order(groups: map<string, seq<Entry>>, keys: seq<string>) returns (report: seq<Item>)
    requires forall k :: k in keys <==> k in groups
    requires Distinct(keys)
    requires forall k :: k in groups ==> |groups[k]| > 0
    ensures HasFiles(report) && multiset(report) == multiset(ItemsOf(groups, keys))
    ensures forall i, j :: 0 <= i < j < |report| ==> KeyLess(KeyOf(report[i]), KeyOf(report[j]))
    ensures forall i, j :: 0 <= i < j < |report| ==> InReportOrder(report[i].files[0].info, report[j].files[0].info)
    ensures forall i :: 0 <= i < |report| ==> report[i].key in groups && report[i].files == groups[report[i].key]
  {
    var items := ItemsOf(groups, keys);
    report := SortItems(items);
    ReportKeysDistinct(report, items, keys);
    SortedStrictly(report);
    SortedInReportOrder(report);
    ReportFromGroups(report, groups, keys);
  }

  lemma SortedInReportOrder(items: seq<Item>)
    requires HasFiles(items) && Sorted(items)
    ensures forall i, j :: 0 <= i < j < |items| ==> InReportOrder(items[i].files[0].info, items[j].files[0].info)
  {
    forall i, j | 0 <= i < j < |items|
      ensures InReportOrder(items[i].files[0].info, items[j].files[0].info)
    {
      assert !KeyLess(KeyOf(items[j]), KeyOf(items[i]));
    }
  }

  predicate SameEpisode(a: EpisodeInfo, b: EpisodeInfo) {
    a.season == b.season && a.episode == b.episode && a.isSpecial == b.isSpecial
  }

  lemma {:induction false} CountAtMostOne<T>(t: seq<T>, x: T)
    requires Distinct(t)
    ensures multiset(t)[x] <= 1
  {
    if t != [] {
      assert t == [t[0]] + t[1..];
      CountAtMostOne(t[1..], x);
      if x == t[0] {
        assert x !in t[1..];
      }
    }
  }

  lemma TwoOccurrences<T>(s: seq<T>, i: nat, j: nat)
    requires i < j < |s|
    ensures s[i] == s[j] ==> multiset(s)[s[i]] >= 2
  {
    assert s == s[..i] + [s[i]] + s[i + 1..j] + [s[j]] + s[j + 1..];
  }

  /** A permutation of a list without duplicates has none. */
  lemma DistinctPermutation<T>(s: seq<T>, t: seq<T>)
    requires multiset(s) == multiset(t) && Distinct(t)
    ensures Distinct(s)
  {
    forall i, j | 0 <= i < j < |s|
      ensures s[i] != s[j]
    {
      CountAtMostOne(t, s[i]);
      TwoOccurrences(s, i, j);
    }
  }

  /** Sorting the dictionary's items keeps their keys distinct. */
  lemma ReportKeysDistinct(report: seq<Item>, items: seq<Item>, keys: seq<string>)
    requires multiset(report) == multiset(items) && |items| == |keys| && Distinct(keys)
    requires forall k :: 0 <= k < |items| ==> items[k].key == keys[k]
    ensures forall i, j :: 0 <= i < j < |report| ==> report[i].key != report[j].key
  {
    assert Distinct(items) by {
      forall a, b | 0 <= a < b < |items|
        ensures items[a] != items[b]
      {
        assert items[a].key == keys[a] && items[b].key == keys[b];
      }
    }
    DistinctPermutation(report, items);
    forall i, j | 0 <= i < j < |report|
      ensures report[i].key != report[j].key
    {
      assert report[i] in multiset(items) && report[j] in multiset(items);
      var a :| 0 <= a < |items| && items[a] == report[i];
      var b :| 0 <= b < |items| && items[b] == report[j];
      assert a != b;
    }
  }

  /** Every file of a group is of the episode its first file is. */
  lemma GroupsShareEpisode(es: seq<Entry>, groups: map<string, seq<Entry>>)
    requires forall e :: e in es ==> Consistent(e.info)
    requires forall k :: k in groups ==> |groups[k]| > 0
    requires forall k, e :: k in groups && e in groups[k] ==> e in es && GroupKey(e.info) == k
    ensures forall k, e :: k in groups && e in groups[k] ==> SameEpisode(e.info, groups[k][0].info)
  {
    forall k, e | k in groups && e in groups[k]
      ensures SameEpisode(e.info, groups[k][0].info)
    {
      var f := groups[k][0];
      assert f in groups[k];
      SameKeySameEpisode(e.info, f.info);
    }
  }

  /** Every item of the report is a group of the dictionary under its key. */
  lemma ReportFromGroups(report: seq<Item>, groups: map<string, seq<Entry>>, keys: seq<string>)
    requires forall k :: k in keys ==> k in groups
    requires multiset(report) == multiset(ItemsOf(groups, keys))
    ensures forall i :: 0 <= i < |report| ==> report[i].key in groups && report[i].files == groups[report[i].key]
  {
    var items := ItemsOf(groups, keys);
    forall i | 0 <= i < |report|
      ensures report[i].key in groups && report[i].files == groups[report[i].key]
    {
      assert report[i] in multiset(items);
      var k :| 0 <= k < |items| && items[k] == report[i];
    }
  }

  /** Specials all get the tuple `(1, 0, 0, key)`, so they are ordered by the text of their
      tag and not by episode number: "S0E10" comes before "S0E2". */
  lemma SpecialsByText(a: EpisodeInfo, b: EpisodeInfo, ka: string, kb: string)
    requires a.season == Some(0) && b.season == Some(0)
    ensures KeyLess(SortKeyOf(a, ka), SortKeyOf(b, kb)) <==> StrLess(ka, kb)
    ensures StrLess(EpisodeId(0, 10), EpisodeId(0, 2))
  {
    assert EpisodeId(0, 10) == "S0E10" by {
      assert Decimal(10) == "10";
    }
    assert EpisodeId(0, 2) == "S0E2";
    assert StrLess("S0E10", "S0E2") by {
      assert "S0E10"[1..] == "0E10" && "S0E2"[1..] == "0E2";
      assert "0E10"[1..] == "E10" && "0E2"[1..] == "E2";
      assert "E10"[1..] == "10" && "E2"[1..] == "2";
    }
  }
}
