# Episode screenshot analyzer — a Dafny model

`screens.py` scans a directory of screenshots. It works out which TV episode each
screenshot belongs to from the file name, groups the screenshots by episode and
prints a distribution report. This project models the pure core of that script:

- deciding whether a file is an image (`is_image_file`);
- normalising a file name: the image extension is removed, runs of `_`/`-` become spaces,
  whitespace is collapsed and the ends are stripped;
- the ladder of four season/episode regular expressions, of which the first one that
  matches wins;
- the `S{season}E{episode}` tag and the "special" flag (season 0);
- title-casing with the list of small words;
- the grouping loop, which builds the episode dictionary and the unidentified list;
- the `sort_key` ordering of the report (normal episodes, then specials, then unknowns).

Modules follow the script's structure:

| file | module | contents |
|---|---|---|
| `wrappers.dfy` | `Wrappers` | `Option` |
| `chars.dfy` | `Chars` | digits, Python's whitespace set, ASCII case mapping, decimal numerals |
| `text.dfy` | `Text` | `str.split()`, `' '.join`, `strip()` and the regex substitutions of the normalisation |
| `matcher.dfy` | `Matcher` | a small regular-expression engine: backtracking semantics, a one-pass greedy matcher, leftmost search |
| `filename.dfy` | `FileName` | the extension pattern, `is_image_file`, the cleaned name |
| `patterns.dfy` | `Patterns` | the four season/episode patterns and the ladder |
| `titles.dfy` | `Titles` | title-casing |
| `episodes.dfy` | `Episodes` | `EpisodeInfo`, `episode_id`, `extract_episode_info` |
| `grouping.dfy` | `Grouping` | the grouping loop and its reference definitions |
| `ordering.dfy` | `Ordering` | `sort_key`, Python tuple and string order, the sorted report, the whole analysis |

Python semantics are modelled as follows:

- Regular expressions are matched the way Python's `re` does.
  - `re.search` returns the leftmost match.
  - At each position, alternatives are tried in order and quantifiers are greedy with backtracking.
  - `Matcher.BacktrackIsGreedy` shows that for these patterns the backtracking search gives the same result as a simple greedy scan.
- `$` matches at the end of the string and also just before a final newline, as Python's does. So `"ep.png\n"` is an image file and cleans to `"ep"`.
- `\d` means ASCII digits.
- `\s`, `split()` and `strip()` use the set of characters for which `str.isspace` holds.
- Case-insensitive matching, `lower()` and `capitalize()` use ASCII case mapping.
- Integers are unbounded, as Python's are.

## Model

| member | source | states |
|---|---|---|
| FileName.IsImageFile | screens.py:107-109 | a name is an image file exactly when it ends, ignoring case, in "." plus one of jpg/jpeg/png/gif/bmp, optionally followed by one newline |
| FileName.SearchFindsSuffix | screens.py:109 | the left-to-right search for the extension pattern succeeds exactly on the names with such a suffix |
| FileName.FirstAlternative | screens.py:26 | the alternative chosen at a position is one of the listed extensions that matches there, and when none is chosen no listed extension matches there |
| FileName.MatchUnique | screens.py:26 | the anchored extension pattern can match at only one position of a name, so the substitution removes at most one extension |
| FileName.MatchIsLastDot | screens.py:26 | where the extension pattern matches, the dot is the last dot of the name |
| FileName.StripExtensionExact | screens.py:26 | removing the extension from base + "." + ext, with ext an image extension in any case, gives back exactly base |
| FileName.StripExtensionExactNewline | screens.py:26 | with a trailing newline after the extension, the extension is removed and the newline is kept |
| FileName.StripExtension | screens.py:26 | a name that is not an image file is unchanged; an image file loses its suffix from the dot on, keeping only a final newline |
| FileName.CleanName | screens.py:26-28 | the cleaned name has no leading, trailing or doubled spaces and is the words of the extension-less name (split at whitespace, `_` and `-`) joined by single spaces |
| FileName.CleanNameIsJoinedWords | screens.py:27-28 | the cleaned name splits back into exactly the words of the extension-less name |
| Text.SplitJoin | screens.py:89-95 | joining whitespace-free, non-empty words with single spaces and splitting again gives back the same words |
| Text.WellSpacedIsJoinOfWords | screens.py:28 | a string with no leading, trailing or doubled spaces and no other whitespace is its own words joined by spaces |
| Text.StripLeft | screens.py:28 | `strip()` removes only whitespace from the front, and the result does not start with whitespace |
| Text.StripRight | screens.py:28 | `strip()` removes only whitespace from the back, and the result does not end with whitespace |
| Text.SplitStrip | screens.py:28 | stripping the ends does not change the words of a string |
| Text.SplitSubRuns | screens.py:27-28 | replacing each run of separator characters by one space does not change the words |
| Text.StripWellSpaced | screens.py:28 | collapsing whitespace runs and stripping leaves no leading, trailing or doubled space |
| Chars.DecimalRoundTrip | screens.py:97 | reading back the decimal text of a number gives the number |
| Chars.DecimalValueRoundTrip | screens.py:42-43 | a digit string without a leading zero is the decimal text of its value |
| Chars.LeadingZeroIgnored | screens.py:42-43 | a leading zero does not change the value `int()` reads, so "S01E08" and "S1E8" carry the same numbers |
| Chars.DecimalInjective | screens.py:97 | different numbers have different decimal texts |
| Matcher.Search | screens.py:40 | a search result is a match at its start position and no earlier position matches |
| Matcher.BacktrackIsGreedy | screens.py:31-36 | for patterns whose adjacent tokens cannot claim the same characters, Python's backtracking match equals the one-pass greedy match |
| Matcher.BacktrackAtIsGreedyAt | screens.py:40 | the same agreement holds for the match attempt at every start position |
| Patterns.LadderWellFormed | screens.py:31-36 | each of the four patterns is separated in that sense and captures exactly two numbers |
| Patterns.SearchIsEngineSearch | screens.py:40 | searching with the greedy matcher finds the same match as searching with Python's backtracking semantics |
| Patterns.Find | screens.py:40-43 | a pattern yields a season/episode pair exactly when its search finds a match |
| Patterns.FirstMatchPicksFirst | screens.py:39-44 | the first pattern of the list that matches decides the result, whatever the later ones would find |
| Patterns.FirstMatchNone | screens.py:38-44 | the ladder finds nothing exactly when no pattern matches |
| Patterns.FirstMatchSome | screens.py:39-44 | whatever the ladder finds is the capture of a pattern that matches while every earlier pattern does not |
| Patterns.LadderPriority | screens.py:39-44 | when patterns 1..k-1 do not match and pattern k does, pattern k's capture is the season/episode pair |
| Patterns.SeasonAndEpisode | screens.py:38-44 | season and episode stay unset exactly when none of the four patterns matches the cleaned name; otherwise they are the capture of the first pattern that matches |
| Patterns.NxMPrefixIrrelevant | screens.py:32 | the optional "Season" prefix of the first pattern never changes the two captured numbers |
| Patterns.NoXNoNxM | screens.py:32-35 | a name without an `x` can match neither `NxM` pattern |
| Patterns.SxxEyyDecides | screens.py:31-44 | when the first pattern fails and `S(\d+)E(\d+)` matches, that pattern's capture is the result |
| Patterns.SxxEyyTagReads | screens.py:33 | any name of the form S<digits>E<digits>, such as "S01E08", reads as the values of its two digit strings |
| Episodes.EpisodeId | screens.py:97 | the tag starts with S, has E right after the season digits, and pads neither number with zeros |
| Episodes.ParseEpisodeIdRoundTrip | screens.py:97 | a tag can be read back into the season and episode it was built from |
| Episodes.EpisodeIdReadsBack | screens.py:26-44 | a tag used as a file name is left unchanged by the name normalisation, and the pattern ladder reads the cleaned name as the tag's own season and episode |
| Episodes.EpisodeIdInjective | screens.py:97 | two episodes share a tag only if they share season and episode |
| Episodes.FinishTitle | screens.py:76-95 | a missing title stays missing and an empty one stays empty; any other title becomes exactly its words, in number and order, each recased by the small-word rule, joined by single spaces |
| Episodes.ExtractEpisodeInfo | screens.py:38-105 | season and episode are set together, exactly when the ladder matches the cleaned name, and are the ladder's numbers; the tag is present exactly then and reads back to them; the special flag means season 0; the title is the given title, title-cased word by word and joined by single spaces |
| Titles.Capitalize | screens.py:92 | the first character is upper-cased and the rest lower-cased, length unchanged |
| Titles.TitleCaseWords | screens.py:89-94 | the loop capitalises the first word and every word that is not a small word, and lower-cases the small words after the first |
| Titles.TitleCaseRule | screens.py:88-95 | the title-cased text has the same number of words, and each word follows the small-word rule at its position |
| Titles.TitleCase | screens.py:88-95 | the words of the title-cased text are the recased words of the input, one for one, and the text is exactly those words joined by single spaces |
| Titles.TitleCaseIdempotent | screens.py:88-95 | title-casing a title-cased text changes nothing |
| Titles.CapitalizeLower | screens.py:91-92 | capitalising does not change a word's lower-case form, so the small-word test gives the same answer afterwards |
| Grouping.ImageFiles | screens.py:121 | the kept names are exactly the listed names that are image files, and each is kept as many times as it is listed |
| Grouping.ImageFilesAppend | screens.py:121 | the scan keeps the order of the listing: the kept names of two lists in a row are the kept names of the first followed by those of the second |
| Grouping.IsUnidentified | screens.py:136 | a record from extract_episode_info is set aside exactly when no season was read and its title is missing or empty |
| Grouping.GroupEntries | screens.py:133-145 | every group is non-empty and holds exactly the identified entries with its key; the keys are distinct; the unidentified names are exactly those with neither tag nor title; unidentified plus grouped files count every file once |
| Grouping.MembersSound | screens.py:136-141 | a group holds only identified entries of the list that carry its key |
| Grouping.MembersComplete | screens.py:136-141 | every identified entry lands in the group of its key |
| Grouping.UnidentifiedNames | screens.py:136-138 | a name is set aside exactly when some entry with that name has neither tag nor title |
| Grouping.KeysAreNonEmptyGroups | screens.py:141 | a key exists in the dictionary only when some file was filed under it |
| Grouping.KeysDistinct | screens.py:141 | each key is created once |
| Grouping.PartitionCount | screens.py:133-145 | the unidentified files and the group sizes add up to the number of files |
| Grouping.TotalIsSumSizes | screens.py:144-145 | `total_images` is the sum of the group sizes |
| Grouping.GroupKey | screens.py:140 | an episode's key is its tag and starts with S, any other key starts with U, so the two kinds never collide; for a grouped file the 'Untitled' fallback never applies |
| Grouping.GroupKeyMeans | screens.py:140-141 | two grouped files share a key exactly when they carry the same season and episode, or neither has a season and their titles are equal |
| Grouping.SameKeySameEpisode | screens.py:140-141 | entries filed under one key have the same season, episode and special flag |
| Ordering.SortKeyOf | screens.py:156-169 | season 0 gives tier 1, no season gives tier 2, otherwise tier 0 carrying the season and the episode, or 0 when the episode is missing; the key text is the last component |
| Ordering.StrLessTransitive | screens.py:171 | Python string order is transitive |
| Ordering.StrLessTotal | screens.py:171 | of two different strings, one comes before the other |
| Ordering.KeyLessStrictTotal | screens.py:171 | tuple order on sort keys is irreflexive and transitive, and total on keys with different text |
| Ordering.SortItems | screens.py:171 | the result is a permutation of the items in non-decreasing sort-key order |
| Ordering.SortedStrictly | screens.py:171 | with distinct dictionary keys, the sorted items are in strictly increasing order, so the order is fully determined |
| Ordering.SortedInReportOrder | screens.py:156-169 | sorted groups list normal episodes by season then episode, then specials, then groups without a season |
| Ordering.SpecialsByText | screens.py:161-162 | specials are ordered by the text of their key, not by episode number, so S0E10 precedes S0E2 |
| Ordering.Order | screens.py:156-171 | the report is each dictionary group once, in strictly increasing sort-key order and therefore in tier order |
| Ordering.GroupByEpisode | screens.py:133-145 | on records built by extract_episode_info, the partition of GroupEntries holds and the files of every group belong to one episode |
| Ordering.Entries | screens.py:134 | one record per image file, in order, each consistent |
| Ordering.Analyze | screens.py:121-171 | each group holds exactly the identified image files with its key, every other image file is unidentified, each group is one episode, the groups come out in strictly increasing sort-key and tier order; the error exit happens exactly when there is no group to report |
| Ordering.NoGroupAllUnidentified | screens.py:153 | when no group was formed, every image file was set aside as unidentified |

## Left out

- Directory listing, command-line handling, printing and exit codes (screens.py lines 111-127, 148-153, 173-269) are I/O. The `names` parameter of `Ordering.Analyze` stands for the names of the directory's regular files; the `is_file()` test of line 121 that drops subdirectories happens before it. The missing-directory exit (lines 116-118) is not modelled.
- The error exits are modelled only as the `failed` result of `Ordering.Analyze`. The source prints a message and exits with status 1 in two cases. When there are no image files, it does so at line 124. When image files exist but none is grouped, `min` of line 153 raises `ValueError` and the handler in `main` (lines 262-264) ends the run. An example of the second case is a directory holding only `.png` and `_.jpg`, whose cleaned names are empty. The report text printed before the error is not modelled.
- The floating-point average and the percentages (line 146 and the report lines) are not modelled. Floating point is outside the model; only the integer counts they come from are.
- The top-5 and bottom-5 lists of the report are not modelled. They are presentation over the counts.
- Title extraction and its cosmetic rewrites (lines 47-85) are regular-expression clean-up of free text. The title they find is the `rawTitle` parameter of `Episodes.ExtractEpisodeInfo` and the `titleOf` parameter of `Ordering.Analyze`. Only its title-casing (lines 88-95) is modelled.
- Non-ASCII behaviour is not modelled, for these reasons:
  - Python's case-insensitive matching and `lower()`/`capitalize()` also map non-ASCII letters. For example, U+017F matches `s`.
  - `\d` also matches non-ASCII decimal digits, which `int()` accepts.
  - The model maps case and reads digits for ASCII only.
- Grouping.GroupEntries: does not state the order of the unidentified list or of the keys. The reference functions `Unidentified` and `Keys` give that order, but the report only relies on membership, because sorting makes the final order independent of it.
- Ordering.Analyze: states the report through the sort key, not the printed text.
