# fbref player data: player identity and scraper logic, in Dafny

This project models two Python scripts of a football-statistics scraper and
proves properties of the model.

**`create_listone.py`** is modelled in full, except its file dialog and
`__main__` block. It attaches a minutes-played figure to a squad list that
has only names (`Nome`), taking the figure from a season roster (`Player`,
`Min`):

- `normalize_name` reduces a name to a canonical surname key.
- `extract_last_name` takes a roster player's last token.
- `make_unique_names` disambiguates roster rows whose keys collide. It appends
  a space and then given-name characters, one round at a time, until no
  eligible row shares its key.
- `create_dataframe` left-joins the squad onto the roster on those keys.

**`fbref_scraper.py`** is modelled where it computes on strings:

- the league table and the season check of `get_data_info`;
- the two URLs that function builds;
- the season that `get_fixture_data` reads back from a URL;
- the filter-and-deduplicate loop of `get_match_links`;
- the `_p90` header relabelling of `my_player_data`.

The network, the HTML parser and the keyboard are outside the model. What
they would deliver is passed in as parameters.

Files and modules:

- `pystr.dfy` (`PyStr`): the parts of Python's `str` the scripts use. This
  covers `isspace`, `split()`, `strip()`, `lower()`, `split(sep)`,
  `sep.join`, `sub in s`, and `None` as `Option`.
- `names.dfy` (`NameKeys`): `unidecode` (the letters of the Latin-1 Supplement and Latin Extended-A),
  `normalize_name` and `extract_last_name`, with `IndexError` as a `Result`.
- `unique_names.dfy` (`UniqueNames`): the columns `make_unique_names` derives,
  and its loop as a state machine over (keys, given-name fragments, collision
  mask).
- `listone.dfy` (`Listone`): both DataFrames as classes whose column fields
  the methods reassign. It also holds the loop of `make_unique_names` as a
  `while` loop proved against the state machine, the left merge, and
  `create_dataframe`.
- `fbref.dfy` (`Fbref`): the scraper's string logic.

Behaviour of the code worth noting:

- **Blank names raise.** A blank name raises `IndexError` in both
  `normalize_name` and `extract_last_name`. A roster row whose last token
  transliterates to nothing raises at line 80, where that token alone is
  normalized (`Listone.RosterRowFailsIff`). `create_dataframe` then raises
  (`Raised`).
- **A name with no letter keys to the empty string.** A non-blank name whose
  key segment has no ASCII letter, such as "123" or "-", gets the key `""`
  (`NameKeys.NormalizeNameNoLetters`). The merge then pairs such a squad row
  with every roster row whose key is also `""`.
- **The loop can run for ever.** The disambiguation loop has no exhaustion
  stop. Line 66 never empties a fragment, so two rows whose padded given
  names agree collide for ever. `UniqueNames.NeverHaltsOnTwins` proves this,
  and `Listone.JohnSmithNeverHalts` shows it on the roster "John Smith" /
  "JOHN Smith".
  - The model gives the loop a round budget `maxRounds`.
  - `UniqueNames.HaltsOnDistinctGivenNames` proves that the loop halts when
    the colliding rows' padded given names differ within that budget.
- **The merge keeps every match.** The merge is a pandas left merge. A
  target with several matching roster rows yields one row per match, in
  roster order, not only the first.
- **The first round uses the old mask.** The first round of the loop uses
  the collision mask computed before the space was appended (lines 56-65).

## Model

| member | source | states |
|---|---|---|
| PyStr.Split | create_listone.py:21 | `split()` yields non-empty, whitespace-free tokens, and yields none exactly when the string is blank. SplitAroundBlank and SplitJoinSpace pin down which tokens, in order |
| PyStr.SplitAfterBreak | create_listone.py:21 | text that is empty or ends in whitespace splits apart from what follows it: `split(x + u) == split(x) + split(u)` |
| PyStr.SplitAroundBlank | create_listone.py:21 | a non-empty run of whitespace separates tokens: `split(a + w + b) == split(a) + split(b)` |
| PyStr.SplitJoinSpace | create_listone.py:21 | `split()` recovers any list of non-empty, whitespace-free tokens from their `' '.join`, so its tokens are the maximal non-whitespace runs, in order |
| PyStr.SplitBlankPrefix | create_listone.py:21 | leading whitespace does not change `split()` |
| PyStr.SplitAfterStrip | create_listone.py:21 | `split()` after `strip()` gives the same tokens as `split()` |
| PyStr.Strip | create_listone.py:21 | `strip()`: `lstrip()` of `rstrip()`. StripShape and StripNoSpace state its shape |
| PyStr.StripShape | create_listone.py:38 | `strip()` is empty exactly when the text is blank, and otherwise starts and ends with a non-space |
| PyStr.Lower | create_listone.py:38 | `lower()` character by character, for ASCII, Latin-1 and Latin Extended-A. LowerLetters states its effect on ASCII |
| PyStr.LowerLetters | create_listone.py:38 | `lower()` keeps the length, maps each ASCII capital to the lower-case letter at the same place in the alphabet, leaves every other ASCII character unchanged, makes no other character an ASCII letter, and leaves no ASCII capital |
| PyStr.TrimRight | create_listone.py:38 | `rstrip()`: the result is a prefix that ends in a non-space, and only whitespace was removed |
| PyStr.TrimLeft | create_listone.py:38 | `lstrip()`: the result is a suffix that starts with a non-space, and only whitespace was removed |
| PyStr.SplitJoin | fbref_scraper.py:82 | `split('/')` undoes `'/'.join` when no field holds a '/' |
| NameKeys.Unidecode | create_listone.py:18 | ASCII text is unchanged, and whitespace-free text stays whitespace-free |
| NameKeys.RemoveNonAlpha | create_listone.py:36 | only ASCII letters and whitespace survive, and no whitespace is introduced. RemoveNonAlphaConcat, RemoveNonAlphaKeepsAll and RemoveNonAlphaDrops pin down exactly what survives |
| NameKeys.RemoveNonAlphaConcat | create_listone.py:36 | the substitution works character by character: it distributes over concatenation |
| NameKeys.RemoveNonAlphaKeepsAll | create_listone.py:36 | text made only of ASCII letters and whitespace comes through unchanged |
| NameKeys.RemoveNonAlphaDrops | create_listone.py:36 | any other single character is deleted; with RemoveNonAlphaConcat and RemoveNonAlphaKeepsAll this fixes the function completely |
| NameKeys.NormalizeName | create_listone.py:16-38 | `normalize_name`: transliterate, strip and split; keep the last segment, or the last two joined by a space when the last ends in '.'; `IndexError` when there is no segment; then drop non-letters, strip and lower-case. The NormalizeName* lemmas below state its properties |
| NameKeys.NormalizeNameShape | create_listone.py:16-38 | fails exactly when the transliterated name is blank; otherwise the key is lower-case ASCII letters and spaces, with no space at either end |
| NameKeys.NormalizeNameSurname | create_listone.py:21-38 | when the last token does not end in '.', or is the only token, the key is that token's letters lower-cased and has no space |
| NameKeys.NormalizeNameAbbreviated | create_listone.py:24-27 | when the last of two or more tokens ends in '.', the key is the letters of the last two tokens, lower-cased and joined by one space (the space goes when a side has no letters) |
| NameKeys.NormalizeNameOfWord | create_listone.py:21-38 | a single word of ASCII letters keys to itself lower-cased |
| NameKeys.NormalizeNameNoLetters | create_listone.py:21-38 | a name whose only segment has no ASCII letter does not raise; its key is the empty string |
| NameKeys.NormalizeNameFixesWords | create_listone.py:16-38 | a one-word key normalizes to itself |
| NameKeys.ExtractLastName | create_listone.py:41-44 | `extract_last_name`: the last `split()` token, or `IndexError` when there is none. ExtractLastNameIsLastToken states what that token is |
| NameKeys.ExtractLastNameIsLastToken | create_listone.py:41-44 | fails exactly on a blank name; otherwise returns a non-empty, whitespace-free token that is the name's last token |
| NameKeys.SurnameKeyHasNoSpace | create_listone.py:79-80 | the key of one token contains no space |
| UniqueNames.FirstNameInitial | create_listone.py:49 | `First_name_initial`: the lower-cased first characters of every token but the last. Initials states which characters |
| UniqueNames.FirstNameFull | create_listone.py:50 | `First_name_full`: every token but the last, run together and lower-cased. EligibleRow and SameSurnameColumns state its value for eligible rows |
| UniqueNames.PlayerCount | create_listone.py:53 | `player_count`: a row's rank among the rows with the same `Player`, from 1. PlayerCountBounds states its range |
| UniqueNames.PlayerTotal | create_listone.py:54 | `player_total`: how many rows have this exact `Player`. PlayerCountBounds relates it to `player_count` |
| UniqueNames.Initials | create_listone.py:49 | one initial per given-name token, each that token's first character |
| UniqueNames.PlayerCountBounds | create_listone.py:53-54 | `player_count` lies between 1 and `player_total`, and is 1 exactly at a name's first occurrence |
| UniqueNames.Eligible | create_listone.py:57-58 | `player_total == 1` and a non-empty `First_name_initial`, row by row. EligibleRow states it in terms of the `Player` string |
| UniqueNames.Collisions | create_listone.py:56-58 | the `duplicates` mask, recomputed at lines 67-69: an eligible row whose key another row shares. HaltedKeysAreUnique and NeverHaltsOnTwins state what it means at exit and on twins |
| UniqueNames.EligibleRow | create_listone.py:56-58 | a row may be disambiguated exactly when its `Player` occurs once and has a given-name token; then `First_name_full` is non-empty and starts with the first initial |
| UniqueNames.EligibleHaveGivenNames | create_listone.py:49-58 | every eligible row has a non-empty `First_name_full` |
| UniqueNames.KeysOnlyGrow | create_listone.py:48-66 | every final key extends the row's surname key; ineligible rows keep it; no fragment of an eligible row is ever emptied |
| UniqueNames.HaltedKeysAreUnique | create_listone.py:64-69 | once the loop has stopped, no eligible row shares its key with another row |
| UniqueNames.NeverHaltsOnTwins | create_listone.py:64-69 | two eligible rows with the same surname key and the same padded given names keep the loop running for any number of rounds |
| UniqueNames.FinalKeyShape | create_listone.py:56-69 | with space-free surname keys, a row outside the first collision set keeps its key; every other row ends as surname, space and the first c padded given-name characters, where 1 <= c <= rounds once a round has run |
| UniqueNames.HaltsOnDistinctGivenNames | create_listone.py:64-69 | with space-free surname keys, the loop stops within n rounds when the colliding rows that share a surname differ in their first n padded given-name characters |
| UniqueNames.Start | create_listone.py:56-62 | the state before the loop: the collision mask of lines 56-58, with a space appended to every colliding key when any collides. StartGrowing and StartInv state what it establishes |
| UniqueNames.Round | create_listone.py:65-69 | one pass of the loop body: colliding keys gain their fragment's first character, fragments longer than one character lose it, and the mask is recomputed. RoundInv states the invariant it keeps |
| UniqueNames.Run | create_listone.py:64-69 | the loop, stopped after at most `fuel` rounds; RunStep and RunStop give its unfolding, and RunInv, KeysOnlyGrow and HaltedKeysAreUnique state what holds after it |
| UniqueNames.RunInv | create_listone.py:62-69 | the invariant that ties every key and fragment to the number of rounds it collided in holds after every run |
| UniqueNames.TwoSmithsExample | create_listone.py:47-71 | "johna." and "markb." under "smith" become "smith j" and "smith m" after one round |
| UniqueNames.PaddedTwinsExample | create_listone.py:65-66 | fragments "ab" and "abb" under the same surname never separate |
| Listone.ApplyAll | create_listone.py:76 | a column `apply` succeeds exactly when every row does, and then gives each row's value; otherwise it raises the first failing row's error |
| Listone.ApplyThenFails | create_listone.py:79-80 | the two roster passes raise exactly when some row fails in one of them |
| Listone.RosterKeys | create_listone.py:79-80 | `Last_name_normalized` of the roster: `normalize_name` of every row's `extract_last_name`. ApplyThenFails, ApplyThenValues and RosterRowFailsIff state when it raises and what each key is |
| Listone.ApplyThenValues | create_listone.py:79-80 | on success, every roster key is the key of that row's last name |
| Listone.RosterKeysSpaceFree | create_listone.py:79-80 | roster keys, when computed, have one per row and contain no space |
| Listone.RosterRowFailsIff | create_listone.py:79-80 | a roster row raises exactly when its `Player` is blank or its last token transliterates to nothing |
| Listone.NormalizeSquad | create_listone.py:76 | `Nome_normalized` is set to the key of every `Nome` when none raises, and is untouched when one does. The method reports whether a row raised |
| Listone.NormalizeRoster | create_listone.py:79-80 | `Last_name` is set to every row's last token when none raises, and is untouched otherwise. `Last_name_normalized` is set to the keys of those tokens when no row raises, and is untouched otherwise. The method reports whether a row raised |
| Listone.ResolveCollisions | create_listone.py:60-69 | the loop leaves exactly the keys and fragments of the state machine run for at most `maxRounds` rounds, and reports halted exactly when no row still collides |
| Listone.MakeUniqueNames | create_listone.py:47-71 | sets the derived columns and runs the loop; keys extend surname keys; on halting, no eligible row shares its key; the other columns are unchanged |
| Listone.TwoTokenRow | create_listone.py:49-58 | a unique "given surname" player is eligible, draws on its given name lower-cased, and has that surname as last name |
| Listone.SameSurnameColumns | create_listone.py:49-58 | two players with the same surname and different given names are both eligible, with their given names lower-cased |
| Listone.SameSurnameKeys | create_listone.py:79-80 | both such players get the surname's key |
| Listone.JohnSmithRows | create_listone.py:49-80 | "John Smith" and "JOHN Smith" both key to "smith", are both eligible, and both draw on "john" |
| Listone.JohnSmithNeverHalts | create_listone.py:64-69 | on that roster the loop never halts |
| Listone.Matches | create_listone.py:86 | the roster rows matching a key are exactly those whose unique key equals it |
| Listone.MatchesAppend | create_listone.py:86 | the matches of a concatenated roster are the matches of each part, in order |
| Listone.LeftJoin | create_listone.py:86-89 | the left merge on the squad key, keeping `Nome`, `Player` and `Min`: one row per matching roster row, in roster order, or one row with no player. LeftJoinAppend, MatchedRows, UnmatchedRows and OneRowPerTarget state its properties |
| Listone.LeftJoinAppend | create_listone.py:86-89 | the join of concatenated target lists is the concatenation of their joins (target order kept) |
| Listone.MatchedRows | create_listone.py:86-89 | a row with a player and minutes is in the result exactly when some target and some roster row share the key |
| Listone.UnmatchedRows | create_listone.py:86-89 | a row with absent player and minutes is in the result exactly when some target matches no roster row |
| Listone.MatchesDistinct | create_listone.py:86 | with distinct roster keys, a key matches at most one row |
| Listone.OneRowPerTarget | create_listone.py:86-89 | with distinct roster keys, there is exactly one output row per target, in target order, carrying the target's `Nome` |
| Listone.CreateDataframe | create_listone.py:74-90 | raises exactly when a squad name or a roster row fails. When line 76 raises, no column is touched. When line 80 raises, `Nome_normalized` and any `Last_name` from line 79 are set and no later column is touched. Otherwise it sets `Nome_normalized`, `Last_name`, `Last_name_normalized`, `First_name_initial`, `First_name_full`, `player_count` and `player_total`. When the loop halts, `unique_last_name` is set too, the result is the left join on the disambiguated keys, and no eligible roster key is shared |
| Fbref.ResolveLeague | fbref_scraper.py:17-55 | a league is accepted exactly when it is one of the seven names, and then gets that league's slug and id from the table |
| Fbref.LeagueTableWellFormed | fbref_scraper.py:17-55 | the table lists the accepted names in order; no two leagues share a name, slug or id; none contains '/' |
| Fbref.SeasonIsValid | fbref_scraper.py:64 | `re.match(r'^20\d{2}-20\d{2}$', season)`: "20" and two ASCII digits, '-', "20" and two ASCII digits, and an optional final newline. SeasonYears states exactly which texts it accepts |
| Fbref.ValidSeasonYears | fbref_scraper.py:64 | an accepted season is the text of two years 2000-2099, possibly followed by one newline |
| Fbref.YearsMakeSeason | fbref_scraper.py:64 | any two years 2000-2099, in either order, make an accepted season, with or without a final newline |
| Fbref.SeasonYears | fbref_scraper.py:64 | accepted seasons are exactly those texts |
| Fbref.SeasonHasNoSlash | fbref_scraper.py:64 | an accepted season contains no '/' |
| Fbref.SeasonField | fbref_scraper.py:82 | the seventh '/'-field exists exactly when the URL has more than six '/'-separated fields |
| Fbref.ScheduleUrl | fbref_scraper.py:69 | the f-string of the fixtures URL. ScheduleUrlFields states how it splits back into its parts |
| Fbref.PlayerUrl | fbref_scraper.py:70 | the f-string of the player statistics URL. PlayerUrlFields states how it splits back into its parts |
| Fbref.ScheduleUrlFields | fbref_scraper.py:69 | the fixtures URL splits on '/' into host, "comps", id, season, "schedule" and "{season}-{slug}-Scores-and-Fixtures" |
| Fbref.PlayerUrlFields | fbref_scraper.py:70 | the player URL splits on '/' into host, "comps", id, season, "stats", "players" and "{season}-{slug}-Stats" |
| Fbref.GetDataInfo | fbref_scraper.py:15-71 | succeeds exactly for a listed league and an accepted season; returns that league's URLs, slug and season; the season read back from the URL is the season given |
| Fbref.Candidates | fbref_scraper.py:102-105 | the site-prefixed href of every anchor whose href contains both key words, in page order with repeats. CandidateElements states exactly which links |
| Fbref.CandidateElements | fbref_scraper.py:102-105 | the candidate links are exactly the site prefix before every href holding both "/en/matches/" and the league |
| Fbref.Dedup | fbref_scraper.py:106-107 | the append-if-absent step of `get_match_links` as a function: the first occurrence of every element. DedupElements and DedupOrder state its properties |
| Fbref.DedupElements | fbref_scraper.py:106-107 | keeping first occurrences keeps every element, once |
| Fbref.DedupOrder | fbref_scraper.py:106-107 | kept elements come in the order of their first occurrence |
| Fbref.GetMatchLinks | fbref_scraper.py:94-108 | the loop returns the first occurrences of the candidate links |
| Fbref.MatchLinksSpec | fbref_scraper.py:102-107 | the links have no repeats, are exactly the prefixed wanted hrefs, and follow first-occurrence order |
| Fbref.RelabelP90 | fbref_scraper.py:146 | the column count is kept; all but the last ten headers are unchanged; the last ten (all, when there are fewer) get "_p90" |
| Fbref.RelabelDistinct | fbref_scraper.py:146 | relabelled headers are distinct exactly when the kept ones are distinct, the relabelled ones are distinct, and no kept header equals a relabelled one |

## Left out

- Network, HTML and files. This covers `requests.get`, BeautifulSoup, `pd.read_html`, `time.sleep` and the CSV writes. The parsed anchors of a fixtures page and the header list of the player table are parameters.
- `get_fixture_data` apart from line 82, and `my_player_data` apart from line 146. This leaves out `dropna`, `concat`, `game_id`, the `isnumeric` filter, `set_index` and `drop`, because they are pandas operations on tables the model does not hold.
- `player_data` (fbref_scraper.py:156-198). Its outer merges of downloaded tables are pandas plumbing over data the model does not hold.
- The interactive loops of `get_data_info`, `sys.exit` and the recursive `main`. `Fbref.GetDataInfo` models one answer to each prompt, and returns `None` where the source would prompt again.
- The tkinter file dialog and the `__main__` block of create_listone.py: UI and file loading.
- combine_data.py is not part of this model. It lists a directory and concatenates CSV files.
- NameKeys.Unidecode: transliterates only the letters of the Latin-1 Supplement (with × and ÷) and Latin Extended-A. It turns non-ASCII whitespace into a space and drops every other non-ASCII character, where the library has tables for many more scripts. That includes the symbols U+00A1-U+00BF. The library gives ASCII text for those, and some of it has letters that survive line 36, such as ª → "a", º → "o", µ → "u", © → "(c)", ¶ → "P" and ° → "deg".
- PyStr.Lower: lower-cases ASCII, Latin-1 and Latin Extended-A, and leaves U+0130 alone. Python's `str.lower` covers all of Unicode and maps U+0130 to two characters.
- Fbref.SeasonIsValid: `\d` is taken as an ASCII digit. Python's `re` also matches other Unicode decimal digits in a `str` pattern.
- Listone.MakeUniqueNames: runs at most `maxRounds` rounds and reports whether it halted, because the source loop need not halt.
- Listone.CreateDataframe: for the same reason, returns `Unfinished` where the source would loop for ever.
- Missing values (NaN) in `Player` or `Nome`. Every cell is a string, and `Min` is an opaque type parameter.
- Merge column clashes. The model assumes `serie_a_df` has no `Player` or `Min` column of its own, which pandas would rename with suffixes.
- Object identity: `make_unique_names` returns the frame it was given, which the method mutates in place. Row indexes and column order of the DataFrames are not modelled.
