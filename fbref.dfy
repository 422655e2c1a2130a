/** The string-level logic of fbref_scraper.py: which leagues and seasons
    the scraper accepts, the fbref.com URLs it builds from them, the season
    it reads back from a schedule URL, how it filters and de-duplicates
    the match links of a fixtures page, and how it relabels the per-90
    columns of the player table. Keyboard input, the network and the HTML
    parser are outside the model: their results are parameters. */
module Fbref {
  import opened PyStr

  predicate NoDup<T(==)>(s: seq<T>) {
    forall i, j :: 0 <= i < j < |s| ==> s[i] != s[j]
  }

  // ---------------------------------------------------------------------
  // League selection (lines 17, 24-55).

  /** The league names offered to the user (line 17). */
  const Leagues: seq<string> :=
    ["Premier League", "La Liga", "Serie A", "Ligue 1", "Bundesliga", "Big5", "Eredivisie"]

  /** A league's name, its slug in fbref.com URLs and its fbref.com id. */
  datatype League = League(name: string, slug: string, id: string)

  /** What the if-chain of lines 29-55 assigns to each league name. */
  const LeagueTable: seq<League> := [
    League("Premier League", "Premier-League", "9"),
    League("La Liga", "La-Liga", "12"),
    League("Serie A", "Serie-A", "11"),
    League("Ligue 1", "Ligue-1", "13"),
    League("Bundesliga", "Bundesliga", "20"),
    League("Big5", "Big-5-European-Leagues", "Big5"),
    League("Eredivisie", "Eredivisie", "23")
  ]

  /** One pass of the league prompt of `get_data_info`: a name outside
      `leagues` is refused (the source then prompts again); otherwise the
      if-chain rewrites the name into its slug and sets its id. */
  method ResolveLeague(league: string) returns (accepted: bool, slug: string, id: string)
    ensures accepted <==> league in Leagues
    ensures accepted ==> League(league, slug, id) in LeagueTable
  {
    if league !in Leagues {
      return false, "", "";
    }
    slug, id := league, "";
    if slug == "Premier League" {
      slug, id := "Premier-League", "9";
    }
    if slug == "La Liga" {
      slug, id := "La-Liga", "12";
    }
    if slug == "Serie A" {
      slug, id := "Serie-A", "11";
    }
    if slug == "Ligue 1" {
      slug, id := "Ligue-1", "13";
    }
    if slug == "Bundesliga" {
      slug, id := "Bundesliga", "20";
    }
    if slug == "Big5" {
      slug, id := "Big-5-European-Leagues", "Big5";
    }
    if slug == "Eredivisie" {
      slug, id := "Eredivisie", "23";
    }
    accepted := true;
  }

  /** The table and the accepted names agree, and no two leagues share a
      name, a slug or an id: a league's files and URLs are its own. */
  lemma LeagueTableWellFormed()
    ensures |LeagueTable| == |Leagues|
    ensures forall k :: 0 <= k < |LeagueTable| ==> LeagueTable[k].name == Leagues[k]
    ensures forall i, j :: 0 <= i < j < |LeagueTable| ==> LeagueTable[i].name != LeagueTable[j].name
    ensures forall i, j :: 0 <= i < j < |LeagueTable| ==> LeagueTable[i].slug != LeagueTable[j].slug
    ensures forall i, j :: 0 <= i < j < |LeagueTable| ==> LeagueTable[i].id != LeagueTable[j].id
    ensures forall k :: 0 <= k < |LeagueTable| ==>
      '/' !in LeagueTable[k].slug && '/' !in LeagueTable[k].id
  {
    LeagueNamesListed();
    LeagueNamesDistinct();
    LeagueSlugsDistinct();
    LeagueIdsDistinct();
    LeagueFieldsNoSlash();
  }

  lemma LeagueNamesListed()
    ensures |LeagueTable| == |Leagues|
    ensures forall k :: 0 <= k < |LeagueTable| ==> LeagueTable[k].name == Leagues[k]
  {
  }

  lemma LeagueFieldsNoSlash()
    ensures forall k :: 0 <= k < |LeagueTable| ==>
      '/' !in LeagueTable[k].slug && '/' !in LeagueTable[k].id
  {
    SlugsSlashFree();
    IdsSlashFree();
    forall k | 0 <= k < |LeagueTable|
      ensures '/' !in LeagueTable[k].slug && '/' !in LeagueTable[k].id
    {
      SlashFreeNotIn(LeagueTable[k].slug);
      SlashFreeNotIn(LeagueTable[k].id);
    }
  }

  lemma SlugsSlashFree()
    ensures forall k :: 0 <= k < |LeagueTable| ==> SlashFree(LeagueTable[k].slug)
  {
  }

  lemma IdsSlashFree()
    ensures forall k :: 0 <= k < |LeagueTable| ==> SlashFree(LeagueTable[k].id)
  {
  }

  predicate SlashFree(s: string) {
    forall i :: 0 <= i < |s| ==> s[i] != '/'
  }

  lemma SlashFreeNotIn(s: string)
    requires SlashFree(s)
    ensures '/' !in s
  {
  }

  lemma LeagueNamesDistinct()
    ensures forall i, j :: 0 <= i < j < |LeagueTable| ==> LeagueTable[i].name != LeagueTable[j].name
  {
  }

  lemma LeagueSlugsDistinct()
    ensures forall i, j :: 0 <= i < j < |LeagueTable| ==> LeagueTable[i].slug != LeagueTable[j].slug
  {
  }

  lemma LeagueIdsDistinct()
    ensures forall i, j :: 0 <= i < j < |LeagueTable| ==> LeagueTable[i].id != LeagueTable[j].id
  {
  }

  // ---------------------------------------------------------------------
  // Season check (line 64).

  predicate IsDigit(c: char) {
    '0' <= c <= '9'
  }

  /** `20\d{2}-20\d{2}` at the start of `s`, with ASCII digits. */
  predicate SeasonPrefix(s: string) {
    |s| >= 9
    && s[0] == '2' && s[1] == '0' && IsDigit(s[2]) && IsDigit(s[3])
    && s[4] == '-'
    && s[5] == '2' && s[6] == '0' && IsDigit(s[7]) && IsDigit(s[8])
  }

  /** `re.match(r'^20\d{2}-20\d{2}$', season)`: `$` matches at the end of
      the string or just before a final newline. */
  predicate SeasonIsValid(season: string) {
    SeasonPrefix(season) && (|season| == 9 || (|season| == 10 && season[9] == '\n'))
  }

  function Digit(d: int): (c: char)
    requires 0 <= d < 10
    ensures IsDigit(c) && c as int - '0' as int == d
  {
    ('0' as int + d) as char
  }

  /** The four digits of a year of this century. */
  function YearText(y: int): (t: string)
    requires 2000 <= y < 2100
    ensures |t| == 4 && t[0] == '2' && t[1] == '0'
  {
    "20" + [Digit((y - 2000) / 10), Digit(y % 10)]
  }

  function SeasonText(y1: int, y2: int): string
    requires 2000 <= y1 < 2100 && 2000 <= y2 < 2100
  {
    YearText(y1) + "-" + YearText(y2)
  }

  /** The year a valid season text starts with at `at`. */
  function YearAt(s: string, at: nat): (y: int)
    requires at + 4 <= |s| && IsDigit(s[at + 2]) && IsDigit(s[at + 3])
    ensures 2000 <= y < 2100
  {
    2000 + 10 * (s[at + 2] as int - '0' as int) + (s[at + 3] as int - '0' as int)
  }

  lemma YearAtText(s: string, at: nat)
    requires at + 4 <= |s| && s[at] == '2' && s[at + 1] == '0'
    requires IsDigit(s[at + 2]) && IsDigit(s[at + 3])
    ensures s[at..at + 4] == YearText(YearAt(s, at))
  {
    var y := YearAt(s, at);
    assert (y - 2000) / 10 == s[at + 2] as int - '0' as int;
    assert y % 10 == s[at + 3] as int - '0' as int;
  }

  /** A valid season names two years 2000-2099: a valid season is their
      text, possibly followed by one newline. */
  lemma ValidSeasonYears(season: string)
    requires SeasonIsValid(season)
    ensures 2000 <= YearAt(season, 0) < 2100 && 2000 <= YearAt(season, 5) < 2100
    ensures var t := SeasonText(YearAt(season, 0), YearAt(season, 5));
      season == t || season == t + "\n"
  {
    var y1, y2 := YearAt(season, 0), YearAt(season, 5);
    YearAtText(season, 0);
    YearAtText(season, 5);
    assert season[..9] == season[0..4] + "-" + season[5..9];
    if |season| == 9 {
      assert season == season[..9];
    } else {
      assert season == season[..9] + "\n";
    }
  }

  /** Any two years 2000-2099 make a valid season, in either order and
      any distance apart, with or without a final newline. */
  lemma YearsMakeSeason(y1: int, y2: int)
    requires 2000 <= y1 < 2100 && 2000 <= y2 < 2100
    ensures SeasonIsValid(SeasonText(y1, y2)) && SeasonIsValid(SeasonText(y1, y2) + "\n")
  {
  }

  /** The accepted seasons are exactly the texts of two years 2000-2099,
      optionally followed by one newline. */
  lemma SeasonYears(season: string)
    ensures SeasonIsValid(season) <==>
      exists y1, y2 :: 2000 <= y1 < 2100 && 2000 <= y2 < 2100
        && (season == SeasonText(y1, y2) || season == SeasonText(y1, y2) + "\n")
  {
    if SeasonIsValid(season) {
      ValidSeasonYears(season);
    }
    if exists y1, y2 :: 2000 <= y1 < 2100 && 2000 <= y2 < 2100
        && (season == SeasonText(y1, y2) || season == SeasonText(y1, y2) + "\n") {
      var y1, y2 :| 2000 <= y1 < 2100 && 2000 <= y2 < 2100
        && (season == SeasonText(y1, y2) || season == SeasonText(y1, y2) + "\n");
      YearsMakeSeason(y1, y2);
    }
  }

  /** A valid season holds no '/'. */
  lemma SeasonHasNoSlash(season: string)
    requires SeasonIsValid(season)
    ensures '/' !in season
  {
  }

  // ---------------------------------------------------------------------
  // URLs (lines 69-70) and the season read back from one (line 82).

  /** The fixtures page of a league's season (line 69). */
  function ScheduleUrl(id: string, season: string, slug: string): string {
    "https://fbref.com/en/comps/" + id + "/" + season + "/schedule/"
      + season + "-" + slug + "-Scores-and-Fixtures"
  }

  /** The player statistics page of a league's season (line 70). */
  function PlayerUrl(id: string, season: string, slug: string): string {
    "https://fbref.com/en/comps/" + id + "/" + season + "/stats/players/"
      + season + "-" + slug + "-Stats"
  }

  /** `url.split('/')[6]` (line 82); `None` where Python raises IndexError. */
  function SeasonField(url: string): (r: Option<string>)
    ensures r.Some? <==> |SplitOn(url, '/')| > 6
  {
    var fields := SplitOn(url, '/');
    if |fields| > 6 then Some(fields[6]) else None
  }

  /** A URL path built from fields and '/' splits back into them. */
  lemma UrlPathFields(head: seq<string>, id: string, season: string, kind: seq<string>, page: string)
    requires head != [] && kind != []
    requires forall k :: 0 <= k < |head| ==> '/' !in head[k]
    requires forall k :: 0 <= k < |kind| ==> '/' !in kind[k]
    requires '/' !in id && '/' !in season && '/' !in page
    ensures SplitOn(JoinOn(head, '/') + "/" + id + "/" + season + "/" + JoinOn(kind, '/') + "/" + page, '/')
         == head + [id, season] + kind + [page]
  {
    var fields := head + [id, season] + kind + [page];
    var h, k := JoinOn(head, '/'), JoinOn(kind, '/');
    var path := h + "/" + id + "/" + season + "/" + k + "/" + page;
    assert path == JoinOn(fields, '/') by {
      var tail := [id, season] + kind + [page];
      assert fields == head + tail;
      assert JoinOn(tail, '/') == id + "/" + (season + "/" + (k + "/" + page)) by {
        TailJoin(id, season, kind, page);
      }
      assert JoinOn(fields, '/') == h + "/" + JoinOn(tail, '/') by {
        JoinOnAppend(head, tail, '/');
      }
      Regroup(h, id, season, k, page);
    }
    assert SplitOn(JoinOn(fields, '/'), '/') == fields by {
      NoSlashFields(head, id, season, kind, page);
      SplitJoin(fields, '/');
    }
  }

  lemma TailJoin(id: string, season: string, kind: seq<string>, page: string)
    requires kind != []
    ensures JoinOn([id, season] + kind + [page], '/') == id + "/" + (season + "/" + (JoinOn(kind, '/') + "/" + page))
  {
    var tail := [id, season] + kind + [page];
    assert tail[1..] == [season] + kind + [page];
    assert tail[1..][1..] == kind + [page];
    JoinOnAppend(kind, [page], '/');
  }

  lemma NoSlashFields(head: seq<string>, id: string, season: string, kind: seq<string>, page: string)
    requires forall k :: 0 <= k < |head| ==> '/' !in head[k]
    requires forall k :: 0 <= k < |kind| ==> '/' !in kind[k]
    requires '/' !in id && '/' !in season && '/' !in page
    ensures forall k :: 0 <= k < |head + [id, season] + kind + [page]| ==> '/' !in (head + [id, season] + kind + [page])[k]
  {
    var fields := head + [id, season] + kind + [page];
    forall k | 0 <= k < |fields| ensures '/' !in fields[k] {
      if k < |head| {
        assert fields[k] == head[k];
      } else if k == |head| {
        assert fields[k] == id;
      } else if k == |head| + 1 {
        assert fields[k] == season;
      } else if k < |head| + 2 + |kind| {
        assert fields[k] == kind[k - |head| - 2];
      } else {
        assert fields[k] == page;
      }
    }
  }

  lemma Regroup(h: string, a: string, b: string, c: string, d: string)
    ensures h + "/" + a + "/" + b + "/" + c + "/" + d == h + "/" + (a + "/" + (b + "/" + (c + "/" + d)))
  {
  }

  /** The f-string of lines 69-70 in the form `UrlPathFields` splits. */
  lemma UrlRegroup(prefix: string, h: string, id: string, season: string, middle: string, kind: string,
                   s1: string, s2: string, s3: string, s4: string)
    requires prefix == h + "/" && middle == "/" + kind + "/"
    ensures prefix + id + "/" + season + middle + s1 + s2 + s3 + s4
         == h + "/" + id + "/" + season + "/" + kind + "/" + (s1 + s2 + s3 + s4)
  {
  }

  /** No '/' in the last field of either URL. */
  lemma PageNoSlash(season: string, slug: string, suffix: string)
    requires '/' !in season && '/' !in slug && '/' !in suffix
    ensures '/' !in season + "-" + slug + suffix
  {
  }

  lemma UrlHeadNoSlash()
    ensures forall k :: 0 <= k < |UrlHeadFields| ==> '/' !in UrlHeadFields[k]
    ensures '/' !in "-Scores-and-Fixtures" && '/' !in "-Stats"
    ensures '/' !in "schedule" && '/' !in "stats" && '/' !in "players"
  {
  }

  /** The path fields of the schedule URL: with no '/' in the id, the
      season or the slug, splitting on '/' gives them back in place. */
  lemma ScheduleUrlFields(id: string, season: string, slug: string)
    requires '/' !in id && '/' !in season && '/' !in slug
    ensures SplitOn(ScheduleUrl(id, season, slug), '/') ==
      ["https:", "", "fbref.com", "en", "comps", id, season, "schedule",
       season + "-" + slug + "-Scores-and-Fixtures"]
  {
    var page := season + "-" + slug + "-Scores-and-Fixtures";
    var h, k := JoinOn(UrlHeadFields, '/'), JoinOn(["schedule"], '/');
    assert ScheduleUrl(id, season, slug) == h + "/" + id + "/" + season + "/" + k + "/" + page by {
      UrlHead();
      ScheduleSegment();
      UrlRegroup("https://fbref.com/en/comps/", h, id, season, "/schedule/", k,
                 season, "-", slug, "-Scores-and-Fixtures");
    }
    assert SplitOn(h + "/" + id + "/" + season + "/" + k + "/" + page, '/')
        == UrlHeadFields + [id, season] + ["schedule"] + [page] by {
      UrlHeadNoSlash();
      PageNoSlash(season, slug, "-Scores-and-Fixtures");
      UrlPathFields(UrlHeadFields, id, season, ["schedule"], page);
    }
    ScheduleFieldList(id, season, page);
  }

  lemma ScheduleSegment()
    ensures "/schedule/" == "/" + JoinOn(["schedule"], '/') + "/"
  {
    forall k | 0 <= k < 10 ensures "/schedule/"[k] == ("/" + "schedule" + "/")[k] {}
  }

  lemma ScheduleFieldList(id: string, season: string, page: string)
    ensures UrlHeadFields + [id, season] + ["schedule"] + [page]
         == ["https:", "", "fbref.com", "en", "comps", id, season, "schedule", page]
  {
  }

  /** The path fields of the player statistics URL. */
  lemma PlayerUrlFields(id: string, season: string, slug: string)
    requires '/' !in id && '/' !in season && '/' !in slug
    ensures SplitOn(PlayerUrl(id, season, slug), '/') ==
      ["https:", "", "fbref.com", "en", "comps", id, season, "stats", "players",
       season + "-" + slug + "-Stats"]
  {
    var page := season + "-" + slug + "-Stats";
    var h, k := JoinOn(UrlHeadFields, '/'), JoinOn(["stats", "players"], '/');
    assert PlayerUrl(id, season, slug) == h + "/" + id + "/" + season + "/" + k + "/" + page by {
      UrlHead();
      StatsPlayers();
      UrlRegroup("https://fbref.com/en/comps/", h, id, season, "/stats/players/", k,
                 season, "-", slug, "-Stats");
    }
    assert SplitOn(h + "/" + id + "/" + season + "/" + k + "/" + page, '/')
        == UrlHeadFields + [id, season] + ["stats", "players"] + [page] by {
      UrlHeadNoSlash();
      PageNoSlash(season, slug, "-Stats");
      UrlPathFields(UrlHeadFields, id, season, ["stats", "players"], page);
    }
    PlayerFieldList(id, season, page);
  }

  lemma PlayerFieldList(id: string, season: string, page: string)
    ensures UrlHeadFields + [id, season] + ["stats", "players"] + [page]
         == ["https:", "", "fbref.com", "en", "comps", id, season, "stats", "players", page]
  {
  }

  lemma StatsPlayers()
    ensures "/stats/players/" == "/" + JoinOn(["stats", "players"], '/') + "/"
  {
    assert JoinOn(["stats", "players"], '/') == "stats" + "/" + "players";
    forall k | 0 <= k < 15 ensures "/stats/players/"[k] == ("/" + "stats" + "/" + "players" + "/")[k] {}
  }

  const UrlHeadFields: seq<string> := ["https:", "", "fbref.com", "en", "comps"]

  /** The common head of both URLs, field by field. */
  lemma UrlHead()
    ensures "https://fbref.com/en/comps/" == JoinOn(UrlHeadFields, '/') + "/"
  {
    UrlHeadJoin();
    UrlHeadLiteral();
  }

  lemma UrlHeadLiteral()
    ensures "https://fbref.com/en/comps/" == "https:" + "/" + "" + "/" + "fbref.com" + "/" + "en" + "/" + "comps" + "/"
  {
    var h := "https:" + "/" + "" + "/" + "fbref.com" + "/" + "en" + "/" + "comps" + "/";
    forall k | 0 <= k < 27 ensures "https://fbref.com/en/comps/"[k] == h[k] {}
  }

  lemma UrlHeadJoin()
    ensures JoinOn(UrlHeadFields, '/') == "https:" + "/" + "" + "/" + "fbref.com" + "/" + "en" + "/" + "comps"
  {
    assert JoinOn(UrlHeadFields[4..], '/') == "comps";
    assert JoinOn(UrlHeadFields[3..], '/') == "en" + "/" + "comps";
    assert JoinOn(UrlHeadFields[2..], '/') == "fbref.com" + "/" + ("en" + "/" + "comps");
    assert JoinOn(UrlHeadFields[1..], '/') == "" + "/" + ("fbref.com" + "/" + ("en" + "/" + "comps"));
  }

  // ---------------------------------------------------------------------
  // `get_data_info` (lines 15-71), one prompt of each kind.

  /** What `get_data_info` returns: both URLs, the slug and the season. */
  datatype DataInfo = DataInfo(url: string, playerUrl: string, slug: string, season: string)

  /** `get_data_info` with one league answer and one season answer. Where
      the source would print a complaint and prompt again, the result is
      `None`. */
  method GetDataInfo(league: string, season: string) returns (r: Option<DataInfo>)
    ensures r.Some? <==> league in Leagues && SeasonIsValid(season)
    ensures r.Some? ==>
      exists k :: 0 <= k < |LeagueTable| && LeagueTable[k].name == league
        && r.value == DataInfo(ScheduleUrl(LeagueTable[k].id, season, LeagueTable[k].slug),
                               PlayerUrl(LeagueTable[k].id, season, LeagueTable[k].slug),
                               LeagueTable[k].slug, season)
    ensures r.Some? ==> SeasonField(r.value.url) == Some(season)
  {
    var accepted, slug, id := ResolveLeague(league);
    if !accepted || !SeasonIsValid(season) {
      return None;
    }
    r := Some(DataInfo(ScheduleUrl(id, season, slug), PlayerUrl(id, season, slug), slug, season));
    LeagueTableWellFormed();
    SeasonHasNoSlash(season);
    ScheduleUrlFields(id, season, slug);
  }

  // ---------------------------------------------------------------------
  // `get_match_links` (lines 94-108).

  const Site := "https://fbref.com"

  /** `l.get('href', '')` (line 104): an anchor without `href` reads as "". */
  function Href(anchor: Option<string>): string {
    match anchor
    case None => ""
    case Some(h) => h
  }

  /** The filter of line 105: both key words occur in the href. */
  predicate Wanted(href: string, league: string) {
    Contains(href, "/en/matches/") && Contains(href, league)
  }

  /** The absolute link of every wanted href, in page order, repeats kept. */
  function Candidates(anchors: seq<Option<string>>, league: string): seq<string> {
    if anchors == [] then []
    else
      var last := Href(anchors[|anchors| - 1]);
      Candidates(anchors[..|anchors| - 1], league)
        + (if Wanted(last, league) then [Site + last] else [])
  }

  /** The candidates are the links of exactly the wanted hrefs. */
  lemma {:induction false} CandidateElements(anchors: seq<Option<string>>, league: string)
    ensures forall x :: x in Candidates(anchors, league) <==>
      exists k :: 0 <= k < |anchors| && Wanted(Href(anchors[k]), league) && x == Site + Href(anchors[k])
    decreases |anchors|
  {
    if anchors != [] {
      var init := anchors[..|anchors| - 1];
      CandidateElements(init, league);
      assert forall k :: 0 <= k < |init| ==> init[k] == anchors[k];
    }
  }

  /** The first occurrence of every element, in order of first occurrence. */
  function Dedup<T(==)>(s: seq<T>): (r: seq<T>)
  {
    if s == [] then []
    else
      var d := Dedup(s[..|s| - 1]);
      if s[|s| - 1] in d then d else d + [s[|s| - 1]]
  }

  lemma DedupSnoc<T>(s: seq<T>, x: T)
    ensures Dedup(s + [x]) == if x in Dedup(s) then Dedup(s) else Dedup(s) + [x]
  {
    assert (s + [x])[..|s|] == s;
  }

  /** Where `x` first occurs in `s`. */
  function FirstIndex<T(==)>(s: seq<T>, x: T): (k: nat)
    requires x in s
    ensures k < |s| && s[k] == x && x !in s[..k]
  {
    if s[0] == x then 0 else 1 + FirstIndex(s[1..], x)
  }

  /** `Dedup` keeps exactly the elements of `s`, each once. */
  lemma {:induction false} DedupElements<T>(s: seq<T>)
    ensures forall x :: x in Dedup(s) <==> x in s
    ensures NoDup(Dedup(s))
    decreases |s|
  {
    if s != [] {
      var init := s[..|s| - 1];
      DedupElements(init);
      assert s == init + [s[|s| - 1]];
    }
  }

  /** `x` first occurs in `s + [y]` where it first occurs in `s`. */
  lemma FirstIndexSnoc<T>(s: seq<T>, y: T, x: T)
    requires x in s
    ensures FirstIndex(s + [y], x) == FirstIndex(s, x)
  {
    var k := FirstIndex(s, x);
    assert (s + [y])[..k] == s[..k];
    assert (s + [y])[k] == x;
  }

  /** `Dedup` lists the elements in the order of their first occurrence. */
  lemma {:induction false} DedupOrder<T>(s: seq<T>)
    ensures forall x :: x in Dedup(s) ==> x in s
    ensures forall i, j :: 0 <= i < j < |Dedup(s)| ==>
      FirstIndex(s, Dedup(s)[i]) < FirstIndex(s, Dedup(s)[j])
    decreases |s|
  {
    DedupElements(s);
    if s != [] {
      var init, y := s[..|s| - 1], s[|s| - 1];
      var d := Dedup(init);
      DedupOrder(init);
      DedupElements(init);
      assert s == init + [y];
      forall x | x in d ensures FirstIndex(s, x) == FirstIndex(init, x) {
        FirstIndexSnoc(init, y, x);
      }
      if y !in d {
        assert y !in init;
        assert FirstIndex(s, y) == |init| by {
          assert s[..|init|] == init;
        }
        forall i | 0 <= i < |d| ensures FirstIndex(s, d[i]) < FirstIndex(s, y) {
          assert d[i] in init;
        }
      }
    }
  }

  /** The loop of lines 103-107 over the page's anchors. */
  method GetMatchLinks(anchors: seq<Option<string>>, league: string) returns (matchLinks: seq<string>)
    ensures matchLinks == Dedup(Candidates(anchors, league))
  {
    matchLinks := [];
    var i := 0;
    while i < |anchors|
      invariant 0 <= i <= |anchors|
      invariant matchLinks == Dedup(Candidates(anchors[..i], league))
    {
      var href := Href(anchors[i]);
      ghost var before := Candidates(anchors[..i], league);
      assert anchors[..i + 1][..i] == anchors[..i];
      assert Candidates(anchors[..i + 1], league)
          == before + (if Wanted(href, league) then [Site + href] else []);
      if Wanted(href, league) {
        DedupSnoc(before, Site + href);
        if Site + href !in matchLinks {
          matchLinks := matchLinks + [Site + href];
        }
      } else {
        assert before + [] == before;
      }
      i := i + 1;
    }
    assert anchors[..i] == anchors;
  }

  /** What `get_match_links` promises: every link is the site followed by
      a wanted href, every wanted href's link is there, no link repeats,
      and the links come in the order the hrefs first appear. */
  lemma MatchLinksSpec(anchors: seq<Option<string>>, league: string)
    ensures var links := Dedup(Candidates(anchors, league));
      NoDup(links)
      && (forall x :: x in links <==>
            exists k :: 0 <= k < |anchors| && Wanted(Href(anchors[k]), league)
                        && x == Site + Href(anchors[k]))
      && forall i, j :: 0 <= i < j < |links| ==>
           links[i] in Candidates(anchors, league) && links[j] in Candidates(anchors, league)
           && FirstIndex(Candidates(anchors, league), links[i])
                < FirstIndex(Candidates(anchors, league), links[j])
  {
    CandidateElements(anchors, league);
    DedupElements(Candidates(anchors, league));
    DedupOrder(Candidates(anchors, league));
  }

  // ---------------------------------------------------------------------
  // Per-90 headers (line 146).

  /** Python's `len(columns) - 10` as a slice bound: never below 0. */
  function P90Start(n: nat): nat {
    if n < 10 then 0 else n - 10
  }

  /** `columns[:-10] + [col + '_p90' for col in columns[-10:]]`. */
  function RelabelP90(columns: seq<string>): (r: seq<string>)
    ensures |r| == |columns|
    ensures forall i :: 0 <= i < P90Start(|columns|) ==> r[i] == columns[i]
    ensures forall i :: P90Start(|columns|) <= i < |columns| ==> r[i] == columns[i] + "_p90"
  {
    var k := P90Start(|columns|);
    columns[..k] + seq(|columns| - k, i requires 0 <= i < |columns| - k => columns[k + i] + "_p90")
  }

  /** The relabelled headers are distinct exactly when the kept headers are
      distinct among themselves, the relabelled ones are too, and no kept
      header equals a relabelled one: a header may repeat across the two
      parts, but "Gls_p90" kept beside "Gls" relabelled clashes. */
  lemma RelabelDistinct(columns: seq<string>)
    ensures var k := P90Start(|columns|);
      NoDup(RelabelP90(columns)) <==>
        NoDup(columns[..k]) && NoDup(columns[k..])
        && forall i, j :: 0 <= i < k <= j < |columns| ==> columns[i] != columns[j] + "_p90"
  {
    var r, k := RelabelP90(columns), P90Start(|columns|);
    if NoDup(r) {
      forall i, j | 0 <= i < j < k ensures columns[..k][i] != columns[..k][j] {
        assert r[i] != r[j];
      }
      forall i, j | 0 <= i < j < |columns| - k ensures columns[k..][i] != columns[k..][j] {
        assert r[k + i] != r[k + j];
      }
      forall i, j | 0 <= i < k <= j < |columns| ensures columns[i] != columns[j] + "_p90" {
        assert r[i] != r[j];
      }
    }
    if NoDup(columns[..k]) && NoDup(columns[k..])
       && forall i, j :: 0 <= i < k <= j < |columns| ==> columns[i] != columns[j] + "_p90" {
      forall i, j | 0 <= i < j < |r| ensures r[i] != r[j] {
        if k <= i {
          assert columns[i] == r[i][..|r[i]| - 4] && columns[j] == r[j][..|r[j]| - 4];
          assert columns[k..][i - k] != columns[k..][j - k];
        } else if k <= j {
          assert r[i] == columns[i] && r[j] == columns[j] + "_p90";
        } else {
          assert r[i] == columns[i] && r[j] == columns[j];
          assert columns[..k][i] != columns[..k][j];
        }
      }
    }
  }
}
