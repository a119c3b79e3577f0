/** The driver `scrape_transfermarkt`: the league name read off the league
    overview URL, the CSV file name made from it, and the club loop that
    visits the first `number_of_clubs` clubs and concatenates the squads of
    those that could be scraped. */
module League {

  import opened Wrappers
  import opened Substrings
  import opened Splitting
  import opened Casing
  import opened Players

  /** Club links on the overview page are relative to this host. */
  const BaseUrl: string := "https://www.transfermarkt.com"

  /** The league overview URL used when none is given on the command line,
      `https://www.transfermarkt.com/premier-league/startseite/wettbewerb/GB1`,
      written as its `/`-separated pieces. */
  const DefaultUrlPieces: seq<string> :=
    ["https:", "", "www.transfermarkt.com", "premier-league", "startseite", "wettbewerb", "GB1"]
  const DefaultClubsUrl: string := Join(DefaultUrlPieces, '/')

  const CsvSuffix: string := "_players_data.csv"

  /** `clubs_url.split('/')[3].replace('-', ' ').title()`: the fourth
      `/`-separated piece of the URL, with dashes turned into spaces, in
      title case. A URL with fewer than three slashes has no fourth piece
      (Python raises `IndexError` and the run stops): None. */
  function LeagueName(clubsUrl: string): (r: Option<string>)
    ensures r.Some? <==> CountChar(clubsUrl, '/') >= 3
    ensures r.Some? ==> '-' !in r.value && '/' !in r.value
  {
    var parts := Split(clubsUrl, '/');
    if |parts| < 4 then None
    else
      var words := Replace(parts[3], "-", " ");
      ReplaceCharRemoves(parts[3], '-', " ");
      ReplaceChar(parts[3], '-', ' ');
      Some(Title(words))
  }

  /** `league_name.replace(' ', '-') + "_players_data.csv"`: always ends in
      the fixed suffix, never contains a space, and keeps one character of
      the league name per character. */
  function CsvFileName(leagueName: string): (r: string)
    ensures |r| == |leagueName| + |CsvSuffix|
    ensures r[|leagueName|..] == CsvSuffix
    ensures ' ' !in r
  {
    ReplaceCharRemoves(leagueName, ' ', "-");
    Replace(leagueName, " ", "-") + CsvSuffix
  }

  /** For a league name without dashes (every name `LeagueName` produces),
      the file name determines the league name: turning the dashes of its
      stem back into spaces gives the name back. */
  lemma CsvFileNameRecoversLeague(leagueName: string)
    requires '-' !in leagueName
    ensures var r := CsvFileName(leagueName);
            Replace(r[..|leagueName|], "-", " ") == leagueName
  {
    ReplaceCharUndo(leagueName, ' ', '-');
  }

  /** Different league names never share a file name. */
  lemma CsvFileNameInjective(name1: string, name2: string)
    requires '-' !in name1 && '-' !in name2
    requires CsvFileName(name1) == CsvFileName(name2)
    ensures name1 == name2
  {
    CsvFileNameRecoversLeague(name1);
    CsvFileNameRecoversLeague(name2);
  }

  /** End to end, for a league slug without spaces: the dash-to-space and
      space-to-dash swaps cancel, because `title()` treats both as word
      breaks, so the file stem is the title-cased slug itself. */
  lemma CsvFileNameOfSlug(clubsUrl: string)
    requires CountChar(clubsUrl, '/') >= 3
    requires ' ' !in Split(clubsUrl, '/')[3]
    ensures CsvFileName(LeagueName(clubsUrl).value) == Title(Split(clubsUrl, '/')[3]) + CsvSuffix
  {
    var slug := Split(clubsUrl, '/')[3];
    var words := Replace(slug, "-", " ");
    var name := Title(words);
    var stem := Replace(name, " ", "-");
    ReplaceChar(slug, '-', ' ');
    ReplaceChar(name, ' ', '-');
    TitlePointwise(words);
    TitlePointwise(slug);
    forall i | 0 <= i < |slug|
      ensures stem[i] == Title(slug)[i]
    {
      assert IsCased(words[i]) <==> IsCased(slug[i]);
      if i > 0 {
        assert IsCased(words[i - 1]) <==> IsCased(slug[i - 1]);
      }
      assert slug[i] != ' ' by { assert slug[i] in slug; }
    }
    assert stem == Title(slug);
  }

  /** The fourth piece of the default overview URL is `premier-league`. */
  lemma DefaultSlug()
    ensures CountChar(DefaultClubsUrl, '/') >= 3
    ensures Split(DefaultClubsUrl, '/')[3] == "premier-league"
  {
    forall i | 0 <= i < |DefaultUrlPieces|
      ensures '/' !in DefaultUrlPieces[i]
    {
    }
    SplitJoin(DefaultUrlPieces, '/');
  }

  /** The league name of the default overview URL. */
  lemma DefaultLeague()
    ensures LeagueName(DefaultClubsUrl) == Some("Premier League")
  {
    DefaultSlug();
    DefaultWords("premier-league");
    DefaultTitle("premier league");
  }

  /** The file name the default overview URL leads to. */
  lemma DefaultCsvFileName(name: string)
    requires name == "Premier League"
    ensures CsvFileName(name) == "Premier-League_players_data.csv"
  {
    DefaultStem(name);
  }

  /* The three steps below take their text as a parameter fixed by `requires`,
     so that the verifier works through the characters one index at a time
     instead of unfolding the recursive definitions on a literal. */

  lemma DefaultWords(slug: string)
    requires slug == "premier-league"
    ensures Replace(slug, "-", " ") == "premier league"
  {
    var words := Replace(slug, "-", " ");
    ReplaceChar(slug, '-', ' ');
    forall i | 0 <= i < |slug| ensures words[i] == "premier league"[i] { }
  }

  lemma DefaultTitle(words: string)
    requires words == "premier league"
    ensures Title(words) == "Premier League"
  {
    var name := Title(words);
    TitlePointwise(words);
    forall i | 0 <= i < |words| ensures name[i] == "Premier League"[i] { }
  }

  lemma DefaultStem(name: string)
    requires name == "Premier League"
    ensures Replace(name, " ", "-") == "Premier-League"
  {
    var stem := Replace(name, " ", "-");
    ReplaceChar(name, ' ', '-');
    forall i | 0 <= i < |name| ensures stem[i] == "Premier-League"[i] { }
  }

  /** Python's `s[:n]` for any integer `n`: a non-negative `n` keeps at most
      the first `n` elements, a negative `n` drops the last `-n`. */
  function PrefixSlice<T>(s: seq<T>, n: int): (r: seq<T>)
    ensures r <= s
    ensures n >= 0 ==> |r| == if n < |s| then n else |s|
    ensures n < 0 ==> |r| == if |s| + n > 0 then |s| + n else 0
  {
    if n >= 0 then (if n < |s| then s[..n] else s)
    else (if |s| + n > 0 then s[..|s| + n] else [])
  }

  /** What one club contributes: its squad when the club page could be
      fetched and read, nothing (None) when scraping it raised. */
  function ClubOutcome(href: string, fetch: string -> Option<ClubPage>, year: nat): (r: Option<seq<PlayerRecord>>)
    ensures r.None? <==> fetch(BaseUrl + href).None?
    ensures r.Some? ==> |r.value| == |fetch(BaseUrl + href).value.rows|
    ensures r.Some? ==> forall x :: x in r.value ==> x.clubUrl == BaseUrl + href
  {
    var clubUrl := BaseUrl + href;
    match fetch(clubUrl)
    case None => None
    case Some(page) => Some(ClubPlayers(page, clubUrl, year))
  }

  function ClubOutcomes(hrefs: seq<string>, fetch: string -> Option<ClubPage>, year: nat): seq<Option<seq<PlayerRecord>>> {
    seq(|hrefs|, i requires 0 <= i < |hrefs| => ClubOutcome(hrefs[i], fetch, year))
  }

  /** The in-order concatenation of the successful results: with no success
      it is empty, and every successful squad fits in it. */
  function ConcatSuccesses<T>(results: seq<Option<seq<T>>>): (r: seq<T>)
    ensures (forall i :: 0 <= i < |results| ==> results[i].None?) ==> r == []
    ensures forall i :: 0 <= i < |results| && results[i].Some? ==> |results[i].value| <= |r|
  {
    if |results| == 0 then []
    else ConcatSuccesses(results[..|results| - 1]) + results[|results| - 1].GetOr([])
  }

  /** Concatenating the results of two runs of clubs is concatenating their
      successes. */
  lemma {:induction false} ConcatSuccessesAppend<T>(a: seq<Option<seq<T>>>, b: seq<Option<seq<T>>>)
    ensures ConcatSuccesses(a + b) == ConcatSuccesses(a) + ConcatSuccesses(b)
    decreases |b|
  {
    if |b| == 0 {
      assert a + b == a;
    } else {
      var b' := b[..|b| - 1];
      assert (a + b)[..|a + b| - 1] == a + b';
      ConcatSuccessesAppend(a, b');
    }
  }

  /** A failed club contributes nothing and leaves the others' records and
      their order untouched; a successful one contributes exactly its squad,
      in place. */
  lemma ConcatSuccessesAround<T>(a: seq<Option<seq<T>>>, x: Option<seq<T>>, b: seq<Option<seq<T>>>)
    ensures x.None? ==> ConcatSuccesses(a + [x] + b) == ConcatSuccesses(a + b)
    ensures x.Some? ==> ConcatSuccesses(a + [x] + b) == ConcatSuccesses(a) + x.value + ConcatSuccesses(b)
  {
    ConcatSuccessesAppend(a + [x], b);
    ConcatSuccessesAppend(a, [x]);
    ConcatSuccessesAppend(a, b);
    assert [x][..0] == [];
  }

  /** An element is in the output exactly when it belongs to the squad of
      some successful club. */
  lemma {:induction false} ConcatSuccessesMembers<T>(results: seq<Option<seq<T>>>, x: T)
    ensures x in ConcatSuccesses(results) <==>
              exists i :: 0 <= i < |results| && results[i].Some? && x in results[i].value
    decreases |results|
  {
    if |results| > 0 {
      var init := results[..|results| - 1];
      ConcatSuccessesMembers(init, x);
      var last := results[|results| - 1];
      if x in ConcatSuccesses(results) {
        if x in ConcatSuccesses(init) {
          var i :| 0 <= i < |init| && init[i].Some? && x in init[i].value;
          assert results[i] == init[i];
        } else {
          assert x in last.GetOr([]);
          assert last.Some?;
        }
      }
      if exists i :: 0 <= i < |results| && results[i].Some? && x in results[i].value {
        var i :| 0 <= i < |results| && results[i].Some? && x in results[i].value;
        if i < |init| {
          assert init[i] == results[i];
        }
      }
    }
  }

  /** What the run writes: the CSV file name and its rows in order. */
  datatype Saved = Saved(fileName: string, players: seq<PlayerRecord>)

  /** `scrape_transfermarkt` with its inputs made explicit: the command-line
      values `clubsUrl` and `numberOfClubs`, the club links found on the
      overview page (None when that page could not be fetched, which stops
      the run), `fetch` for the squad pages, and the current `year`. The
      league name is read before anything is fetched, so a URL without a
      fourth piece stops the run first. */
  method ScrapeTransfermarkt(clubsUrl: string, numberOfClubs: int, listing: Option<seq<string>>,
                             fetch: string -> Option<ClubPage>, year: nat)
    returns (saved: Option<Saved>)
    ensures saved.Some? <==> LeagueName(clubsUrl).Some? && listing.Some?
    ensures saved.Some? ==> saved.value.fileName == CsvFileName(LeagueName(clubsUrl).value)
    ensures saved.Some? ==>
              saved.value.players
                == ConcatSuccesses(ClubOutcomes(PrefixSlice(listing.value, numberOfClubs), fetch, year))
  {
    var leagueName := LeagueName(clubsUrl);
    if leagueName.None? {
      return None;
    }
    if listing.None? {
      return None;
    }
    var visited := PrefixSlice(listing.value, numberOfClubs);
    ghost var outcomes := ClubOutcomes(visited, fetch, year);
    var all: seq<PlayerRecord> := [];
    for k := 0 to |visited|
      invariant all == ConcatSuccesses(outcomes[..k])
    {
      var clubUrl := BaseUrl + visited[k];
      var page := fetch(clubUrl);
      assert outcomes[..k + 1] == outcomes[..k] + [outcomes[k]];
      ConcatSuccessesAppend(outcomes[..k], [outcomes[k]]);
      assert [outcomes[k]][..0] == [];
      if page.Some? {
        var squad := ScrapeClubPlayers(page.value, clubUrl, year);
        all := all + squad;
      }
    }
    assert outcomes[..|visited|] == outcomes;
    saved := Some(Saved(CsvFileName(leagueName.value), all));
  }

  /** Every saved record comes from one of the visited clubs: its club URL
      is that club's absolute link and its fixtures URL is derived from it. */
  lemma SavedRecordsComeFromVisitedClubs(hrefs: seq<string>, fetch: string -> Option<ClubPage>, year: nat)
    ensures forall r: PlayerRecord :: r in ConcatSuccesses(ClubOutcomes(hrefs, fetch, year)) ==>
              && (exists i :: 0 <= i < |hrefs| && r.clubUrl == BaseUrl + hrefs[i])
              && r.schedule == ScheduleUrl(r.clubUrl, year)
  {
    var outcomes := ClubOutcomes(hrefs, fetch, year);
    forall r: PlayerRecord | r in ConcatSuccesses(outcomes)
      ensures && (exists i :: 0 <= i < |hrefs| && r.clubUrl == BaseUrl + hrefs[i])
              && r.schedule == ScheduleUrl(r.clubUrl, year)
    {
      ConcatSuccessesMembers(outcomes, r);
      var i :| 0 <= i < |outcomes| && outcomes[i].Some? && r in outcomes[i].value;
      var clubUrl := BaseUrl + hrefs[i];
      assert outcomes[i] == ClubOutcome(hrefs[i], fetch, year);
      var page := fetch(clubUrl).value;
      assert outcomes[i].value == ClubPlayers(page, clubUrl, year);
      assert r.clubUrl == clubUrl;
    }
  }
}
