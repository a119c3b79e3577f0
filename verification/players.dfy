/** One club's squad page turned into output records: `extract_player_data`
    for a single table row and `scrape_club_players` for the whole table.
    What the HTML layer finds in a row is taken as given text; the model
    covers what the scraper does with that text. */
module Players {

  import opened Whitespace
  import opened Substrings
  import opened Decimal
  import opened Positions
  import Sequences

  /** The pieces of one squad-table row as the HTML layer finds them, before
      any clean-up. */
  datatype RawRow = RawRow(
    nameCell: string,      // text of the `hauptlink` cell
    numberCell: string,    // text of the `rn_nummer` box
    profileHref: string,   // `href` of the row's first link
    valueCell: string,     // text of the `rechts hauptlink` cell
    positionCell: string,  // text of the cell whose text starts with a newline
    flagTitle: string      // `title` of the `flaggenrahmen` flag image
  )

  /** One output line: the ten columns of the CSV file, in column order. */
  datatype PlayerRecord = PlayerRecord(
    club: string,
    clubUrl: string,
    schedule: string,
    playerNumber: string,
    player: string,
    playerUrl: string,
    nationality: string,
    positionTm: string,
    positionSwos: SwosPosition,
    marketValueTm: string
  )

  /** A squad page as the HTML layer hands it over: the page heading and the
      `odd`/`even` rows of the `items` table, in page order. */
  datatype ClubPage = ClubPage(heading: string, rows: seq<RawRow>)

  /** Profile links are made absolute against this host (without `www.`). */
  const ProfileHost: string := "https://transfermarkt.com"

  /** The path word of a club overview page, and of its fixtures page. */
  const OverviewWord: string := "startseite"
  const FixturesWord: string := "spielplan"

  const SeasonInfix: string := "/saison_id/"

  /** The fixtures URL of a club for the season starting in `year`: every
      `startseite` in the club URL becomes `spielplan`, then the season is
      appended. */
  function ScheduleUrl(clubUrl: string, year: nat): (r: string)
    ensures |r| >= |SeasonInfix + NatToString(year)|
    ensures r[|r| - |SeasonInfix + NatToString(year)|..] == SeasonInfix + NatToString(year)
  {
    Replace(clubUrl, OverviewWord, FixturesWord) + SeasonInfix + NatToString(year)
  }

  /** A club URL without `startseite` is kept whole in front of the season. */
  lemma ScheduleUrlWithoutOverview(clubUrl: string, year: nat)
    requires !Occurs(clubUrl, OverviewWord)
    ensures ScheduleUrl(clubUrl, year) == clubUrl + SeasonInfix + NatToString(year)
  {
    ReplaceAbsent(clubUrl, OverviewWord, FixturesWord);
  }

  /** A club URL with exactly one `startseite` gets exactly that word
      swapped, everything around it kept. */
  lemma ScheduleUrlSwapsOverview(pre: string, post: string, year: nat)
    requires forall j :: 0 <= j < |pre| ==> !OccursAt(pre + OverviewWord + post, OverviewWord, j)
    requires !Occurs(post, OverviewWord)
    ensures ScheduleUrl(pre + OverviewWord + post, year)
              == pre + FixturesWord + post + SeasonInfix + NatToString(year)
  {
    ReplaceAtFirst(pre, post, OverviewWord, FixturesWord);
    ReplaceAbsent(post, OverviewWord, FixturesWord);
  }

  /** `extract_player_data`: the cells are stripped and copied, the profile
      link is made absolute, the flag title is copied as is, and the only
      derived values are the SWOS position (from the stripped position text)
      and the fixtures URL (from the club URL). */
  function ExtractPlayerData(row: RawRow, clubName: string, clubUrl: string, year: nat): (r: PlayerRecord)
    ensures r.club == clubName && r.clubUrl == clubUrl
    ensures r.player == Strip(row.nameCell) && r.playerNumber == Strip(row.numberCell)
    ensures r.marketValueTm == Strip(row.valueCell) && r.positionTm == Strip(row.positionCell)
    ensures r.positionSwos == Normalise(Strip(row.positionCell))
    ensures r.schedule == ScheduleUrl(clubUrl, year)
    ensures r.nationality == row.flagTitle
    ensures r.playerUrl == ProfileHost + row.profileHref
    ensures IsStripped(r.player) && IsStripped(r.playerNumber)
    ensures IsStripped(r.positionTm) && IsStripped(r.marketValueTm)
  {
    var positionTm := Strip(row.positionCell);
    PlayerRecord(
      club := clubName,
      clubUrl := clubUrl,
      schedule := ScheduleUrl(clubUrl, year),
      playerNumber := Strip(row.numberCell),
      player := Strip(row.nameCell),
      playerUrl := ProfileHost + row.profileHref,
      nationality := row.flagTitle,
      positionTm := positionTm,
      positionSwos := Normalise(positionTm),
      marketValueTm := Strip(row.valueCell)
    )
  }

  /** Cells that carry no white space at either end reach the record exactly
      as they were: apart from `Position SWOS` and `Schedule`, nothing is
      rewritten. */
  lemma CleanCellsPassThrough(row: RawRow, clubName: string, clubUrl: string, year: nat)
    requires IsStripped(row.nameCell) && IsStripped(row.numberCell) && IsStripped(row.valueCell)
    ensures var r := ExtractPlayerData(row, clubName, clubUrl, year);
            && r.player == row.nameCell
            && r.playerNumber == row.numberCell
            && r.marketValueTm == row.valueCell
  {
    StripFixedPoint(row.nameCell);
    StripFixedPoint(row.numberCell);
    StripFixedPoint(row.valueCell);
  }

  /** The position cell the scraper picks starts with a line break, so its
      text is the position name framed by white space: `Position TM` is then
      that name and `Position SWOS` its table code. */
  lemma PaddedPositionCell(row: RawRow, clubName: string, clubUrl: string, year: nat,
                           pre: string, name: string, post: string)
    requires row.positionCell == pre + name + post
    requires AllSpace(pre) && AllSpace(post) && IsStripped(name)
    ensures var r := ExtractPlayerData(row, clubName, clubUrl, year);
            && r.positionTm == name
            && r.positionSwos == Normalise(name)
  {
    StripPadded(pre, name, post);
  }

  /** A goalkeeper's position cell as it appears on the page. */
  lemma GoalkeeperCell(row: RawRow, clubName: string, clubUrl: string, year: nat)
    requires row.positionCell == "\n" + "Goalkeeper" + "\n"
    ensures ExtractPlayerData(row, clubName, clubUrl, year).positionSwos == G
  {
    PaddedPositionCell(row, clubName, clubUrl, year, "\n", "Goalkeeper", "\n");
  }

  /** The club a row is read for affects only the club columns and the
      fixtures URL; the player columns come from the row alone. */
  lemma ClubContextOnlyTouchesClubColumns(row: RawRow, name1: string, url1: string,
                                          name2: string, url2: string, year: nat)
    ensures var r1 := ExtractPlayerData(row, name1, url1, year);
            var r2 := ExtractPlayerData(row, name2, url2, year);
            r1.(club := name2, clubUrl := url2, schedule := ScheduleUrl(url2, year)) == r2
  {
  }

  /** Two rows that differ only in their position cell give records that
      differ only in `Position TM` and `Position SWOS`. */
  lemma PositionCellOnlyTouchesPositionColumns(row: RawRow, cell: string,
                                               clubName: string, clubUrl: string, year: nat)
    ensures var r1 := ExtractPlayerData(row, clubName, clubUrl, year);
            var r2 := ExtractPlayerData(row.(positionCell := cell), clubName, clubUrl, year);
            && r1.(positionTm := r2.positionTm, positionSwos := r2.positionSwos) == r2
            && (Strip(cell) == Strip(row.positionCell) ==> r1 == r2)
  {
  }

  /** How the rows of one club page are read: each with the stripped page
      heading as club name. */
  function RowReader(heading: string, clubUrl: string, year: nat): RawRow -> PlayerRecord {
    row => ExtractPlayerData(row, Strip(heading), clubUrl, year)
  }

  /** `scrape_club_players` applied to an already fetched page: one record
      per row, in row order, every one carrying the stripped page heading
      and the club's URLs. */
  function ClubPlayers(page: ClubPage, clubUrl: string, year: nat): (players: seq<PlayerRecord>)
    ensures |players| == |page.rows|
    ensures forall r :: r in players ==>
              r.club == Strip(page.heading) && r.clubUrl == clubUrl && r.schedule == ScheduleUrl(clubUrl, year)
  {
    RowsKeepClub(page, clubUrl, year);
    Sequences.Map(RowReader(page.heading, clubUrl, year), page.rows)
  }

  /** Every record read from a club page carries the stripped page heading
      as club name, the club URL, and the fixtures URL made from it. */
  lemma RowsKeepClub(page: ClubPage, clubUrl: string, year: nat)
    ensures forall r :: r in Sequences.Map(RowReader(page.heading, clubUrl, year), page.rows) ==>
              r.club == Strip(page.heading) && r.clubUrl == clubUrl && r.schedule == ScheduleUrl(clubUrl, year)
  {
    forall r | r in Sequences.Map(RowReader(page.heading, clubUrl, year), page.rows)
      ensures r.club == Strip(page.heading) && r.clubUrl == clubUrl && r.schedule == ScheduleUrl(clubUrl, year)
    {
      Sequences.MapMembers(RowReader(page.heading, clubUrl, year), page.rows, r);
    }
  }

  /** Row by row: record `i` is the record of row `i`. */
  lemma ClubPlayersAt(page: ClubPage, clubUrl: string, year: nat, i: nat)
    requires i < |page.rows|
    ensures ClubPlayers(page, clubUrl, year)[i]
              == ExtractPlayerData(page.rows[i], Strip(page.heading), clubUrl, year)
  {
    Sequences.MapAt(RowReader(page.heading, clubUrl, year), page.rows, i);
  }

  /** Row order is kept: the rows of two table halves give the records of
      the first half followed by those of the second. */
  lemma ClubPlayersAppend(heading: string, a: seq<RawRow>, b: seq<RawRow>, clubUrl: string, year: nat)
    ensures ClubPlayers(ClubPage(heading, a + b), clubUrl, year)
              == ClubPlayers(ClubPage(heading, a), clubUrl, year)
                 + ClubPlayers(ClubPage(heading, b), clubUrl, year)
  {
    Sequences.MapAppend(RowReader(heading, clubUrl, year), a, b);
  }

  /** The squad loop of `scrape_club_players`: one record per row, appended
      in row order. */
  method ScrapeClubPlayers(page: ClubPage, clubUrl: string, year: nat) returns (players: seq<PlayerRecord>)
    ensures players == ClubPlayers(page, clubUrl, year)
  {
    players := Sequences.MapInOrder(page.rows, RowReader(page.heading, clubUrl, year));
  }
}
