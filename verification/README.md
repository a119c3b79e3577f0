# TMScraper4SWOS in Dafny

TMScraper4SWOS reads the squad tables of one football league on
Transfermarkt and writes one CSV file for Sensible World of Soccer (SWOS).
The CSV has one line per player: the club, the club URL, the club's fixtures URL, shirt
number, name, profile URL, nationality, the Transfermarkt position, the
position translated to a SWOS code, and the market value. This project
models the decision logic of `TMScraper4SWOS.py` and proves properties of it.
The network, the HTML parser and file output are treated as given inputs and
outputs.

Modules, following the program's structure:

- `Positions`: the fixed table from Transfermarkt position names to SWOS
  codes, and its `Unknown` default.
- `Players`: `extract_player_data`, meaning record assembly for one table
  row and the fixtures URL. Also `scrape_club_players`, which builds one
  record per row, in row order.
- `League`: `scrape_transfermarkt`. It covers the league name taken from the
  overview URL, the CSV file name, and the club loop. The loop visits the
  first `number_of_clubs` clubs, skips clubs that fail, and concatenates the
  squads of the rest.
- Python string semantics the scraper relies on, modelled exactly, except
  that `title()` treats only ASCII letters as letters:
  - `Whitespace`: `str.strip()`, with Python's set of white-space characters.
  - `Substrings`: `str.replace`.
  - `Splitting`: `str.split` and `join`.
  - `Casing`: `str.title()`.
  - `Decimal`: rendering the year in base ten.
- Two small helpers: `Wrappers` (`Option`) and `Sequences` (mapping a
  function over a sequence, and the loop that does it).

Inputs from the outside world are parameters:

- Each table row is a `Players.RawRow` holding the cell texts the HTML layer
  found.
- A club page is a `Players.ClubPage`: its heading and its rows.
- The overview page's club links are `Option<seq<string>>`. `None` means the
  page could not be fetched.
- Fetching and reading a squad page is a function
  `string -> Option<ClubPage>`. `None` stands for any exception raised while
  scraping that club.
- The current year is a `nat` parameter.

## Model

| member | source | states |
|---|---|---|
| Positions.Normalise | TMScraper4SWOS.py:64-80 | Defined for every text. Each code has exactly its table names as preimage: `G` only from `Goalkeeper`, `M` exactly from the five midfield names, and so on. Every text not among the twelve keys gives `Unknown`. |
| Positions.TableShape | TMScraper4SWOS.py:64-69 | The table never produces `Unknown`, and each of the eight real codes is produced by some name. |
| Positions.Code | TMScraper4SWOS.py:65-80 | The text written into `Position SWOS` is `Unknown` exactly for the position off the table, and one or two letters for every other position. |
| Positions.CodeInjective | TMScraper4SWOS.py:65-68 | The nine texts written into `Position SWOS` are distinct, so the column never confuses two positions. |
| Players.ExtractPlayerData | TMScraper4SWOS.py:49-82 | `Club` and `Club URL` are the given club values. `Nationality` is the flag title unchanged. `Player URL` is the profile host followed by the link. `Player`, `Player Number`, `Market Value TM` and `Position TM` are the stripped cells, so none has white space at either end. `Position SWOS` is the table code of the stripped position cell. `Schedule` is the fixtures URL of the club URL. |
| Players.CleanCellsPassThrough | TMScraper4SWOS.py:53-56 | Name, number and value cells with no surrounding white space reach `Player`, `Player Number` and `Market Value TM` exactly as they were. |
| Players.PaddedPositionCell | TMScraper4SWOS.py:59-80 | A position cell made of a position name framed by white space, as the `^\n` cell is, gives that name as `Position TM` and its table code as `Position SWOS`. |
| Players.GoalkeeperCell | TMScraper4SWOS.py:59-80 | The cell `"\nGoalkeeper\n"` gives `Position SWOS` `G`. |
| Players.ClubContextOnlyTouchesClubColumns | TMScraper4SWOS.py:71-74 | The same row read for another club differs only in `Club`, `Club URL` and `Schedule`. |
| Players.PositionCellOnlyTouchesPositionColumns | TMScraper4SWOS.py:60-80 | Changing a row's position cell changes only `Position TM` and `Position SWOS`. Cells equal after stripping give equal records. |
| Players.ScheduleUrl | TMScraper4SWOS.py:74 | The fixtures URL always ends in `/saison_id/` followed by the year's decimal numeral. |
| Players.ScheduleUrlWithoutOverview | TMScraper4SWOS.py:74 | A club URL without `startseite` stands unchanged in front of `/saison_id/<year>`. |
| Players.ScheduleUrlSwapsOverview | TMScraper4SWOS.py:74 | A club URL with one `startseite` has exactly that word turned into `spielplan`, and everything around it is kept. |
| Players.ClubPlayers | TMScraper4SWOS.py:93-102 | One record per squad row. Every record carries the stripped page heading as club, the club URL, and that club's fixtures URL. |
| Players.RowsKeepClub | TMScraper4SWOS.py:93-100 | Every record read from a club page carries that page's stripped heading, the club URL and its fixtures URL. |
| Players.ClubPlayersAt | TMScraper4SWOS.py:98-100 | Record `i` of a club is the record of row `i`, read with the stripped page heading as club name. |
| Players.ScrapeClubPlayers | TMScraper4SWOS.py:93-102 | The row loop, which appends one record per row, builds exactly the club's squad as read row by row. |
| Players.ClubPlayersAppend | TMScraper4SWOS.py:98-100 | Row order is kept: the records of two row blocks are those of the first block followed by those of the second. |
| League.LeagueName | TMScraper4SWOS.py:139 | A league name exists exactly when the URL has at least four `/`-separated pieces; otherwise Python raises `IndexError`. The name contains no `-` and no `/`. |
| League.CsvFileName | TMScraper4SWOS.py:161 | The file name ends in `_players_data.csv`, contains no space, and is as long as the league name plus the suffix. |
| League.CsvFileNameRecoversLeague | TMScraper4SWOS.py:161 | For a dash-free league name, turning the stem's dashes back into spaces gives the name. |
| League.CsvFileNameInjective | TMScraper4SWOS.py:161 | Different dash-free league names never share a file name. Every `LeagueName` result is dash-free; names with dashes can collide, as `A B` and `A-B` do. |
| League.CsvFileNameOfSlug | TMScraper4SWOS.py:139-161 | For a slug without spaces, the file stem is the title-cased slug itself. |
| League.DefaultSlug | TMScraper4SWOS.py:116 | The default overview URL has at least four pieces, and its fourth is `premier-league`. |
| League.DefaultLeague | TMScraper4SWOS.py:116-139 | The default overview URL gives the league name `Premier League`. |
| League.DefaultCsvFileName | TMScraper4SWOS.py:161 | The league name `Premier League` gives the file `Premier-League_players_data.csv`. |
| League.PrefixSlice | TMScraper4SWOS.py:149 | `clubs_list[:n]` is a prefix of the list. Its length is `min(n, len)` for `n >= 0`, and the list minus its last `-n` elements for negative `n`. |
| League.ClubOutcome | TMScraper4SWOS.py:150-157 | A club's outcome fails exactly when scraping its absolute URL (base URL plus link) fails. Otherwise it is one record per squad row, each carrying that absolute URL. |
| League.ConcatSuccesses | TMScraper4SWOS.py:147-157 | The output built by `extend` is empty when every club failed, and every successful club's squad fits in it. |
| League.ConcatSuccessesAppend | TMScraper4SWOS.py:147-157 | The output for two runs of clubs is the output of the first run followed by that of the second. |
| League.ConcatSuccessesAround | TMScraper4SWOS.py:153-157 | A failed club contributes nothing and leaves the others' records and their order unchanged. A successful club contributes exactly its squad, in place. |
| League.ConcatSuccessesMembers | TMScraper4SWOS.py:149-157 | A record is in the output exactly when it is in the squad of some successfully scraped club. |
| League.ScrapeTransfermarkt | TMScraper4SWOS.py:129-163 | The run saves a file exactly when the league name exists and the overview page was read. The file is named after the league. Its rows are the in-order concatenation of the successful squads among the first `number_of_clubs` clubs. |
| League.SavedRecordsComeFromVisitedClubs | TMScraper4SWOS.py:149-154 | Every saved record's club URL is the base URL plus a visited club link, and its fixtures URL is derived from that club URL. |
| Whitespace.Strip | TMScraper4SWOS.py:53-60 | `strip()` leaves no white space at either end and never lengthens the text. |
| Whitespace.StripFramed | TMScraper4SWOS.py:53-60 | The result is a contiguous piece of the input with only white space around it. |
| Whitespace.StripPadded | TMScraper4SWOS.py:53-60 | A text without white space at its ends, padded with white space on both sides, strips to exactly that text. |
| Whitespace.StripFixedPoint | TMScraper4SWOS.py:53-60 | A text is unchanged by `strip()` exactly when it has no white space at either end, and stripping twice equals stripping once. |
| Substrings.Replace | TMScraper4SWOS.py:74 | Replacing by an equally long text keeps the length. |
| Substrings.ReplaceAbsent | TMScraper4SWOS.py:74 | A text without the pattern is returned unchanged. |
| Substrings.ReplaceAtFirst | TMScraper4SWOS.py:74 | The first occurrence is replaced, and the text before it is kept. |
| Substrings.ReplaceChar | TMScraper4SWOS.py:139 | Replacing one character by one character is the pointwise swap, and the length is kept. |
| Substrings.ReplaceCharRemoves | TMScraper4SWOS.py:161 | After replacing a character by a text without it, no copy of the character is left. |
| Substrings.ReplaceCharUndo | TMScraper4SWOS.py:161 | Swapping `a` for `b` is undone by swapping back, when `b` was absent. |
| Splitting.Split | TMScraper4SWOS.py:139 | A text with k separators splits into k + 1 pieces, none containing the separator. |
| Splitting.JoinSplit | TMScraper4SWOS.py:139 | Joining the pieces of a split gives the text back. |
| Splitting.SplitJoin | TMScraper4SWOS.py:139 | Splitting the join of separator-free pieces gives the pieces back. |
| Casing.Title | TMScraper4SWOS.py:139 | `title()` keeps the length, keeps letters letters, and leaves every non-letter unchanged in place. |
| Casing.TitleFromKeepsUncased | TMScraper4SWOS.py:139 | The left-to-right scan behind `title()` keeps letters letters and non-letters unchanged, whatever precedes the text. |
| Casing.TitlePointwise | TMScraper4SWOS.py:139 | `title()` keeps the length. A letter is upper-cased exactly when the character before it is not a letter, later letters are lower-cased, and non-letters are kept. |
| Decimal.NatToString | TMScraper4SWOS.py:74 | The year's numeral is non-empty, all digits, and has no leading zero. |
| Decimal.ValueOfNatToString | TMScraper4SWOS.py:74 | Reading the numeral back gives the year. |
| Sequences.Map | TMScraper4SWOS.py:98-100 | Mapping keeps the number of elements. |
| Sequences.MapAt | TMScraper4SWOS.py:98-100 | Element `i` of the result is the image of element `i`. |
| Sequences.MapAppend | TMScraper4SWOS.py:98-100 | Mapping a concatenation gives the two mapped parts in their order. |
| Sequences.MapMembers | TMScraper4SWOS.py:98-100 | Every element of the result is the image of some input element. |
| Sequences.MapInOrder | TMScraper4SWOS.py:98-100 | The append loop, starting empty, builds exactly the mapped sequence. |

## Left out

- Network access (`get_html`, `requests`) is not modelled.
  - A failed squad page is the `None` of the fetch parameter.
  - A failed overview page is a `None` listing, which ends the run without a file.
- HTML selection with BeautifulSoup is not modelled.
  - The cell texts, the link and the flag title of a row are inputs.
  - So are the page heading, the row list and the club links.
  - A missing element makes `extract_player_data` raise, and that aborts the whole club. The fetch parameter's `None` covers this.
- A club cell without a link makes line 150 raise outside the `try`, which ends the program. This is not modelled: the club links are given as strings.
- `href` and `title` attributes that are absent (`None` in Python) are not modelled. All attributes are strings.
- Command-line parsing is not modelled. `clubs_url` and `number_of_clubs` are parameters. The default URL appears as `League.DefaultClubsUrl`, built from its `/`-separated pieces.
- Writing the CSV with pandas is not modelled. The run's result is the file name plus the records in order.
- `print` and `time.sleep` are not modelled, because they have no effect on the data.
- `datetime.now().year` is a `nat` parameter, and a real year is never negative.
- League.ScrapeTransfermarkt reads the clock once per run. The source reads `datetime.now()` once per record (line 74, called for every row at line 99).
  - So a run that crosses New Year can give records, even those of one club, two different `Schedule` years.
  - Players.ClubPlayers, Players.RowsKeepClub and League.SavedRecordsComeFromVisitedClubs state one fixtures URL per club. They rely on this single year.
- League.ScrapeTransfermarkt takes `fetch` as a function of the URL, so two visits of the same club link have the same outcome. The source fetches again on every visit (line 154), and one visit can fail while another succeeds. A listing that names the same club twice is not modelled beyond this.
- Casing.Title and Casing.TitlePointwise: only the ASCII letters `A`–`Z` and `a`–`z` count as cased. Python's `title()` also changes other Unicode letters. The league slugs in Transfermarkt URLs are ASCII.
- Market-value parsing and bucketing, nationality translation and season statistics are not modelled. `TMScraper4SWOS.py` does none of them: the market value is only stripped, and the nationality is copied unchanged.
- A player whose row cannot be read does not cost only that player's record: the exception leaves `scrape_club_players` and the whole club is skipped. The model follows the code here.
