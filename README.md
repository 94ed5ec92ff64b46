# Golden Raspberry producer intervals, in Dafny

This project models the two pieces of the awards API that contain real logic.

- **`AwardsService.getProducersAwardIntervals`** groups the winning movies' years by producer. It splits each credit string on commas and on a spaced `and`. It then lists the gap between every pair of consecutive wins of each producer, and returns every gap equal to the smallest one and every gap equal to the largest one.
- **`CsvImportService.importMoviesFromCsv`** turns the records of a semicolon-delimited movie list into `Movie` records. It skips the header and short records, parses the year, reads the winner flag, and aborts on a bad year.

Modules:

- `Outcomes`: the `Option` and `Result` types. `None` and `Err` stand for the Java exceptions.
- `Entities`: `Movie`, `ProducerInterval` and `AwardIntervalResponse` as datatypes.
- `JavaText`: the library behaviour the core relies on:
  - `String.trim`;
  - the regex class `\s`;
  - `Integer.parseInt` and `Integer.toString`;
  - `equalsIgnoreCase` against an ASCII literal;
  - 32-bit wrap-around of `int` subtraction.
- `CreditParser`: `split(",|\\s+and\\s+")`, including Java's leftmost, greedy regex match and its `String.split` rules, followed by trimming and dropping blank names.
- `YearSort`: `stream().sorted()` on a list of years.
- `AwardsService`:
  - the grouping loop (`GroupWins`);
  - the interval loops (`AppendGaps`, `CollectIntervals`);
  - the selection of the extremes (`SelectExtremes`);
  - the whole operation (`GetProducersAwardIntervals`).
  The repository query becomes the input sequence `winners`. `HashMap` iteration order is unspecified, so `CollectIntervals` visits the producers in an arbitrary order. Its result is specified producer by producer (`IsIntervalList`), and the response is specified as the extremes of some such list.
- `AwardsProperties`: what the result means, and the integration test's expectation.
- `CsvImport`:
  - `split(";", -1)` and the per-record conversion (`ConvertRow`);
  - the import loop (`ImportMoviesFromCsv`), proved against the function `ImportRows`.

Facts of the code the model states:

- The winner flag is read with `equalsIgnoreCase("yes")`. That also accepts `yeſ`, because U+017F upper-cases to `S`. `YesSpellings` lists every accepted spelling.
- Every record is converted before any movie is handed to the store, so a bad year saves nothing.
- The repository query orders the winners by year, but the code sorts each producer's years itself. The model assumes no order.

## Model

| member | source | states |
|---|---|---|
| JavaText.TrimIsTrimmed | src/main/java/com/awards/service/AwardsService.java:29 | `trim` leaves no char at or below U+0020 at either end, never lengthens, and yields "" exactly for blank text |
| JavaText.TrimFixedPoints | src/main/java/com/awards/service/AwardsService.java:29 | `trim` changes a string exactly when it has such a char at an end |
| JavaText.TrimPadded | src/main/java/com/awards/service/CsvImportService.java:55-59 | blank padding on either side of a string does not change its trimmed value |
| JavaText.ParseInt | src/main/java/com/awards/service/CsvImportService.java:55 | a successful parse comes from an optional `-` or `+` followed by ASCII digits, is in int range, and is non-negative unless the text starts with `-` |
| JavaText.ParseIntRefuses | src/main/java/com/awards/service/CsvImportService.java:55 | `parseInt` refuses a text with a non-digit anywhere except as the leading sign of a longer text |
| JavaText.ParseIntNumeral | src/main/java/com/awards/service/CsvImportService.java:55 | every numeral (an optional `+` or `-`, any number of leading zeros, then the decimal digits of n) parses to its signed value when that is in int range, and is refused otherwise |
| JavaText.ParseIntToString | src/main/java/com/awards/service/CsvImportService.java:55 | `parseInt` gives back every int-range value from its decimal numeral and refuses the numeral of every value outside the range |
| JavaText.YesSpellings | src/main/java/com/awards/service/CsvImportService.java:59 | `equalsIgnoreCase("yes")` accepts exactly the three-char texts y/Y, e/E, s/S/ſ, and nothing else |
| JavaText.Int32Wrap | src/main/java/com/awards/service/AwardsService.java:47 | an int subtraction yields the int-range value congruent to the true difference mod 2^32, and the true difference whenever that is in range |
| CreditParser.SpaceRunIsLongest | src/main/java/com/awards/service/AwardsService.java:27 | the greedy `\s+` run consists of spaces and stops at the end or at a non-space |
| CreditParser.MatchAtIsLongestSeparator | src/main/java/com/awards/service/AwardsService.java:27 | the match found at a position is a word of `,` or `\s+and\s+`, and no longer prefix there is one |
| CreditParser.ProducerNamesWellFormed | src/main/java/com/awards/service/AwardsService.java:27-30 | every name taken from a credit string is non-empty and trimmed |
| CreditParser.NoSeparatorYieldsTrimmed | src/main/java/com/awards/service/AwardsService.java:27-30 | a credit with no separator names its trimmed text, or nobody when it is blank |
| CreditParser.CommaSeparates | src/main/java/com/awards/service/AwardsService.java:27-30 | the names of `a,b` are the names of `a` followed by those of `b`, for any `a` and `b` |
| CreditParser.AndSeparates | src/main/java/com/awards/service/AwardsService.java:27-30 | the names of `a and b` are those of `a` then those of `b`, for trimmed `a`, `b` where `a` does not end in a spaced `and` |
| CreditParser.NamesJoin | src/main/java/com/awards/service/AwardsService.java:27-30 | a separator matched exactly at the join of `a` and `b`, with `a`'s own matches unchanged, makes the names the concatenation of both sides' names |
| CreditParser.SplitJoinRoundTrip | src/main/java/com/awards/service/AwardsService.java:27-30 | splitting comma-joined plain names gives back the same names in the same order |
| CreditParser.PlainName | src/main/java/com/awards/service/AwardsService.java:27-30 | a trimmed, non-empty text in which no position starts a separator match is exactly one producer |
| CreditParser.SpaceLedNoSeparator | src/main/java/com/awards/service/AwardsService.java:27 | a space followed by such a name holds a separator match exactly when the name opens with `and` and a space |
| CreditParser.TwoNamesByCommaSpace | src/main/java/com/awards/service/AwardsService.java:27-30 | `A, B` names A and then B, for such names A and B, unless B opens with `and` and a space |
| CreditParser.TwoNamesByAnd | src/main/java/com/awards/service/AwardsService.java:27-30 | `A and B` names A and then B, for such names A and B, unless A ends in a spaced `and` |
| CreditParser.ExampleComma | src/main/java/com/awards/service/AwardsService.java:27-30 | "Joel Silver, Bruce Berman" names Joel Silver and Bruce Berman |
| CreditParser.ExampleAnd | src/main/java/com/awards/service/AwardsService.java:27-30 | "Joel Silver and Bruce Berman" names Joel Silver and Bruce Berman |
| CreditParser.ExampleUpperCaseAnd | src/main/java/com/awards/service/AwardsService.java:27 | the `and` separator is case-sensitive: "Joel AND Bruce" is one name |
| YearSort.SortYearsSortsAndPermutes | src/main/java/com/awards/service/AwardsService.java:41 | the sorted years are ascending and the same multiset as the input, duplicates included |
| YearSort.SortedUnique | src/main/java/com/awards/service/AwardsService.java:41 | two ascending lists with the same elements are equal, so the sorted list is unique |
| YearSort.SortYearsIgnoresOrder | src/main/java/com/awards/service/AwardsService.java:41 | the sorted years depend only on which years were recorded, not on the order they were added |
| YearSort.RepeatedYearIsAdjacent | src/main/java/com/awards/service/AwardsService.java:41 | a year recorded twice occupies two adjacent places after sorting |
| AwardsService.GroupWins | src/main/java/com/awards/service/AwardsService.java:23-34 | the map has a key exactly for each producer with at least one win, and holds that producer's win years, one per credit, in winner order |
| AwardsService.AppendGaps | src/main/java/com/awards/service/AwardsService.java:43-50 | the loop appends one interval per pair of adjacent sorted years, and nothing for fewer than two years |
| AwardsService.CollectIntervals | src/main/java/com/awards/service/AwardsService.java:36-51 | whatever order the map is visited in, each producer's intervals in the list are exactly the gaps of its sorted win years |
| AwardsService.GetProducersAwardIntervals | src/main/java/com/awards/service/AwardsService.java:21-71 | the response is the extremes of a list holding exactly each producer's consecutive-win intervals |
| AwardsService.MinIntervalIsLeast | src/main/java/com/awards/service/AwardsService.java:58 | the minimum is attained by an interval and no interval is smaller |
| AwardsService.MaxIntervalIsGreatest | src/main/java/com/awards/service/AwardsService.java:59 | the maximum is attained by an interval and no interval is larger |
| AwardsService.WithIntervalCount | src/main/java/com/awards/service/AwardsService.java:62-68 | the filter keeps every occurrence of each interval with the wanted value and drops all others |
| AwardsService.SelectExtremesSpec | src/main/java/com/awards/service/AwardsService.java:53-70 | both lists are empty exactly when there are no intervals; otherwise min holds every interval equal to the least and max every interval equal to the greatest, ties included |
| AwardsService.SelectExtremesIgnoresOrder | src/main/java/com/awards/service/AwardsService.java:53-70 | reordering the interval list changes the two response lists only in order |
| AwardsProperties.CountPositive | src/main/java/com/awards/service/AwardsService.java:30-31 | a credit adds a win year for a producer exactly when it names that producer |
| AwardsProperties.YearsOfMembers | src/main/java/com/awards/service/AwardsService.java:26-34 | a year is among a producer's win years exactly when some winner of that year credits the producer |
| AwardsProperties.YearsByAppend | src/main/java/com/awards/service/AwardsService.java:26-34 | the win years of two lists of winners read in turn are the years of the first list followed by those of the second |
| AwardsProperties.YearsByIgnoresOrder | src/main/java/com/awards/service/AwardsService.java:22-34 | reordering the winners changes each producer's win years only in order |
| AwardsProperties.GapOfSorted | src/main/java/com/awards/service/AwardsService.java:44-48 | a gap of a sorted year list joins two of its years, earlier first, with no year strictly between, and carries their wrapped difference |
| AwardsProperties.IntervalsAreConsecutiveWins | src/main/java/com/awards/service/AwardsService.java:39-51 | a producer with k >= 2 wins has k - 1 intervals and one with fewer has none; each joins two win years with no win between, and equals their difference when the years are in 0..2^31-1 |
| AwardsProperties.IntervalsJoinSortedNeighbours | src/main/java/com/awards/service/AwardsService.java:41-48 | interval i of a producer joins the i-th and (i+1)-th of its win years in ascending order and carries their wrapped difference |
| AwardsProperties.IntervalListCounts | src/main/java/com/awards/service/AwardsService.java:36-51 | each interval occurs in the list exactly as often as in its producer's own intervals |
| AwardsProperties.IntervalListsAgree | src/main/java/com/awards/service/AwardsService.java:39-51 | any two visiting orders of the map produce the same intervals, up to order |
| AwardsProperties.EmptyResponse | src/main/java/com/awards/service/AwardsService.java:53-55 | the response is empty exactly when no producer has two wins |
| AwardsProperties.ResponseIgnoresOrder | src/main/java/com/awards/service/AwardsService.java:21-71 | reordering the winners changes the response only in the order of each list |
| AwardsProperties.RepeatedYearGivesZeroInterval | src/main/java/com/awards/service/AwardsService.java:41-48 | a producer credited twice in one year gets an interval of 0 from that year to itself |
| AwardsProperties.SameYearWinnersGiveZeroInterval | src/main/java/com/awards/service/AwardsService.java:26-48 | two winners of one year that both credit a producer give that producer an interval of 0 |
| AwardsProperties.SingleCredits | src/main/java/com/awards/service/AwardsService.java:27-30 | "Buzz Feitshans" and "Joel Silver" each credit exactly that one producer |
| AwardsProperties.SharedCredit | src/main/java/com/awards/service/AwardsService.java:27-30 | "Steven Perry and Joel Silver" credits Steven Perry and then Joel Silver |
| AwardsProperties.ScenarioIntervals | src/main/java/com/awards/service/AwardsService.java:26-51 | the four scenario winners yield exactly the intervals Joel Silver 1990-1991 and Buzz Feitshans 1985-1994 |
| AwardsProperties.ExtremesOfTwo | src/main/java/com/awards/service/AwardsService.java:53-70 | with two intervals of different length, in any order, min holds the shorter alone and max the longer alone |
| AwardsProperties.IntegrationTestScenario | src/test/java/com/awards/integration/AwardsControllerIntegrationTest.java:22-35 | min is Joel Silver with interval 1 (1990 to 1991) and max is Buzz Feitshans with interval 9 (1985 to 1994), whatever the map order |
| CsvImport.SplitFields | src/main/java/com/awards/service/CsvImportService.java:51 | the split yields at least one field, and no field contains `;` |
| CsvImport.JoinSplitFields | src/main/java/com/awards/service/CsvImportService.java:51 | joining the fields with `;` gives back the record, so no text is lost, including empty trailing fields |
| CsvImport.SplitJoinFields | src/main/java/com/awards/service/CsvImportService.java:51 | splitting `;`-joined fields gives back the same fields, including empty ones |
| CsvImport.FieldCount | src/main/java/com/awards/service/CsvImportService.java:51 | a record has one field more than it has semicolons |
| CsvImport.TrailingSeparatorKeepsEmptyField | src/main/java/com/awards/service/CsvImportService.java:51 | a trailing `;` adds an empty last field, so `1980;T;S;P;` has five fields |
| CsvImport.ConvertRow | src/main/java/com/awards/service/CsvImportService.java:51-60 | an accepted record's year is an int and its title, studios and producers are trimmed; a rejected record carries trimmed year text that `parseInt` refuses |
| CsvImport.SkipIffFewSeparators | src/main/java/com/awards/service/CsvImportService.java:53 | a record is skipped, without error, exactly when it holds fewer than three semicolons |
| CsvImport.ConvertFields | src/main/java/com/awards/service/CsvImportService.java:53-60 | four or more fields give either a rejected year, when the trimmed first field does not parse, or the movie of the parsed year and trimmed fields 1-3, which won exactly when a fifth field trims to y/Y e/E s/S/ſ |
| CsvImport.ExtraFieldsIgnored | src/main/java/com/awards/service/CsvImportService.java:59 | fields after the fifth never change what a record turns into |
| CsvImport.MovieRowRoundTrip | src/main/java/com/awards/service/CsvImportService.java:51-60 | writing a movie (int year; trimmed, semicolon-free texts) as a record and converting it gives back the same movie |
| CsvImport.ImportRowsSpec | src/main/java/com/awards/service/CsvImportService.java:50-63 | the import succeeds exactly when no record has a bad year, and then yields the accepted movies in record order; otherwise it reports the first bad year |
| CsvImport.ErrorPersists | src/main/java/com/awards/service/CsvImportService.java:55 | once a record fails, later records cannot change the outcome |
| CsvImport.AcceptedAppend | src/main/java/com/awards/service/CsvImportService.java:61 | movies are kept in record order: the movies of two runs of records are concatenated |
| CsvImport.AcceptedCount | src/main/java/com/awards/service/CsvImportService.java:61 | there is one movie per accepted record |
| CsvImport.ImportMoviesFromCsv | src/main/java/com/awards/service/CsvImportService.java:44-85 | the first record is never converted; the result is the movies of the remaining records with their count, or the first bad year's error with nothing saved; an empty file imports nothing |

## Left out

- The repository query `findByWinnerTrueOrderByYearAsc` becomes the input `winners`. The model neither filters on the flag nor assumes any order. The response for unsorted input is the same up to the order of each list.
- opencsv's `CSVReader` is a library that cannot be seen here. Each record is modelled as the text of its first column (`line[0]`). Quote handling and the reader's own splitting on commas are not modelled.
- In the import:
  - saving each movie through a thread pool, the five-minute `awaitTermination`, and `shutdownNow` are concurrency and persistence;
  - the transaction and rollback are persistence;
  - the start and end times and the log lines are clock and logging.
  `ImportSummary.saved` is the list handed to the store.
- Bean validation of `@NotBlank`/`@NotNull` when a movie is saved is not modelled. It runs inside the store.
- The store-assigned `id` of a movie is not modelled.
- `Integer.parseInt` also accepts non-ASCII Unicode decimal digits. The model accepts ASCII digits only.
- The import count is an unbounded integer. A list of more than 2^31 - 1 movies cannot arise.
- `equalsIgnoreCase` is modelled only against the ASCII literal `yes`, with Java's per-char case mapping for the chars that fold to ASCII letters.
- The regex engine is not modelled in general. Only the pattern `,|\s+and\s+` is, with Java's default `\s` (no Unicode character class).
- `CsvImportService.java:55` calls `Movie.builder().releaseYear(...)`, while `Movie.java:23` names the field `year` (its column is `releaseYear`). The model reads that call as setting `year`.
- `CSVReader`'s default separator is `,`, so `line[0]` stops at the first unquoted comma of a record. A record whose producers are separated by such a comma loses the rest of its credit and its winner flag. The model takes `line[0]` as given and does not model that cut.
- Controllers, JSON rendering, CRUD endpoints, pagination and start-up seeding are not modelled. They are not part of the core.
- AwardsProperties.IntegrationTestScenario: the test runs against the full movie list the application loads at start-up, which is not part of this model. The lemma proves the expected response for four winners taken from that list, not for the whole file.
- AwardsProperties.IntervalsAreConsecutiveWins: it states that an interval equals `followingWin - previousWin` only when both years lie in 0..2^31-1. Outside that range the model wraps the difference at 32 bits, as Java `int` subtraction does (`JavaText.Int32Wrap`).
