# HdfsWaitJob and HtmlUtil, modelled in Dafny

This project models two small pieces of the LinkedIn Hadoop plugin repository:

- **`HdfsWaitJob`**, a Hadoop job that waits for a fresh folder. It reads three
  duration properties (`freshness`, `timeout` and `sleepInterval`, written like
  `"17M 1D 5S 2H"`), the directory to watch, and `forceJobToFail`. It then lists
  the directory again and again until some sub-directory was modified within
  `freshness` milliseconds of the current time, sleeping `sleepInterval` between
  polls. When `timeout` has passed without a find, it returns normally, or throws
  if `forceJobToFail` is `"true"`.
- **`HtmlUtil.toText`**, which turns an HTML message into plain text. It handles
  `null`, then applies five literal replace-alls in order: `<br/>`, `<ul>`,
  `</ul>`, `<li>` and `</li>`.

Files:

- `wrappers.dfy` holds the `Option` and `Result` datatypes.
- `durations.dfy` (module `Durations`) models `parseTime`:
  - `Split` is Java's `split("\\s+")`, including its edge cases;
  - `ParseLong` is `Long.valueOf`;
  - `TokenMillis` reads one token;
  - `ParseTime` is the accumulating `for` loop, proved equal to the
    pure function `ParseDuration`.

  Lemmas then show what that function promises:
  - the total is the weighted sum of the tokens; a reordering of the tokens
    fails exactly when the original does, and otherwise gives the same total;
  - zero tokens add nothing, and errors are all-or-nothing;
  - the edge cases hold: empty input, leading whitespace and trailing
    whitespace;
  - the eight values pinned by the job's unit tests come out.
- `hdfs_wait.dfy` (module `HdfsWait`) models `checkDirectory` and `run`:
  - The class `Environment` stands in for the filesystem, the clock and
    `Thread.sleep`. Its clock is a field that every `currentTimeMillis()`
    reading moves forward by an amount the environment chooses. A sleep moves
    the clock forward by its length and is recorded in a log. Each listing
    comes from an oracle indexed by the number of listings taken so far.
  - The class `HdfsWaitJob` has the methods `CheckDirectory` (the scan loop,
    which reads the clock once per directory entry), `ReadConfig` (the opening
    lines of `run`, which parse the properties and read the clock for the
    deadline), `WaitForFreshFolder` (the poll/sleep loop of `run`),
    `Conclude` (that loop followed by the `forceJobToFail` exception) and
    `Run`, which chains `ReadConfig` and `Conclude`.
  - `CheckDirectory` is proved equal to the pure function `Check`, and
    `ReadConfig` to `ReadSettings`. The loop returns a ghost trace of its
    attempts. Attempt k is proved to be `Check` on the k-th listing taken.
    The first attempt starts at the loop's first clock reading. Every later
    one starts where the previous miss, its sleep and the next clock reading
    left the clock. Every attempt but the last found nothing, and the result
    is the last attempt's, or the refused sleep after it. With a negative
    `sleepInterval`, the first miss ends the wait with the `NegativeSleep`
    error. `FoundIsFresh` and `MissesAreStale` then turn a find into a fresh
    directory in the last listing, and a timeout into listings none of which
    held a directory fresh at the clock reading that ended its scan.
- `html_util.dfy` (module `HtmlUtil`) models `toText`:
  - `ToText` takes the line separator as a parameter;
  - `ReplaceAll` is a literal, leftmost, non-overlapping replace-all.

  Lemmas cover:
  - the `null` case, and each of the five tags wherever it stands: the result
    is the conversion of the text before it, the tag's replacement, and the
    conversion of the text after it, so a message with many tags, such as a
    whole `<ul>` list, is converted tag by tag;
  - text without the five tags comes back unchanged;
  - every tag is removed, and the conversion is idempotent, when the separator
    is safe.

Some behaviours of the code are easy to miss, and the model keeps them:

- **Empty or blank input.** One might expect `parseTime` of an empty or
  blank string to be zero. In the code, `"".split("\\s+")` is `[""]`, and
  the empty token then fails at `substring(0, -1)`. So `""` fails
  (`EmptyInputFails`), and so does any input that starts with whitespace and
  holds something else (`LeadingWhitespaceFails`). Whitespace alone splits
  into no tokens and gives zero (`OnlyWhitespaceIsZero`).
- **Signed magnitudes.** The durations in the job's tests are all
  non-negative. `Long.valueOf` also accepts a sign, though, so `"-5S"`
  is -5000 (`SignedMagnitude`), and any rendered amount behind a `-` reads
  back as its negated length in milliseconds (`SignedTokenMillis`).
- **When are tags removed?** The doc comment of `HtmlUtil` promises that tags
  are removed, and that holds for the real line separators. A separator merely
  free of `<` and `>` is not enough, though: with the separator `"br/"`,
  `toText("<<br/>>")` is `"<br/>"` (`AngleFreeSeparatorCanRebuildTag`). The
  removal theorem therefore asks for a non-empty separator that shares no
  character with the tags and holds neither `$` nor `\`, which `replaceAll`
  would not take literally (`SafeSeparator`). `"\n"`, `"\r\n"` and `"\r"`
  all qualify (`LineSeparatorsAreSafe`).

## Model

| member | source | states |
|---|---|---|
| Durations.RawSplit | hadoop-jobs/src/main/java/com/linkedin/hadoop/jobs/HdfsWaitJob.java:108 | the pieces between whitespace runs: at least one piece, none holding whitespace, and a string without whitespace is its own only piece |
| Durations.DropTrailingEmpty | hadoop-jobs/src/main/java/com/linkedin/hadoop/jobs/HdfsWaitJob.java:108 | split with limit 0 keeps a prefix of the pieces, drops only empty pieces, and leaves no empty piece at the end |
| Durations.Split | hadoop-jobs/src/main/java/com/linkedin/hadoop/jobs/HdfsWaitJob.java:108 | no token of `prop.split("\s+")` contains whitespace |
| Durations.RawSplitJoin | hadoop-jobs/src/main/java/com/linkedin/hadoop/jobs/HdfsWaitJob.java:108 | non-empty, whitespace-free words joined by single spaces break back into exactly those words |
| Durations.SplitJoin | hadoop-jobs/src/main/java/com/linkedin/hadoop/jobs/HdfsWaitJob.java:108 | splitting non-empty, whitespace-free words joined by single spaces gives back exactly those words |
| Durations.SplitTrailingSpace | hadoop-jobs/src/main/java/com/linkedin/hadoop/jobs/HdfsWaitJob.java:108 | a trailing whitespace character does not change the tokens of a non-empty string, because split drops trailing empty pieces |
| Durations.RawSplitLeadingEmpty | hadoop-jobs/src/main/java/com/linkedin/hadoop/jobs/HdfsWaitJob.java:108 | input that starts with whitespace breaks into an empty first piece and at least one more |
| Durations.RawSplitWordPiece | hadoop-jobs/src/main/java/com/linkedin/hadoop/jobs/HdfsWaitJob.java:108 | every non-whitespace character of the input is a character of some piece, which is therefore non-empty |
| Durations.RawSplitAllEmpty | hadoop-jobs/src/main/java/com/linkedin/hadoop/jobs/HdfsWaitJob.java:108 | input made only of whitespace breaks into empty pieces only |
| Durations.ParseLong | hadoop-jobs/src/main/java/com/linkedin/hadoop/jobs/HdfsWaitJob.java:112 | `Long.valueOf(s.substring(0, upTo))`: an accepted numeral yields a value in the signed 64-bit range, and it is non-empty and starts with a digit or a sign |
| Durations.DecimalValue | hadoop-jobs/src/main/java/com/linkedin/hadoop/jobs/HdfsWaitJob.java:112 | the digits of the decimal numeral of n read back as n |
| Durations.DigitsValueSamePrefix | hadoop-jobs/src/main/java/com/linkedin/hadoop/jobs/HdfsWaitJob.java:112 | the value of a run of digits depends only on those digits, not on what follows them |
| Durations.TokenMillis | hadoop-jobs/src/main/java/com/linkedin/hadoop/jobs/HdfsWaitJob.java:111-127 | one token fails as an empty token exactly when it is empty (the `substring(0, -1)` failure); a non-empty token whose prefix is no long fails as a bad number, whatever its last character; a prefix that is a long followed by anything but S, M, H or D fails as a bad unit; a token that parses has a long prefix and ends in S, M, H or D |
| Durations.TokenOfMillis | hadoop-jobs/src/main/java/com/linkedin/hadoop/jobs/HdfsWaitJob.java:112-122 | the token written for a magnitude and a unit reads back as the magnitude times the unit's length in milliseconds |
| Durations.MalformedTokens | hadoop-jobs/src/main/java/com/linkedin/hadoop/jobs/HdfsWaitJob.java:112-126 | a bare unit `"S"` is a bad number; a lower-case `"5s"` and an unknown `"3X"` are bad units; in `"xQ"` the bad number is reported before the bad unit |
| Durations.SignedTokenMillis | hadoop-jobs/src/main/java/com/linkedin/hadoop/jobs/HdfsWaitJob.java:112-122 | a rendered amount behind `-` reads back as minus its length in milliseconds, and behind `+` as its length |
| Durations.SignedMagnitude | hadoop-jobs/src/main/java/com/linkedin/hadoop/jobs/HdfsWaitJob.java:112-116 | a signed magnitude is accepted: `"-5S"` is -5000 and `"+5S"` is 5000 |
| Durations.ParseTime | hadoop-jobs/src/main/java/com/linkedin/hadoop/jobs/HdfsWaitJob.java:106-130 | the loop returns `ParseDuration(prop)`, the token total `TokensTotal` of the split input: the error of the first malformed token, or else the sum of all token values |
| Durations.ErrorPrefix | hadoop-jobs/src/main/java/com/linkedin/hadoop/jobs/HdfsWaitJob.java:110-127 | once a prefix of the tokens fails, the whole input fails with that same error |
| Durations.TotalAppend | hadoop-jobs/src/main/java/com/linkedin/hadoop/jobs/HdfsWaitJob.java:107-129 | the total of two token lists read one after the other is the first one's error, else the second one's error, else the sum of both totals |
| Durations.TotalPermutation | hadoop-jobs/src/main/java/com/linkedin/hadoop/jobs/HdfsWaitJob.java:107-129 | any rearrangement of the tokens fails exactly when the original fails, and otherwise gives the same total |
| Durations.ZeroTokenNeutral | hadoop-jobs/src/main/java/com/linkedin/hadoop/jobs/HdfsWaitJob.java:110-128 | inserting a token worth zero milliseconds anywhere leaves the result unchanged |
| Durations.ZeroBlockNeutral | hadoop-jobs/src/main/java/com/linkedin/hadoop/jobs/HdfsWaitJob.java:110-128 | inserting any run of tokens worth zero milliseconds anywhere leaves the result unchanged |
| Durations.TotalOkIffAllTokensOk | hadoop-jobs/src/main/java/com/linkedin/hadoop/jobs/HdfsWaitJob.java:110-128 | parsing succeeds if and only if every token is well formed |
| Durations.FirstBadTokenDecides | hadoop-jobs/src/main/java/com/linkedin/hadoop/jobs/HdfsWaitJob.java:110-127 | the error is exactly that of the first malformed token, and no partial total escapes |
| Durations.ParseRender | hadoop-jobs/src/main/java/com/linkedin/hadoop/jobs/HdfsWaitJob.java:106-130 | amounts written as `"17M 1D 5S 2H"` parse to the weighted sum of magnitude times unit length (S 1000, M 60000, H 3600000, D 86400000) |
| Durations.TrailingSpaceIgnored | hadoop-jobs/src/main/java/com/linkedin/hadoop/jobs/HdfsWaitJob.java:108 | trailing whitespace after a non-empty input does not change the result |
| Durations.EmptyInputFails | hadoop-jobs/src/main/java/com/linkedin/hadoop/jobs/HdfsWaitJob.java:108-112 | the empty string fails with an empty-token error |
| Durations.LeadingWhitespaceFails | hadoop-jobs/src/main/java/com/linkedin/hadoop/jobs/HdfsWaitJob.java:108-112 | every input that starts with whitespace and is not all whitespace fails with an empty-token error (`" 4D"` among them) |
| Durations.OnlyWhitespaceIsZero | hadoop-jobs/src/main/java/com/linkedin/hadoop/jobs/HdfsWaitJob.java:107-110 | every non-empty input made only of whitespace splits into no tokens and gives 0 |
| Durations.SingleTokenValues | hadoop-jobs/src/test/java/com/linkedin/hadoop/jobs/HdfsWaitJobTest.java:144-146 | `"4D"` is 345600000 and `"0H"` is 0 |
| Durations.MinutesSecondsValue | hadoop-jobs/src/test/java/com/linkedin/hadoop/jobs/HdfsWaitJobTest.java:145 | `"3M 2S"` is 182000 |
| Durations.MixedUnitsValue | hadoop-jobs/src/test/java/com/linkedin/hadoop/jobs/HdfsWaitJobTest.java:147 | `"17M 1D 5S 2H"` is 94625000 |
| Durations.ThreeTokenValue | hadoop-jobs/src/test/java/com/linkedin/hadoop/jobs/HdfsWaitJobTest.java:148 | `"4M 0D 16S"` is 256000 |
| Durations.RepeatedUnitValue | hadoop-jobs/src/test/java/com/linkedin/hadoop/jobs/HdfsWaitJobTest.java:149 | `"0M 2M 18M 0M"` is 1200000 |
| Durations.SecondsDaysValue | hadoop-jobs/src/test/java/com/linkedin/hadoop/jobs/HdfsWaitJobTest.java:150 | `"1S 7D"` is 604801000 |
| Durations.MinutesHoursValue | hadoop-jobs/src/test/java/com/linkedin/hadoop/jobs/HdfsWaitJobTest.java:151 | `"99M 84H"` is 308340000 |
| HdfsWait.Environment.CurrentTimeMillis | hadoop-jobs/src/main/java/com/linkedin/hadoop/jobs/HdfsWaitJob.java:161 | a clock reading moves the clock forward by the environment's drift for that reading and returns the new time; nothing else changes |
| HdfsWait.Environment.Sleep | hadoop-jobs/src/main/java/com/linkedin/hadoop/jobs/HdfsWaitJob.java:83 | a negative interval is refused and nothing changes; otherwise the clock advances by the interval and the sleep is logged |
| HdfsWait.Environment.ListStatus | hadoop-jobs/src/main/java/com/linkedin/hadoop/jobs/HdfsWaitJob.java:150 | each listing is the oracle's answer for the number of listings taken so far, and it leaves the clock alone |
| HdfsWait.Scan | hadoop-jobs/src/main/java/com/linkedin/hadoop/jobs/HdfsWaitJob.java:158-169 | the scan never moves the clock back, and it reads the clock at most once per entry |
| HdfsWait.Check | hadoop-jobs/src/main/java/com/linkedin/hadoop/jobs/HdfsWaitJob.java:141-170 | an exception (no filesystem, a null or empty path, a null or failed listing) leaves the clock unread; an answer comes only from a listing, and reads the clock at most once per entry |
| HdfsWait.ScanFoundIff | hadoop-jobs/src/main/java/com/linkedin/hadoop/jobs/HdfsWaitJob.java:158-169 | the scan finds a folder if and only if some directory entry is fresh (`now - mtime <= freshness`) at the last clock reading |
| HdfsWait.ScanReadsEveryDirectory | hadoop-jobs/src/main/java/com/linkedin/hadoop/jobs/HdfsWaitJob.java:158-161 | without a find, the clock was read exactly once per directory entry |
| HdfsWait.ScanStopsAtFind | hadoop-jobs/src/main/java/com/linkedin/hadoop/jobs/HdfsWaitJob.java:158-166 | with a find, the scan returned at the first directory fresh at its own reading: the scan of the entries before it finds nothing, and the clock was read once per directory up to and including it |
| HdfsWait.ScanMonotoneInFreshness | hadoop-jobs/src/main/java/com/linkedin/hadoop/jobs/HdfsWaitJob.java:161 | with the same listing and clock, a find for freshness f is also a find for every larger freshness |
| HdfsWait.ScanIgnoresFiles | hadoop-jobs/src/main/java/com/linkedin/hadoop/jobs/HdfsWaitJob.java:159 | removing a non-directory entry, whatever its age, changes neither the answer nor the clock |
| HdfsWait.ScanNoDirectories | hadoop-jobs/src/main/java/com/linkedin/hadoop/jobs/HdfsWaitJob.java:158-169 | a listing without directories, the empty one included, gives false without reading the clock |
| HdfsWait.ScanFrozenClock | hadoop-jobs/src/main/java/com/linkedin/hadoop/jobs/HdfsWaitJob.java:158-169 | when the clock stands still, the scan is exactly the freshness predicate at that time |
| HdfsWait.ErrorsComeFirst | hadoop-jobs/src/main/java/com/linkedin/hadoop/jobs/HdfsWaitJob.java:144-156 | checkDirectory fails exactly when the filesystem, the path or the listing is missing. It then reads no clock; a null filesystem is reported first, and a null listing as a missing directory |
| HdfsWait.CheckFoundIff | hadoop-jobs/src/main/java/com/linkedin/hadoop/jobs/HdfsWaitJob.java:141-170 | on a listing, checkDirectory returns true if and only if some directory is fresh at its last clock reading |
| HdfsWait.HdfsWaitJob.CheckDirectory | hadoop-jobs/src/main/java/com/linkedin/hadoop/jobs/HdfsWaitJob.java:141-170 | the method's answer and its clock readings are those of `Check` on the next listing; it takes a listing only once the filesystem and a non-empty path are present, and it never sleeps |
| HdfsWait.DurationProperty | hadoop-jobs/src/main/java/com/linkedin/hadoop/jobs/HdfsWaitJob.java:69-72 | `parseTime` of an unset property fails with a null-property error, and a duration property fails with nothing else |
| HdfsWait.BooleanValueOf | hadoop-jobs/src/main/java/com/linkedin/hadoop/jobs/HdfsWaitJob.java:73 | `Boolean.valueOf` is true exactly for a set value that reads "true" ignoring case |
| HdfsWait.BooleanValueOfCases | hadoop-jobs/src/main/java/com/linkedin/hadoop/jobs/HdfsWaitJob.java:73 | `forceJobToFail` counts as true for "true" in any case, and as false when unset, for "yes", "" and "true " |
| HdfsWait.ReadSettings | hadoop-jobs/src/main/java/com/linkedin/hadoop/jobs/HdfsWaitJob.java:68-73 | the settings exist exactly when freshness, timeout and sleepInterval (default "1M") all parse; failOnTimeout is `Boolean.valueOf(forceJobToFail)`; the only errors are null and malformed properties |
| HdfsWait.UnsetDurationFails | hadoop-jobs/src/main/java/com/linkedin/hadoop/jobs/HdfsWaitJob.java:69-70 | an unset `freshness`, or an unset `timeout` after a valid `freshness`, stops the job with a null-property error. Only those two properties can cause that error |
| HdfsWait.DefaultSleepIsOneMinute | hadoop-jobs/src/main/java/com/linkedin/hadoop/jobs/HdfsWaitJob.java:72 | without a `sleepInterval` property, the job sleeps 60000 ms |
| HdfsWait.HdfsWaitJob.ReadConfig | hadoop-jobs/src/main/java/com/linkedin/hadoop/jobs/HdfsWaitJob.java:68-73 | the opening lines of `run` produce `ReadSettings` of the properties; when they succeed the clock was read exactly once and that reading is returned; no listing and no sleep |
| HdfsWait.AttemptsSnoc | hadoop-jobs/src/main/java/com/linkedin/hadoop/jobs/HdfsWaitJob.java:78-85 | a further checkDirectory call on the next listing extends the loop's record of attempts when it begins before the deadline, after a miss, where that miss, its sleep and the next clock reading left the clock (or at the loop's first reading) |
| HdfsWait.HdfsWaitJob.WaitForFreshFolder | hadoop-jobs/src/main/java/com/linkedin/hadoop/jobs/HdfsWaitJob.java:78-85 | the ghost trace replays the loop: attempt k is `Check` on the k-th listing taken, begun before `endTime`; the first begins at the loop's first clock reading, and each later one after a miss, at that miss's end plus `sleepTime` plus the next reading's drift; on a normal return the clock stands at the reading that stopped the loop. True exactly when the last attempt found a fresh folder; false only after every attempt missed and the clock reached `endTime`; an exception is the last attempt's, or a refused sleep; with a negative `sleepTime` the first miss ends in the refused sleep, and no sleep is logged; otherwise one sleep of `sleepTime` after each miss; no attempt when the first reading is at `endTime` |
| HdfsWait.FoundIsFresh | hadoop-jobs/src/main/java/com/linkedin/hadoop/jobs/HdfsWaitJob.java:78-80 | a wait that ends in a find ended on a listing of the watched directory holding a directory fresh at the reading where that scan stopped, a reading no earlier than the clock-tied start of that attempt |
| HdfsWait.MissesAreStale | hadoop-jobs/src/main/java/com/linkedin/hadoop/jobs/HdfsWaitJob.java:78-85 | a wait in which every attempt missed, with the attempts' starts tied to the clock as in `WaitForFreshFolder`, saw at every attempt a listing of the watched directory with no directory fresh at the reading where that scan stopped |
| HdfsWait.MissIsStale | hadoop-jobs/src/main/java/com/linkedin/hadoop/jobs/HdfsWaitJob.java:79-80 | one attempt that found nothing saw a listing with no directory fresh at its last reading |
| HdfsWait.HdfsWaitJob.Conclude | hadoop-jobs/src/main/java/com/linkedin/hadoop/jobs/HdfsWaitJob.java:74-93 | the loop's trace and result as in `WaitForFreshFolder`, the first attempt beginning at the next clock reading and the clock ending at the reading that stopped the loop, then: a negative `sleepTime` ends the wait at the first miss with the refused sleep's error; a timeout throws exactly when `forceJobToFail` is true; a find returns normally; no attempt when the first reading is at the deadline |
| HdfsWait.HdfsWaitJob.Run | hadoop-jobs/src/main/java/com/linkedin/hadoop/jobs/HdfsWaitJob.java:67-94 | (1) a null or malformed property stops the job before any poll or sleep, with that error; (2) the deadline is the first clock reading plus `timeout`; (3) otherwise every attempt replays `Check` on the next listing, the first one at the second clock reading and each later one where the previous miss, its sleep and the next reading left the clock, and the job returns normally on a find, exactly when the last attempt found a fresh folder; (4) a timeout throws exactly when `forceJobToFail` is true; (5) a timeout of 0 or less means no poll; (6) exceptions from polls and sleeps propagate: a poll's error is the job's, and with a negative `sleepInterval` the first miss ends the job with the refused sleep's error |
| HtmlUtil.ToText | hadoop-plugin/src/main/groovy/com/linkedin/gradle/util/HtmlUtil.java:26-34 | `toText(null)` is the empty string, and text containing none of the five tags, other markup included, comes back unchanged |
| HtmlUtil.ReplaceAbsent | hadoop-plugin/src/main/groovy/com/linkedin/gradle/util/HtmlUtil.java:29-33 | `replaceAll` of a pattern that does not occur returns the string unchanged |
| HtmlUtil.ReplaceRemovesPattern | hadoop-plugin/src/main/groovy/com/linkedin/gradle/util/HtmlUtil.java:29-33 | after a replace-all with a non-empty replacement that shares no character with the pattern, the pattern no longer occurs |
| HtmlUtil.ReplaceKeepsAbsent | hadoop-plugin/src/main/groovy/com/linkedin/gradle/util/HtmlUtil.java:29-33 | a replace-all whose replacement shares no character with an absent pattern q does not create q |
| HtmlUtil.UnmatchedPrefix | hadoop-plugin/src/main/groovy/com/linkedin/gradle/util/HtmlUtil.java:29-33 | `replaceAll` copies the text before the first match unchanged |
| HtmlUtil.FirstMatch | hadoop-plugin/src/main/groovy/com/linkedin/gradle/util/HtmlUtil.java:29-33 | the position where `replaceAll` makes its first replacement: the pattern occurs there and nowhere before it |
| HtmlUtil.BrRule | hadoop-plugin/src/main/groovy/com/linkedin/gradle/util/HtmlUtil.java:29 | `<br/>` between any two tag-free texts becomes one separator, and the texts are kept |
| HtmlUtil.UlRule | hadoop-plugin/src/main/groovy/com/linkedin/gradle/util/HtmlUtil.java:30 | `<ul>` between any two tag-free texts becomes two separators, and the texts are kept |
| HtmlUtil.UlEndRule | hadoop-plugin/src/main/groovy/com/linkedin/gradle/util/HtmlUtil.java:31 | `</ul>` between any two tag-free texts becomes one separator, and the texts are kept |
| HtmlUtil.LiRule | hadoop-plugin/src/main/groovy/com/linkedin/gradle/util/HtmlUtil.java:32 | `<li>` between any two tag-free texts becomes `"* "`, and the texts are kept |
| HtmlUtil.LiEndRule | hadoop-plugin/src/main/groovy/com/linkedin/gradle/util/HtmlUtil.java:33 | `</li>` between any two tag-free texts becomes one separator, and the texts are kept |
| HtmlUtil.ReplaceSplits | hadoop-plugin/src/main/groovy/com/linkedin/gradle/util/HtmlUtil.java:29-33 | where no occurrence of the pattern straddles a cut, `replaceAll` of the whole is `replaceAll` of the part before the cut followed by `replaceAll` of the part after it |
| HtmlUtil.ToTextAround | hadoop-plugin/src/main/groovy/com/linkedin/gradle/util/HtmlUtil.java:28-33 | around a piece that no pattern can enter from either side at any pass, `toText` of the whole is `toText` of the text before, of the piece, and of the text after, joined |
| HtmlUtil.BrAnywhere | hadoop-plugin/src/main/groovy/com/linkedin/gradle/util/HtmlUtil.java:29 | every `<br/>`, whatever text surrounds it, becomes one separator, and the text on each side is converted as if on its own |
| HtmlUtil.UlAnywhere | hadoop-plugin/src/main/groovy/com/linkedin/gradle/util/HtmlUtil.java:30 | every `<ul>`, whatever text surrounds it, becomes two separators, and the text on each side is converted as if on its own |
| HtmlUtil.UlEndAnywhere | hadoop-plugin/src/main/groovy/com/linkedin/gradle/util/HtmlUtil.java:31 | every `</ul>`, whatever text surrounds it, becomes one separator, and the text on each side is converted as if on its own |
| HtmlUtil.LiAnywhere | hadoop-plugin/src/main/groovy/com/linkedin/gradle/util/HtmlUtil.java:32 | every `<li>`, whatever text surrounds it, becomes `"* "`, and the text on each side is converted as if on its own |
| HtmlUtil.LiEndAnywhere | hadoop-plugin/src/main/groovy/com/linkedin/gradle/util/HtmlUtil.java:33 | every `</li>`, whatever text surrounds it, becomes one separator, and the text on each side is converted as if on its own |
| HtmlUtil.PlainAnywhere | hadoop-plugin/src/main/groovy/com/linkedin/gradle/util/HtmlUtil.java:28-33 | text with none of the tags' characters is copied through wherever it stands, and the text on each side is converted as if on its own |
| HtmlUtil.ListItem | hadoop-plugin/src/main/groovy/com/linkedin/gradle/util/HtmlUtil.java:32-33 | a `<li>` item of plain text closed by `</li>` becomes `"* "`, the item and one separator, after the conversion of whatever precedes it |
| HtmlUtil.TwoItemList | hadoop-plugin/src/main/groovy/com/linkedin/gradle/util/HtmlUtil.java:28-33 | `"<ul><li>one</li><li>two</li></ul>"` becomes two separators, `"* one"`, a separator, `"* two"` and two separators |
| HtmlUtil.ClosingTagsNotSplit | hadoop-plugin/src/main/groovy/com/linkedin/gradle/util/HtmlUtil.java:30-33 | in tag-free text around `</ul>` or `</li>`, the `<ul>` and `<li>` passes change nothing, so the closing tags reach their own passes whole |
| HtmlUtil.LineSeparatorsAreSafe | hadoop-plugin/src/main/groovy/com/linkedin/gradle/util/HtmlUtil.java:27 | the platform line separators `"\n"`, `"\r\n"` and `"\r"` meet the safe-separator condition |
| HtmlUtil.ToTextRemovesTags | hadoop-plugin/src/main/groovy/com/linkedin/gradle/util/HtmlUtil.java:19-33 | with a safe separator, the result contains none of the five tags ("removing tags") |
| HtmlUtil.ToTextIdempotent | hadoop-plugin/src/main/groovy/com/linkedin/gradle/util/HtmlUtil.java:28-33 | with a safe separator, converting the converted text again changes nothing |
| HtmlUtil.AngleFreeSeparatorCanRebuildTag | hadoop-plugin/src/main/groovy/com/linkedin/gradle/util/HtmlUtil.java:29 | a separator without `<` or `>` can still rebuild a tag: with `"br/"`, `"<<br/>>"` becomes `"<br/>"` |

## Left out

- Durations.ParseTime: integers are unbounded. The long wrap-around of `totalTime +=` is not modelled, and neither is the saturation of `TimeUnit.toMillis` at the long range.
- Durations.ParseLong: accepts only ASCII digits, while `Long.valueOf` also accepts other Unicode decimal digits.
- Durations.TokenMillis: strings are sequences of Unicode scalar values, while Java strings are sequences of UTF-16 code units. For a token ending in a character outside the Basic Multilingual Plane, such as `"5"` followed by U+1F600, Java's `substring` strips only the low surrogate and `Long.valueOf` fails (a bad number), where the model strips the whole character and reports a bad unit. The same applies to `split` and to the `length()`-based indices.
- Durations.TokenMillis: only the kind of exception is modelled: an empty token (the `substring` failure), a bad number, or a bad unit. Exception messages and the logged error line are not.
- HdfsWait.HdfsWaitJob.Run: requires every clock reading to advance the clock by at least one millisecond, so the loop terminates. The overflow of `endTime = now + timeout` is not modelled.
- HdfsWait.HdfsWaitJob.Run: is split into `ReadConfig` (lines 68-73) and `Conclude` (lines 74-93); the ghost `trace` and `settings` out-parameters, and the ghost parameters of `Conclude` that name the clock and the counters before the loop, exist only to state the contract.
- HdfsWait.HdfsWaitJob.CheckDirectory: computes `now - mtime` on unbounded integers, so the long overflow of that subtraction is not modelled.
- HdfsWait.PathGiven: `new Path(dirPath)` is modelled as refusing exactly a null or empty path (the `MissingPath` error). Other strings that Hadoop's `Path` rejects as malformed URIs are taken as paths.
- The Hadoop plumbing is an oracle. `FileSystem.get(getConf())` becomes a fixed flag, and `listStatus(new Path(dirPath))` becomes a function from the poll number to a listing. Its IOException becomes one listing kind.
- `Thread.sleep` is a clock advance. Its `InterruptedException` is not modelled, and its refusal of a negative interval is the `NegativeSleep` error.
- The `log.info` calls are not modelled. That includes the folder name printed on a find.
- `Properties.getProperty` becomes a record of optional strings; `Boolean.valueOf` becomes ASCII case-insensitive comparison with "true".
- HtmlUtil.ToText: `replaceAll` is modelled as a literal replace. Java gives `$` and `\` a special meaning in the replacement string, so the theorems about the result (`ToTextRemovesTags`, `ToTextIdempotent`, the five rules and their `Anywhere` forms) ask for a separator without either (`SafeSeparator`). A null `line.separator`, where `replaceAll` would throw, is not modelled.
- HtmlUtil.ToTextRemovesTags: requires a non-empty separator that shares no character with the tags, because the weaker "no angle brackets" condition is not enough.
- HtmlUtil.ToTextIdempotent: requires the same safe separator, for the same reason.
- `WordCountJob.java` is not part of this model. It is job submission and MapReduce callbacks.
- The MapReduce test scaffolding is not part of this model.
- The `checkDirectory(..., boolean)` and `parseFilePath` tests in `HdfsWaitJobTest.java` call methods the job does not have, so they are not modelled.
