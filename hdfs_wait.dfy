/**
 * HdfsWaitJob: a job that polls a directory until it holds a folder modified
 * recently enough, or until a timeout passes, and then succeeds or fails as
 * configured. The filesystem, the clock and Thread.sleep form the
 * Environment class: the clock is a field that every reading moves forward
 * by an amount the environment chooses, and each listing comes from an
 * oracle indexed by the number of listings taken so far.
 */
module HdfsWait {
  import opened Wrappers
  import Durations

  // ---------------------------------------------------------------------
  // Data model
  // ---------------------------------------------------------------------

  /** One FileStatus of a listing: whether it is a directory, and its modification time. */
  datatype Entry = Entry(isDir: bool, mtime: int)

  /** What listStatus gives back: null, an IOException, or the entries. */
  datatype Listing = NullListing | ListingFailed | Entries(entries: seq<Entry>)

  /** Why run or checkDirectory ends in an exception. */
  datatype JobError =
    | NullFileSystem                          // FileSystem.get returned null
    | MissingPath                             // pathToDirectory unset or empty: new Path throws
    | MissingDirectory                        // listStatus returned null
    | ListingError                            // listStatus threw an IOException
    | NullProperty                            // a duration property unset: parseTime(null) throws
    | BadDuration(cause: Durations.ParseError) // parseTime threw a NumberFormatException
    | NegativeSleep                           // Thread.sleep of a negative interval
    | ForcedFailure                           // timed out with forceJobToFail set to true

  /** The job's Properties, each one possibly unset. */
  datatype JobProperties = JobProperties(
    pathToDirectory: Option<string>,
    freshness: Option<string>,
    timeout: Option<string>,
    sleepInterval: Option<string>,
    forceJobToFail: Option<string>)

  /** The values run derives from the properties. */
  datatype Settings = Settings(freshness: int, timeout: int, sleepTime: int, failOnTimeout: bool)

  // ---------------------------------------------------------------------
  // The environment: filesystem, clock and sleep
  // ---------------------------------------------------------------------

  class Environment {
    /** The clock's current value in milliseconds. */
    var time: int
    /** How many times the clock was read. */
    var readings: nat
    /** How many listings were taken. */
    var polls: nat
    /** The length of every sleep so far, in order. */
    var naps: seq<int>
    /** How far the clock moves before reading number k. */
    const drift: nat -> nat
    /** Whether FileSystem.get returns a filesystem. */
    const hasFileSystem: bool
    /** The listing returned by listing number k. */
    const listing: nat -> Listing

    constructor(start: int, drift: nat -> nat, hasFileSystem: bool, listing: nat -> Listing)
      ensures time == start && readings == 0 && polls == 0 && naps == []
      ensures this.drift == drift && this.hasFileSystem == hasFileSystem && this.listing == listing
    {
      time := start;
      readings := 0;
      polls := 0;
      naps := [];
      this.drift := drift;
      this.hasFileSystem := hasFileSystem;
      this.listing := listing;
    }

    /** System.currentTimeMillis: a reading never goes backwards. */
    method CurrentTimeMillis() returns (now: int)
      modifies this
      ensures now == old(time) + drift(old(readings)) && time == now
      ensures readings == old(readings) + 1
      ensures polls == old(polls) && naps == old(naps)
    {
      time := time + drift(readings);
      readings := readings + 1;
      now := time;
    }

    /** Thread.sleep: advances the clock by `millis`; a negative interval is refused. */
    method Sleep(millis: int) returns (ok: bool)
      modifies this
      ensures ok <==> millis >= 0
      ensures ok ==> time == old(time) + millis && naps == old(naps) + [millis]
      ensures !ok ==> time == old(time) && naps == old(naps)
      ensures readings == old(readings) && polls == old(polls)
    {
      ok := millis >= 0;
      if ok {
        time := time + millis;
        naps := naps + [millis];
      }
    }

    /** listStatus on the watched directory. */
    method ListStatus() returns (status: Listing)
      modifies this
      ensures status == listing(old(polls)) && polls == old(polls) + 1
      ensures time == old(time) && readings == old(readings)
      ensures naps == old(naps)
    {
      status := listing(polls);
      polls := polls + 1;
    }
  }

  // ---------------------------------------------------------------------
  // checkDirectory, specified
  // ---------------------------------------------------------------------

  /**
   * `after` extends `before` with sleeps of `sleepTime` only, and with none
   * at all when `sleepTime` is negative, since Thread.sleep refuses those.
   */
  predicate NapsAdded(before: seq<int>, after: seq<int>, sleepTime: int) {
    before <= after && (|after| > |before| ==> sleepTime >= 0)
    && forall i :: |before| <= i < |after| ==> after[i] == sleepTime
  }

  /** The outcome of scanning a listing, and the clock once the scan stops. */
  datatype Probe = Probe(found: bool, time: int, readings: nat)

  /**
   * The scan of a listing: each directory entry costs one clock reading and
   * is fresh when that reading minus its modification time is at most
   * `freshness`; the scan stops at the first fresh directory.
   */
  function Scan(entries: seq<Entry>, freshness: int, time: int, drift: nat -> nat, readings: nat): (p: Probe)
    ensures p.time >= time && p.readings >= readings
    ensures p.readings - readings <= |entries|
    decreases |entries|
  {
    if entries == [] then Probe(false, time, readings)
    else if !entries[0].isDir then Scan(entries[1..], freshness, time, drift, readings)
    else
      var now := time + drift(readings);
      if now - entries[0].mtime <= freshness then Probe(true, now, readings + 1)
      else Scan(entries[1..], freshness, now, drift, readings + 1)
  }

  /** Some directory of `entries` is fresh at time `now`. */
  predicate FreshDirAt(entries: seq<Entry>, freshness: int, now: int) {
    exists i :: 0 <= i < |entries| && entries[i].isDir && now - entries[i].mtime <= freshness
  }

  /** The number of directory entries. */
  function DirCount(entries: seq<Entry>): nat {
    if entries == [] then 0 else (if entries[0].isDir then 1 else 0) + DirCount(entries[1..])
  }

  /** The outcome of one checkDirectory call, and the clock afterwards. */
  datatype Poll = Poll(result: Result<bool, JobError>, time: int, readings: nat)

  /** new Path(dirPath) accepts the path: it is neither null nor empty. */
  predicate PathGiven(dirPath: Option<string>) {
    dirPath.Some? && dirPath.value != []
  }

  /**
   * checkDirectory: the filesystem, then the path, then the listing, then the
   * scan. An exception leaves the clock unread; a scan reads it at most once
   * per entry.
   */
  function Check(hasFileSystem: bool, dirPath: Option<string>, listing: Listing, freshness: int,
                 time: int, drift: nat -> nat, readings: nat): (p: Poll)
    ensures p.result.Err? ==> p.time == time && p.readings == readings
    ensures p.result.Ok? ==> listing.Entries? && p.time >= time && p.readings - readings <= |listing.entries|
  {
    if !hasFileSystem then Poll(Err(NullFileSystem), time, readings)
    else if !PathGiven(dirPath) then Poll(Err(MissingPath), time, readings)
    else
      match listing
      case NullListing => Poll(Err(MissingDirectory), time, readings)
      case ListingFailed => Poll(Err(ListingError), time, readings)
      case Entries(entries) =>
        var p := Scan(entries, freshness, time, drift, readings);
        Poll(Ok(p.found), p.time, p.readings)
  }

  // ---------------------------------------------------------------------
  // checkDirectory, properties
  // ---------------------------------------------------------------------

  /**
   * The scan finds a folder exactly when some directory is fresh at the
   * clock's final reading: a directory stale at an earlier reading is stale
   * at every later one.
   */
  lemma {:induction false} ScanFoundIff(entries: seq<Entry>, freshness: int, time: int, drift: nat -> nat, readings: nat)
    ensures var p := Scan(entries, freshness, time, drift, readings);
      p.found <==> FreshDirAt(entries, freshness, p.time)
    decreases |entries|
  {
    var p := Scan(entries, freshness, time, drift, readings);
    if entries != [] {
      var now := if entries[0].isDir then time + drift(readings) else time;
      var rest := entries[1..];
      if entries[0].isDir && now - entries[0].mtime <= freshness {
        assert FreshDirAt(entries, freshness, p.time) by {
          assert entries[0].isDir && p.time - entries[0].mtime <= freshness;
        }
      } else {
        var r := if entries[0].isDir then readings + 1 else readings;
        assert p == Scan(rest, freshness, now, drift, r);
        ScanFoundIff(rest, freshness, now, drift, r);
        ShiftFresh(entries, freshness, p.time);
      }
    }
  }

  /** Helper: the first entry aside, freshness is decided by the rest. */
  lemma ShiftFresh(entries: seq<Entry>, freshness: int, now: int)
    requires entries != []
    requires entries[0].isDir ==> now - entries[0].mtime > freshness
    ensures FreshDirAt(entries, freshness, now) <==> FreshDirAt(entries[1..], freshness, now)
  {
    if FreshDirAt(entries, freshness, now) {
      var i :| 0 <= i < |entries| && entries[i].isDir && now - entries[i].mtime <= freshness;
      assert entries[1..][i - 1] == entries[i];
    }
    if FreshDirAt(entries[1..], freshness, now) {
      var i :| 0 <= i < |entries[1..]| && entries[1..][i].isDir && now - entries[1..][i].mtime <= freshness;
      assert entries[i + 1] == entries[1..][i];
    }
  }

  /** Without a find, the scan read the clock once per directory. */
  lemma {:induction false} ScanReadsEveryDirectory(entries: seq<Entry>, freshness: int, time: int, drift: nat -> nat, readings: nat)
    ensures var p := Scan(entries, freshness, time, drift, readings);
      !p.found ==> p.readings == readings + DirCount(entries)
    decreases |entries|
  {
    if entries != [] {
      var now := if entries[0].isDir then time + drift(readings) else time;
      var r := if entries[0].isDir then readings + 1 else readings;
      ScanReadsEveryDirectory(entries[1..], freshness, now, drift, r);
    }
  }

  /**
   * With a find, the scan stopped at the first directory found fresh: the
   * entries before it yield nothing, it is fresh at the final reading, and
   * the clock was read once per directory up to and including it.
   */
  lemma {:induction false} ScanStopsAtFind(entries: seq<Entry>, freshness: int, time: int, drift: nat -> nat, readings: nat)
    ensures var p := Scan(entries, freshness, time, drift, readings);
      p.found ==> exists k :: 0 <= k < |entries| && entries[k].isDir && p.time - entries[k].mtime <= freshness
                              && !Scan(entries[..k], freshness, time, drift, readings).found
                              && p.readings == readings + DirCount(entries[..k + 1])
    decreases |entries|
  {
    var p := Scan(entries, freshness, time, drift, readings);
    if entries != [] && p.found {
      assert entries[..1] == [entries[0]] && [entries[0]][1..] == [];
      var now := if entries[0].isDir then time + drift(readings) else time;
      var r := if entries[0].isDir then readings + 1 else readings;
      if entries[0].isDir && now - entries[0].mtime <= freshness {
        assert DirCount(entries[..1]) == 1;
        assert entries[..0] == [];
      } else {
        var rest := entries[1..];
        ScanStopsAtFind(rest, freshness, now, drift, r);
        var k :| 0 <= k < |rest| && rest[k].isDir && p.time - rest[k].mtime <= freshness
                 && !Scan(rest[..k], freshness, now, drift, r).found
                 && p.readings == r + DirCount(rest[..k + 1]);
        assert entries[..k + 2][1..] == rest[..k + 1];
        assert entries[k + 1] == rest[k];
        MissBeforeFind(entries, k + 1, freshness, time, drift, readings);
      }
    }
  }

  /** Helper: a first entry that is no find hands the scan of a prefix to the rest. */
  lemma MissBeforeFind(entries: seq<Entry>, k: nat, freshness: int, time: int, drift: nat -> nat, readings: nat)
    requires 0 < k <= |entries|
    requires entries[0].isDir ==> time + drift(readings) - entries[0].mtime > freshness
    ensures var now := if entries[0].isDir then time + drift(readings) else time;
      var r := if entries[0].isDir then readings + 1 else readings;
      Scan(entries[..k], freshness, time, drift, readings) == Scan(entries[1..][..k - 1], freshness, now, drift, r)
  {
    assert entries[..k][0] == entries[0];
    assert entries[..k][1..] == entries[1..][..k - 1];
  }

  /** A larger freshness bound finds a folder whenever a smaller one does. */
  lemma {:induction false} ScanMonotoneInFreshness(entries: seq<Entry>, f: int, g: int, time: int, drift: nat -> nat, readings: nat)
    requires f <= g
    ensures Scan(entries, f, time, drift, readings).found ==> Scan(entries, g, time, drift, readings).found
    decreases |entries|
  {
    if entries != [] {
      var now := if entries[0].isDir then time + drift(readings) else time;
      var r := if entries[0].isDir then readings + 1 else readings;
      ScanMonotoneInFreshness(entries[1..], f, g, now, drift, r);
    }
  }

  /** A file, however old or new, neither reads the clock nor changes the outcome. */
  lemma {:induction false} ScanIgnoresFiles(before: seq<Entry>, file: Entry, after: seq<Entry>,
                                            freshness: int, time: int, drift: nat -> nat, readings: nat)
    requires !file.isDir
    ensures Scan(before + [file] + after, freshness, time, drift, readings) == Scan(before + after, freshness, time, drift, readings)
    decreases |before|
  {
    if before == [] {
      assert (before + [file] + after)[1..] == before + after;
    } else {
      var now := if before[0].isDir then time + drift(readings) else time;
      var r := if before[0].isDir then readings + 1 else readings;
      ScanIgnoresFiles(before[1..], file, after, freshness, now, drift, r);
      assert (before + [file] + after)[1..] == before[1..] + [file] + after;
      assert (before + after)[1..] == before[1..] + after;
    }
  }

  /** A listing without directories never yields a folder, and never reads the clock. */
  lemma {:induction false} ScanNoDirectories(entries: seq<Entry>, freshness: int, time: int, drift: nat -> nat, readings: nat)
    requires forall i :: 0 <= i < |entries| ==> !entries[i].isDir
    ensures Scan(entries, freshness, time, drift, readings) == Probe(false, time, readings)
    decreases |entries|
  {
    if entries != [] {
      ScanNoDirectories(entries[1..], freshness, time, drift, readings);
    }
  }

  /** With a clock that stands still, the scan is the plain freshness predicate at that time. */
  lemma ScanFrozenClock(entries: seq<Entry>, freshness: int, time: int, drift: nat -> nat, readings: nat)
    requires forall k :: drift(k) == 0
    ensures var p := Scan(entries, freshness, time, drift, readings);
      p.time == time && (p.found <==> FreshDirAt(entries, freshness, time))
  {
    FrozenTime(entries, freshness, time, drift, readings);
    ScanFoundIff(entries, freshness, time, drift, readings);
  }

  lemma {:induction false} FrozenTime(entries: seq<Entry>, freshness: int, time: int, drift: nat -> nat, readings: nat)
    requires forall k :: drift(k) == 0
    ensures Scan(entries, freshness, time, drift, readings).time == time
    decreases |entries|
  {
    if entries != [] {
      var r := if entries[0].isDir then readings + 1 else readings;
      assert drift(readings) == 0;
      FrozenTime(entries[1..], freshness, time, drift, r);
    }
  }

  /**
   * Errors come first: checkDirectory fails exactly when the filesystem, the
   * path or the listing is missing, and then without reading the clock.
   */
  lemma ErrorsComeFirst(hasFileSystem: bool, dirPath: Option<string>, listing: Listing, freshness: int,
                        time: int, drift: nat -> nat, readings: nat)
    ensures var p := Check(hasFileSystem, dirPath, listing, freshness, time, drift, readings);
      (p.result.Err? <==> !hasFileSystem || !PathGiven(dirPath) || !listing.Entries?)
      && (!hasFileSystem ==> p.result == Err(NullFileSystem))
      && (hasFileSystem && !PathGiven(dirPath) ==> p.result == Err(MissingPath))
      && (hasFileSystem && PathGiven(dirPath) && listing.NullListing? ==> p.result == Err(MissingDirectory))
      && (hasFileSystem && PathGiven(dirPath) && listing.ListingFailed? ==> p.result == Err(ListingError))
  {
  }

  /** On a listing, checkDirectory answers true exactly when a directory is fresh at its last reading. */
  lemma CheckFoundIff(dirPath: string, entries: seq<Entry>, freshness: int, time: int, drift: nat -> nat, readings: nat)
    requires dirPath != []
    ensures var p := Check(true, Some(dirPath), Entries(entries), freshness, time, drift, readings);
      p.result == Ok(true) <==> FreshDirAt(entries, freshness, p.time)
  {
    ScanFoundIff(entries, freshness, time, drift, readings);
  }

  // ---------------------------------------------------------------------
  // Reading the properties
  // ---------------------------------------------------------------------

  /** parseTime on a property: an unset property is a null string. */
  function DurationProperty(value: Option<string>): (r: Result<int, JobError>)
    ensures r.Err? ==> r.error.NullProperty? || r.error.BadDuration?
    ensures value.None? ==> r == Err(NullProperty)
  {
    match value
    case None => Err(NullProperty)
    case Some(s) =>
      match Durations.ParseDuration(s)
      case Ok(v) => Ok(v)
      case Err(e) => Err(BadDuration(e))
  }

  /** The sleep interval defaults to one minute. */
  const DefaultSleepInterval: string := "1M"

  function SleepIntervalOrDefault(props: JobProperties): string {
    match props.sleepInterval
    case None => DefaultSleepInterval
    case Some(s) => s
  }

  function AsciiLower(c: char): char {
    if 'A' <= c <= 'Z' then (c as int + 32) as char else c
  }

  /** The string with every ASCII capital made small. */
  function LowerCase(s: string): (r: string)
    ensures |r| == |s|
  {
    seq(|s|, i requires 0 <= i < |s| => AsciiLower(s[i]))
  }

  /**
   * Boolean.valueOf: compares against "true" character by character, ignoring
   * case; null is false.
   */
  function BooleanValueOf(value: Option<string>): (b: bool)
    ensures b <==> value.Some? && LowerCase(value.value) == "true"
  {
    match value
    case None => false
    case Some(s) =>
      assert LowerCase(s) == "true" ==> forall i :: 0 <= i < |s| ==> AsciiLower(s[i]) == "true"[i];
      |s| == 4 && forall i :: 0 <= i < 4 ==> AsciiLower(s[i]) == "true"[i]
  }

  /**
   * The settings run derives, in its order: freshness, timeout, sleepInterval,
   * forceJobToFail. They exist exactly when the three durations parse.
   */
  function ReadSettings(props: JobProperties): (r: Result<Settings, JobError>)
    ensures r.Ok? <==> DurationProperty(props.freshness).Ok? && DurationProperty(props.timeout).Ok?
                       && DurationProperty(Some(SleepIntervalOrDefault(props))).Ok?
    ensures r.Ok? ==> r.value.failOnTimeout == BooleanValueOf(props.forceJobToFail)
    ensures r.Err? ==> r.error.NullProperty? || r.error.BadDuration?
  {
    match DurationProperty(props.freshness)
    case Err(e) => Err(e)
    case Ok(freshness) =>
      match DurationProperty(props.timeout)
      case Err(e) => Err(e)
      case Ok(timeout) =>
        match DurationProperty(Some(SleepIntervalOrDefault(props)))
        case Err(e) => Err(e)
        case Ok(sleepTime) => Ok(Settings(freshness, timeout, sleepTime, BooleanValueOf(props.forceJobToFail)))
  }

  /** Without a sleepInterval property, run sleeps 60000 ms between polls. */
  lemma DefaultSleepIsOneMinute(props: JobProperties)
    requires props.sleepInterval.None?
    requires ReadSettings(props).Ok?
    ensures ReadSettings(props).value.sleepTime == 60000
  {
    var minute := Durations.Amount(1, Durations.Minutes);
    Durations.RenderOne(minute);
    assert Durations.TokenOf(minute) == "1M";
    Durations.ParseRender([minute]);
    assert DurationProperty(Some("1M")) == Ok(60000);
  }

  /** forceJobToFail is read case-insensitively, and unset means false. */
  lemma BooleanValueOfCases()
    ensures BooleanValueOf(Some("true")) && BooleanValueOf(Some("TRUE")) && BooleanValueOf(Some("True"))
    ensures !BooleanValueOf(None) && !BooleanValueOf(Some("yes")) && !BooleanValueOf(Some("")) && !BooleanValueOf(Some("true "))
  {
    assert !BooleanValueOf(Some("yes"));
    assert AsciiLower('T') == 't' && AsciiLower('R') == 'r' && AsciiLower('U') == 'u' && AsciiLower('E') == 'e';
  }

  /**
   * An unset freshness property stops run before it reads the clock, and so
   * does an unset timeout once freshness parses; an unset sleepInterval never does.
   */
  lemma UnsetDurationFails(props: JobProperties)
    ensures props.freshness.None? ==> ReadSettings(props) == Err(NullProperty)
    ensures DurationProperty(props.freshness).Ok? && props.timeout.None? ==> ReadSettings(props) == Err(NullProperty)
    ensures ReadSettings(props) == Err(NullProperty) ==> props.freshness.None? || props.timeout.None?
  {
  }

  // ---------------------------------------------------------------------
  // The polls of run, specified
  // ---------------------------------------------------------------------

  /** One checkDirectory call of run's loop: the clock it started from, and its outcome. */
  datatype Attempt = Attempt(start: int, readings: nat, outcome: Poll)

  /** The attempt is checkDirectory on listing `l`, started from the clock it records. */
  predicate Replays(a: Attempt, hasFileSystem: bool, dirPath: Option<string>, l: Listing, freshness: int, drift: nat -> nat) {
    a.outcome == Check(hasFileSystem, dirPath, l, freshness, a.start, drift, a.readings)
  }

  /**
   * The clock just after a miss, its sleep and the loop's next reading: where
   * the next attempt starts.
   */
  predicate ResumesAfter(p: Poll, sleepTime: int, drift: nat -> nat, time: int, readings: nat) {
    time == p.time + sleepTime + drift(p.readings) && readings == p.readings + 1
  }

  /**
   * The attempts of run's loop: attempt k is checkDirectory on listing number
   * firstPoll + k. The first one starts at the loop's first clock reading
   * (`firstStart`, after `firstReadings` readings in all); every later one
   * starts where the previous one, a miss, its sleep of `sleepTime` and the
   * next reading left the clock. Every attempt starts before `endTime`.
   */
  predicate Attempts(trace: seq<Attempt>, hasFileSystem: bool, dirPath: Option<string>, listing: nat -> Listing,
                     firstPoll: nat, freshness: int, sleepTime: int, drift: nat -> nat,
                     firstStart: int, firstReadings: nat, endTime: int)
  {
    forall k :: 0 <= k < |trace| ==>
      AttemptAt(trace, k, hasFileSystem, dirPath, listing, firstPoll, freshness, sleepTime, drift, firstStart, firstReadings, endTime)
  }

  /** Attempt number k of the trace, as Attempts describes it. */
  predicate AttemptAt(trace: seq<Attempt>, k: nat, hasFileSystem: bool, dirPath: Option<string>, listing: nat -> Listing,
                      firstPoll: nat, freshness: int, sleepTime: int, drift: nat -> nat,
                      firstStart: int, firstReadings: nat, endTime: int)
    requires k < |trace|
  {
    Replays(trace[k], hasFileSystem, dirPath, listing(firstPoll + k), freshness, drift)
    && trace[k].start < endTime
    && (k == 0 ==> trace[k].start == firstStart && trace[k].readings == firstReadings)
    && (k > 0 ==> trace[k - 1].outcome.result == Ok(false)
                  && ResumesAfter(trace[k - 1].outcome, sleepTime, drift, trace[k].start, trace[k].readings))
  }

  /**
   * The clock once the loop has stopped without an exception: at its first
   * reading when there was no attempt, else at the reading after the last
   * attempt (and after its sleep, when it was a miss).
   */
  predicate ClockAfter(trace: seq<Attempt>, found: bool, sleepTime: int, drift: nat -> nat,
                       firstStart: int, firstReadings: nat, time: int, readings: nat)
  {
    if trace == [] then time == firstStart && readings == firstReadings
    else ResumesAfter(trace[|trace| - 1].outcome, if found then 0 else sleepTime, drift, time, readings)
  }

  /** Helper: one more attempt, on the next listing, where the clock stands. */
  lemma AttemptsSnoc(trace: seq<Attempt>, a: Attempt, hasFileSystem: bool, dirPath: Option<string>, listing: nat -> Listing,
                     firstPoll: nat, freshness: int, sleepTime: int, drift: nat -> nat,
                     firstStart: int, firstReadings: nat, endTime: int)
    requires Attempts(trace, hasFileSystem, dirPath, listing, firstPoll, freshness, sleepTime, drift, firstStart, firstReadings, endTime)
    requires Replays(a, hasFileSystem, dirPath, listing(firstPoll + |trace|), freshness, drift)
    requires a.start < endTime
    requires trace != [] ==> trace[|trace| - 1].outcome.result == Ok(false)
    requires ClockAfter(trace, false, sleepTime, drift, firstStart, firstReadings, a.start, a.readings)
    ensures Attempts(trace + [a], hasFileSystem, dirPath, listing, firstPoll, freshness, sleepTime, drift, firstStart, firstReadings, endTime)
  {
    var t := trace + [a];
    forall k | 0 <= k < |t|
      ensures AttemptAt(t, k, hasFileSystem, dirPath, listing, firstPoll, freshness, sleepTime, drift, firstStart, firstReadings, endTime)
    {
      if k < |trace| {
        assert AttemptAt(trace, k, hasFileSystem, dirPath, listing, firstPoll, freshness, sleepTime, drift, firstStart, firstReadings, endTime);
      }
    }
  }

  /**
   * A wait that ends in a find ended on a listing of the watched directory
   * holding a directory fresh at the clock reading where the scan stopped,
   * a reading taken no earlier than the attempt's start.
   */
  lemma FoundIsFresh(trace: seq<Attempt>, hasFileSystem: bool, dirPath: Option<string>, listing: nat -> Listing,
                     firstPoll: nat, freshness: int, sleepTime: int, drift: nat -> nat,
                     firstStart: int, firstReadings: nat, endTime: int)
    requires Attempts(trace, hasFileSystem, dirPath, listing, firstPoll, freshness, sleepTime, drift, firstStart, firstReadings, endTime)
    requires trace != [] && trace[|trace| - 1].outcome.result == Ok(true)
    ensures var last := trace[|trace| - 1];
      var l := listing(firstPoll + |trace| - 1);
      hasFileSystem && PathGiven(dirPath) && l.Entries? && FreshDirAt(l.entries, freshness, last.outcome.time)
      && last.start <= last.outcome.time
  {
    var n := |trace| - 1;
    var a := trace[n];
    var l := listing(firstPoll + n);
    assert AttemptAt(trace, n, hasFileSystem, dirPath, listing, firstPoll, freshness, sleepTime, drift, firstStart, firstReadings, endTime);
    assert hasFileSystem && PathGiven(dirPath) && l.Entries?;
    ScanFoundIff(l.entries, freshness, a.start, drift, a.readings);
  }

  /** A listing of entries none of which is a directory fresh at time `now`. */
  predicate StaleListing(l: Listing, freshness: int, now: int) {
    l.Entries? && !FreshDirAt(l.entries, freshness, now)
  }

  /**
   * A wait in which no attempt found anything saw, at every attempt, a
   * listing of the watched directory with no directory fresh at the clock
   * reading where that scan stopped.
   */
  lemma MissesAreStale(trace: seq<Attempt>, hasFileSystem: bool, dirPath: Option<string>, listing: nat -> Listing,
                       firstPoll: nat, freshness: int, sleepTime: int, drift: nat -> nat,
                       firstStart: int, firstReadings: nat, endTime: int)
    requires Attempts(trace, hasFileSystem, dirPath, listing, firstPoll, freshness, sleepTime, drift, firstStart, firstReadings, endTime)
    requires forall k :: 0 <= k < |trace| ==> trace[k].outcome.result == Ok(false)
    ensures forall k :: 0 <= k < |trace| ==> StaleListing(listing(firstPoll + k), freshness, trace[k].outcome.time)
  {
    forall k | 0 <= k < |trace|
      ensures StaleListing(listing(firstPoll + k), freshness, trace[k].outcome.time)
    {
      assert AttemptAt(trace, k, hasFileSystem, dirPath, listing, firstPoll, freshness, sleepTime, drift, firstStart, firstReadings, endTime);
      MissIsStale(trace[k], listing(firstPoll + k), hasFileSystem, dirPath, freshness, drift);
    }
  }

  /** Helper: one attempt that found nothing. */
  lemma MissIsStale(a: Attempt, l: Listing, hasFileSystem: bool, dirPath: Option<string>, freshness: int, drift: nat -> nat)
    requires Replays(a, hasFileSystem, dirPath, l, freshness, drift)
    requires a.outcome.result == Ok(false)
    ensures StaleListing(l, freshness, a.outcome.time)
  {
    assert l.Entries?;
    ScanFoundIff(l.entries, freshness, a.start, drift, a.readings);
  }

  /**
   * What run promises once its settings are read and its deadline set:
   * the attempts replay the listings in order, each from where the clock
   * stood; there was one listing call per attempt when a file system and a
   * path are given; the job succeeds exactly when the last attempt found a
   * fresh folder; a timeout means no attempt found anything and the clock
   * passed the deadline, and it is an exception exactly when forceJobToFail
   * is set; an exception from checkDirectory is the last attempt's; a
   * negative sleep ends the wait after one miss; every miss but a failing
   * one is followed by a sleep of sleepTime; without an exception from a
   * poll or a sleep, the clock ends at the reading after the last attempt;
   * and when the first reading of the loop is already past the deadline
   * there is no attempt at all.
   */
  predicate Concluded(r: Result<bool, JobError>, trace: seq<Attempt>, settings: Settings, endTime: int,
                      hasFileSystem: bool, dirPath: Option<string>, listing: nat -> Listing, drift: nat -> nat,
                      pollsBefore: nat, pollsAfter: nat, napsBefore: seq<int>, napsAfter: seq<int>,
                      firstReading: int, firstReadings: nat, timeAfter: int, readingsAfter: nat)
  {
    Attempts(trace, hasFileSystem, dirPath, listing, pollsBefore, settings.freshness, settings.sleepTime, drift,
             firstReading, firstReadings, endTime)
    && pollsAfter == pollsBefore + (if hasFileSystem && PathGiven(dirPath) then |trace| else 0)
    && (r == Ok(true) <==> trace != [] && trace[|trace| - 1].outcome.result == Ok(true))
    && (r == Ok(false) || r == Err(ForcedFailure) ==>
          (r == Err(ForcedFailure) <==> settings.failOnTimeout) && timeAfter >= endTime
          && forall k :: 0 <= k < |trace| ==> trace[k].outcome.result == Ok(false))
    && (r.Err? ==> r.error.NullFileSystem? || r.error.MissingPath? || r.error.MissingDirectory?
                   || r.error.ListingError? || r.error.NegativeSleep? || r.error.ForcedFailure?)
    && (r.Err? && (r.error.NullFileSystem? || r.error.MissingPath? || r.error.MissingDirectory? || r.error.ListingError?) ==>
          trace != [] && trace[|trace| - 1].outcome.result == r)
    && (r == Err(NegativeSleep) ==> settings.sleepTime < 0 && |trace| == 1 && trace[0].outcome.result == Ok(false))
    && (settings.sleepTime < 0 && trace != [] && trace[0].outcome.result == Ok(false) ==> r == Err(NegativeSleep))
    && NapsAdded(napsBefore, napsAfter, settings.sleepTime)
    && (r.Ok? || r == Err(ForcedFailure) ==> |napsAfter| - |napsBefore| == |trace| - (if r == Ok(true) then 1 else 0))
    && (r.Ok? || r == Err(ForcedFailure) ==>
          ClockAfter(trace, r == Ok(true), settings.sleepTime, drift, firstReading, firstReadings, timeAfter, readingsAfter))
    && (firstReading >= endTime ==> trace == [] && r == (if settings.failOnTimeout then Err(ForcedFailure) else Ok(false)))
  }

  // ---------------------------------------------------------------------
  // The job
  // ---------------------------------------------------------------------

  class HdfsWaitJob {
    const name: string
    const properties: JobProperties
    const env: Environment

    constructor(name: string, properties: JobProperties, env: Environment)
      ensures this.name == name && this.properties == properties && this.env == env
    {
      this.name := name;
      this.properties := properties;
      this.env := env;
    }

    /** checkDirectory(dirPath, freshness). */
    method CheckDirectory(dirPath: Option<string>, freshness: int) returns (r: Result<bool, JobError>)
      modifies env
      ensures var p := Check(env.hasFileSystem, dirPath, env.listing(old(env.polls)), freshness,
                             old(env.time), env.drift, old(env.readings));
        r == p.result && env.time == p.time && env.readings == p.readings
      ensures env.polls == old(env.polls) + (if env.hasFileSystem && PathGiven(dirPath) then 1 else 0)
      ensures env.naps == old(env.naps)
    {
      if !env.hasFileSystem {
        return Err(NullFileSystem);
      }
      if !PathGiven(dirPath) {
        return Err(MissingPath);
      }
      var status := env.ListStatus();
      if status.NullListing? {
        return Err(MissingDirectory);
      }
      if status.ListingFailed? {
        return Err(ListingError);
      }
      var entries := status.entries;
      ghost var whole := Scan(entries, freshness, old(env.time), env.drift, old(env.readings));
      for i := 0 to |entries|
        invariant whole == Scan(entries[i..], freshness, env.time, env.drift, env.readings)
        invariant env.polls == old(env.polls) + 1
        invariant env.naps == old(env.naps)
      {
        assert entries[i..][1..] == entries[i + 1..];
        if entries[i].isDir {
          var timeModified := entries[i].mtime;
          var now := env.CurrentTimeMillis();
          if now - timeModified <= freshness {
            return Ok(true);
          }
        }
      }
      return Ok(false);
    }

    /** The settings run derives from this job's properties. */
    function Config(): Result<Settings, JobError> {
      ReadSettings(properties)
    }

    /**
     * The opening lines of run(): parse freshness and timeout, read the clock
     * for the deadline, then parse sleepInterval (default "1M") and
     * forceJobToFail. Nothing is polled and nobody sleeps.
     */
    method ReadConfig() returns (c: Result<Settings, JobError>, start: int)
      modifies env
      ensures c == Config()
      ensures c.Ok? ==> start == old(env.time) + env.drift(old(env.readings)) && env.time == start
                        && env.readings == old(env.readings) + 1
      ensures env.polls == old(env.polls) && env.naps == old(env.naps)
    {
      start := 0; // no clock reading before freshness and timeout parse
      if properties.freshness.None? {
        assert Config() == Err(NullProperty);
        c := Err(NullProperty);
        return;
      }
      var freshness := Durations.ParseTime(properties.freshness.value);
      if freshness.Err? {
        assert Config() == Err(BadDuration(freshness.error));
        c := Err(BadDuration(freshness.error));
        return;
      }
      if properties.timeout.None? {
        assert Config() == Err(NullProperty);
        c := Err(NullProperty);
        return;
      }
      var timeout := Durations.ParseTime(properties.timeout.value);
      if timeout.Err? {
        assert Config() == Err(BadDuration(timeout.error));
        c := Err(BadDuration(timeout.error));
        return;
      }
      start := env.CurrentTimeMillis();
      var sleepTime := Durations.ParseTime(SleepIntervalOrDefault(properties));
      if sleepTime.Err? {
        assert Config() == Err(BadDuration(sleepTime.error));
        c := Err(BadDuration(sleepTime.error));
        return;
      }
      var failOnTimeout := BooleanValueOf(properties.forceJobToFail);
      c := Ok(Settings(freshness.value, timeout.value, sleepTime.value, failOnTimeout));
    }

    /**
     * The loop of run(): poll, and sleep after each unsuccessful poll, until
     * a fresh folder turns up or a clock reading reaches `endTime`. The ghost
     * `trace` records every checkDirectory call.
     */
    method WaitForFreshFolder(dirPath: Option<string>, freshness: int, sleepTime: int, endTime: int)
      returns (r: Result<bool, JobError>, ghost trace: seq<Attempt>)
      requires forall k :: env.drift(k) >= 1
      modifies env
      // the attempts are checkDirectory on the listings taken, in order, each begun
      // where the clock stood and before endTime
      ensures Attempts(trace, env.hasFileSystem, dirPath, env.listing, old(env.polls), freshness, sleepTime, env.drift,
                       old(env.time) + env.drift(old(env.readings)), old(env.readings) + 1, endTime)
      ensures env.polls == old(env.polls) + (if env.hasFileSystem && PathGiven(dirPath) then |trace| else 0)
      // the result is the last attempt's
      ensures r == Ok(true) <==> trace != [] && trace[|trace| - 1].outcome.result == Ok(true)
      ensures r == Ok(false) ==> env.time >= endTime && forall k :: 0 <= k < |trace| ==> trace[k].outcome.result == Ok(false)
      ensures r.Err? && r != Err(NegativeSleep) ==> trace != [] && trace[|trace| - 1].outcome.result == r
      ensures r.Err? ==> r.error.NullFileSystem? || r.error.MissingPath? || r.error.MissingDirectory?
                         || r.error.ListingError? || r.error.NegativeSleep?
      ensures r == Err(NegativeSleep) ==> sleepTime < 0 && |trace| == 1 && trace[0].outcome.result == Ok(false)
      // with a negative sleepTime, the first miss ends the wait in the refused sleep
      ensures sleepTime < 0 && trace != [] && trace[0].outcome.result == Ok(false) ==> r == Err(NegativeSleep)
      // every attempt that found nothing is followed by one sleep of sleepTime
      ensures NapsAdded(old(env.naps), env.naps, sleepTime)
      ensures r.Ok? ==> |env.naps| - |old(env.naps)| == |trace| - (if r.value then 1 else 0)
      ensures r.Err? ==> |env.naps| - |old(env.naps)| == |trace| - 1
      // the clock ends at the reading that stopped the loop
      ensures r.Ok? ==> ClockAfter(trace, r.value, sleepTime, env.drift, old(env.time) + env.drift(old(env.readings)),
                                   old(env.readings) + 1, env.time, env.readings)
      // no attempt at all when the first reading is already past the deadline
      ensures old(env.time) + env.drift(old(env.readings)) >= endTime ==> trace == [] && r == Ok(false)
    {
      ghost var firstStart, firstReadings := old(env.time) + env.drift(old(env.readings)), old(env.readings) + 1;
      var folderFound := false;
      trace := [];
      var now := env.CurrentTimeMillis();
      while now < endTime && !folderFound
        invariant now == env.time && now >= firstStart
        invariant firstStart >= endTime ==> trace == []
        invariant Attempts(trace, env.hasFileSystem, dirPath, env.listing, old(env.polls), freshness, sleepTime, env.drift,
                           firstStart, firstReadings, endTime)
        invariant env.polls == old(env.polls) + |trace|
        invariant trace == [] || (env.hasFileSystem && PathGiven(dirPath))
        invariant trace != [] ==> trace[|trace| - 1].outcome.result.Ok?
        invariant ClockAfter(trace, folderFound, sleepTime, env.drift, firstStart, firstReadings, now, env.readings)
        invariant folderFound <==> trace != [] && trace[|trace| - 1].outcome.result == Ok(true)
        invariant !folderFound ==> forall k :: 0 <= k < |trace| ==> trace[k].outcome.result == Ok(false)
        invariant NapsAdded(old(env.naps), env.naps, sleepTime)
        invariant |env.naps| - |old(env.naps)| == |trace| - (if folderFound then 1 else 0)
        invariant sleepTime < 0 ==> env.naps == old(env.naps)
        decreases endTime - now
      {
        ghost var start, readings := env.time, env.readings;
        var found := CheckDirectory(dirPath, freshness);
        ghost var attempt := Attempt(start, readings, Poll(found, env.time, env.readings));
        AttemptsSnoc(trace, attempt, env.hasFileSystem, dirPath, env.listing, old(env.polls), freshness, sleepTime, env.drift,
                     firstStart, firstReadings, endTime);
        trace := trace + [attempt];
        if found.Err? {
          r := Err(found.error);
          return;
        }
        folderFound := found.value;
        if !folderFound {
          var ok := env.Sleep(sleepTime);
          if !ok {
            r := Err(NegativeSleep);
            return;
          }
        }
        now := env.CurrentTimeMillis();
      }
      r := Ok(folderFound);
    }

    /**
     * The rest of run() once the settings are read: the polling loop, then
     * the exception forceJobToFail asks for when no folder turned up.
     */
    method Conclude(dirPath: Option<string>, settings: Settings, endTime: int,
                    ghost firstReading: int, ghost firstReadings: nat, ghost pollsBefore: nat, ghost napsBefore: seq<int>)
      returns (r: Result<bool, JobError>, ghost trace: seq<Attempt>)
      requires forall k :: env.drift(k) >= 1
      // the ghost parameters name the loop's first clock reading and the state before it
      requires firstReading == env.time + env.drift(env.readings) && firstReadings == env.readings + 1
      requires pollsBefore == env.polls && napsBefore == env.naps
      modifies env
      ensures Concluded(r, trace, settings, endTime, env.hasFileSystem, dirPath, env.listing, env.drift,
                        pollsBefore, env.polls, napsBefore, env.naps, firstReading, firstReadings, env.time, env.readings)
    {
      var folderFound;
      folderFound, trace := WaitForFreshFolder(dirPath, settings.freshness, settings.sleepTime, endTime);
      if folderFound.Err? {
        r := folderFound;
        return;
      }
      if !folderFound.value && settings.failOnTimeout {
        r := Err(ForcedFailure);
        return;
      }
      r := folderFound;
    }

    /**
     * run(): read the settings, fix the deadline, wait for a fresh folder,
     * and on a timeout fail only when forceJobToFail says so. The ghost
     * `trace` records every checkDirectory call.
     */
    method Run() returns (r: Result<bool, JobError>, ghost trace: seq<Attempt>, ghost settings: Result<Settings, JobError>)
      requires forall k :: env.drift(k) >= 1
      modifies env
      ensures settings == Config()
      // a property that does not parse stops the job before any poll
      ensures settings.Err? ==> r == Err(settings.error) && trace == []
      ensures settings.Err? ==> env.polls == old(env.polls) && env.naps == old(env.naps)
      // otherwise the deadline is the first clock reading plus the timeout, and the
      // loop's first reading is the second one
      ensures settings.Ok? ==>
        Concluded(r, trace, settings.value, old(env.time) + env.drift(old(env.readings)) + settings.value.timeout,
                  env.hasFileSystem, properties.pathToDirectory, env.listing, env.drift,
                  old(env.polls), env.polls, old(env.naps), env.naps,
                  old(env.time) + env.drift(old(env.readings)) + env.drift(old(env.readings) + 1), old(env.readings) + 2,
                  env.time, env.readings)
      // no attempt at all when the deadline is not in the future
      ensures settings.Ok? && settings.value.timeout <= 0 ==>
        trace == [] && r == (if settings.value.failOnTimeout then Err(ForcedFailure) else Ok(false))
    {
      // the proof needs only that the settings read are Config(), not how Config parses them
      hide Config;
      trace := [];
      var config, start := ReadConfig();
      settings := config;
      if config.Err? {
        r := Err(config.error);
        return;
      }
      var endTime := start + config.value.timeout;
      r, trace := Conclude(properties.pathToDirectory, config.value, endTime,
                           old(env.time) + env.drift(old(env.readings)) + env.drift(old(env.readings) + 1),
                           old(env.readings) + 2, old(env.polls), old(env.naps));
    }
  }
}
