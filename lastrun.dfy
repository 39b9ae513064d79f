/**
 * The scheduling-drift check: the newest log line that starts with a
 * `YYYY-MM-DD HH:MM:SS` timestamp marks the last run, and a warning is due
 * when more than 40 minutes have passed since then.  Turning a timestamp into
 * a time is the clock's business and is given as a function that may refuse
 * a timestamp (an impossible date); times are in seconds.
 */
module LastRun {
  import opened Text
  import opened Config

  /** Length of a timestamp. */
  const StampLength: nat := 19

  /** The character class the timestamp pattern demands at position `k`. */
  predicate StampCharOk(k: nat, c: char) {
    if k == 4 || k == 7 then c == '-'
    else if k == 10 then c == ' '
    else if k == 13 || k == 16 then c == ':'
    else IsDigit(c)
  }

  /** `line` starts with a timestamp: `re.match` of the timestamp pattern succeeds on it. */
  predicate HasStamp(line: string) {
    |line| >= StampLength && forall k :: 0 <= k < StampLength ==> StampCharOk(k, line[k])
  }

  /** The newest line that starts with a timestamp: the reversed scan stops at the first one it meets. */
  function LatestStampLine(lines: seq<string>): (r: Option<nat>)
    ensures r.Some? ==> r.value < |lines| && HasStamp(lines[r.value])
    ensures r.Some? ==> forall j :: r.value < j < |lines| ==> !HasStamp(lines[j])
    ensures r.None? ==> forall j :: 0 <= j < |lines| ==> !HasStamp(lines[j])
  {
    if lines == [] then None
    else if HasStamp(lines[|lines| - 1]) then Some(|lines| - 1)
    else
      var r := LatestStampLine(lines[..|lines| - 1]);
      assert forall j :: 0 <= j < |lines| - 1 ==> lines[..|lines| - 1][j] == lines[j];
      r
  }

  /** What the check found. */
  datatype Drift =
    | NoHistory                 // no line of the log starts with a timestamp
    | Unparsable                // the newest timestamp names no real time
    | Checked(warned: bool)     // the time since the last run was measured

  /** More than the allowed interval, in minutes, has passed between `last` and `now`. */
  predicate Overdue(last: int, now: real) {
    (now - last as real) / 60.0 > MaxIntervalMinutes
  }

  /** The check over the log lines `lines`, with the clock reading `clock` and the time `now`. */
  function DriftOf(lines: seq<string>, clock: string -> Option<int>, now: real): Drift {
    match LatestStampLine(lines)
    case None => NoHistory
    case Some(i) =>
      match clock(lines[i][..StampLength])
      case None => Unparsable
      case Some(last) => Checked(Overdue(last, now))
  }

  /** The warning is due exactly when more than 2400 seconds have passed; exactly 40 minutes is on time. */
  lemma OverdueIff(last: int, now: real)
    ensures Overdue(last, now) <==> now - last as real > 2400.0
    ensures !Overdue(last, last as real + 2400.0)
  {
  }

  /** The check measures from the newest timestamped line; lines without a timestamp after it do not matter. */
  lemma DriftFromNewestStamp(lines: seq<string>, i: nat, clock: string -> Option<int>, now: real)
    requires i < |lines| && HasStamp(lines[i])
    requires forall j :: i < j < |lines| ==> !HasStamp(lines[j])
    ensures DriftOf(lines, clock, now) ==
              match clock(lines[i][..StampLength])
              case None => Unparsable
              case Some(last) => Checked(Overdue(last, now))
  {
    var r := LatestStampLine(lines);
    assert r.Some?;
  }

  /** `check_last_run`'s reversed scan, stopping at the first timestamped line it meets. */
  method CheckLastRun(lines: seq<string>, clock: string -> Option<int>, now: real) returns (d: Drift)
    ensures d == DriftOf(lines, clock, now)
  {
    var i := |lines|;
    while i > 0 && !HasStamp(lines[i - 1])
      invariant 0 <= i <= |lines|
      invariant forall j :: i <= j < |lines| ==> !HasStamp(lines[j])
    {
      i := i - 1;
    }
    if i == 0 {
      assert LatestStampLine(lines).None?;
      return NoHistory;
    }
    var found := i - 1;
    DriftFromNewestStamp(lines, found, clock, now);
    var stamp := lines[found][..StampLength];
    match clock(stamp)
    case None =>
      d := Unparsable;
    case Some(last) =>
      d := Checked((now - last as real) / 60.0 > MaxIntervalMinutes);
  }

  /** The message the run logs just before it checks for drift. */
  const RunModeMessage: string := "Run mode: Checking and updating DNS settings..."

  /** A line as the logger writes it: the timestamp, a colon, the message. */
  function LogLine(stamp: string, message: string): string {
    stamp + ": " + message + "\n"
  }

  /**
   * The check as the run performs it: after its own start message has been
   * appended, stamped with the current time `nowStamp`.
   */
  function DriftAsWritten(log: seq<string>, clock: string -> Option<int>, now: real, nowStamp: string): Drift {
    DriftOf(log + [LogLine(nowStamp, RunModeMessage)], clock, now)
  }

  /** A timestamp the logger writes: exactly the pattern's 19 characters. */
  predicate IsStamp(stamp: string) {
    |stamp| == StampLength && HasStamp(stamp)
  }

  /**
   * As written, the newest timestamp is always the run's own start message,
   * written just before the check (at most 40 minutes before it, however long
   * reading the log takes), so the warning can never be given, whatever the
   * log held before.
   */
  lemma AsWrittenNeverWarns(log: seq<string>, clock: string -> Option<int>, now: real, nowStamp: string, t: int)
    requires IsStamp(nowStamp) && clock(nowStamp) == Some(t)
    requires now - t as real <= 2400.0
    ensures DriftAsWritten(log, clock, now, nowStamp) == Checked(false)
  {
    var line := LogLine(nowStamp, RunModeMessage);
    var lines := log + [line];
    assert forall k :: 0 <= k < StampLength ==> line[k] == nowStamp[k];
    assert line[..StampLength] == nowStamp;
    DriftFromNewestStamp(lines, |lines| - 1, clock, now);
  }

  /**
   * Whenever the log before the run shows a missed schedule, the check as
   * written still stays silent.
   */
  lemma AsWrittenMissesDrift(log: seq<string>, clock: string -> Option<int>, now: real, nowStamp: string, t: int)
    requires IsStamp(nowStamp) && clock(nowStamp) == Some(t)
    requires now - t as real <= 2400.0
    requires DriftOf(log, clock, now) == Checked(true)
    ensures DriftAsWritten(log, clock, now, nowStamp) != DriftOf(log, clock, now)
  {
    AsWrittenNeverWarns(log, clock, now, nowStamp, t);
  }

  /** One such log: a single run logged an hour before this one. */
  lemma MissedDriftExample()
    ensures var log := [LogLine("2024-01-01 00:00:00", "Script completed.")];
            var clock := (stamp: string) => if stamp == "2024-01-01 00:00:00" then Some(0) else Some(3600);
            DriftOf(log, clock, 3600.0) == Checked(true)
            && DriftAsWritten(log, clock, 3600.0, "2024-01-01 01:00:00") == Checked(false)
  {
    var earlier := "2024-01-01 00:00:00";
    var log := [LogLine(earlier, "Script completed.")];
    var clock := (stamp: string) => if stamp == "2024-01-01 00:00:00" then Some(0) else Some(3600);
    assert forall k :: 0 <= k < StampLength ==> log[0][k] == earlier[k];
    assert log[0][..StampLength] == earlier;
    assert HasStamp(log[0]);
    DriftFromNewestStamp(log, 0, clock, 3600.0);
    AsWrittenNeverWarns(log, clock, 3600.0, "2024-01-01 01:00:00", 3600);
  }
}
