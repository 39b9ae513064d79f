/**
 * The scheduler entry rewrite of the setup: every line of the current
 * crontab that mentions the installed script's path is dropped, the others
 * are kept in order, and the job line that runs the script every 30 minutes
 * is appended once at the end.
 */
module Cron {
  import opened Text
  import opened Config

  /** A line the rewrite keeps: one that does not mention the script's path. */
  predicate KeepLine(line: string) {
    !Contains(line, ScriptPath)
  }

  /** The lines of `lines` that the rewrite keeps, in their order. */
  function Kept(lines: seq<string>): seq<string> {
    if lines == [] then []
    else Kept(lines[..|lines| - 1]) + (if KeepLine(lines[|lines| - 1]) then [lines[|lines| - 1]] else [])
  }

  /** The new crontab: the kept lines, then the job line. */
  function Rewritten(lines: seq<string>): seq<string> {
    Kept(lines) + [CronJob]
  }

  /** The job line mentions the script's path, so a later rewrite replaces it. */
  lemma JobMentionsScript()
    ensures !KeepLine(CronJob)
  {
    ContainsInfix("*/30 * * * * /usr/bin/python3 ", ScriptPath, " --run");
  }

  /** Filtering a concatenation filters each part: the kept lines stay in their order. */
  lemma {:induction false} KeptAppend(a: seq<string>, b: seq<string>)
    ensures Kept(a + b) == Kept(a) + Kept(b)
    decreases |b|
  {
    if b == [] {
      assert a + b == a;
    } else {
      var b' := b[..|b| - 1];
      assert (a + b)[..|a + b| - 1] == a + b';
      KeptAppend(a, b');
    }
  }

  /** A line survives exactly when it was there and does not mention the script. */
  lemma {:induction false} KeptMembers(lines: seq<string>, x: string)
    ensures x in Kept(lines) <==> x in lines && KeepLine(x)
    decreases |lines|
  {
    if lines != [] {
      var p := lines[..|lines| - 1];
      KeptMembers(p, x);
      assert lines == p + [lines[|lines| - 1]];
    }
  }

  /** Lines that do not mention the script all survive, unchanged and in order. */
  lemma {:induction false} KeptUnchanged(lines: seq<string>)
    requires forall i :: 0 <= i < |lines| ==> KeepLine(lines[i])
    ensures Kept(lines) == lines
    decreases |lines|
  {
    if lines != [] {
      var p, last := lines[..|lines| - 1], lines[|lines| - 1];
      forall i | 0 <= i < |p| ensures KeepLine(p[i]) {
        assert p[i] == lines[i];
      }
      KeptUnchanged(p);
      assert KeepLine(last);
      assert Kept(lines) == Kept(p) + [last];
      assert p + [last] == lines;
    }
  }

  /** Filtering twice is filtering once. */
  lemma KeptIdempotent(lines: seq<string>)
    ensures Kept(Kept(lines)) == Kept(lines)
  {
    var k := Kept(lines);
    forall i | 0 <= i < |k| ensures KeepLine(k[i]) {
      KeptMembers(lines, k[i]);
    }
    KeptUnchanged(k);
  }

  /**
   * The new crontab holds exactly one line that mentions the script, the job
   * line, and it is the last one.
   */
  lemma RewrittenHasOneJob(lines: seq<string>)
    ensures var r := Rewritten(lines);
            |r| > 0 && r[|r| - 1] == CronJob && !KeepLine(r[|r| - 1])
            && forall i :: 0 <= i < |r| - 1 ==> KeepLine(r[i])
  {
    JobMentionsScript();
    var k := Kept(lines);
    forall i | 0 <= i < |k| ensures KeepLine(k[i]) {
      KeptMembers(lines, k[i]);
    }
  }

  /** Running the setup again leaves the crontab as it is. */
  lemma RewriteIdempotent(lines: seq<string>)
    ensures Rewritten(Rewritten(lines)) == Rewritten(lines)
  {
    JobMentionsScript();
    KeptAppend(Kept(lines), [CronJob]);
    assert [CronJob][..0] == [];
    assert Kept([CronJob]) == [];
    KeptIdempotent(lines);
  }

  /** A crontab without the script's entry gets the job line appended and nothing else changes. */
  lemma FirstSetupAppends(lines: seq<string>)
    requires forall i :: 0 <= i < |lines| ==> KeepLine(lines[i])
    ensures Rewritten(lines) == lines + [CronJob]
  {
    KeptUnchanged(lines);
  }

  /** `setup_cron`'s loop: write every line that does not mention the script, then the job line. */
  method SetupCronLines(current: seq<string>) returns (written: seq<string>)
    ensures written == Rewritten(current)
  {
    written := [];
    var i := 0;
    while i < |current|
      invariant 0 <= i <= |current|
      invariant written == Kept(current[..i])
    {
      var line := current[i];
      if !Contains(line, ScriptPath) {
        written := written + [line];
      }
      assert current[..i + 1][..i] == current[..i];
      i := i + 1;
    }
    assert current[..i] == current;
    written := written + [CronJob];
  }
}
