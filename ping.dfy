/**
 * The prober: one `ping -c 2` of an address, read through its exit status and
 * the summary line `rtt min/avg/max/mdev = a/b/c/d ms`.  A probe is reachable
 * only when ping exits 0 and the average `b` of the first summary is a number;
 * otherwise it is unreachable, which stands for the script's infinite latency.
 */
module Ping {
  import opened Text

  /** What a ping run gave back: nothing (timeout, or the command could not start) or an exit status and its standard output. */
  datatype PingOutput = NoOutput | Exited(code: int, stdout: string)

  /** The outcome of one probe; an unreachable server has no latency. */
  datatype ProbeResult = Reachable(dns: string, latency: real) | Unreachable(dns: string)

  const SummaryLead: string := "rtt min/avg/max/mdev = "

  /** `[\d.]`, with `\d` restricted to ASCII digits. */
  predicate IsDecChar(c: char) { IsDigit(c) || c == '.' }

  /**
   * One match of the summary pattern: it starts at `start`, the four
   * `[\d.]+` fields end at `aEnd`, `bEnd`, `cEnd` and `dEnd`, each of the
   * first three followed by `/` and the last by ` ms`.
   */
  datatype SummaryMatch = SummaryMatch(start: nat, aEnd: nat, bEnd: nat, cEnd: nat, dEnd: nat)

  /** A non-empty run of `[\d.]` characters from `lo` to `hi`. */
  predicate DecRun(s: string, lo: nat, hi: nat) {
    lo < hi <= |s| && AllIn(s, lo, hi, DecChar)
  }

  /** The pattern read declaratively: `m` places every part of it in `s`. */
  predicate IsSummaryMatch(s: string, m: SummaryMatch) {
    && HasAt(s, m.start, SummaryLead)
    && DecRun(s, m.start + |SummaryLead|, m.aEnd) && HasAt(s, m.aEnd, "/")
    && DecRun(s, m.aEnd + 1, m.bEnd) && HasAt(s, m.bEnd, "/")
    && DecRun(s, m.bEnd + 1, m.cEnd) && HasAt(s, m.cEnd, "/")
    && DecRun(s, m.cEnd + 1, m.dEnd) && HasAt(s, m.dEnd, " ms")
  }

  /** End of the maximal `[\d.]` run starting at `i`. */
  function DecEnd(s: string, i: nat): nat
    requires i <= |s|
  {
    i + Span(s, i, DecChar)
  }

  /** The separators after the four fields: `/`, `/`, `/` and ` ms`. */
  const Separators: seq<string> := ["/", "/", "/", " ms"]

  /**
   * Fields `[\d.]+` followed by the separators `seps` in turn, from position
   * `i`: `es` lists where each field ends.
   */
  predicate FieldsMatch(s: string, i: nat, seps: seq<string>, es: seq<nat>)
    decreases seps
  {
    |es| == |seps| &&
    (seps != [] ==> DecRun(s, i, es[0]) && HasAt(s, es[0], seps[0])
                    && FieldsMatch(s, es[0] + |seps[0]|, seps[1..], es[1..]))
  }

  /** The matcher for a chain of fields: each field is the maximal `[\d.]` run, and must be followed by its separator. */
  function Fields(s: string, i: nat, seps: seq<string>): (r: Option<seq<nat>>)
    requires i <= |s|
    ensures r.Some? ==> FieldsMatch(s, i, seps, r.value)
    decreases seps
  {
    if seps == [] then Some([])
    else
      var e := DecEnd(s, i);
      SpanFacts(s, i, DecChar);
      if e == i || !HasAt(s, e, seps[0]) then None
      else match Fields(s, e + |seps[0]|, seps[1..])
        case None => None
        case Some(rest) => Some([e] + rest)
  }

  /**
   * When no separator starts with a `[\d.]` character, a field cannot stretch
   * over its separator, so every chain of fields that matches is the one the
   * matcher finds.
   */
  lemma {:induction false} FieldsComplete(s: string, i: nat, seps: seq<string>, es: seq<nat>)
    requires i <= |s| && FieldsMatch(s, i, seps, es)
    requires forall k :: 0 <= k < |seps| ==> seps[k] != [] && !IsDecChar(seps[k][0])
    ensures Fields(s, i, seps) == Some(es)
    decreases seps
  {
    if seps != [] {
      FieldEndsAtSeparator(s, i, es[0], seps[0]);
      FieldsComplete(s, es[0] + |seps[0]|, seps[1..], es[1..]);
      assert [es[0]] + es[1..] == es;
    }
  }

  /** A field followed by a separator that does not start with `[\d.]` ends where the maximal run ends. */
  lemma FieldEndsAtSeparator(s: string, i: nat, e: nat, sep: string)
    requires DecRun(s, i, e) && HasAt(s, e, sep) && sep != [] && !IsDecChar(sep[0])
    ensures DecEnd(s, i) == e
  {
    assert s[e] == sep[0];
    DecRunEnd(s, i, e);
  }

  /** The summary's four fields, read as a chain. */
  lemma SummaryFields(s: string, m: SummaryMatch, es: seq<nat>)
    requires HasAt(s, m.start, SummaryLead)
    requires es == [m.aEnd, m.bEnd, m.cEnd, m.dEnd]
    ensures FieldsMatch(s, m.start + |SummaryLead|, Separators, es) <==> IsSummaryMatch(s, m)
  {
    assert es[1..][1..][1..][1..] == [];
    assert Separators[1..][1..][1..] == [" ms"];
  }

  /** The match of the summary pattern that starts at position `i`, if there is one. */
  function SummaryAt(s: string, i: nat): (r: Option<SummaryMatch>)
    ensures r.Some? ==> IsSummaryMatch(s, r.value) && r.value.start == i
  {
    if !HasAt(s, i, SummaryLead) then None
    else match Fields(s, i + |SummaryLead|, Separators)
      case None => None
      case Some(es) =>
        var m := SummaryMatch(i, es[0], es[1], es[2], es[3]);
        assert IsSummaryMatch(s, m) by { SummaryFields(s, m, es); }
        Some(m)
  }

  /** A match of the pattern is the one the matcher finds at its start. */
  lemma SummaryAtComplete(s: string, m: SummaryMatch)
    requires IsSummaryMatch(s, m)
    ensures SummaryAt(s, m.start) == Some(m)
  {
    var es := [m.aEnd, m.bEnd, m.cEnd, m.dEnd];
    SummaryFields(s, m, es);
    FieldsComplete(s, m.start + |SummaryLead|, Separators, es);
  }

  lemma DecRunEnd(s: string, lo: nat, hi: nat)
    requires DecRun(s, lo, hi) && hi < |s| && !IsDecChar(s[hi])
    ensures DecEnd(s, lo) == hi
  {
    SpanExact(s, lo, hi - lo, DecChar);
  }

  /** `re.search`: the leftmost position at or after `from` where the pattern matches. */
  function SearchSummary(s: string, from: nat): (r: Option<SummaryMatch>)
    requires from <= |s|
    ensures r.Some? ==> from <= r.value.start && SummaryAt(s, r.value.start) == r
    decreases |s| - from
  {
    var here := SummaryAt(s, from);
    if here.Some? then here
    else if from == |s| then None
    else SearchSummary(s, from + 1)
  }

  /** No match starts before the one the search returns, and when it returns none there is no match at all. */
  lemma {:induction false} SearchSummaryFirst(s: string, from: nat)
    requires from <= |s|
    ensures SearchSummary(s, from).Some? ==>
              forall j :: from <= j < SearchSummary(s, from).value.start ==> SummaryAt(s, j).None?
    ensures SearchSummary(s, from).None? ==> forall j :: from <= j <= |s| ==> SummaryAt(s, j).None?
    decreases |s| - from
  {
    var here := SummaryAt(s, from);
    if here.Some? {
      assert SearchSummary(s, from) == here && here.value.start == from;
    } else if from < |s| {
      SearchSummaryFirst(s, from + 1);
      var r := SearchSummary(s, from);
      assert r == SearchSummary(s, from + 1);
      forall j | from <= j && (if r.Some? then j < r.value.start else j <= |s|)
        ensures SummaryAt(s, j).None?
      {
        if j == from {
          assert SummaryAt(s, j) == here;
        }
      }
    } else {
      assert SearchSummary(s, from).None?;
    }
  }

  /** The search returns the match that starts leftmost among all matches of the pattern, and fails only when there is none. */
  lemma SearchIsLeftmost(s: string)
    ensures SearchSummary(s, 0).Some? ==>
              IsSummaryMatch(s, SearchSummary(s, 0).value)
              && forall m' :: IsSummaryMatch(s, m') ==> SearchSummary(s, 0).value.start <= m'.start
    ensures SearchSummary(s, 0).None? ==> forall m' :: !IsSummaryMatch(s, m')
  {
    var r := SearchSummary(s, 0);
    SearchSummaryFirst(s, 0);
    forall m' | IsSummaryMatch(s, m')
      ensures r.Some? && r.value.start <= m'.start
    {
      SummaryAtComplete(s, m');
    }
  }

  /** Value of a string of ASCII digits, most significant first. */
  function DigitsValue(t: string): nat
    requires AllIn(t, 0, |t|, Digit)
  {
    if t == [] then 0
    else
      assert InClass(t[|t| - 1], Digit);
      10 * DigitsValue(t[..|t| - 1]) + ((t[|t| - 1] as int) - ('0' as int))
  }

  function Pow10(n: nat): (p: nat)
    ensures p > 0
  {
    if n == 0 then 1 else 10 * Pow10(n - 1)
  }

  /** Number of decimal points in `t`. */
  function Points(t: string): nat {
    if t == [] then 0 else (if t[0] == '.' then 1 else 0) + Points(t[1..])
  }

  /**
   * Python's `float()` of a `[\d.]+` token: the token is a number when it has
   * at most one point and at least one digit; otherwise `float` raises.
   */
  function ParseDecimal(t: string): (r: Option<real>)
    requires AllIn(t, 0, |t|, DecChar)
    ensures r.Some? ==> r.value >= 0.0
    ensures r.Some? <==> Points(t) <= 1 && Points(t) < |t|
  {
    var p := Span(t, 0, Digit);
    SpanFacts(t, 0, Digit);
    PointsOfDigits(t, 0, p);
    if p == |t| then
      assert t[0..p] == t;
      if t == [] then None else Some(DigitsValue(t) as real)
    else
      var whole, frac := t[..p], t[p + 1..];
      assert InClass(t[p], DecChar);
      PointsSplit(t, p);
      if Points(frac) > 0 then None
      else if p == 0 && frac == [] then None
      else
        NoPointsAllDigits(t, p + 1);
        Some(DigitsValue(whole) as real + (DigitsValue(frac) as real) / (Pow10(|frac|) as real))
  }

  lemma PointsOfDigits(t: string, i: nat, n: nat)
    requires i + n <= |t| && AllIn(t, i, i + n, Digit)
    ensures Points(t[i..i + n]) == 0
    decreases n
  {
    if n > 0 {
      assert InClass(t[i], Digit);
      assert t[i..i + n][1..] == t[i + 1..i + n];
      PointsOfDigits(t, i + 1, n - 1);
    }
  }

  lemma {:induction false} PointsAppend(a: string, b: string)
    ensures Points(a + b) == Points(a) + Points(b)
  {
    if a == [] {
      assert a + b == b;
    } else {
      assert (a + b)[1..] == a[1..] + b;
      PointsAppend(a[1..], b);
    }
  }

  /** Splitting at the first point `t[p]` after a run of digits. */
  lemma PointsSplit(t: string, p: nat)
    requires p < |t| && t[p] == '.' && Points(t[..p]) == 0
    ensures Points(t) == 1 + Points(t[p + 1..])
  {
    assert t == t[..p] + ([t[p]] + t[p + 1..]);
    PointsAppend(t[..p], [t[p]] + t[p + 1..]);
    PointsAppend([t[p]], t[p + 1..]);
  }

  lemma NoPointsAllDigits(t: string, i: nat)
    requires i <= |t| && AllIn(t, i, |t|, DecChar) && Points(t[i..]) == 0
    ensures AllIn(t[i..], 0, |t| - i, Digit)
    decreases |t| - i
  {
    if i < |t| {
      assert InClass(t[i], DecChar);
      assert t[i..][1..] == t[i + 1..];
      NoPointsAllDigits(t, i + 1);
      forall k | 0 <= k < |t| - i ensures InClass(t[i..][k], Digit) {
        if k > 0 {
          assert t[i..][k] == t[i + 1..][k - 1];
        }
      }
    }
  }

  /** The average field of a match, the pattern's one group, read by `float`. */
  function AvgLatency(s: string, m: SummaryMatch): (r: Option<real>)
    requires IsSummaryMatch(s, m)
    ensures r.Some? ==> r.value >= 0.0
  {
    var t := s[m.aEnd + 1..m.bEnd];
    assert AllIn(t, 0, |t|, DecChar) by {
      forall k | 0 <= k < |t| ensures InClass(t[k], DecChar) {
        assert t[k] == s[m.aEnd + 1 + k];
      }
    }
    ParseDecimal(t)
  }

  /** `m` is the match `re.search` reports: no match starts further left. */
  ghost predicate IsLeftmostSummary(s: string, m: SummaryMatch) {
    IsSummaryMatch(s, m) && forall m' :: IsSummaryMatch(s, m') ==> m.start <= m'.start
  }

  /** There is only one leftmost match, since a match is fixed by where it starts. */
  lemma LeftmostUnique(s: string, m: SummaryMatch, m': SummaryMatch)
    requires IsLeftmostSummary(s, m) && IsLeftmostSummary(s, m')
    ensures m == m'
  {
    SummaryAtComplete(s, m);
    SummaryAtComplete(s, m');
  }

  /** `test_dns_server`: reachable with the average latency, or unreachable. */
  function TestDnsServer(dns: string, out: PingOutput): (r: ProbeResult)
    ensures r.dns == dns
    ensures r.Reachable? ==> r.latency >= 0.0
  {
    match out
    case NoOutput => Unreachable(dns)
    case Exited(code, stdout) =>
      if code != 0 then Unreachable(dns)
      else
        match SearchSummary(stdout, 0)
        case None => Unreachable(dns)
        case Some(m) =>
          match AvgLatency(stdout, m)
          case None => Unreachable(dns)
          case Some(v) => Reachable(dns, v)
  }

  /**
   * A probe is reachable exactly when ping exited 0 and the average field of
   * the leftmost summary in its output is a number; the latency is then that
   * number.
   */
  lemma ProbeReachableIff(dns: string, out: PingOutput)
    ensures TestDnsServer(dns, out).Reachable? <==>
              out.Exited? && out.code == 0
              && exists m :: IsLeftmostSummary(out.stdout, m) && AvgLatency(out.stdout, m).Some?
    ensures forall m :: TestDnsServer(dns, out).Reachable? && IsLeftmostSummary(out.stdout, m) ==>
              AvgLatency(out.stdout, m) == Some(TestDnsServer(dns, out).latency)
  {
    if out.Exited? && out.code == 0 {
      var s := out.stdout;
      SearchIsLeftmost(s);
      var r := SearchSummary(s, 0);
      if r.Some? {
        assert IsLeftmostSummary(s, r.value);
        forall m | IsLeftmostSummary(s, m) ensures m == r.value {
          LeftmostUnique(s, m, r.value);
        }
      }
    }
  }

  /** Without a summary line, or with a non-zero exit, or without any output, the server is unreachable. */
  lemma NoSummaryUnreachable(dns: string, out: PingOutput)
    requires out.NoOutput? || out.code != 0 || forall m :: !IsSummaryMatch(out.stdout, m)
    ensures TestDnsServer(dns, out) == Unreachable(dns)
  {
    if out.Exited? && out.code == 0 {
      SearchIsLeftmost(out.stdout);
    }
  }
}
