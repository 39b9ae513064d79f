# DNS auto-selection script, modelled in Dafny

This project models `setup_and_update_dns.py`. The script runs every 30
minutes from cron. On each run it:

- checks the log for a missed schedule;
- pings a connectivity host;
- lists the network interfaces from `ip link`;
- for every interface that is UP, reads its current resolver from
  `resolvectl status`, pings it, and, when it is unreachable or slower than
  100 ms, pings the whole pool of 25 servers and applies the fastest
  reachable one. When none answers, it applies the fallback `1.1.1.1`.

Its setup mode installs the cron entry, replacing earlier entries for the
script.

The modules follow the script's functions:

| module | file | models |
|---|---|---|
| `Config` | config.dfy | the constants: threshold, interval, script path, cron line, pool, fallback, connectivity host |
| `Text` | text.dfy | the string operations the parsers use: `in`, `split(":")[1]`, `split()`, character classes |
| `Links` | links.dfy | `get_active_interfaces`: the `ip link` regular expression, matched exactly, and the loop over lines |
| `Ping` | ping.dfy | `test_dns_server`: exit status, `re.search` of the rtt summary (leftmost match), `float()` of the average |
| `Resolvectl` | resolvectl.dfy | `get_current_dns`: the lines mentioning `DNS Servers`, the IndexError path, the first server |
| `Cron` | cron.dfy | `setup_cron`'s rewrite of the crontab lines |
| `LastRun` | lastrun.dfy | `check_last_run`: the newest timestamped log line and the 40-minute test |
| `Selection` | selection.dfy | the threshold test and the choice: keep reachable results, stable sort by latency, take the head |
| `Coordinator` | coordinator.dfy | `set_dns_server` and `main`'s run mode, as a trace of the commands issued |

The outside world is a value `Env`:

- the log lines;
- a clock that turns a timestamp into seconds, or refuses it;
- the current time;
- the `ip link` lines;
- three oracles for `ping`, `resolvectl status` and the three commands that
  apply a server.

Each oracle is asked with the position its command takes in the run's trace,
so the same question may get a different answer later in the run. The run
(`Coordinator.Run`, a method with the script's loops) is proved equal to a
functional specification (`Coordinator.RunSpec`). The properties below are
proved about that specification.

Three notes on how the model reads the script:

- The drift check reads the log as it was before the run. As written,
  `main` logs its start line before the check, so the check always finds
  that fresh line and never warns (see "## Findings"). The model uses the
  evidently intended order. Its warning message at
  `setup_and_update_dns.py:115` says the scheduler may have failed, which
  only makes sense when measured from an earlier run.
- With that order, a newest timestamp that `strptime` rejects raises an
  error that nothing in `main` catches; the top-level handler logs it and
  exits with status 1, which ends the run. The model's
  outcome `Aborted` stands for this. The script as written cannot reach this
  path, because its own fresh timestamp always parses.
- `resolvectl status` may list IPv6 servers. The code's `split(":")` cuts
  such an address at its first colon, and the model does the same
  (`Resolvectl.Ipv6Truncated`).

## Model

| member | source | states |
|---|---|---|
| Config.FallbackInPool | setup_and_update_dns.py:18-47 | the pool has 25 servers, the fallback is its first member, and the connectivity host is not in it |
| Config.PoolDistinct | setup_and_update_dns.py:18-44 | no address appears twice in the pool |
| Text.ContainsIff | setup_and_update_dns.py:176 | `p in s` holds exactly when `p` occurs at some position of `s` |
| Text.ColonField | setup_and_update_dns.py:177 | `split(":")[1]` fails exactly when there is no colon, and a field it gives holds no colon |
| Text.ColonFieldSplit | setup_and_update_dns.py:177 | the field is the text right after the first colon, up to the next colon or the end |
| Text.Words | setup_and_update_dns.py:177 | every word `split()` yields is non-empty and free of whitespace; where each word ends is stated by `WordsFirst` |
| Text.WordsKeepEverythingElse | setup_and_update_dns.py:177 | joining the words of `split()` gives back exactly the non-whitespace characters, in order |
| Text.WordsFirst | setup_and_update_dns.py:177-181 | a non-empty run of non-whitespace after leading whitespace and before whitespace or the end is the first word of `split()`, and the other words come from what follows, so the current server is the first whitespace-delimited token |
| Text.WordsEmptyIff | setup_and_update_dns.py:177 | `split()` gives no word exactly when the text is all whitespace |
| Links.StateWordIff | setup_and_update_dns.py:129 | the state word read at a position is `UP` or `DOWN` exactly when `state UP` or `state DOWN` occurs there, so at most one of them does |
| Links.LastStateFromFacts | setup_and_update_dns.py:129 | the search for the state word finds the last one in its range: none starts after it, and none at all when it finds nothing |
| Links.MatchLinkAtSound | setup_and_update_dns.py:129 | whatever the matcher returns is a match of the link pattern (number, name, flags, then `state UP` or `state DOWN`) at the start of the line |
| Links.MatchLinkAtComplete | setup_and_update_dns.py:129 | every line the pattern matches is matched, and every match agrees with the matcher's on the number, name and flags, and none has its state word further right (greedy `.*`) |
| Links.MatchLink | setup_and_update_dns.py:129-131 | the interface a line describes: the captured name and state of the matcher's result, or none when the pattern does not match at the line's start (properties in `MatchLinkAtSound`, `MatchLinkAtComplete`, `MatchLinkName`) |
| Links.MatchLinkName | setup_and_update_dns.py:129-131 | the captured name is a non-empty run of word characters |
| Links.ParseLinks | setup_and_update_dns.py:127-135 | the interface list of a listing: each line's matched interface, in line order, loopback left out (properties in `ParseLinksAppend`, `ParseLinksMembers`, `NoLoopback`) |
| Links.ParseLinksAppend | setup_and_update_dns.py:127-135 | parsing a concatenation of listings concatenates the interface lists, so listing order is kept |
| Links.LineInterfacesIff | setup_and_update_dns.py:129-135 | a line contributes an interface exactly when it matches with that interface and the name is not `lo` |
| Links.ParseLinksMembers | setup_and_update_dns.py:127-135 | an interface is listed exactly when some line matches with its name and state and the name is not `lo` |
| Links.NoLoopback | setup_and_update_dns.py:134-135 | `lo` is never listed, whatever the link listing holds |
| Links.ListedNamesAreWords | setup_and_update_dns.py:129-135 | every listed name is a non-empty run of word characters |
| Links.GetActiveInterfaces | setup_and_update_dns.py:118-136 | the loop over the lines returns the parsed interface list, which holds no `lo` |
| Ping.FieldsComplete | setup_and_update_dns.py:154 | any chain of `[\d.]+` fields with the summary's separators is the one the matcher finds |
| Ping.SummaryAtComplete | setup_and_update_dns.py:154 | a match of the rtt summary pattern is the one the matcher finds at its start |
| Ping.SearchSummaryFirst | setup_and_update_dns.py:154 | the search from a position finds the match that starts first at or after it, or reports none when there is none |
| Ping.SearchSummary | setup_and_update_dns.py:154 | the search from a position returns a match that starts at or after it, and it is the match the pattern gives at that start |
| Ping.SearchIsLeftmost | setup_and_update_dns.py:154 | `re.search` returns the leftmost match of the summary pattern, and fails only when there is none |
| Ping.LeftmostUnique | setup_and_update_dns.py:154 | there is only one leftmost match |
| Ping.ParseDecimal | setup_and_update_dns.py:156 | `float()` of a `[\d.]+` token succeeds exactly when it has at most one point and at least one digit, and gives a non-negative value |
| Ping.AvgLatency | setup_and_update_dns.py:156 | `float()` of the summary's average field: a value, when it parses, is non-negative (when it parses is stated in `ParseDecimal` and `ProbeReachableIff`) |
| Ping.TestDnsServer | setup_and_update_dns.py:142-163 | the result names the probed server, and a reachable result has a non-negative latency |
| Ping.ProbeReachableIff | setup_and_update_dns.py:151-163 | a probe is reachable exactly when ping exited 0 and the average field of the leftmost summary parses, and the latency is then that value |
| Ping.NoSummaryUnreachable | setup_and_update_dns.py:151-163 | no output, a non-zero exit or no summary line makes the server unreachable |
| Resolvectl.LineServers | setup_and_update_dns.py:176-178 | a line fails exactly when it mentions `DNS Servers` but has no colon; a line that does not mention it contributes nothing |
| Resolvectl.CollectAppend | setup_and_update_dns.py:175-178 | reading a listing in two parts joins the servers of each part in order |
| Resolvectl.CollectFailsIff | setup_and_update_dns.py:175-178 | reading fails exactly when some line cannot be read |
| Resolvectl.StatusFailsIff | setup_and_update_dns.py:175-187 | the reading yields nothing exactly when some line mentions `DNS Servers` without a colon (the IndexError) |
| Resolvectl.ServersAreWords | setup_and_update_dns.py:177-178 | every collected server is a non-empty word without whitespace |
| Resolvectl.CurrentDns | setup_and_update_dns.py:179-184 | the current server: the first collected server, or none when nothing was collected or a line could not be read (properties in `CurrentDnsIsWord`, `FirstListingLineWins`, `StatusFailsIff`) |
| Resolvectl.CurrentDnsIsWord | setup_and_update_dns.py:179-181 | a current server, when found, is a non-empty word, so `not current_dns` is only true for no server |
| Resolvectl.NoLabelNoServer | setup_and_update_dns.py:174-184 | output that never mentions `DNS Servers` gives no server |
| Resolvectl.FirstListingLineWins | setup_and_update_dns.py:175-181 | the first server of the first line that lists any is the current server, provided no later line is malformed |
| Resolvectl.Ipv6Truncated | setup_and_update_dns.py:177 | of a listed `a:b` only `a` is reported |
| Resolvectl.GetCurrentDns | setup_and_update_dns.py:166-187 | the loop computes the first collected server, or none on an empty list or a malformed line |
| Cron.Kept | setup_and_update_dns.py:91-93 | the crontab lines that do not mention the script path, in order (properties in `KeptMembers`, `KeptAppend`, `KeptIdempotent`) |
| Cron.Rewritten | setup_and_update_dns.py:90-94 | the new crontab: the kept lines, then the job line (properties in `RewrittenHasOneJob`, `RewriteIdempotent`) |
| Cron.JobMentionsScript | setup_and_update_dns.py:78 | the cron line mentions the script path, so a later setup removes it |
| Cron.KeptAppend | setup_and_update_dns.py:91-93 | filtering a concatenation filters each part, keeping the order |
| Cron.KeptMembers | setup_and_update_dns.py:91-93 | a line survives exactly when it was present and does not mention the script path |
| Cron.KeptUnchanged | setup_and_update_dns.py:91-93 | lines that do not mention the script all survive, unchanged and in order |
| Cron.KeptIdempotent | setup_and_update_dns.py:91-93 | filtering twice is filtering once |
| Cron.RewrittenHasOneJob | setup_and_update_dns.py:90-94 | the new crontab holds exactly one line mentioning the script, the job line, and it is the last |
| Cron.RewriteIdempotent | setup_and_update_dns.py:90-94 | running the setup a second time leaves the crontab as it is |
| Cron.FirstSetupAppends | setup_and_update_dns.py:90-94 | a crontab without the script's entry only gains the job line at the end |
| Cron.SetupCronLines | setup_and_update_dns.py:90-94 | the loop writes the kept lines, then the job line |
| LastRun.LatestStampLine | setup_and_update_dns.py:107-111 | the reversed scan finds the newest line starting with a timestamp, or none when no line does |
| LastRun.DriftOf | setup_and_update_dns.py:107-114 | the drift verdict over the log: no history without a timestamped line, unparsable when the newest stamp names no time, otherwise whether more than 40 minutes have passed (properties in `DriftFromNewestStamp`, `OverdueIff`) |
| LastRun.OverdueIff | setup_and_update_dns.py:112-114 | the warning is due exactly when more than 2400 seconds have passed; exactly 40 minutes is on time |
| LastRun.DriftFromNewestStamp | setup_and_update_dns.py:107-114 | the check measures from the newest timestamped line, whatever follows it |
| LastRun.CheckLastRun | setup_and_update_dns.py:102-115 | the loop's verdict is that of the newest timestamp: no history, unparsable, or whether it is overdue |
| LastRun.DriftAsWritten | setup_and_update_dns.py:250-251 | the drift check in the script's own order: over the log after the run's start line has been appended (its consequences are `AsWrittenNeverWarns`, `AsWrittenMissesDrift`, `MissedDriftExample`) |
| LastRun.AsWrittenNeverWarns | setup_and_update_dns.py:250-251 | with the run's own start line logged first, the check can never warn |
| LastRun.AsWrittenMissesDrift | setup_and_update_dns.py:250-251 | whenever the earlier log shows a missed schedule, the check as written stays silent |
| LastRun.MissedDriftExample | setup_and_update_dns.py:250-251 | a log whose last run was an hour ago: the check over it warns, the check as written does not |
| Selection.NeedsUpdate | setup_and_update_dns.py:297 | the current server is replaced when it is unreachable or slower than the threshold (boundary in `ThresholdStrict`) |
| Selection.ThresholdStrict | setup_and_update_dns.py:297 | an update is needed exactly when the server is unreachable or its latency exceeds 100 ms; exactly 100 ms is kept |
| Selection.ReachablesMembers | setup_and_update_dns.py:311 | a result is kept exactly when it was probed and is reachable |
| Selection.ReachablesEmptyIff | setup_and_update_dns.py:311-314 | nothing is kept exactly when no result is reachable |
| Selection.SortByLatency | setup_and_update_dns.py:312 | the sort keeps every result, with the same multiplicity |
| Selection.InsertSorted | setup_and_update_dns.py:312 | inserting into a latency-ordered list keeps it ordered |
| Selection.SortIsSortedPermutation | setup_and_update_dns.py:312 | the sort's output is ordered by latency and is a permutation of its input |
| Selection.Fastest | setup_and_update_dns.py:311-315 | the chosen server: the head of the stable latency sort of the reachable results, or none (properties in `FastestNoneIff`, `FastestIsEarliestMinimum`, `FastestIsScan`) |
| Selection.FastestNoneIff | setup_and_update_dns.py:311-315 | no server is chosen exactly when no result is reachable |
| Selection.FastestIsEarliestMinimum | setup_and_update_dns.py:311-315 | the chosen result has minimal latency among the reachable ones, and every reachable result before it is strictly slower (ties go to pool order) |
| Selection.FastestIsScan | setup_and_update_dns.py:311-315 | sorting and taking the head chooses what a single pass keeping the first fastest result chooses |
| Selection.FastestCons | setup_and_update_dns.py:311-315 | the first result wins unless it is unreachable or a later one is strictly faster |
| Selection.EarliestFastestUnique | setup_and_update_dns.py:311-315 | the choice is unique: only one position is the earliest fastest |
| Coordinator.ProbeAt | setup_and_update_dns.py:295 | a probe result names its server, and is reachable exactly when the world gives a latency |
| Coordinator.ProbeAtIsTest | setup_and_update_dns.py:142-163 | the world's probe is the result `test_dns_server` reports for ping's output |
| Coordinator.ProbeAll | setup_and_update_dns.py:307-309 | the pool probes are one per server, in pool order |
| Coordinator.PoolResults | setup_and_update_dns.py:306-309 | one result per pool server: result `j` is the probe of pool server `j`, issued as command `k + j` |
| Coordinator.SetDnsServer | setup_and_update_dns.py:190-218 | success exactly when all three commands succeed, whatever the verification read shows; the read happens only on success |
| Coordinator.ProbePool | setup_and_update_dns.py:305-309 | the loop probes every pool server in order and collects the results |
| Coordinator.Update | setup_and_update_dns.py:304-326 | the update's commands are `UpdateActs`: every pool server probed in order, then the choice applied and, when a pool server was applied, read back (the choice is stated in `UpdateChoosesFastest`) |
| Coordinator.CheckCurrent | setup_and_update_dns.py:295-328 | the commands are `CheckActs`: a probe of the current server, then an update exactly when `NeedsUpdate` holds (stated in `KeptWhenFast`, `CheckTargets`) |
| Coordinator.Recover | setup_and_update_dns.py:281-292 | the commands are `RecoverActs`: the fallback applied, then, on success, a new reading, and the check of the fallback when the reading shows it (stated in `NoServerRecovers`, `RecoverTargets`) |
| Coordinator.ProcessInterface | setup_and_update_dns.py:270-328 | one interface's commands are `IfaceActs`: none unless it is UP, otherwise a reading, then the recover or check path (stated in `IfaceTargets`, `NoServerRecovers`, `KeptWhenFast`) |
| Coordinator.ProcessInterfaces | setup_and_update_dns.py:270-328 | the interface loop issues each interface's commands in listing order, each numbered after those before it |
| Coordinator.ApplyFallbackEverywhere | setup_and_update_dns.py:257-261 | the offline loop's commands are `OfflineActs`: the fallback applied to each UP interface in listing order (stated in `OfflineTargets`, `OfflineCovers`) |
| Coordinator.RunSpec | setup_and_update_dns.py:248-330 | the run's outcome, drift warning and command trace, with the drift check over the log before the run (properties in `RunTouchesOnlyUp`, `RunOffline`, `UpdateChoosesFastest`, `KeptWhenFast`, `NoServerRecovers`) |
| Coordinator.Run | setup_and_update_dns.py:248-330 | the run's outcome, drift warning and command trace are those of `RunSpec` |
| Coordinator.UpdateTargets | setup_and_update_dns.py:304-326 | an update reads and changes only its own interface |
| Coordinator.CheckTargets | setup_and_update_dns.py:295-328 | checking the current server reads and changes only its own interface |
| Coordinator.RecoverTargets | setup_and_update_dns.py:281-292 | the no-server path reads and changes only its own interface |
| Coordinator.IfaceTargets | setup_and_update_dns.py:270-328 | an interface that is not UP gets no command, and one that is UP only commands about itself |
| Coordinator.FoldTargets | setup_and_update_dns.py:270-328 | a loop whose steps touch only their own UP interface touches only UP interfaces of the list |
| Coordinator.OfflineTargets | setup_and_update_dns.py:257-261 | the offline path probes nothing, applies only the fallback, and touches only listed UP interfaces |
| Coordinator.OfflineCovers | setup_and_update_dns.py:257-261 | the offline path applies the fallback to every listed UP interface |
| Coordinator.FoldQueries | setup_and_update_dns.py:270-328 | a loop whose step for an UP interface starts by reading that interface reads every UP interface of the list, whatever the steps before it did |
| Coordinator.RunQueriesEveryUp | setup_and_update_dns.py:270-328 | a run that reaches the interface loop reads the status of every listed UP interface: a failing, kept or updated interface never stops the loop |
| Coordinator.RunTouchesOnlyUp | setup_and_update_dns.py:254-328 | every read or change of a run concerns a listed interface that is UP |
| Coordinator.RunNeverTouchesLoopback | setup_and_update_dns.py:254-328 | a run never reads or changes `lo`, whatever the link listing holds |
| Coordinator.RunOffline | setup_and_update_dns.py:254-262 | without connectivity, the run applies the fallback to every UP interface, applies nothing else, probes nothing more, and ends `Offline` |
| Coordinator.KeptWhenFast | setup_and_update_dns.py:295-301 | a current server answering within the threshold is kept: one read, one probe, nothing applied |
| Coordinator.UpdateChoosesFastest | setup_and_update_dns.py:304-326 | an update probes every pool server once, in order, then applies the earliest fastest reachable one, or the fallback when none answered |
| Coordinator.NoServerRecovers | setup_and_update_dns.py:280-292 | without a current server the fallback is applied first; the server is tested further exactly when applying succeeded and a new read shows the fallback |

## Left out

- Character classes: `\d` and `\w` are taken as ASCII. Python's regular expressions on `str` also accept other Unicode digits and letters. The whitespace of `split()` is Python's full whitespace set.
- `splitlines()` is not modelled. Command and file output is given as a sequence of lines; ping's output is one string, which the summary pattern searches.
- Floating point: latencies and times are exact reals. `float()` rounding and the `inf` latency of an unreachable server are not modelled; unreachable results carry no latency.
- `strptime` is a clock parameter that turns a timestamp into seconds or refuses it. Calendar arithmetic is not modelled.
- Log output is not modelled: `write_log`, `print`, the log file's appends and every message text. The check over the log uses its lines before the run, except in the as-written members of the finding.
- The Docker-bridge message of `set_dns_server` is not modelled; it changes nothing but the log.
- Setup mode is not modelled beyond the crontab rewrite: `check_root`, copying and `chmod` of the script, `setup_logging`, the temporary crontab file, installing it, and the test run.
- Command failures and timeouts are oracle answers. `ip link` failing shows up as an empty listing; `resolvectl status` failing shows up as output without servers; `ping` failing or timing out shows up as `NoOutput`.
- `ip link` is read once per run and is not a trace entry; the offline path and the normal path both parse the same listing.
- Coordinator.Run: the drift check reads the log before the run, not the log after the run's own start line as the script does. So the model warns, or ends the run as `Aborted` with no commands, on logs where the script does neither and goes on with a full run. The script's order is modelled separately (`LastRun.DriftAsWritten`).
- Coordinator.Run: the oracles are given the command's trace position rather than real time. The interleaving with other processes changing resolver settings is not modelled.
- The command-line dispatch (`--run`, `--setup`, usage message) and the top-level exception handler are not modelled, except that a refused timestamp ends the run as `Aborted` with no commands.

## Findings

| source | as written | input that shows it | evidently intended | confidence | as-written member | corrected member |
|---|---|---|---|---|---|---|
| setup_and_update_dns.py:250-251 | `main` logs "Run mode: ..." before calling `check_last_run`, so the newest timestamped line is always the run's own, written under a second earlier; the drift warning can never fire | a log whose only line is stamped `2024-01-01 00:00:00`, with the run at `2024-01-01 01:00:00` (an hour later): no warning | measure from the newest timestamp written before this run, and warn after more than 40 minutes | not executed | LastRun.MissedDriftExample | LastRun.CheckLastRun |
