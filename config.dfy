/** The script's fixed configuration: thresholds, paths, the candidate pool and the fallback. */
module Config {

  /** Average round-trip time, in milliseconds, above which the current server is replaced. */
  const LatencyThreshold: real := 100.0

  /** Largest expected gap, in minutes, between two scheduled runs. */
  const MaxIntervalMinutes: real := 40.0

  /** Where the script installs itself; the key of its scheduler entry. */
  const ScriptPath: string := "/usr/local/bin/setup_and_update_dns.py"

  /** The scheduler line the setup installs (without its trailing newline). */
  const CronJob: string := "*/30 * * * * /usr/bin/python3 " + ScriptPath + " --run"

  /** The candidate pool, in the order it is probed. */
  const DnsServers: seq<string> := [
    "1.1.1.1", "1.0.0.1", "172.20.20.16", "85.15.1.14", "85.15.1.15",
    "10.202.10.202", "10.202.10.102", "209.244.0.3", "209.244.0.4",
    "10.202.10.10", "10.202.10.11", "78.157.42.100", "78.157.42.101",
    "94.103.125.157", "94.103.125.158", "181.41.194.177", "181.41.194.186",
    "5.202.100.100", "5.202.100.101", "172.29.0.100", "172.29.2.100",
    "185.55.226.26", "185.55.225.25", "178.22.122.100", "185.51.200.2"
  ]

  /** The server applied when no measurement-based choice can be made. */
  const FallbackDns: string := "1.1.1.1"

  /** The well-known address probed once per run to test basic connectivity. */
  const ConnectivityProbe: string := "8.8.8.8"

  /** The fallback is itself a pool member, and the connectivity target is not. */
  lemma FallbackInPool()
    ensures |DnsServers| == 25
    ensures DnsServers[0] == FallbackDns && FallbackDns in DnsServers
    ensures ConnectivityProbe !in DnsServers
  {
  }

  /** The pool holds no address twice. */
  lemma PoolDistinct()
    ensures forall i, j :: 0 <= i < j < |DnsServers| ==> DnsServers[i] != DnsServers[j]
  {
  }
}
