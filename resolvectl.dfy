/**
 * The resolver reader: the output of `resolvectl status <interface>`, taken
 * line by line.  Every line that mentions `DNS Servers` contributes the
 * whitespace-separated words after its first colon; the interface's current
 * server is the first word collected.  A mentioning line without a colon
 * raises, and the whole reading then yields no server.
 */
module Resolvectl {
  import opened Text

  const ServersLabel: string := "DNS Servers"

  /** The servers one line lists: none if it does not mention the label, `None` if it does but has no colon. */
  function LineServers(line: string): (r: Option<seq<string>>)
    ensures r.None? <==> Contains(line, ServersLabel) && ':' !in line
    ensures r.Some? && !Contains(line, ServersLabel) ==> r.value == []
  {
    if !Contains(line, ServersLabel) then Some([])
    else
      match ColonField(line)
      case None => None
      case Some(field) => Some(Words(field))
  }

  /**
   * Reading a listing line by line with `read`: the words of every line, in
   * order, or `None` as soon as one line cannot be read.
   */
  function Collect(read: string -> Option<seq<string>>, lines: seq<string>): Option<seq<string>> {
    if lines == [] then Some([])
    else
      match Collect(read, lines[..|lines| - 1])
      case None => None
      case Some(before) =>
        match read(lines[|lines| - 1])
        case None => None
        case Some(here) => Some(before + here)
  }

  /** Reading a listing in two parts reads each part and joins the words. */
  lemma {:induction false} CollectAppend(read: string -> Option<seq<string>>, a: seq<string>, b: seq<string>)
    requires Collect(read, a).Some? && Collect(read, b).Some?
    ensures Collect(read, a + b) == Some(Collect(read, a).value + Collect(read, b).value)
    decreases |b|
  {
    if b == [] {
      assert a + b == a;
      assert Collect(read, a).value + [] == Collect(read, a).value;
    } else {
      var b' := b[..|b| - 1];
      assert (a + b)[..|a + b| - 1] == a + b';
      assert (a + b)[|a + b| - 1] == b[|b| - 1];
      CollectAppend(read, a, b');
      var x, y, z := Collect(read, a).value, Collect(read, b').value, read(b[|b| - 1]).value;
      assert x + y + z == x + (y + z);
    }
  }

  /** The reading fails exactly when some line cannot be read. */
  lemma {:induction false} CollectFailsIff(read: string -> Option<seq<string>>, lines: seq<string>)
    ensures Collect(read, lines).None? <==> exists i :: 0 <= i < |lines| && read(lines[i]).None?
    decreases |lines|
  {
    if lines != [] {
      var p := lines[..|lines| - 1];
      CollectFailsIff(read, p);
      if exists i :: 0 <= i < |p| && read(p[i]).None? {
        var i :| 0 <= i < |p| && read(p[i]).None?;
        assert lines[i] == p[i];
      }
      if exists i :: 0 <= i < |lines| && read(lines[i]).None? {
        var i :| 0 <= i < |lines| && read(lines[i]).None?;
        if i < |p| {
          assert p[i] == lines[i];
        }
      }
    }
  }

  /** Every server listed in a `resolvectl status` output, in order, or `None` when one mentioning line had no colon. */
  function StatusServers(lines: seq<string>): Option<seq<string>> {
    Collect(LineServers, lines)
  }

  /** `get_current_dns`: the first collected server, if any. */
  function CurrentDns(lines: seq<string>): Option<string> {
    match StatusServers(lines)
    case None => None
    case Some(servers) => if servers == [] then None else Some(servers[0])
  }

  /** The reading fails exactly when some line mentions the label but has no colon: the IndexError of `split(":")[1]`. */
  lemma StatusFailsIff(lines: seq<string>)
    ensures StatusServers(lines).None? <==>
              exists i :: 0 <= i < |lines| && Contains(lines[i], ServersLabel) && ':' !in lines[i]
  {
    CollectFailsIff(LineServers, lines);
  }

  /** Every collected server is a non-empty word without whitespace. */
  lemma {:induction false} ServersAreWords(lines: seq<string>)
    requires StatusServers(lines).Some?
    ensures forall w :: w in StatusServers(lines).value ==> IsWord(w)
    decreases |lines|
  {
    if lines != [] {
      ServersAreWords(lines[..|lines| - 1]);
    }
  }

  /** The current server, when there is one, is a single non-empty word. */
  lemma CurrentDnsIsWord(lines: seq<string>)
    requires CurrentDns(lines).Some?
    ensures IsWord(CurrentDns(lines).value)
  {
    ServersAreWords(lines);
  }

  /** A listing that never mentions the label gives no server. */
  lemma {:induction false} NoLabelNoServer(lines: seq<string>)
    requires forall i :: 0 <= i < |lines| ==> !Contains(lines[i], ServersLabel)
    ensures StatusServers(lines) == Some([])
    ensures CurrentDns(lines).None?
    decreases |lines|
  {
    if lines != [] {
      var p := lines[..|lines| - 1];
      assert forall i :: 0 <= i < |p| ==> p[i] == lines[i];
      NoLabelNoServer(p);
      assert Collect(LineServers, p) == Some([]);
      assert LineServers(lines[|lines| - 1]) == Some([]);
      var none: seq<string> := [];
      assert none + none == none;
      assert Collect(LineServers, lines) == Some(none + none);
    }
  }

  /**
   * The first line that lists a server decides: when the lines before it list
   * none and no line after it is malformed, the current server is the first
   * word after its colon.
   */
  lemma FirstListingLineWins(before: seq<string>, line: string, after: seq<string>)
    requires StatusServers(before) == Some([])
    requires LineServers(line).Some? && LineServers(line).value != []
    requires StatusServers(after).Some?
    ensures CurrentDns(before + [line] + after) == Some(LineServers(line).value[0])
  {
    assert [line][..0] == [];
    assert Collect(LineServers, [line]) == Some([] + LineServers(line).value);
    CollectAppend(LineServers, before, [line]);
    CollectAppend(LineServers, before + [line], after);
  }

  /**
   * `split(":")` also cuts an IPv6 address at its first colon: of a listed
   * `a:b` only the part `a` before the colon is reported.
   */
  lemma Ipv6Truncated(a: string, b: string)
    requires IsWord(a) && ':' !in a
    ensures CurrentDns([ServersLabel + ": " + a + ":" + b]) == Some(a)
  {
    var line := ServersLabel + ": " + a + ":" + b;
    LabelledLine(a, b);
    assert [line][..0] == [];
    assert Collect(LineServers, [line]) == Some([] + [a]);
  }

  lemma LabelledLine(a: string, b: string)
    requires IsWord(a) && ':' !in a
    ensures LineServers(ServersLabel + ": " + a + ":" + b) == Some([a])
  {
    var line := ServersLabel + ": " + a + ":" + b;
    ContainsInfix([], ServersLabel, ": " + a + ":" + b);
    assert [] + ServersLabel + (": " + a + ":" + b) == line;
    LabelledColonField(a, b);
    WordsOfOne(a);
  }

  lemma LabelledColonField(a: string, b: string)
    requires ':' !in a
    ensures ColonField(ServersLabel + ": " + a + ":" + b) == Some([' '] + a)
  {
    var line := ServersLabel + ": " + a + ":" + b;
    assert forall k :: 0 <= k < 11 ==> line[k] == ServersLabel[k];
    SpanExact(line, 0, 11, NonColon);
    assert line[11] == ':';
    assert forall k :: 0 <= k < |a| ==> line[13 + k] == a[k];
    SpanExact(line, 12, 1 + |a|, NonColon);
    assert line[12..13 + |a|] == [' '] + a;
  }

  /** Reading one more line of a listing: the words so far and those of that line, or `None` when either fails. */
  lemma CollectStep(read: string -> Option<seq<string>>, lines: seq<string>, i: nat)
    requires i < |lines|
    ensures Collect(read, lines[..i + 1]) ==
              match Collect(read, lines[..i])
              case None => None
              case Some(before) =>
                match read(lines[i])
                case None => None
                case Some(here) => Some(before + here)
  {
    assert lines[..i + 1][..i] == lines[..i];
  }

  /** A line that cannot be read makes the whole reading fail. */
  lemma CollectFailsAt(read: string -> Option<seq<string>>, lines: seq<string>, i: nat)
    requires i < |lines| && read(lines[i]).None?
    ensures Collect(read, lines).None?
  {
    CollectFailsIff(read, lines);
  }

  /** `get_current_dns`: collect the servers of every line in order, and give up with nothing at a line that cannot be read. */
  method GetCurrentDns(lines: seq<string>) returns (r: Option<string>)
    ensures r == CurrentDns(lines)
  {
    var servers: seq<string> := [];
    var i := 0;
    while i < |lines|
      invariant 0 <= i <= |lines|
      invariant Collect(LineServers, lines[..i]) == Some(servers)
    {
      CollectStep(LineServers, lines, i);
      var here := LineServers(lines[i]);
      if here.None? {
        CollectFailsAt(LineServers, lines, i);
        return None;
      }
      servers := servers + here.value;
      i := i + 1;
    }
    assert lines[..i] == lines;
    if servers == [] {
      return None;
    }
    return Some(servers[0]);
  }
}
