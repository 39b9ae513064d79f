/**
 * The interface inspector's link listing: each line of `ip link` output that
 * matches `\d+: (\w+): <[^>]+>.*state (UP|DOWN)` at its start becomes an
 * interface record, loopback excluded, in the order the lines come.
 */
module Links {
  import opened Text

  datatype LinkState = Up | Down

  datatype Interface = Interface(name: string, state: LinkState)

  /** The text `state UP` or `state DOWN` that the pattern's last group matches. */
  function StateText(st: LinkState): string {
    match st
    case Up => "state UP"
    case Down => "state DOWN"
  }

  /**
   * Where the parts of one match of the link pattern lie: the digits end at
   * `digitsEnd`, the name runs from `digitsEnd + 2` to `nameEnd`, the flags end
   * at the `>` at `flagsEnd`, and `state UP` or `state DOWN` starts at `statePos`.
   */
  datatype LinkMatch = LinkMatch(digitsEnd: nat, nameEnd: nat, flagsEnd: nat, statePos: nat, state: LinkState)

  /** The separator `: ` after the interface number starts at `i`. */
  predicate ColonSpaceAt(line: string, i: nat) {
    i + 2 <= |line| && line[i] == ':' && line[i + 1] == ' '
  }

  /** The separator `: <` after the interface name starts at `i`. */
  predicate ColonSpaceLtAt(line: string, i: nat) {
    i + 3 <= |line| && line[i] == ':' && line[i + 1] == ' ' && line[i + 2] == '<'
  }

  /** The pattern read declaratively: `m` places every part of it in `line`, from position 0. */
  predicate IsLinkMatch(line: string, m: LinkMatch) {
    && 0 < m.digitsEnd && ColonSpaceAt(line, m.digitsEnd)
    && AllIn(line, 0, m.digitsEnd, Digit)
    && m.digitsEnd + 2 < m.nameEnd && ColonSpaceLtAt(line, m.nameEnd)
    && AllIn(line, m.digitsEnd + 2, m.nameEnd, WordChar)
    && m.nameEnd + 3 < m.flagsEnd < |line| && line[m.flagsEnd] == '>'
    && AllIn(line, m.nameEnd + 3, m.flagsEnd, NonGt)
    && m.flagsEnd + 1 <= m.statePos <= |line| && HasAt(line, m.statePos, StateText(m.state))
    && AllIn(line, m.flagsEnd + 1, m.statePos, NonNewline)
  }

  /** The text `state ` starts at position `k`. */
  predicate StatePrefixAt(line: string, k: nat) {
    && k + 6 <= |line|
    && line[k] == 's' && line[k + 1] == 't' && line[k + 2] == 'a'
    && line[k + 3] == 't' && line[k + 4] == 'e' && line[k + 5] == ' '
  }

  /** The state word that starts at position `k`, if any, read character by character. */
  function StateWordAt(line: string, k: nat): Option<LinkState> {
    if !StatePrefixAt(line, k) then None
    else if k + 8 <= |line| && line[k + 6] == 'U' && line[k + 7] == 'P' then Some(Up)
    else if k + 10 <= |line| && line[k + 6] == 'D' && line[k + 7] == 'O' && line[k + 8] == 'W' && line[k + 9] == 'N' then Some(Down)
    else None
  }

  /** The state word read at `k` is `st` exactly when the text of `st` occurs there, so `state UP` and `state DOWN` cannot start at the same position. */
  lemma StateWordIff(line: string, k: nat, st: LinkState)
    ensures StateWordAt(line, k) == Some(st) <==> HasAt(line, k, StateText(st))
  {
    if st == Up && k + 8 <= |line| {
      assert line[k..k + 8] == [line[k], line[k + 1], line[k + 2], line[k + 3], line[k + 4], line[k + 5], line[k + 6], line[k + 7]];
    } else if st == Down && k + 10 <= |line| {
      assert line[k..k + 10] == [line[k], line[k + 1], line[k + 2], line[k + 3], line[k + 4], line[k + 5], line[k + 6], line[k + 7], line[k + 8], line[k + 9]];
    }
  }

  /** The largest position in `[lo, hi)` where a state word starts; `.*` is greedy. */
  function LastStateFrom(line: string, lo: nat, hi: nat): (r: Option<nat>)
    requires lo <= hi
    ensures r.Some? ==> lo <= r.value < hi && StateWordAt(line, r.value).Some?
    decreases hi - lo
  {
    if hi == lo then None
    else if StateWordAt(line, hi - 1).Some? then Some(hi - 1)
    else LastStateFrom(line, lo, hi - 1)
  }

  /** No state word starts after the one found, and none in the range when nothing is found. */
  lemma {:induction false} LastStateFromFacts(line: string, lo: nat, hi: nat)
    requires lo <= hi
    ensures var r := LastStateFrom(line, lo, hi);
            && (r.Some? ==> forall j :: r.value < j < hi ==> StateWordAt(line, j).None?)
            && (r.None? ==> forall j :: lo <= j < hi ==> StateWordAt(line, j).None?)
    decreases hi - lo
  {
    if hi != lo && StateWordAt(line, hi - 1).None? {
      LastStateFromFacts(line, lo, hi - 1);
    }
  }

  /** The state word after the `>` at `fe`, searched for up to the end of the first line. */
  function StateAfter(line: string, fe: nat): (r: Option<nat>)
    ensures r.Some? ==> fe < |line| && fe < r.value <= fe + 1 + Span(line, fe + 1, NonNewline)
    ensures r.Some? ==> StateWordAt(line, r.value).Some?
  {
    var lo := fe + 1;
    if lo > |line| then None else LastStateFrom(line, lo, lo + Span(line, lo, NonNewline) + 1)
  }

  /** The regular-expression match of the link pattern at the start of `line`. */
  function MatchLinkAt(line: string): Option<LinkMatch> {
    var d := Span(line, 0, Digit);
    if d == 0 || !ColonSpaceAt(line, d) then None
    else
      var ne := d + 2 + Span(line, d + 2, WordChar);
      if ne == d + 2 || !ColonSpaceLtAt(line, ne) then None
      else
        var fe := ne + 3 + Span(line, ne + 3, NonGt);
        if fe == ne + 3 || fe == |line| then None
        else
          match StateAfter(line, fe)
          case None => None
          case Some(k) => Some(LinkMatch(d, ne, fe, k, StateWordAt(line, k).value))
  }

  /** The matcher agrees with the pattern: what it returns is a match. */
  lemma MatchLinkAtSound(line: string)
    requires MatchLinkAt(line).Some?
    ensures IsLinkMatch(line, MatchLinkAt(line).value)
  {
    var m := MatchLinkAt(line).value;
    MatchLinkAtShape(line);
    RunsMatch(line, m);
  }

  /** Where the parts of the matcher's result lie: each run ends where it stops, and the state word is the one found after the `>`. */
  lemma MatchLinkAtShape(line: string)
    requires MatchLinkAt(line).Some?
    ensures var m := MatchLinkAt(line).value;
            && 0 < m.digitsEnd == Span(line, 0, Digit) && ColonSpaceAt(line, m.digitsEnd)
            && m.digitsEnd + 2 < m.nameEnd == m.digitsEnd + 2 + Span(line, m.digitsEnd + 2, WordChar)
            && ColonSpaceLtAt(line, m.nameEnd)
            && m.nameEnd + 3 < m.flagsEnd == m.nameEnd + 3 + Span(line, m.nameEnd + 3, NonGt)
            && m.flagsEnd < |line| && m.flagsEnd < m.statePos <= m.flagsEnd + 1 + Span(line, m.flagsEnd + 1, NonNewline)
            && StateWordAt(line, m.statePos) == Some(m.state)
  {
  }

  /** Runs placed where the matcher places them make a match of the pattern. */
  lemma RunsMatch(line: string, m: LinkMatch)
    requires 0 < m.digitsEnd == Span(line, 0, Digit) && ColonSpaceAt(line, m.digitsEnd)
    requires m.digitsEnd + 2 < m.nameEnd == m.digitsEnd + 2 + Span(line, m.digitsEnd + 2, WordChar)
    requires ColonSpaceLtAt(line, m.nameEnd)
    requires m.nameEnd + 3 < m.flagsEnd == m.nameEnd + 3 + Span(line, m.nameEnd + 3, NonGt)
    requires m.flagsEnd < |line| && m.flagsEnd < m.statePos <= m.flagsEnd + 1 + Span(line, m.flagsEnd + 1, NonNewline)
    requires StateWordAt(line, m.statePos) == Some(m.state)
    ensures IsLinkMatch(line, m)
  {
    SpanFacts(line, 0, Digit);
    assert AllIn(line, 0, m.digitsEnd, Digit);
    SpanFacts(line, m.digitsEnd + 2, WordChar);
    assert AllIn(line, m.digitsEnd + 2, m.nameEnd, WordChar);
    SpanFacts(line, m.nameEnd + 3, NonGt);
    assert AllIn(line, m.nameEnd + 3, m.flagsEnd, NonGt);
    assert line[m.flagsEnd] == '>';
    SpanFacts(line, m.flagsEnd + 1, NonNewline);
    assert AllIn(line, m.flagsEnd + 1, m.statePos, NonNewline);
    StateWordIff(line, m.statePos, m.state);
  }

  /**
   * Every line that the pattern matches is matched, and every match places
   * the digits, the name and the flags where the matcher does, and none puts
   * the state word further right: the greedy `.*` takes the last one.
   */
  lemma MatchLinkAtComplete(line: string, m': LinkMatch)
    requires IsLinkMatch(line, m')
    ensures MatchLinkAt(line).Some?
    ensures var m := MatchLinkAt(line).value;
            m'.digitsEnd == m.digitsEnd && m'.nameEnd == m.nameEnd && m'.flagsEnd == m.flagsEnd
            && m'.statePos <= m.statePos
  {
    LinkMatchPositions(line, m');
    StateAfterFinds(line, m'.flagsEnd, m'.statePos);
    MatchLinkAtFrom(line, m'.digitsEnd, m'.nameEnd, m'.flagsEnd);
  }

  /** The matcher succeeds once each part ends where its run stops and a state word follows. */
  lemma MatchLinkAtFrom(line: string, d: nat, ne: nat, fe: nat)
    requires 0 < d == Span(line, 0, Digit) && ColonSpaceAt(line, d)
    requires d + 2 < ne == d + 2 + Span(line, d + 2, WordChar) && ColonSpaceLtAt(line, ne)
    requires ne + 3 < fe == ne + 3 + Span(line, ne + 3, NonGt) && fe < |line|
    requires StateAfter(line, fe).Some?
    ensures var k := StateAfter(line, fe).value;
            MatchLinkAt(line) == Some(LinkMatch(d, ne, fe, k, StateWordAt(line, k).value))
  {
  }

  /** A state word between the `>` at `fe` and the end of the first line is found. */
  lemma StateAfterFinds(line: string, fe: nat, k: nat)
    requires fe < |line| && fe < k <= fe + 1 + Span(line, fe + 1, NonNewline) && StateWordAt(line, k).Some?
    ensures StateAfter(line, fe).Some? && k <= StateAfter(line, fe).value
  {
    var lo := fe + 1;
    LastStateFromFacts(line, lo, lo + Span(line, lo, NonNewline) + 1);
  }

  /** The first three parts of a match are forced by the line, and the state word lies before the first newline. */
  lemma LinkMatchPositions(line: string, m': LinkMatch)
    requires IsLinkMatch(line, m')
    ensures Span(line, 0, Digit) == m'.digitsEnd
    ensures m'.nameEnd == m'.digitsEnd + 2 + Span(line, m'.digitsEnd + 2, WordChar)
    ensures m'.flagsEnd == m'.nameEnd + 3 + Span(line, m'.nameEnd + 3, NonGt)
    ensures m'.statePos <= m'.flagsEnd + 1 + Span(line, m'.flagsEnd + 1, NonNewline)
    ensures StateWordAt(line, m'.statePos) == Some(m'.state)
  {
    RunBeforeStop(line, 0, m'.digitsEnd, Digit, ':');
    RunBeforeStop(line, m'.digitsEnd + 2, m'.nameEnd, WordChar, ':');
    RunBeforeStop(line, m'.nameEnd + 3, m'.flagsEnd, NonGt, '>');
    SpanCovers(line, m'.flagsEnd + 1, m'.statePos - (m'.flagsEnd + 1), NonNewline);
    StateWordIff(line, m'.statePos, m'.state);
  }

  /** A run of `cls` characters followed by the character `stop`, which is outside `cls`, is the maximal run. */
  lemma RunBeforeStop(line: string, lo: nat, hi: nat, cls: CharClass, stop: char)
    requires lo <= hi < |line| && line[hi] == stop && !InClass(stop, cls)
    requires AllIn(line, lo, hi, cls)
    ensures Span(line, lo, cls) == hi - lo
  {
    SpanExact(line, lo, hi - lo, cls);
  }

  /** The interface a line describes, if it matches. */
  function MatchLink(line: string): Option<Interface> {
    match MatchLinkAt(line)
    case None => None
    case Some(m) => Some(Interface(line[m.digitsEnd + 2..m.nameEnd], m.state))
  }

  /** A matched interface's name is a non-empty run of word characters. */
  lemma MatchLinkName(line: string)
    requires MatchLink(line).Some?
    ensures MatchLink(line).value.name != []
    ensures forall k :: 0 <= k < |MatchLink(line).value.name| ==> IsWordChar(MatchLink(line).value.name[k])
  {
    MatchLinkAtSound(line);
    var m := MatchLinkAt(line).value;
    NameOfMatch(line, m);
  }

  /** The name a match captures is a non-empty run of word characters. */
  lemma NameOfMatch(line: string, m: LinkMatch)
    requires IsLinkMatch(line, m)
    ensures var name := line[m.digitsEnd + 2..m.nameEnd];
            name != [] && forall k :: 0 <= k < |name| ==> IsWordChar(name[k])
  {
    var name := line[m.digitsEnd + 2..m.nameEnd];
    forall k | 0 <= k < |name| ensures IsWordChar(name[k]) {
      assert InClass(line[m.digitsEnd + 2 + k], WordChar);
    }
  }

  /** What one line contributes to the list: its interface, unless it is loopback. */
  function LineInterfaces(line: string): seq<Interface> {
    match MatchLink(line)
    case Some(iface) => if iface.name != "lo" then [iface] else []
    case None => []
  }

  /** The interfaces the lines contribute, one line after the other; `read` gives what one line contributes. */
  function Gather(read: string -> seq<Interface>, lines: seq<string>): seq<Interface> {
    if lines == [] then []
    else Gather(read, lines[..|lines| - 1]) + read(lines[|lines| - 1])
  }

  lemma {:induction false} GatherAppend(read: string -> seq<Interface>, a: seq<string>, b: seq<string>)
    ensures Gather(read, a + b) == Gather(read, a) + Gather(read, b)
    decreases |b|
  {
    if b == [] {
      assert a + b == a;
    } else {
      var b' := b[..|b| - 1];
      assert (a + b)[..|a + b| - 1] == a + b';
      GatherAppend(read, a, b');
    }
  }

  /** One more line adds its own contribution after those of the lines before it. */
  lemma GatherStep(read: string -> seq<Interface>, lines: seq<string>, i: nat)
    requires i < |lines|
    ensures Gather(read, lines[..i + 1]) == Gather(read, lines[..i]) + read(lines[i])
  {
    assert lines[..i + 1][..i] == lines[..i];
  }

  lemma {:induction false} GatherMembers(read: string -> seq<Interface>, lines: seq<string>, x: Interface)
    ensures x in Gather(read, lines) <==> exists i :: 0 <= i < |lines| && x in read(lines[i])
    decreases |lines|
  {
    if lines != [] {
      var p := lines[..|lines| - 1];
      GatherMembers(read, p, x);
      if exists i :: 0 <= i < |p| && x in read(p[i]) {
        var i :| 0 <= i < |p| && x in read(p[i]);
        assert lines[i] == p[i];
      }
      if exists i :: 0 <= i < |lines| && x in read(lines[i]) {
        var i :| 0 <= i < |lines| && x in read(lines[i]);
        if i < |p| {
          assert p[i] == lines[i];
        }
      }
    }
  }

  /** The parsed interface list of a whole `ip link` listing. */
  function ParseLinks(lines: seq<string>): seq<Interface> {
    Gather(LineInterfaces, lines)
  }

  /** The listing is parsed line by line: parsing a concatenation concatenates the results, so order is kept. */
  lemma ParseLinksAppend(a: seq<string>, b: seq<string>)
    ensures ParseLinks(a + b) == ParseLinks(a) + ParseLinks(b)
  {
    GatherAppend(LineInterfaces, a, b);
  }

  /** A line contributes an interface exactly when it matches with that interface and the name is not `lo`. */
  lemma LineInterfacesIff(line: string, x: Interface)
    ensures x in LineInterfaces(line) <==> x.name != "lo" && MatchLink(line) == Some(x)
  {
  }

  /** An interface is listed exactly when some line matches with that name and state and the name is not `lo`. */
  lemma ParseLinksMembers(lines: seq<string>, x: Interface)
    ensures x in ParseLinks(lines) <==>
              x.name != "lo" && exists i :: 0 <= i < |lines| && MatchLink(lines[i]) == Some(x)
  {
    GatherMembers(LineInterfaces, lines, x);
    forall i | 0 <= i < |lines|
      ensures x in LineInterfaces(lines[i]) <==> x.name != "lo" && MatchLink(lines[i]) == Some(x)
    {
      LineInterfacesIff(lines[i], x);
    }
  }

  /** The loopback interface is never listed, whatever the link-state input. */
  lemma NoLoopback(lines: seq<string>)
    ensures forall x :: x in ParseLinks(lines) ==> x.name != "lo"
  {
    forall x | x in ParseLinks(lines) ensures x.name != "lo" {
      ParseLinksMembers(lines, x);
    }
  }

  /** Every listed name is a non-empty run of word characters, so a name such as `veth@if4` never is. */
  lemma ListedNamesAreWords(lines: seq<string>)
    ensures forall x :: x in ParseLinks(lines) ==> x.name != [] && forall k :: 0 <= k < |x.name| ==> IsWordChar(x.name[k])
  {
    forall x | x in ParseLinks(lines) ensures x.name != [] && forall k :: 0 <= k < |x.name| ==> IsWordChar(x.name[k]) {
      ParseLinksMembers(lines, x);
      var i :| 0 <= i < |lines| && MatchLink(lines[i]) == Some(x);
      MatchLinkName(lines[i]);
    }
  }

  /** `get_active_interfaces`: walk the lines and append each matching, non-loopback interface. */
  method GetActiveInterfaces(lines: seq<string>) returns (interfaces: seq<Interface>)
    ensures interfaces == ParseLinks(lines)
    ensures forall x :: x in interfaces ==> x.name != "lo"
  {
    interfaces := [];
    var i := 0;
    while i < |lines|
      invariant 0 <= i <= |lines|
      invariant interfaces == ParseLinks(lines[..i])
    {
      var line := lines[i];
      GatherStep(LineInterfaces, lines, i);
      var found := MatchLink(line);
      if found.Some? && found.value.name != "lo" {
        interfaces := interfaces + [found.value];
      }
      i := i + 1;
    }
    assert lines[..i] == lines;
    NoLoopback(lines);
  }
}
