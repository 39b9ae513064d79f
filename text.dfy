/**
 * Character classes and the few string primitives the script's parsers use:
 * the `in` substring test, `split(":")[1]`, whitespace `split()`, and the
 * maximal runs that a greedy character-class repetition (`[\d.]+`, `\w+`,
 * `[^>]+`) consumes.
 */
module Text {

  datatype Option<T> = None | Some(value: T)

  /** `\d` restricted to ASCII digits. */
  predicate IsDigit(c: char) { '0' <= c <= '9' }

  /** `\w` restricted to ASCII letters, digits and underscore. */
  predicate IsWordChar(c: char) {
    IsDigit(c) || ('a' <= c <= 'z') || ('A' <= c <= 'Z') || c == '_'
  }

  /** The characters Python's `str.split()` and `str.strip()` treat as whitespace. */
  predicate IsSpace(c: char) {
    c == ' ' || ('\t' <= c <= '\r') || ('\U{1C}' <= c <= '\U{1F}')
    || c == '\U{85}' || c == '\U{A0}' || c == '\U{1680}'
    || ('\U{2000}' <= c <= '\U{200A}') || c == '\U{2028}' || c == '\U{2029}'
    || c == '\U{202F}' || c == '\U{205F}' || c == '\U{3000}'
  }

  /** The character classes the script's patterns and splits are built from. */
  datatype CharClass = Digit | WordChar | Space | NonSpace | NonColon | NonGt | NonNewline | DecChar

  predicate InClass(c: char, cls: CharClass) {
    match cls
    case Digit => IsDigit(c)
    case WordChar => IsWordChar(c)
    case Space => IsSpace(c)
    case NonSpace => !IsSpace(c)
    case NonColon => c != ':'
    case NonGt => c != '>'
    case NonNewline => c != '\n'
    case DecChar => IsDigit(c) || c == '.'
  }

  /** `p` occurs in `s` starting at position `i`. */
  predicate HasAt(s: string, i: nat, p: string) {
    i + |p| <= |s| && s[i..i + |p|] == p
  }

  /** Every character of `s` from `lo` up to `hi` is in class `cls`. */
  predicate AllIn(s: string, lo: nat, hi: nat, cls: CharClass)
    requires hi <= |s|
  {
    forall j {:trigger InClass(s[j], cls)} :: lo <= j < hi ==> InClass(s[j], cls)
  }

  /** Length of the maximal run of characters of class `cls` that starts at `i`. */
  function Span(s: string, i: nat, cls: CharClass): (n: nat)
    requires i <= |s|
    ensures i + n <= |s|
    decreases |s| - i
  {
    if i < |s| && InClass(s[i], cls) then 1 + Span(s, i + 1, cls) else 0
  }

  /** The run is all of class `cls`, and the character after it, if any, is not. */
  lemma {:induction false} SpanFacts(s: string, i: nat, cls: CharClass)
    requires i <= |s|
    ensures AllIn(s, i, i + Span(s, i, cls), cls)
    ensures i + Span(s, i, cls) < |s| ==> !InClass(s[i + Span(s, i, cls)], cls)
    decreases |s| - i
  {
    if i < |s| && InClass(s[i], cls) {
      SpanFacts(s, i + 1, cls);
    }
  }

  /** A run of `cls` characters that is followed by a character outside `cls` is the maximal one. */
  lemma {:induction false} SpanExact(s: string, i: nat, n: nat, cls: CharClass)
    requires i + n <= |s| && AllIn(s, i, i + n, cls)
    requires i + n == |s| || !InClass(s[i + n], cls)
    ensures Span(s, i, cls) == n
    decreases n
  {
    if n > 0 {
      assert InClass(s[i], cls);
      SpanExact(s, i + 1, n - 1, cls);
    }
  }

  /** A run of `cls` characters of length `n` is covered by the maximal one. */
  lemma {:induction false} SpanCovers(s: string, i: nat, n: nat, cls: CharClass)
    requires i + n <= |s| && AllIn(s, i, i + n, cls)
    ensures Span(s, i, cls) >= n
    decreases n
  {
    if n > 0 {
      assert InClass(s[i], cls);
      SpanCovers(s, i + 1, n - 1, cls);
    }
  }

  /** The leftmost position at or after `from` where `p` occurs. */
  function Find(s: string, p: string, from: nat): (r: Option<nat>)
    requires from <= |s|
    ensures r.Some? ==> from <= r.value && HasAt(s, r.value, p)
    ensures r.Some? ==> forall j :: from <= j < r.value ==> !HasAt(s, j, p)
    ensures r.None? ==> forall j :: from <= j <= |s| ==> !HasAt(s, j, p)
    decreases |s| - from
  {
    if HasAt(s, from, p) then Some(from)
    else if from == |s| then None
    else Find(s, p, from + 1)
  }

  /** Python's `p in s`. */
  predicate Contains(s: string, p: string) {
    Find(s, p, 0).Some?
  }

  lemma ContainsIff(s: string, p: string)
    ensures Contains(s, p) <==> exists i :: 0 <= i <= |s| && HasAt(s, i, p)
  {
  }

  /** A string that has `p` as an infix contains `p`. */
  lemma ContainsInfix(a: string, p: string, b: string)
    ensures Contains(a + p + b, p)
  {
    var s := a + p + b;
    assert s[|a|..|a| + |p|] == p;
    assert HasAt(s, |a|, p);
  }

  /**
   * Python's `s.split(":")[1]`: the text between the first and the second
   * colon (or the end).  `None` stands for the IndexError raised when `s`
   * has no colon at all.
   */
  function ColonField(s: string): (r: Option<string>)
    ensures r.None? <==> ':' !in s
    ensures r.Some? ==> ':' !in r.value
  {
    var i := Span(s, 0, NonColon);
    SpanFacts(s, 0, NonColon);
    if i == |s| then
      assert forall j :: 0 <= j < |s| ==> InClass(s[j], NonColon);
      None
    else
      var n := Span(s, i + 1, NonColon);
      SpanFacts(s, i + 1, NonColon);
      var field := s[i + 1..i + 1 + n];
      assert forall j :: 0 <= j < |field| ==> field[j] == s[i + 1 + j];
      Some(field)
  }

  /** The field lies right after the first colon and runs up to the next colon or the end. */
  lemma ColonFieldSplit(s: string)
    requires ':' in s
    ensures exists i :: 0 <= i < |s| && s[i] == ':' && ':' !in s[..i]
                        && HasAt(s, i + 1, ColonField(s).value)
                        && (i + 1 + |ColonField(s).value| == |s| || s[i + 1 + |ColonField(s).value|] == ':')
  {
    var i := Span(s, 0, NonColon);
    SpanFacts(s, 0, NonColon);
    var c :| 0 <= c < |s| && s[c] == ':';
    assert !InClass(s[c], NonColon);
    assert i <= c;
    var n := Span(s, i + 1, NonColon);
    SpanFacts(s, i + 1, NonColon);
    var field := ColonField(s).value;
    assert field == s[i + 1..i + 1 + n];
    assert ':' !in s[..i] by {
      assert forall j :: 0 <= j < i ==> s[..i][j] == s[j];
    }
    assert HasAt(s, i + 1, field);
    assert i + 1 + |field| == |s| || s[i + 1 + |field|] == ':';
  }

  /** A word of `split()`: non-empty and free of whitespace. */
  predicate IsWord(w: string) {
    w != [] && AllIn(w, 0, |w|, NonSpace)
  }

  /** Python's `s.split()`: the maximal runs of non-whitespace characters, in order. */
  function Words(s: string): (ws: seq<string>)
    ensures forall w :: w in ws ==> IsWord(w)
    decreases |s|
  {
    var lead := Span(s, 0, Space);
    if lead == |s| then []
    else
      SpanFacts(s, 0, Space);
      assert InClass(s[lead], NonSpace);
      var n := Span(s, lead, NonSpace);
      SpanFacts(s, lead, NonSpace);
      var w := s[lead..lead + n];
      assert IsWord(w) by {
        forall k | 0 <= k < |w| ensures InClass(w[k], NonSpace) {
          assert InClass(s[lead + k], NonSpace);
        }
      }
      [w] + Words(s[lead + n..])
  }

  /** The characters of `s` that are not whitespace, in order. */
  function Unspaced(s: string): (r: string)
    ensures |r| <= |s|
  {
    if s == [] then [] else (if IsSpace(s[0]) then [] else [s[0]]) + Unspaced(s[1..])
  }

  function Concat(ws: seq<string>): string {
    if ws == [] then [] else ws[0] + Concat(ws[1..])
  }

  lemma UnspacedAppend(a: string, b: string)
    ensures Unspaced(a + b) == Unspaced(a) + Unspaced(b)
  {
    if a == [] {
      assert a + b == b;
    } else {
      assert (a + b)[0] == a[0];
      assert (a + b)[1..] == a[1..] + b;
      UnspacedAppend(a[1..], b);
    }
  }

  lemma UnspacedOfRun(s: string, i: nat, n: nat, cls: CharClass)
    requires cls == Space || cls == NonSpace
    requires i + n <= |s| && AllIn(s, i, i + n, cls)
    ensures Unspaced(s[i..i + n]) == if cls == NonSpace then s[i..i + n] else []
    decreases n
  {
    if n > 0 {
      assert InClass(s[i], cls);
      assert s[i..i + n] == [s[i]] + s[i + 1..i + n];
      UnspacedAppend([s[i]], s[i + 1..i + n]);
      UnspacedOfRun(s, i + 1, n - 1, cls);
    }
  }

  /** One step of `split()`: the leading whitespace is dropped and the first word is kept whole. */
  lemma UnspacedFirstWord(s: string, lead: nat, n: nat)
    requires lead + n <= |s| && AllIn(s, 0, lead, Space) && AllIn(s, lead, lead + n, NonSpace)
    ensures Unspaced(s) == s[lead..lead + n] + Unspaced(s[lead + n..])
  {
    var word, rest, tail := s[lead..lead + n], s[lead + n..], s[lead..];
    SplitAt(s, lead);
    UnspacedAppend(s[..lead], tail);
    UnspacedOfRun(s, 0, lead, Space);
    assert s[0..lead] == s[..lead];
    assert tail[..n] == word && tail[n..] == rest;
    SplitAt(tail, n);
    UnspacedAppend(word, rest);
    UnspacedOfRun(s, lead, n, NonSpace);
  }

  lemma SplitAt(s: string, k: nat)
    requires k <= |s|
    ensures s[..k] + s[k..] == s
  {
  }

  /** `split()` loses exactly the whitespace: joining the words gives back every other character. */
  lemma {:induction false} WordsKeepEverythingElse(s: string)
    ensures Concat(Words(s)) == Unspaced(s)
    decreases |s|
  {
    var lead := Span(s, 0, Space);
    SpanFacts(s, 0, Space);
    if lead == |s| {
      UnspacedOfRun(s, 0, lead, Space);
      assert s[0..lead] == s;
    } else {
      var n := Span(s, lead, NonSpace);
      SpanFacts(s, lead, NonSpace);
      var word, rest := s[lead..lead + n], s[lead + n..];
      assert Words(s) == [word] + Words(rest);
      WordsKeepEverythingElse(rest);
      ConcatCons(word, Words(rest));
      UnspacedFirstWord(s, lead, n);
    }
  }

  /**
   * Where `split()` ends a word: a run of non-whitespace after leading
   * whitespace, followed by whitespace or the end, is the first word, and the
   * rest of the words come from what follows it.
   */
  lemma WordsFirst(s: string, lead: nat, n: nat)
    requires 0 < n && lead + n <= |s|
    requires AllIn(s, 0, lead, Space) && AllIn(s, lead, lead + n, NonSpace)
    requires lead + n == |s| || IsSpace(s[lead + n])
    ensures Words(s) == [s[lead..lead + n]] + Words(s[lead + n..])
  {
    assert InClass(s[lead], NonSpace);
    SpanExact(s, 0, lead, Space);
    SpanExact(s, lead, n, NonSpace);
  }

  /** `split()` gives no word exactly when the text is all whitespace. */
  lemma WordsEmptyIff(s: string)
    ensures Words(s) == [] <==> AllIn(s, 0, |s|, Space)
  {
    SpanFacts(s, 0, Space);
    if AllIn(s, 0, |s|, Space) {
      SpanCovers(s, 0, |s|, Space);
    }
  }

  lemma ConcatCons(w: string, ws: seq<string>)
    ensures Concat([w] + ws) == w + Concat(ws)
  {
    assert ([w] + ws)[1..] == ws;
  }

  /** A single word after one space is split into just that word. */
  lemma WordsOfOne(a: string)
    requires IsWord(a)
    ensures Words([' '] + a) == [a]
  {
    var s := [' '] + a;
    SpanOfSpace(a);
    SpanOfWord(a);
    var rest := s[1 + |a|..];
    assert rest == [];
    WordsOfNothing(rest);
    assert s[1..1 + |a|] == a;
  }

  lemma WordsOfNothing(s: string)
    requires s == []
    ensures Words(s) == []
  {
  }

  lemma SpanOfSpace(a: string)
    requires a != [] && InClass(a[0], NonSpace)
    ensures Span([' '] + a, 0, Space) == 1
  {
    var s := [' '] + a;
    assert s[1] == a[0];
    SpanExact(s, 0, 1, Space);
  }

  lemma SpanOfWord(a: string)
    requires AllIn(a, 0, |a|, NonSpace)
    ensures Span([' '] + a, 1, NonSpace) == |a|
  {
    var s := [' '] + a;
    forall k | 1 <= k < |s| ensures InClass(s[k], NonSpace) {
      assert s[k] == a[k - 1];
    }
    SpanExact(s, 1, |a|, NonSpace);
  }
}
