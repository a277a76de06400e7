/** Expanding host patterns such as node[01:12].example. */
module HostRange {
  import opened Words
  import opened Wrappers

  const MAX_INT: nat := TWO63 - 1

  // ----- Numerals -------------------------------------------------------------------

  predicate IsDigit(c: char) {
    '0' <= c <= '9'
  }

  ghost predicate AllDigits(s: string) {
    forall i :: 0 <= i < |s| ==> IsDigit(s[i])
  }

  function DigitValue(c: char): nat
    requires IsDigit(c)
  {
    c as nat - '0' as nat
  }

  function DigitChar(d: nat): (c: char)
    requires d < 10
    ensures IsDigit(c) && DigitValue(c) == d
  {
    ('0' as nat + d) as char
  }

  function Parse(s: string): nat
    requires AllDigits(s)
  {
    if s == "" then 0 else 10 * Parse(s[..|s| - 1]) + DigitValue(s[|s| - 1])
  }

  /** The decimal numeral of `n`, zero-padded to at least `width` digits. */
  function Numeral(n: nat, width: nat): (s: string)
    ensures AllDigits(s) && |s| >= 1 && |s| >= width
    decreases n + width
  {
    if n < 10 && width <= 1 then [DigitChar(n)]
    else Numeral(n / 10, if width > 0 then width - 1 else 0) + [DigitChar(n % 10)]
  }

  lemma {:induction false} ParseNumeral(n: nat, width: nat)
    ensures Parse(Numeral(n, width)) == n
    decreases n + width
  {
    var s := Numeral(n, width);
    if n < 10 && width <= 1 {
      assert s[..0] == "";
    } else {
      var w := if width > 0 then width - 1 else 0;
      ParseNumeral(n / 10, w);
      assert s[..|s| - 1] == Numeral(n / 10, w);
    }
  }

  /** The digits mean what they mean. */
  lemma ReadsDecimal()
    ensures Parse("0987654321") == 987654321
  {
    var s := "0987654321";
    assert Parse(s[..1]) == 0;
    assert s[..2][..1] == s[..1] && s[..3][..2] == s[..2] && s[..4][..3] == s[..3] && s[..5][..4] == s[..4];
    assert s[..6][..5] == s[..5] && s[..7][..6] == s[..6] && s[..8][..7] == s[..7] && s[..9][..8] == s[..8];
    assert Parse(s[..3]) == 98;
    assert Parse(s[..5]) == 9876;
    assert Parse(s[..7]) == 987654;
    assert Parse(s[..9]) == 98765432;
  }

  /** Padding only matters while the number is shorter than the width. */
  lemma {:induction false} NumeralWidth(n: nat, width: nat)
    ensures |Numeral(n, width)| == if width > |Numeral(n, 0)| then width else |Numeral(n, 0)|
    decreases n + width
  {
    if !(n < 10 && width <= 1) {
      NumeralWidth(n / 10, if width > 0 then width - 1 else 0);
      if n < 10 {
        assert |Numeral(n / 10, 0)| == 1;
      }
    }
  }

  /** Whether a numeral fixes the width of the ones that follow it. */
  predicate Padded(s: string) {
    |s| > 1 && s[0] == '0'
  }

  /** Printing what was parsed gives back the same text. */
  lemma {:induction false} NumeralParse(s: string)
    requires AllDigits(s) && s != ""
    ensures Numeral(Parse(s), |s|) == s
    ensures !Padded(s) ==> Numeral(Parse(s), 0) == s
    decreases |s|
  {
    var t, d := s[..|s| - 1], s[|s| - 1];
    assert s == t + [d];
    if t == "" {
      assert Parse(s) == DigitValue(d);
    } else {
      NumeralParse(t);
      assert Parse(s) / 10 == Parse(t) && Parse(s) % 10 == DigitValue(d);
      if !Padded(s) {
        ParsePositive(t);
      }
    }
  }

  lemma {:induction false} ParsePositive(s: string)
    requires AllDigits(s) && s != "" && s[0] != '0'
    ensures Parse(s) > 0
    decreases |s|
  {
    if |s| > 1 {
      ParsePositive(s[..|s| - 1]);
    }
  }

  // ----- Matching the pattern ---------------------------------------------------------

  datatype Match = Match(prefix: string, start: string, end: string, suffix: string)

  function Render(m: Match): string {
    m.prefix + "[" + m.start + ":" + m.end + "]" + m.suffix
  }

  /** The regular expression ^(.*)\[([0-9]+):([0-9]+)\](.*)$, where a dot is any
      character but a newline. */
  ghost predicate Splits(p: string, m: Match) {
    && p == Render(m)
    && m.start != "" && AllDigits(m.start) && m.end != "" && AllDigits(m.end)
    && '\n' !in m.prefix && '\n' !in m.suffix
  }

  /** The end of the run of digits that begins at `i`. */
  function DigitsEnd(p: string, i: nat): (j: nat)
    requires i <= |p|
    ensures i <= j <= |p| && AllDigits(p[i..j]) && (j < |p| ==> !IsDigit(p[j]))
    decreases |p| - i
  {
    if i < |p| && IsDigit(p[i]) then
      var j := DigitsEnd(p, i + 1);
      assert p[i..j] == [p[i]] + p[i + 1..j];
      j
    else i
  }

  function MatchAt(p: string, i: nat): Option<Match>
    requires i <= |p|
  {
    if i == |p| || p[i] != '[' then None
    else
      var j := DigitsEnd(p, i + 1);
      if j == i + 1 || j == |p| || p[j] != ':' then None
      else
        var k := DigitsEnd(p, j + 1);
        if k == j + 1 || k == |p| || p[k] != ']' then None
        else Some(Match(p[..i], p[i + 1..j], p[j + 1..k], p[k + 1..]))
  }

  /** The greedy first group takes as much as it can: the last match position wins. */
  function FindLast(p: string, i: nat): Option<Match>
    requires i <= |p|
  {
    if MatchAt(p, i).Some? then MatchAt(p, i) else if i == 0 then None else FindLast(p, i - 1)
  }

  function FindMatch(p: string): Option<Match> {
    if '\n' in p then None else FindLast(p, |p|)
  }

  lemma MatchAtSound(p: string, i: nat)
    requires i <= |p| && MatchAt(p, i).Some? && '\n' !in p
    ensures Splits(p, MatchAt(p, i).value) && |MatchAt(p, i).value.prefix| == i
  {
    var m := MatchAt(p, i).value;
    var j := DigitsEnd(p, i + 1);
    var k := DigitsEnd(p, j + 1);
    assert p == p[..i] + [p[i]] + p[i + 1..j] + [p[j]] + p[j + 1..k] + [p[k]] + p[k + 1..];
  }

  lemma {:induction false} DigitsEndIs(p: string, i: nat, j: nat)
    requires i <= j < |p| && AllDigits(p[i..j]) && !IsDigit(p[j])
    ensures DigitsEnd(p, i) == j
    decreases j - i
  {
    if i < j {
      assert p[i..j][0] == p[i];
      assert p[i + 1..j] == p[i..j][1..];
      DigitsEndIs(p, i + 1, j);
    }
  }

  lemma MatchAtComplete(p: string, m: Match)
    requires Splits(p, m)
    ensures MatchAt(p, |m.prefix|) == Some(m)
  {
    var i := |m.prefix|;
    var j := i + 1 + |m.start|;
    var k := j + 1 + |m.end|;
    assert p[i + 1..j] == m.start && p[j] == ':' && p[i] == '[';
    assert p[j + 1..k] == m.end && p[k] == ']';
    assert p[k + 1..] == m.suffix && p[..i] == m.prefix;
    DigitsEndIs(p, i + 1, j);
    DigitsEndIs(p, j + 1, k);
  }

  lemma {:induction false} FindLastAt(p: string, i: nat) returns (k: nat)
    requires i <= |p| && FindLast(p, i).Some?
    ensures k <= i && MatchAt(p, k) == FindLast(p, i)
    ensures forall l :: k < l <= i ==> MatchAt(p, l).None?
  {
    k := i;
    if MatchAt(p, i).None? {
      k := FindLastAt(p, i - 1);
    }
  }

  lemma {:induction false} FindLastMisses(p: string, i: nat, l: nat)
    requires l <= i <= |p| && MatchAt(p, l).Some?
    ensures FindLast(p, i).Some?
  {
    if MatchAt(p, i).None? {
      FindLastMisses(p, i - 1, l);
    }
  }

  lemma SplitHasNoNewline(p: string, m: Match)
    requires Splits(p, m)
    ensures '\n' !in p
  {
    assert forall i :: 0 <= i < |m.start| ==> m.start[i] != '\n';
    assert forall i :: 0 <= i < |m.end| ==> m.end[i] != '\n';
  }

  lemma SplitIsFoundAt(p: string, o: Match)
    requires Splits(p, o)
    ensures |o.prefix| <= |p| && MatchAt(p, |o.prefix|) == Some(o) && '\n' !in p
  {
    MatchAtComplete(p, o);
    SplitHasNoNewline(p, o);
  }

  /** The matcher fails only if there is no split at all ... */
  lemma FindMatchComplete(p: string, o: Match)
    requires Splits(p, o)
    ensures FindMatch(p).Some? && |o.prefix| <= |FindMatch(p).value.prefix|
  {
    SplitIsFoundAt(p, o);
    FindLastMisses(p, |p|, |o.prefix|);
    var k := FindLastAt(p, |p|);
    MatchAtSound(p, k);
  }

  lemma FindMatchSound(p: string)
    requires FindMatch(p).Some?
    ensures Splits(p, FindMatch(p).value)
  {
    var k := FindLastAt(p, |p|);
    MatchAtSound(p, k);
  }

  ghost predicate LongestSplit(p: string, m: Match) {
    Splits(p, m) && forall o :: Splits(p, o) ==> |o.prefix| <= |m.prefix|
  }

  /** ... and what it finds is the one split with the longest prefix. */
  lemma FindMatchExact(p: string, m: Match)
    ensures FindMatch(p) == Some(m) <==> LongestSplit(p, m)
  {
    if FindMatch(p) == Some(m) {
      FindMatchSound(p);
      forall o | Splits(p, o) ensures |o.prefix| <= |m.prefix| {
        FindMatchComplete(p, o);
      }
    }
    if LongestSplit(p, m) {
      FindMatchComplete(p, m);
      FindMatchSound(p);
      SplitIsFoundAt(p, m);
      SplitIsFoundAt(p, FindMatch(p).value);
    }
  }

  /** What is found, character by character: brackets around two numbers, none empty, with a colon
      between, and no newline anywhere. */
  lemma FoundMeans(p: string)
    requires FindMatch(p).Some?
    ensures var m := FindMatch(p).value;
            && p == m.prefix + "[" + m.start + ":" + m.end + "]" + m.suffix && '\n' !in p
            && m.start != "" && m.end != ""
            && (forall i :: 0 <= i < |m.start| ==> '0' <= m.start[i] <= '9')
            && (forall i :: 0 <= i < |m.end| ==> '0' <= m.end[i] <= '9')
  {
    FindMatchSound(p);
    SplitHasNoNewline(p, FindMatch(p).value);
  }

  // ----- Expansion --------------------------------------------------------------------

  datatype Expansion =
    | Hosts(names: seq<string>)
    | EmptyPattern
    | StartTooLarge
    | EndTooLarge
    | StartAfterEnd
    | Endless

  /** The white space that trimming removes. */
  predicate IsSpace(c: char) {
    || c in "\t\n\U{0B}\U{0C}\r \U{85}\U{A0}\U{1680}\U{2028}\U{2029}\U{202F}\U{205F}\U{3000}"
    || '\U{2000}' <= c <= '\U{200A}'
  }

  predicate Blank(p: string) {
    forall i :: 0 <= i < |p| ==> IsSpace(p[i])
  }

  /** The same by code points: tab to carriage return, the space, the next-line and no-break
      characters, and the spaces and separators of the other blocks. */
  predicate SpaceCode(c: int) {
    || 9 <= c <= 13 || c == 32 || c == 0x85 || c == 0xA0 || c == 0x1680 || 0x2000 <= c <= 0x200A
    || c == 0x2028 || c == 0x2029 || c == 0x202F || c == 0x205F || c == 0x3000
  }

  lemma SpaceCodes(c: char)
    ensures IsSpace(c) <==> SpaceCode(c as int)
  {
    assert c as int as char == c;
  }

  lemma BlankIff(p: string)
    ensures Blank(p) <==> forall i :: 0 <= i < |p| ==> SpaceCode(p[i] as int)
  {
    forall i | 0 <= i < |p| ensures IsSpace(p[i]) <==> SpaceCode(p[i] as int) {
      SpaceCodes(p[i]);
    }
  }

  /** The i-th host name of a range. */
  function HostName(m: Match, i: nat): string {
    m.prefix + Numeral(i, if Padded(m.start) then |m.start| else 0) + m.suffix
  }

  ghost predicate Ranges(m: Match) {
    && AllDigits(m.start) && AllDigits(m.end)
    && Parse(m.start) <= Parse(m.end) <= MAX_INT
  }

  lemma FoundDigits(p: string)
    requires FindMatch(p).Some?
    ensures AllDigits(FindMatch(p).value.start) && AllDigits(FindMatch(p).value.end)
  {
    FindMatchSound(p);
  }

  // ----- The loop counter -------------------------------------------------------------

  /** The loop counter after `n` increments of a signed 64-bit integer. */
  function Counter(start: int, n: nat): int {
    if n == 0 then start else Wrap64(Counter(start, n - 1) + 1)
  }

  lemma {:induction false} CounterCounts(start: int, n: nat)
    requires 0 <= start && start + n < TWO63
    ensures Counter(start, n) == start + n
  {
    if n > 0 {
      CounterCounts(start, n - 1);
    }
  }

  lemma {:induction false} CounterFits(start: int, n: nat)
    requires -TWO63 <= start < TWO63
    ensures -TWO63 <= Counter(start, n) < TWO63
  {
    if n > 0 {
      CounterFits(start, n - 1);
    }
  }

  /** The loop's condition holds however often the counter is incremented. */
  ghost predicate LoopsForever(start: int, end: int) {
    forall n: nat :: Counter(start, n) <= end
  }

  /** The loop over a range never ends exactly if the range ends at the largest integer: no
      64-bit counter is ever greater than that one. */
  lemma LoopsForeverIff(start: int, end: int)
    requires 0 <= start <= end < TWO63
    ensures LoopsForever(start, end) <==> end == TWO63 - 1
  {
    if end < TWO63 - 1 {
      CounterCounts(start, end + 1 - start);
      assert Counter(start, end + 1 - start) > end;
    } else {
      forall n: nat ensures Counter(start, n) <= end {
        CounterFits(start, n);
      }
    }
  }

  /** A range with nothing around it is found. */
  lemma BareRangeIsFound(d: string)
    requires AllDigits(d) && d != ""
    ensures FindMatch("[" + d + ":" + d + "]") == Some(Match("", d, d, ""))
  {
    var m := Match("", d, d, "");
    var p := "[" + d + ":" + d + "]";
    assert Render(m) == p;
    forall l | 0 < l <= |p| ensures MatchAt(p, l).None? {
      assert l < |p| ==> p[l] == ']' || p[l] == ':' || p[l] in d;
    }
    WrittenRangeIsFound(m);
  }

  /** A pattern on which the expansion does not return: the largest integer, bare. */
  lemma LargestRangeIsEndless()
    ensures var d := Numeral(MAX_INT, 0);
            && FindMatch("[" + d + ":" + d + "]") == Some(Match("", d, d, ""))
            && Parse(d) == MAX_INT && LoopsForever(Parse(d), Parse(d))
  {
    BareRangeIsFound(Numeral(MAX_INT, 0));
    ParseNumeral(MAX_INT, 0);
    LoopsForeverIff(MAX_INT, MAX_INT);
  }

  /** The loop itself, on a range it gets through. */
  method CountUp(m: Match) returns (hostnames: seq<string>)
    requires Ranges(m) && Parse(m.end) < MAX_INT
    ensures |hostnames| == Parse(m.end) - Parse(m.start) + 1
    ensures forall k :: 0 <= k < |hostnames| ==> hostnames[k] == HostName(m, Parse(m.start) + k)
  {
    hostnames := [];
    var start, end := Parse(m.start), Parse(m.end);
    var i: int := start;
    while i <= end
      invariant start <= i <= end + 1 && |hostnames| == i - start && i == Counter(start, |hostnames|)
      invariant forall k :: 0 <= k < |hostnames| ==> hostnames[k] == HostName(m, start + k)
      decreases end + 1 - i
    {
      hostnames := hostnames + [HostName(m, i)];
      i := Wrap64(i + 1);
    }
  }

  /** Which error a pattern has, whether its loop never ends, or that it has names. */
  ghost predicate Verdict(pattern: string, r: Expansion) {
    match FindMatch(pattern)
    case None => if Blank(pattern) then r.EmptyPattern? else r.Hosts?
    case Some(m) =>
      && AllDigits(m.start) && AllDigits(m.end)
      && (r.StartTooLarge? <==> Parse(m.start) > MAX_INT)
      && (r.EndTooLarge? <==> Parse(m.start) <= MAX_INT < Parse(m.end))
      && (r.StartAfterEnd? <==> MAX_INT >= Parse(m.start) > Parse(m.end) && Parse(m.end) <= MAX_INT)
      && (r.Endless? <==> Ranges(m) && LoopsForever(Parse(m.start), Parse(m.end)))
      && (r.Hosts? <==> Ranges(m) && Parse(m.end) < MAX_INT)
  }

  /** Every pattern: its names, its error, or no answer at all.  `Endless` stands for the
      loop that never stops, which is all the code does on such a range. */
  method ExpandHostRange(pattern: string) returns (r: Expansion)
    ensures Verdict(pattern, r)
    ensures FindMatch(pattern).None? && r.Hosts? ==> r.names == [pattern]
    ensures FindMatch(pattern).Some? && r.Hosts? ==>
              var m := FindMatch(pattern).value;
              Ranges(m) && |r.names| == Parse(m.end) - Parse(m.start) + 1
              && forall k :: 0 <= k < |r.names| ==> r.names[k] == HostName(m, Parse(m.start) + k)
  {
    var found := FindMatch(pattern);
    if found.None? {
      return if Blank(pattern) then EmptyPattern else Hosts([pattern]);
    }
    FoundDigits(pattern);
    var m := found.value;
    if Parse(m.start) > MAX_INT {
      return StartTooLarge;
    }
    if Parse(m.end) > MAX_INT {
      return EndTooLarge;
    }
    var start, end := Parse(m.start), Parse(m.end);
    if start > end {
      return StartAfterEnd;
    }
    LoopsForeverIff(start, end);
    if end == MAX_INT {
      return Endless;
    }
    var hostnames := CountUp(m);
    r := Hosts(hostnames);
  }

  /** Stripping prefix and suffix from a name and reading the numeral gives its number. */
  lemma HostNameRoundTrip(m: Match, i: nat)
    requires AllDigits(m.start)
    ensures var name := HostName(m, i);
            var numeral := name[|m.prefix|..|name| - |m.suffix|];
            && m.prefix <= name && name[|name| - |m.suffix|..] == m.suffix
            && AllDigits(numeral) && Parse(numeral) == i
            && (Padded(m.start) && |Numeral(i, 0)| <= |m.start| ==> |numeral| == |m.start|)
  {
    var width := if Padded(m.start) then |m.start| else 0;
    var name, numeral := HostName(m, i), Numeral(i, width);
    assert name[|m.prefix|..|name| - |m.suffix|] == numeral;
    ParseNumeral(i, width);
    NumeralWidth(i, width);
  }

  /** No two names of a range coincide. */
  lemma HostNamesDistinct(m: Match, i: nat, j: nat)
    requires AllDigits(m.start) && i != j
    ensures HostName(m, i) != HostName(m, j)
  {
    HostNameRoundTrip(m, i);
    HostNameRoundTrip(m, j);
  }

  /** The first name spells the start of the range exactly as the pattern does. */
  lemma FirstNameSpelledAlike(m: Match)
    requires AllDigits(m.start) && m.start != ""
    ensures HostName(m, Parse(m.start)) == m.prefix + m.start + m.suffix
  {
    NumeralParse(m.start);
  }

  /** A written range is read back as written, unless its suffix holds a later one. */
  lemma WrittenRangeIsFound(m: Match)
    requires Splits(Render(m), m)
    requires forall l :: |m.prefix| < l <= |Render(m)| ==> MatchAt(Render(m), l).None?
    ensures FindMatch(Render(m)) == Some(m)
  {
    var p := Render(m);
    FindMatchComplete(p, m);
    FindMatchSound(p);
    SplitIsFoundAt(p, m);
    SplitIsFoundAt(p, FindMatch(p).value);
  }

  // ----- Lists of patterns ------------------------------------------------------------

  /** The names a pattern stands for. */
  ghost predicate ExpandsTo(p: string, names: seq<string>) {
    match FindMatch(p)
    case None => !Blank(p) && names == [p]
    case Some(m) =>
      Ranges(m) && Parse(m.end) < MAX_INT && |names| == Parse(m.end) - Parse(m.start) + 1
      && forall k :: 0 <= k < |names| ==> names[k] == HostName(m, Parse(m.start) + k)
  }

  ghost predicate Expandable(p: string) {
    exists names :: ExpandsTo(p, names)
  }

  lemma ExpansionUnique(p: string, a: seq<string>, b: seq<string>)
    requires ExpandsTo(p, a) && ExpandsTo(p, b)
    ensures a == b
  {
    if FindMatch(p).Some? {
      var m := FindMatch(p).value;
      assert forall k :: 0 <= k < |a| ==> a[k] == HostName(m, Parse(m.start) + k) == b[k];
    }
  }

  ghost function NamesOf(p: string): (names: seq<string>)
    requires Expandable(p)
    ensures ExpandsTo(p, names)
  {
    var names :| ExpandsTo(p, names);
    names
  }

  /** The names of all patterns, one pattern after the other. */
  ghost function AllNames(patterns: seq<string>): seq<string>
    requires forall p :: p in patterns ==> Expandable(p)
  {
    if patterns == [] then []
    else AllNames(patterns[..|patterns| - 1]) + NamesOf(patterns[|patterns| - 1])
  }

  /** The names of one list of patterns come before those of the list behind it. */
  lemma {:induction false} NamesInOrder(a: seq<string>, b: seq<string>)
    requires forall p :: p in a || p in b ==> Expandable(p)
    ensures AllNames(a + b) == AllNames(a) + AllNames(b)
    ensures |a| == 1 ==> AllNames(a) == NamesOf(a[0])
    decreases |b|
  {
    if b == [] {
      assert a + b == a;
    } else {
      var init, last := b[..|b| - 1], b[|b| - 1];
      NamesInOrder(a, init);
      assert (a + b)[..|a + b| - 1] == a + init && (a + b)[|a + b| - 1] == last;
      assert AllNames(a) + (AllNames(init) + NamesOf(last)) == (AllNames(a) + AllNames(init)) + NamesOf(last);
    }
    if |a| == 1 {
      assert AllNames(a[..0]) == [];
    }
  }

  /** The list fails as the first of its patterns that does not expand. */
  ghost predicate FailsFirst(hosts: seq<string>, i: nat, r: Expansion)
    requires i < |hosts|
  {
    !r.Hosts? && Verdict(hosts[i], r) && forall k :: 0 <= k < i ==> Expandable(hosts[k])
  }

  /** A list expands exactly if all its patterns do, and then to their names in order. */
  method ExpandRoleGroupHosts(hosts: seq<string>) returns (r: Expansion)
    ensures r.Hosts? <==> forall p :: p in hosts ==> Expandable(p)
    ensures r.Hosts? ==> r.names == AllNames(hosts)
    ensures !r.Hosts? ==> exists i :: 0 <= i < |hosts| && FailsFirst(hosts, i, r)
  {
    var expanded := [];
    for i := 0 to |hosts|
      invariant forall p :: p in hosts[..i] ==> Expandable(p)
      invariant expanded == AllNames(hosts[..i])
    {
      assert hosts[i] in hosts;
      var current := ExpandHostRange(hosts[i]);
      if !current.Hosts? {
        assert FailsFirst(hosts, i, current) by {
          forall k | 0 <= k < i ensures Expandable(hosts[k]) {
            assert hosts[..i][k] == hosts[k];
          }
        }
        return current;
      }
      assert ExpandsTo(hosts[i], current.names);
      ExpansionUnique(hosts[i], current.names, NamesOf(hosts[i]));
      ghost var upTo := hosts[..i + 1];
      assert upTo[..|upTo| - 1] == hosts[..i] && upTo[|upTo| - 1] == hosts[i];
      expanded := expanded + current.names;
    }
    assert hosts[..|hosts|] == hosts;
    r := Hosts(expanded);
  }
}
