/**
 * The Istio wizard: the state it keeps while the user edits weights, rules
 * and traffic policy, the parser that turns the matching rules' text lines
 * into HTTPMatchRequests, and the builder of the DestinationRule and
 * VirtualService it submits.
 */
module IstioWizard {
  import opened Wrappers
  import opened JsString
  import opened ServiceInfo
  import opened IstioObjects
  import opened WeightedRouting

  const WIZARD_WEIGHTED_ROUTING: string := "create_weighted_routing"
  const WIZARD_MATCHING_ROUTING: string := "create_matching_routing"

  /** The traffic-policy defaults: no mutual TLS and round-robin balancing. */
  const DISABLE: string := "DISABLE"
  const ROUND_ROBIN: string := "ROUND_ROBIN"

  /** Where a matching rule sends its traffic: to one workload's subset or elsewhere. */
  datatype RouteType = Workload | Other

  /** A matching rule: its destination and its match lines, such as `uri prefix /api`. */
  datatype Rule = Rule(routeType: RouteType, route: string, matches: seq<string>)

  /** The wizard's inputs from the service page (`type` is a reserved word here, hence `wizardType`). */
  datatype Props = Props(
    show: bool,
    wizardType: string,
    namespace: string,
    serviceName: string,
    workloads: seq<WorkloadOverview>)

  // ---------------------------------------------------------------------------
  // Parsing the match lines

  /** A line that belongs to the grouped headers entry. */
  predicate IsHeaderLine(line: string) {
    StartsWith(line, "headers")
  }

  /** `i0` and `j0` of a header line: the first `[` and the first `]`. */
  function OpenBracket(line: string): int {
    IndexOf(line, '[', 0)
  }

  function CloseBracket(line: string): int {
    IndexOf(line, ']', 0)
  }

  /** `i1` and `j1` of a header line: the first space after `j0` and the next one. */
  function OpStart(line: string): int {
    IndexOf(line, ' ', CloseBracket(line) + 1)
  }

  function OpEnd(line: string): int {
    IndexOf(line, ' ', OpStart(line) + 1)
  }

  /**
   * `headers [<header-name>] <op> <value>`: the name between the first `[`
   * and the first `]`, the operator between the next two spaces, the value
   * after them, each trimmed, with indexOf and substring's rules for lines
   * that do not follow the format.
   */
  function ParseHeaderLine(line: string): (r: (string, StringMatch))
    ensures Unpadded(r.0) && Unpadded(r.1.op) && Unpadded(r.1.value)
  {
    var headerName := Trim(Substring(line, OpenBracket(line) + 1, CloseBracket(line)));
    var op := Trim(Substring(line, OpStart(line) + 1, OpEnd(line)));
    var value := Trim(SubstringFrom(line, OpEnd(line) + 1));
    (headerName, StringMatch(op, value))
  }

  /** `i` and `j` of a field line: its first two spaces. */
  function FirstSpace(line: string): int {
    IndexOf(line, ' ', 0)
  }

  function SecondSpace(line: string): int {
    IndexOf(line, ' ', FirstSpace(line) + 1)
  }

  /** `<name> <op> <value>`: split at the first two spaces, each part trimmed. */
  function ParseFieldLine(line: string): (r: HTTPMatchRequest)
    ensures r.FieldMatch?
    ensures Unpadded(r.field) && Unpadded(r.condition.op) && Unpadded(r.condition.value)
  {
    FieldMatch(FieldName(line), StringMatch(FieldOp(line), FieldValue(line)))
  }

  /** The three parts of a field line: before the first space, between the first two, after the second. */
  function FieldName(line: string): string {
    Trim(Substring(line, 0, FirstSpace(line)))
  }

  function FieldOp(line: string): string {
    Trim(Substring(line, FirstSpace(line) + 1, SecondSpace(line)))
  }

  function FieldValue(line: string): string {
    Trim(SubstringFrom(line, SecondSpace(line) + 1))
  }

  /** The header lines, in input order. */
  function HeaderLines(matches: seq<string>): seq<string> {
    if |matches| == 0 then []
    else
      var line := matches[|matches| - 1];
      HeaderLines(matches[..|matches| - 1]) + (if IsHeaderLine(line) then [line] else [])
  }

  /** The lines that are not header lines, in input order. */
  function NonHeaderLines(matches: seq<string>): seq<string> {
    if |matches| == 0 then []
    else
      var line := matches[|matches| - 1];
      NonHeaderLines(matches[..|matches| - 1]) + (if IsHeaderLine(line) then [] else [line])
  }

  /** The parsed header lines, in input order. */
  function HeaderEntries(matches: seq<string>): seq<(string, StringMatch)> {
    if |matches| == 0 then []
    else
      var line := matches[|matches| - 1];
      HeaderEntries(matches[..|matches| - 1]) + (if IsHeaderLine(line) then [ParseHeaderLine(line)] else [])
  }

  /** A dictionary written entry by entry: a later entry for the same key overwrites an earlier one. */
  function Written(entries: seq<(string, StringMatch)>): map<string, StringMatch> {
    if |entries| == 0 then map[]
    else Written(entries[..|entries| - 1])[entries[|entries| - 1].0 := entries[|entries| - 1].1]
  }

  /** The `headers` dictionary once every header line has written its entry. */
  function HeaderMap(matches: seq<string>): map<string, StringMatch> {
    Written(HeaderEntries(matches))
  }

  /** The entries the non-header lines produce, in input order. */
  function FieldMatches(matches: seq<string>): seq<HTTPMatchRequest> {
    if |matches| == 0 then []
    else
      var line := matches[|matches| - 1];
      FieldMatches(matches[..|matches| - 1]) + (if IsHeaderLine(line) then [] else [ParseFieldLine(line)])
  }

  /** The HTTPMatchRequests of a rule: the grouped headers entry when it has a key, then one entry per other line. */
  function HTTPMatchRequests(matches: seq<string>): seq<HTTPMatchRequest> {
    (if |HeaderMap(matches)| > 0 then [HeadersMatch(HeaderMap(matches))] else []) + FieldMatches(matches)
  }

  /** One entry per header line. */
  lemma {:induction false} HeaderEntriesLength(matches: seq<string>)
    ensures |HeaderEntries(matches)| == |HeaderLines(matches)|
  {
    if |matches| > 0 {
      HeaderEntriesLength(matches[..|matches| - 1]);
    }
  }

  /** `f` applied to each element, in order. */
  function MapSeq<A, B>(xs: seq<A>, f: A -> B): seq<B> {
    if |xs| == 0 then [] else MapSeq(xs[..|xs| - 1], f) + [f(xs[|xs| - 1])]
  }

  lemma {:induction false} MapSeqAt<A, B>(xs: seq<A>, f: A -> B, k: nat)
    requires k < |xs|
    ensures |MapSeq(xs, f)| == |xs| && MapSeq(xs, f)[k] == f(xs[k])
    decreases |xs|
  {
    var init := xs[..|xs| - 1];
    if k < |init| {
      MapSeqAt(init, f, k);
    } else if |init| > 0 {
      MapSeqAt(init, f, 0);
    }
  }

  /** The header entries are the header lines, each parsed. */
  lemma {:induction false} HeaderEntriesMapped(matches: seq<string>)
    ensures HeaderEntries(matches) == MapSeq(HeaderLines(matches), ParseHeaderLine)
  {
    if |matches| > 0 {
      var init, line := matches[..|matches| - 1], matches[|matches| - 1];
      HeaderEntriesMapped(init);
      var ls := HeaderLines(init);
      if IsHeaderLine(line) {
        assert HeaderLines(matches) == ls + [line];
        assert (ls + [line])[..|ls|] == ls;
      } else {
        assert HeaderLines(matches) == ls;
      }
    }
  }

  /** Entry k of the header entries is the parse of header line k. */
  lemma HeaderEntryAt(matches: seq<string>, k: nat)
    requires k < |HeaderLines(matches)|
    ensures k < |HeaderEntries(matches)| && HeaderEntries(matches)[k] == ParseHeaderLine(HeaderLines(matches)[k])
  {
    HeaderEntriesMapped(matches);
    MapSeqAt(HeaderLines(matches), ParseHeaderLine, k);
  }

  /** One entry per header line, in input order, each the parse of its line. */
  lemma HeaderEntriesPerLine(matches: seq<string>)
    ensures |HeaderEntries(matches)| == |HeaderLines(matches)|
    ensures forall k :: 0 <= k < |HeaderEntries(matches)| ==>
              HeaderEntries(matches)[k] == ParseHeaderLine(HeaderLines(matches)[k])
  {
    HeaderEntriesLength(matches);
    forall k | 0 <= k < |HeaderEntries(matches)|
      ensures HeaderEntries(matches)[k] == ParseHeaderLine(HeaderLines(matches)[k])
    {
      HeaderEntryAt(matches, k);
    }
  }

  /** One entry per non-header line. */
  lemma {:induction false} FieldMatchesLength(matches: seq<string>)
    ensures |FieldMatches(matches)| == |NonHeaderLines(matches)|
  {
    if |matches| > 0 {
      FieldMatchesLength(matches[..|matches| - 1]);
    }
  }

  /** The field entries are the non-header lines, each parsed. */
  lemma {:induction false} FieldMatchesMapped(matches: seq<string>)
    ensures FieldMatches(matches) == MapSeq(NonHeaderLines(matches), ParseFieldLine)
  {
    if |matches| > 0 {
      var init, line := matches[..|matches| - 1], matches[|matches| - 1];
      FieldMatchesMapped(init);
      var ls := NonHeaderLines(init);
      if IsHeaderLine(line) {
        assert NonHeaderLines(matches) == ls;
      } else {
        assert NonHeaderLines(matches) == ls + [line];
        assert (ls + [line])[..|ls|] == ls;
      }
    }
  }

  /** Field entry k is the parse of non-header line k. */
  lemma FieldMatchAt(matches: seq<string>, k: nat)
    requires k < |NonHeaderLines(matches)|
    ensures k < |FieldMatches(matches)| && FieldMatches(matches)[k] == ParseFieldLine(NonHeaderLines(matches)[k])
  {
    FieldMatchesMapped(matches);
    MapSeqAt(NonHeaderLines(matches), ParseFieldLine, k);
  }

  /** One entry per non-header line, in input order, each the parse of its line. */
  lemma FieldMatchesPerLine(matches: seq<string>)
    ensures |FieldMatches(matches)| == |NonHeaderLines(matches)|
    ensures forall k :: 0 <= k < |FieldMatches(matches)| ==>
              FieldMatches(matches)[k] == ParseFieldLine(NonHeaderLines(matches)[k])
  {
    FieldMatchesLength(matches);
    forall k | 0 <= k < |FieldMatches(matches)|
      ensures FieldMatches(matches)[k] == ParseFieldLine(NonHeaderLines(matches)[k])
    {
      FieldMatchAt(matches, k);
    }
  }

  /** A key is written exactly when some entry carries it. */
  lemma {:induction false} WrittenKeys(entries: seq<(string, StringMatch)>, key: string)
    ensures key in Written(entries) <==> exists k :: 0 <= k < |entries| && entries[k].0 == key
  {
    if |entries| > 0 {
      var init := entries[..|entries| - 1];
      WrittenKeys(init, key);
      if exists k :: 0 <= k < |init| && init[k].0 == key {
        var k :| 0 <= k < |init| && init[k].0 == key;
        assert entries[k] == init[k];
      }
      if exists k :: 0 <= k < |entries| && entries[k].0 == key {
        var k :| 0 <= k < |entries| && entries[k].0 == key;
        if k < |entries| - 1 {
          assert init[k] == entries[k];
        }
      }
    }
  }

  /** The last entry for a key is the one that stays. */
  lemma {:induction false} WrittenLastWins(entries: seq<(string, StringMatch)>, k: nat)
    requires k < |entries|
    requires forall j :: k < j < |entries| ==> entries[j].0 != entries[k].0
    ensures entries[k].0 in Written(entries) && Written(entries)[entries[k].0] == entries[k].1
  {
    if k < |entries| - 1 {
      var init := entries[..|entries| - 1];
      assert init[k] == entries[k];
      forall j | k < j < |init| ensures init[j].0 != init[k].0 {
        assert init[j] == entries[j];
      }
      WrittenLastWins(init, k);
    }
  }

  /** The header lines of two blocks of lines are those of the first block, then those of the second. */
  lemma {:induction false} HeaderLinesAppend(a: seq<string>, b: seq<string>)
    ensures HeaderLines(a + b) == HeaderLines(a) + HeaderLines(b)
    decreases |b|
  {
    if |b| > 0 {
      var b', last := b[..|b| - 1], b[|b| - 1];
      assert (a + b)[..|a + b| - 1] == a + b';
      HeaderLinesAppend(a, b');
      var header := if IsHeaderLine(last) then [last] else [];
      assert HeaderLines(a + b) == HeaderLines(a + b') + header;
      AppendAssoc(HeaderLines(a), HeaderLines(b'), header);
    } else {
      assert a + b == a;
    }
  }

  /** The non-header lines of two blocks of lines are those of the first block, then those of the second. */
  lemma {:induction false} NonHeaderLinesAppend(a: seq<string>, b: seq<string>)
    ensures NonHeaderLines(a + b) == NonHeaderLines(a) + NonHeaderLines(b)
    decreases |b|
  {
    if |b| > 0 {
      var b', last := b[..|b| - 1], b[|b| - 1];
      assert (a + b)[..|a + b| - 1] == a + b';
      NonHeaderLinesAppend(a, b');
      var other := if IsHeaderLine(last) then [] else [last];
      assert NonHeaderLines(a + b) == NonHeaderLines(a + b') + other;
      AppendAssoc(NonHeaderLines(a), NonHeaderLines(b'), other);
    } else {
      assert a + b == a;
    }
  }

  /** The header lines are lines of the input that start with `headers`; the other lines are lines of the input that do not. */
  lemma {:induction false} LinesMembership(matches: seq<string>)
    ensures forall k :: 0 <= k < |HeaderLines(matches)| ==>
              HeaderLines(matches)[k] in matches && IsHeaderLine(HeaderLines(matches)[k])
    ensures forall k :: 0 <= k < |NonHeaderLines(matches)| ==>
              NonHeaderLines(matches)[k] in matches && !IsHeaderLine(NonHeaderLines(matches)[k])
  {
    if |matches| > 0 {
      var init := matches[..|matches| - 1];
      LinesMembership(init);
      assert forall x :: x in init ==> x in matches;
    }
  }

  /** Each line goes to exactly one of the two groups. */
  lemma {:induction false} LinesPartition(matches: seq<string>)
    ensures |HeaderLines(matches)| + |NonHeaderLines(matches)| == |matches|
    ensures |HeaderLines(matches)| > 0 <==> exists k :: 0 <= k < |matches| && IsHeaderLine(matches[k])
  {
    if |matches| > 0 {
      var init := matches[..|matches| - 1];
      LinesPartition(init);
      if exists k :: 0 <= k < |init| && IsHeaderLine(init[k]) {
        var k :| 0 <= k < |init| && IsHeaderLine(init[k]);
        assert matches[k] == init[k];
      }
      if exists k :: 0 <= k < |matches| && IsHeaderLine(matches[k]) {
        var k :| 0 <= k < |matches| && IsHeaderLine(matches[k]);
        if k < |matches| - 1 {
          assert init[k] == matches[k];
        }
      }
    }
  }

  /** The grouped headers entry is emitted exactly when some line starts with `headers`. */
  lemma HeaderGroupPresent(matches: seq<string>)
    ensures |HeaderMap(matches)| > 0 <==> exists k :: 0 <= k < |matches| && IsHeaderLine(matches[k])
  {
    LinesPartition(matches);
    HeaderEntriesPerLine(matches);
    var entries := HeaderEntries(matches);
    if |entries| > 0 {
      WrittenKeys(entries, entries[0].0);
    } else {
      assert Written(entries) == map[];
    }
  }

  /** A header is collected exactly when some header line names it. */
  lemma HeaderMapKeys(matches: seq<string>, h: string)
    ensures h in HeaderMap(matches) <==>
            exists k :: 0 <= k < |HeaderLines(matches)| && ParseHeaderLine(HeaderLines(matches)[k]).0 == h
  {
    var entries := HeaderEntries(matches);
    var lines := HeaderLines(matches);
    WrittenKeys(entries, h);
    HeaderEntriesLength(matches);
    if exists k :: 0 <= k < |entries| && entries[k].0 == h {
      var k :| 0 <= k < |entries| && entries[k].0 == h;
      HeaderEntryAt(matches, k);
    }
    if exists k :: 0 <= k < |lines| && ParseHeaderLine(lines[k]).0 == h {
      var k :| 0 <= k < |lines| && ParseHeaderLine(lines[k]).0 == h;
      HeaderEntryAt(matches, k);
    }
  }

  /** The last header line naming a header decides its entry: later lines overwrite earlier ones. */
  lemma HeaderMapLastWins(matches: seq<string>, k: nat)
    requires k < |HeaderLines(matches)|
    requires forall j :: k < j < |HeaderLines(matches)| ==>
               ParseHeaderLine(HeaderLines(matches)[j]).0 != ParseHeaderLine(HeaderLines(matches)[k]).0
    ensures var (h, condition) := ParseHeaderLine(HeaderLines(matches)[k]);
            h in HeaderMap(matches) && HeaderMap(matches)[h] == condition
  {
    var entries := HeaderEntries(matches);
    HeaderEntriesPerLine(matches);
    WrittenLastWins(entries, k);
  }

  /** The grouped headers entry, if any, comes first; then one field entry per other line, each the parse of its line. */
  lemma MatchRequestsShape(matches: seq<string>)
    ensures var r, g := HTTPMatchRequests(matches), if exists k :: 0 <= k < |matches| && IsHeaderLine(matches[k]) then 1 else 0;
            && |r| == g + |NonHeaderLines(matches)|
            && (g == 1 ==> r[0] == HeadersMatch(HeaderMap(matches)))
            && r[g..] == FieldMatches(matches)
            && (forall k :: g <= k < |r| ==> r[k].FieldMatch?)
  {
    var r := HTTPMatchRequests(matches);
    HeaderGroupPresent(matches);
    FieldMatchesPerLine(matches);
    var g := if |HeaderMap(matches)| > 0 then 1 else 0;
    assert r[g..] == FieldMatches(matches);
    forall k | g <= k < |r| ensures r[k].FieldMatch? {
      assert r[k] == FieldMatches(matches)[k - g];
    }
  }

  /** A field line in the documented format parses to its trimmed name, operator and value. */
  lemma ParseFieldLineFormat(name: string, op: string, value: string)
    requires ' ' !in name && ' ' !in op
    ensures ParseFieldLine(name + " " + op + " " + value)
            == FieldMatch(Trim(name), StringMatch(Trim(op), Trim(value)))
  {
    FieldLinePositions(name, op, value);
    FieldLineParts(name, op, value);
  }

  /** Where the two spaces of a field line in the documented format fall. */
  lemma FieldLinePositions(name: string, op: string, value: string)
    requires ' ' !in name && ' ' !in op
    ensures var line := name + " " + op + " " + value;
            FirstSpace(line) == |name| && SecondSpace(line) == |name| + 1 + |op|
  {
    var line := name + " " + op + " " + value;
    var i, j := |name|, |name| + 1 + |op|;
    assert line[i] == ' ' && line[j] == ' ';
    forall q | 0 <= q < i ensures line[q] != ' ' {
      assert line[q] == name[q];
    }
    IndexOfIs(line, ' ', 0, i);
    forall q | i + 1 <= q < j ensures line[q] != ' ' {
      assert line[q] == op[q - i - 1];
    }
    IndexOfIs(line, ' ', i + 1, j);
  }

  /** The three parts of a field line in the documented format, once its spaces are known. */
  lemma FieldLineParts(name: string, op: string, value: string)
    requires var line := name + " " + op + " " + value;
             FirstSpace(line) == |name| && SecondSpace(line) == |name| + 1 + |op|
    ensures var line := name + " " + op + " " + value;
            && Substring(line, 0, FirstSpace(line)) == name
            && Substring(line, FirstSpace(line) + 1, SecondSpace(line)) == op
            && SubstringFrom(line, SecondSpace(line) + 1) == value
  {
    var line := name + " " + op + " " + value;
    var i, j := |name|, |name| + 1 + |op|;
    assert Substring(line, 0, i) == line[0..i] == name;
    assert Substring(line, i + 1, j) == line[i + 1..j] == op;
    assert SubstringFrom(line, j + 1) == line[j + 1..] == value;
  }

  /** Where the four positions of a header line in the documented format fall. */
  lemma HeaderLinePositions(h: string, op: string, value: string)
    requires ']' !in h && ' ' !in op
    ensures var line := "headers [" + h + "] " + op + " " + value;
            && OpenBracket(line) == 8 && CloseBracket(line) == 9 + |h|
            && OpStart(line) == 10 + |h| && OpEnd(line) == 11 + |h| + |op|
  {
    var line := "headers [" + h + "] " + op + " " + value;
    var j0 := 9 + |h|;
    var j1 := j0 + 2 + |op|;
    assert line[8] == '[' && line[j0] == ']' && line[j0 + 1] == ' ' && line[j1] == ' ';
    IndexOfIs(line, '[', 0, 8);
    forall q | 0 <= q < j0 ensures line[q] != ']' {
      if q >= 9 {
        assert line[q] == h[q - 9];
      }
    }
    IndexOfIs(line, ']', 0, j0);
    IndexOfIs(line, ' ', j0 + 1, j0 + 1);
    forall q | j0 + 2 <= q < j1 ensures line[q] != ' ' {
      assert line[q] == op[q - j0 - 2];
    }
    IndexOfIs(line, ' ', j0 + 2, j1);
  }

  /** A header line in the documented format parses to its trimmed header name, operator and value. */
  lemma ParseHeaderLineFormat(h: string, op: string, value: string)
    requires ']' !in h && ' ' !in op
    ensures var line := "headers [" + h + "] " + op + " " + value;
            && IsHeaderLine(line)
            && ParseHeaderLine(line) == (Trim(h), StringMatch(Trim(op), Trim(value)))
  {
    var line := "headers [" + h + "] " + op + " " + value;
    assert line[..7] == "headers";
    HeaderLinePositions(h, op, value);
    HeaderLineParts(h, op, value);
  }

  /** The three parts of a header line in the documented format, once its positions are known. */
  lemma HeaderLineParts(h: string, op: string, value: string)
    requires var line := "headers [" + h + "] " + op + " " + value;
             && OpenBracket(line) == 8 && CloseBracket(line) == 9 + |h|
             && OpStart(line) == 10 + |h| && OpEnd(line) == 11 + |h| + |op|
    ensures var line := "headers [" + h + "] " + op + " " + value;
            && Substring(line, OpenBracket(line) + 1, CloseBracket(line)) == h
            && Substring(line, OpStart(line) + 1, OpEnd(line)) == op
            && SubstringFrom(line, OpEnd(line) + 1) == value
  {
    var line := "headers [" + h + "] " + op + " " + value;
    var j0, j1 := 9 + |h|, 11 + |h| + |op|;
    assert line[9..j0] == h;
    assert line[j0 + 2..j1] == op;
    assert line[j1 + 1..] == value;
  }

  /**
   * A line with a single space is not rejected: the second indexOf misses,
   * substring swaps its ends, and `uri exact` becomes `{uri: {uri: "uri exact"}}`.
   */
  lemma ParseFieldLineOneSpace(name: string, op: string)
    requires ' ' !in name && ' ' !in op
    requires TrimStable(name) && TrimStable(op)
    ensures ParseFieldLine(name + " " + op) == FieldMatch(name, StringMatch(name, name + " " + op))
  {
    OneSpacePositions(name, op);
    OneSpaceParts(name, op);
  }

  /** A non-empty string that neither starts nor ends with white space. */
  predicate TrimStable(s: string) {
    s != [] && s[0] !in WhiteSpace && s[|s| - 1] !in WhiteSpace
  }

  /** In `<name> <op>` the first space follows the name and there is no second one. */
  lemma OneSpacePositions(name: string, op: string)
    requires ' ' !in name && ' ' !in op
    ensures FirstSpace(name + " " + op) == |name| && SecondSpace(name + " " + op) == -1
  {
    var line := name + " " + op;
    assert line[|name|] == ' ';
    forall q | 0 <= q < |name| ensures line[q] != ' ' {
      assert line[q] == name[q];
    }
    IndexOfIs(line, ' ', 0, |name|);
    forall q | |name| + 1 <= q < |line| ensures line[q] != ' ' {
      assert line[q] == op[q - |name| - 1];
    }
    IndexOfMiss(line, ' ', |name| + 1);
  }

  /** The three parts of `<name> <op>`, once its spaces are known. */
  lemma OneSpaceParts(name: string, op: string)
    requires TrimStable(name) && TrimStable(op)
    requires FirstSpace(name + " " + op) == |name| && SecondSpace(name + " " + op) == -1
    ensures FieldName(name + " " + op) == name
    ensures FieldOp(name + " " + op) == name
    ensures FieldValue(name + " " + op) == name + " " + op
  {
    var line := name + " " + op;
    assert Substring(line, 0, |name|) == name;
    TrimUnchanged(name);
    OneSpaceOp(name, op);
    OneSpaceValue(name, op);
  }

  /** With no second space, substring swaps its ends and the operator is the name again. */
  lemma OneSpaceOp(name: string, op: string)
    requires TrimStable(name)
    requires FirstSpace(name + " " + op) == |name| && SecondSpace(name + " " + op) == -1
    ensures FieldOp(name + " " + op) == name
  {
    var line := name + " " + op;
    assert Substring(line, |name| + 1, -1) == name + " ";
    TrimOneTrailingSpace(name);
  }

  /** With no second space, the value is the whole line. */
  lemma OneSpaceValue(name: string, op: string)
    requires TrimStable(name) && TrimStable(op)
    requires SecondSpace(name + " " + op) == -1
    ensures FieldValue(name + " " + op) == name + " " + op
  {
    var line := name + " " + op;
    assert SubstringFrom(line, 0) == line;
    assert line[0] == name[0] && line[|line| - 1] == op[|op| - 1];
    TrimUnchanged(line);
  }

  /** A trailing space is trimmed off. */
  lemma TrimOneTrailingSpace(s: string)
    requires TrimStable(s)
    ensures Trim(s + " ") == s
  {
    var t := s + " ";
    assert t[0] == s[0];
    assert TrimStart(t) == t;
    assert t[|t| - 1] == ' ' && t[|t| - 2] == s[|s| - 1];
    assert BackOverWhiteSpace(t, |t| - 1) == |t| - 1;
    assert BackOverWhiteSpace(t, |t|) == |t| - 1;
    assert t[..|t| - 1] == s;
  }

  /** Writing one more entry updates the dictionary at that entry's key. */
  lemma WrittenStep(entries: seq<(string, StringMatch)>, x: (string, StringMatch))
    ensures Written(entries + [x]) == Written(entries)[x.0 := x.1]
  {
    assert (entries + [x])[..|entries|] == entries;
  }

  /** One more line extends the header entries by that line's parse, if it is a header line. */
  lemma HeaderEntriesStep(matches: seq<string>, i: nat)
    requires i < |matches|
    ensures HeaderEntries(matches[..i + 1])
            == HeaderEntries(matches[..i]) + (if IsHeaderLine(matches[i]) then [ParseHeaderLine(matches[i])] else [])
  {
    assert matches[..i + 1][..i] == matches[..i];
  }

  /** One more line extends the header dictionary by that line's entry, if it is a header line. */
  lemma HeaderMapStep(matches: seq<string>, i: nat)
    requires i < |matches|
    ensures HeaderMap(matches[..i + 1])
            == if IsHeaderLine(matches[i])
               then HeaderMap(matches[..i])[ParseHeaderLine(matches[i]).0 := ParseHeaderLine(matches[i]).1]
               else HeaderMap(matches[..i])
  {
    HeaderEntriesStep(matches, i);
    if IsHeaderLine(matches[i]) {
      WrittenStep(HeaderEntries(matches[..i]), ParseHeaderLine(matches[i]));
    } else {
      assert HeaderEntries(matches[..i + 1]) == HeaderEntries(matches[..i]);
    }
  }

  /** One more line extends the field entries by that line's entry, if it is not a header line. */
  lemma FieldMatchesStep(matches: seq<string>, i: nat)
    requires i < |matches|
    ensures FieldMatches(matches[..i + 1])
            == FieldMatches(matches[..i]) + (if IsHeaderLine(matches[i]) then [] else [ParseFieldLine(matches[i])])
  {
    assert matches[..i + 1][..i] == matches[..i];
  }

  /**
   * `buildHTTPMatchRequest`: the header lines are collected into one
   * dictionary, pushed first when it has a key, then each other line is
   * parsed and pushed.
   */
  method BuildHTTPMatchRequest(matches: seq<string>) returns (matchRequests: seq<HTTPMatchRequest>)
    ensures matchRequests == HTTPMatchRequests(matches)
  {
    matchRequests := [];
    var headers := CollectHeaders(matches);
    if |headers| > 0 {
      matchRequests := matchRequests + [HeadersMatch(headers)];
    }
    matchRequests := PushFieldMatches(matches, matchRequests);
  }

  /** Each header line writes its entry into the one shared `headers` dictionary. */
  method CollectHeaders(matches: seq<string>) returns (headers: map<string, StringMatch>)
    ensures headers == HeaderMap(matches)
  {
    headers := map[];
    for i := 0 to |matches|
      invariant headers == HeaderMap(matches[..i])
    {
      HeaderMapStep(matches, i);
      if IsHeaderLine(matches[i]) {
        var (headerName, condition) := ParseHeaderLine(matches[i]);
        headers := headers[headerName := condition];
      }
    }
    assert matches[..|matches|] == matches;
  }

  lemma AppendAssoc<T>(a: seq<T>, b: seq<T>, c: seq<T>)
    ensures a + b + c == a + (b + c)
  {
  }

  /** Each line that is not a header line is parsed and pushed, in order. */
  method PushFieldMatches(matches: seq<string>, matchRequests0: seq<HTTPMatchRequest>)
    returns (matchRequests: seq<HTTPMatchRequest>)
    ensures matchRequests == matchRequests0 + FieldMatches(matches)
  {
    matchRequests := matchRequests0;
    for i := 0 to |matches|
      invariant matchRequests == matchRequests0 + FieldMatches(matches[..i])
    {
      FieldMatchesStep(matches, i);
      if !IsHeaderLine(matches[i]) {
        var entry := ParseFieldLine(matches[i]);
        AppendAssoc(matchRequests0, FieldMatches(matches[..i]), [entry]);
        matchRequests := matchRequests + [entry];
      }
    }
    assert matches[..|matches|] == matches;
  }

  // ---------------------------------------------------------------------------
  // Comparing workload lists

  /** Same length, and every earlier workload occurs somewhere in the current list. */
  ghost predicate SameWorkloads(prev: seq<WorkloadOverview>, current: seq<WorkloadOverview>) {
    |prev| == |current| && forall i :: 0 <= i < |prev| ==> prev[i] in current
  }

  /** `compareWorkloads`: a length test, then a membership test per element with an early exit. */
  method CompareWorkloads(prev: seq<WorkloadOverview>, current: seq<WorkloadOverview>) returns (same: bool)
    ensures same <==> SameWorkloads(prev, current)
    ensures prev == current ==> same
  {
    if |prev| != |current| {
      return false;
    }
    for i := 0 to |prev|
      invariant forall k :: 0 <= k < i ==> prev[k] in current
    {
      if prev[i] !in current {
        return false;
      }
    }
    return true;
  }

  /** The comparison ignores multiplicities: [a, a, b] and [a, b, b] count as the same workloads. */
  lemma SameWorkloadsIgnoresMultiplicity(a: WorkloadOverview, b: WorkloadOverview)
    requires a != b
    ensures SameWorkloads([a, a, b], [a, b, b])
    ensures multiset([a, a, b]) != multiset([a, b, b])
  {
    assert multiset([a, a, b])[a] == 2;
    assert multiset([a, b, b])[a] == 1;
  }

  // ---------------------------------------------------------------------------
  // Building the Istio objects

  /** `workload.labels[versionLabelName]`, undefined when the label is missing. */
  function VersionOf(w: WorkloadOverview, versionLabelName: string): (r: Option<string>)
    ensures r.Some? <==> versionLabelName in w.labels
    ensures versionLabelName in w.labels ==> r == Some(w.labels[versionLabelName])
  {
    if versionLabelName in w.labels then Some(w.labels[versionLabelName]) else None
  }

  /** The `wkdNameVersion` table after the workloads, in order: a later workload of the same name overwrites. */
  function NameVersions(ws: seq<WorkloadOverview>, versionLabelName: string): (table: map<string, Option<string>>)
    ensures table.Keys == set k | 0 <= k < |ws| :: ws[k].name
  {
    if |ws| == 0 then map[]
    else
      var init, last := ws[..|ws| - 1], ws[|ws| - 1];
      assert (set k | 0 <= k < |ws| :: ws[k].name) == (set k | 0 <= k < |init| :: init[k].name) + {last.name} by {
        forall k | 0 <= k < |init| ensures init[k] == ws[k] {}
      }
      NameVersions(init, versionLabelName)[last.name := VersionOf(last, versionLabelName)]
  }

  /** Reading a table entry, undefined when the key is missing. */
  function Lookup(table: map<string, Option<string>>, key: string): (r: Option<string>)
    ensures key !in table ==> r == None
    ensures key in table ==> r == table[key]
  {
    if key in table then table[key] else None
  }

  /** A workload's version is found under its name unless a later workload has the same name. */
  lemma {:induction false} NameVersionsLast(ws: seq<WorkloadOverview>, versionLabelName: string, k: nat)
    requires k < |ws|
    requires forall j :: k < j < |ws| ==> ws[j].name != ws[k].name
    ensures Lookup(NameVersions(ws, versionLabelName), ws[k].name) == VersionOf(ws[k], versionLabelName)
  {
    if k < |ws| - 1 {
      var init := ws[..|ws| - 1];
      assert init[k] == ws[k];
      forall j | k < j < |init| ensures init[j].name != init[k].name {
        assert init[j] == ws[j];
      }
      NameVersionsLast(init, versionLabelName, k);
    }
  }

  /** A name no workload has finds no version. */
  lemma {:induction false} NameVersionsMissing(ws: seq<WorkloadOverview>, versionLabelName: string, name: string)
    requires forall j :: 0 <= j < |ws| ==> ws[j].name != name
    ensures Lookup(NameVersions(ws, versionLabelName), name) == None
  {
    if |ws| > 0 {
      var init := ws[..|ws| - 1];
      forall j | 0 <= j < |init| ensures init[j].name != name {
        assert init[j] == ws[j];
      }
      NameVersionsMissing(init, versionLabelName, name);
    }
  }

  /**
   * The HTTP route a matching rule becomes: one unweighted destination on the
   * service, sent to a workload's subset only for a workload rule, and
   * matched only when the rule has match lines.
   */
  function RuleRoute(rule: Rule, serviceName: string, table: map<string, Option<string>>): (r: HTTPRoute)
    ensures |r.route| == 1 && r.route[0].weight == None && r.route[0].destination.host == serviceName
    ensures r.route[0].destination.subset.Some? ==> rule.routeType == Workload
    ensures r.matches.Some? <==> |rule.matches| > 0
  {
    HTTPRoute(
      if |rule.matches| > 0 then Some(HTTPMatchRequests(rule.matches)) else None,
      [DestinationWeight(
         Destination(serviceName, if rule.routeType == Workload then Lookup(table, rule.route) else None),
         None)])
  }

  /** The body of the rule loop in `createIstioTraffic`: one rule's HTTP route. */
  method RuleToRoute(rule: Rule, serviceName: string, table: map<string, Option<string>>) returns (httpRoute: HTTPRoute)
    ensures httpRoute == RuleRoute(rule, serviceName, table)
  {
    var destW := DestinationWeight(Destination(serviceName, None), None);
    if rule.routeType == Workload {
      destW := destW.(destination := destW.destination.(subset := Lookup(table, rule.route)));
    }
    var matchRequests: Option<seq<HTTPMatchRequest>> := None;
    if |rule.matches| > 0 {
      var built := BuildHTTPMatchRequest(rule.matches);
      matchRequests := Some(built);
    }
    httpRoute := HTTPRoute(matchRequests, [destW]);
  }

  /** Appending the next rule's route keeps every earlier route in place. */
  lemma RoutesAppend(http: seq<HTTPRoute>, rules: seq<Rule>, i: nat, serviceName: string,
                     table: map<string, Option<string>>, route: HTTPRoute)
    requires i < |rules| && |http| == i
    requires forall k {:trigger http[k]} :: 0 <= k < i ==> http[k] == RuleRoute(rules[k], serviceName, table)
    requires route == RuleRoute(rules[i], serviceName, table)
    ensures forall k {:trigger (http + [route])[k]} :: 0 <= k <= i ==>
              (http + [route])[k] == RuleRoute(rules[k], serviceName, table)
  {
    forall k | 0 <= k <= i
      ensures (http + [route])[k] == RuleRoute(rules[k], serviceName, table)
    {
      if k < i {
        assert (http + [route])[k] == http[k];
      }
    }
  }

  /** The rule loop in `createIstioTraffic`: one HTTP route per rule, in order. */
  method RulesToRoutes(rules: seq<Rule>, serviceName: string, table: map<string, Option<string>>)
    returns (http: seq<HTTPRoute>)
    ensures |http| == |rules|
    ensures forall k :: 0 <= k < |rules| ==> http[k] == RuleRoute(rules[k], serviceName, table)
  {
    http := [];
    for i := 0 to |rules|
      invariant |http| == i
      invariant forall k {:trigger http[k]} :: 0 <= k < i ==> http[k] == RuleRoute(rules[k], serviceName, table)
    {
      var httpRoute := RuleToRoute(rules[i], serviceName, table);
      RoutesAppend(http, rules, i, serviceName, table, httpRoute);
      http := http + [httpRoute];
    }
  }

  /** The wizard's state: its props and the React state fields. */
  class IstioWizard {
    var props: Props
    var showWizard: bool
    var workloads: seq<WorkloadWeight>
    var rules: seq<Rule>
    var valid: bool
    var mtlsMode: string
    var tlsModified: bool
    var loadBalancer: string
    var lbModified: bool

    /** The wizard starts hidden, empty, valid and with the default traffic policy, unmodified. */
    constructor (props: Props)
      ensures this.props == props
      ensures !showWizard && workloads == [] && rules == [] && valid
      ensures mtlsMode == DISABLE && !tlsModified && loadBalancer == ROUND_ROBIN && !lbModified
    {
      this.props := props;
      showWizard := false;
      workloads := [];
      rules := [];
      valid := true;
      mtlsMode := DISABLE;
      tlsModified := false;
      loadBalancer := ROUND_ROBIN;
      lbModified := false;
    }

    /**
     * `componentDidUpdate`: when `show` changed or the workloads differ, the
     * edits are dropped and the policy goes back to its defaults; a weighted
     * routing starts valid, any other kind invalid. The "modified" flags stay.
     */
    method ComponentDidUpdate(prevProps: Props)
      modifies this
      ensures props == old(props)
      ensures prevProps.show != props.show || !SameWorkloads(prevProps.workloads, props.workloads) ==>
                && showWizard == props.show && workloads == [] && rules == []
                && valid == (props.wizardType == WIZARD_WEIGHTED_ROUTING)
                && mtlsMode == DISABLE && loadBalancer == ROUND_ROBIN
                && tlsModified == old(tlsModified) && lbModified == old(lbModified)
      ensures prevProps.show == props.show && SameWorkloads(prevProps.workloads, props.workloads) ==>
                unchanged(this)
    {
      var same := true;
      if prevProps.show == props.show {
        same := CompareWorkloads(prevProps.workloads, props.workloads);
      }
      if prevProps.show != props.show || !same {
        var isValid;
        if props.wizardType == WIZARD_WEIGHTED_ROUTING {
          isValid := true;
        } else {
          isValid := false;
        }
        showWizard := props.show;
        workloads := [];
        rules := [];
        valid := isValid;
        mtlsMode := DISABLE;
        loadBalancer := ROUND_ROBIN;
      }
    }

    /** `onClose`: the wizard hides and tells the page nothing changed. */
    method OnClose() returns (changed: bool)
      modifies this
      ensures !showWizard && !changed
      ensures props == old(props) && workloads == old(workloads) && rules == old(rules) && valid == old(valid)
      ensures mtlsMode == old(mtlsMode) && tlsModified == old(tlsModified)
      ensures loadBalancer == old(loadBalancer) && lbModified == old(lbModified)
    {
      showWizard := false;
      changed := false;
    }

    /** `onTLS`: the chosen mode is kept and marked as modified. */
    method OnTLS(mTLS: string)
      modifies this
      ensures mtlsMode == mTLS && tlsModified
      ensures props == old(props) && showWizard == old(showWizard) && workloads == old(workloads)
      ensures rules == old(rules) && valid == old(valid)
      ensures loadBalancer == old(loadBalancer) && lbModified == old(lbModified)
    {
      mtlsMode := mTLS;
      tlsModified := true;
    }

    /** `onLoadBalancer`: the chosen algorithm is kept and marked as modified. */
    method OnLoadBalancer(simple: string)
      modifies this
      ensures loadBalancer == simple && lbModified
      ensures props == old(props) && showWizard == old(showWizard) && workloads == old(workloads)
      ensures rules == old(rules) && valid == old(valid)
      ensures mtlsMode == old(mtlsMode) && tlsModified == old(tlsModified)
    {
      loadBalancer := simple;
      lbModified := true;
    }

    /** `onWeightsChange`: the weighted-routing editor's rows and verdict are kept; `reset` is ignored. */
    method OnWeightsChange(valid: bool, workloads: seq<WorkloadWeight>, reset: bool)
      modifies this
      ensures this.valid == valid && this.workloads == workloads
      ensures props == old(props) && showWizard == old(showWizard) && rules == old(rules)
      ensures mtlsMode == old(mtlsMode) && tlsModified == old(tlsModified)
      ensures loadBalancer == old(loadBalancer) && lbModified == old(lbModified)
    {
      this.valid := valid;
      this.workloads := workloads;
    }

    /** `onRulesChange`: the matching-routing editor's rules and verdict are kept. */
    method OnRulesChange(valid: bool, rules: seq<Rule>)
      modifies this
      ensures this.valid == valid && this.rules == rules
      ensures props == old(props) && showWizard == old(showWizard) && workloads == old(workloads)
      ensures mtlsMode == old(mtlsMode) && tlsModified == old(tlsModified)
      ensures loadBalancer == old(loadBalancer) && lbModified == old(lbModified)
    {
      this.valid := valid;
      this.rules := rules;
    }

    /**
     * The DestinationRule the wizard builds: named after the service, one
     * subset per workload in order, each named by the workload's version and
     * selecting exactly that version; a traffic policy exactly when the TLS
     * mode or the load balancer was modified, holding just the modified parts.
     */
    ghost predicate DestinationRuleBuilt(dr: DestinationRule, versionLabelName: string)
      reads this
    {
      && dr.metadata == Metadata(props.namespace, props.serviceName)
      && dr.host == props.serviceName
      && |dr.subsets| == |props.workloads|
      && (forall k :: 0 <= k < |dr.subsets| ==>
            && dr.subsets[k].name == VersionOf(props.workloads[k], versionLabelName)
            && dr.subsets[k].labels == map[versionLabelName := dr.subsets[k].name])
      && (dr.trafficPolicy.Some? <==> tlsModified || lbModified)
      && (dr.trafficPolicy.Some? ==>
            && dr.trafficPolicy.value.tlsMode == (if tlsModified then Some(mtlsMode) else None)
            && dr.trafficPolicy.value.loadBalancer == (if lbModified then Some(loadBalancer) else None))
    }

    /**
     * The VirtualService the wizard builds. Weighted routing: one HTTP route
     * whose destinations follow the weighted rows, each sent to the subset of
     * its workload with its weight. Matching routing: one HTTP route per rule
     * with a single unweighted destination, sent to a subset only for a
     * workload rule, and matched only when the rule has match lines. Any
     * other wizard type: an empty spec.
     */
    ghost predicate VirtualServiceBuilt(vs: VirtualService, versionLabelName: string)
      reads this
    {
      var svc := props.serviceName;
      var table := NameVersions(props.workloads, versionLabelName);
      && vs.metadata == Metadata(props.namespace, svc)
      && (props.wizardType == WIZARD_WEIGHTED_ROUTING ==>
            && vs.spec.RoutingSpec? && vs.spec.hosts == [svc] && |vs.spec.http| == 1
            && vs.spec.http[0].matches == None
            && |vs.spec.http[0].route| == |workloads|
            && (forall k :: 0 <= k < |workloads| ==>
                  vs.spec.http[0].route[k]
                  == DestinationWeight(Destination(svc, Lookup(table, workloads[k].name)), Some(workloads[k].weight))))
      && (props.wizardType == WIZARD_MATCHING_ROUTING ==>
            && vs.spec.RoutingSpec? && vs.spec.hosts == [svc] && |vs.spec.http| == |rules|
            && (forall k :: 0 <= k < |rules| ==> vs.spec.http[k] == RuleRoute(rules[k], svc, table)))
      && (props.wizardType != WIZARD_WEIGHTED_ROUTING && props.wizardType != WIZARD_MATCHING_ROUTING ==>
            vs.spec == EmptySpec)
    }

    /** `createIstioTraffic`, with the server's version label name as a parameter. */
    method CreateIstioTraffic(versionLabelName: string) returns (dr: DestinationRule, vs: VirtualService)
      ensures DestinationRuleBuilt(dr, versionLabelName)
      ensures VirtualServiceBuilt(vs, versionLabelName)
    {
      var svc := props.serviceName;
      var subsets, wkdNameVersion := Subsets(versionLabelName);
      dr := DestinationRule(Metadata(props.namespace, svc), svc, subsets, None);
      var spec := EmptySpec;
      if props.wizardType == WIZARD_WEIGHTED_ROUTING {
        var route := WeightedRoute(wkdNameVersion);
        spec := RoutingSpec([svc], [HTTPRoute(None, route)]);
      } else if props.wizardType == WIZARD_MATCHING_ROUTING {
        var http := MatchingRoutes(wkdNameVersion);
        spec := RoutingSpec([svc], http);
      }
      vs := VirtualService(Metadata(props.namespace, svc), spec);
      if tlsModified || lbModified {
        var policy := TrafficPolicy(None, None);
        if tlsModified {
          policy := policy.(tlsMode := Some(mtlsMode));
        }
        if lbModified {
          policy := policy.(loadBalancer := Some(loadBalancer));
        }
        dr := dr.(trafficPolicy := Some(policy));
      }
    }

    /** The subsets, one per workload named and selected by its version, and the `wkdNameVersion` table filled on the way. */
    method Subsets(versionLabelName: string) returns (subsets: seq<Subset>, wkdNameVersion: map<string, Option<string>>)
      ensures wkdNameVersion == NameVersions(props.workloads, versionLabelName)
      ensures |subsets| == |props.workloads|
      ensures forall k :: 0 <= k < |subsets| ==>
                && subsets[k].name == VersionOf(props.workloads[k], versionLabelName)
                && subsets[k].labels == map[versionLabelName := subsets[k].name]
    {
      wkdNameVersion := map[];
      subsets := [];
      for i := 0 to |props.workloads|
        invariant wkdNameVersion == NameVersions(props.workloads[..i], versionLabelName)
        invariant |subsets| == i
        invariant forall k :: 0 <= k < i ==>
                    && subsets[k].name == VersionOf(props.workloads[k], versionLabelName)
                    && subsets[k].labels == map[versionLabelName := subsets[k].name]
      {
        assert props.workloads[..i + 1][..i] == props.workloads[..i];
        var workload := props.workloads[i];
        var versionValue := VersionOf(workload, versionLabelName);
        var labels := map[versionLabelName := versionValue];
        wkdNameVersion := wkdNameVersion[workload.name := versionValue];
        subsets := subsets + [Subset(versionValue, labels)];
      }
      assert props.workloads[..|props.workloads|] == props.workloads;
    }

    /** The weighted route: one destination per weighted row, in order, with the row's subset and weight. */
    method WeightedRoute(wkdNameVersion: map<string, Option<string>>) returns (route: seq<DestinationWeight>)
      ensures |route| == |workloads|
      ensures forall k :: 0 <= k < |workloads| ==>
                route[k] == DestinationWeight(Destination(props.serviceName, Lookup(wkdNameVersion, workloads[k].name)),
                                              Some(workloads[k].weight))
    {
      route := [];
      for i := 0 to |workloads|
        invariant |route| == i
        invariant forall k :: 0 <= k < i ==>
                    route[k] == DestinationWeight(Destination(props.serviceName, Lookup(wkdNameVersion, workloads[k].name)),
                                                  Some(workloads[k].weight))
      {
        route := route + [DestinationWeight(Destination(props.serviceName, Lookup(wkdNameVersion, workloads[i].name)),
                                            Some(workloads[i].weight))];
      }
    }

    /** The matching routes: one HTTP route per rule, in order. */
    method MatchingRoutes(wkdNameVersion: map<string, Option<string>>) returns (http: seq<HTTPRoute>)
      ensures |http| == |rules|
      ensures forall k :: 0 <= k < |rules| ==> http[k] == RuleRoute(rules[k], props.serviceName, wkdNameVersion)
    {
      http := RulesToRoutes(rules, props.serviceName, wkdNameVersion);
    }

    /**
     * `onCreate`, without the two API calls: the objects to submit are built
     * and the Create button is disabled until the calls finish.
     */
    method OnCreate(versionLabelName: string) returns (dr: DestinationRule, vs: VirtualService)
      modifies this
      ensures !valid
      ensures props == old(props) && showWizard == old(showWizard) && workloads == old(workloads)
      ensures rules == old(rules)
      ensures mtlsMode == old(mtlsMode) && tlsModified == old(tlsModified)
      ensures loadBalancer == old(loadBalancer) && lbModified == old(lbModified)
      ensures DestinationRuleBuilt(dr, versionLabelName)
      ensures VirtualServiceBuilt(vs, versionLabelName)
    {
      dr, vs := CreateIstioTraffic(versionLabelName);
      valid := false;
    }
  }
}
