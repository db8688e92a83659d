/** What the whole pass of `check_file` reports, line by line, stated
    against reference definitions that look at the lines directly: the
    fence open before each line, the headings seen so far and the current
    table block. Line `n` of the document is `lines[n - 1]`;
    `Run(lines, maxLen, n - 1)` is the pass just before it and
    `Reference(lines, n - 1)` the state it should be in. */
module ScanProperties {
  import opened Wrappers
  import opened Patterns
  import opened Issues
  import opened Scanner

  // ----- the pass, line by line -----

  /** The findings of line `n` itself, in the state the lines before it leave. */
  function LineFindings(lines: seq<string>, maxLen: int, n: nat): seq<Issue>
    requires 1 <= n <= |lines|
  {
    LineResult(lines, maxLen, n).issues
  }

  /** What the first `n` lines keep for line `n` are its own findings. */
  lemma KeptFirst(lines: seq<string>, maxLen: int, n: nat)
    requires 1 <= n <= |lines|
    ensures Run(lines, maxLen, n).found[n - 1] == LineFindings(lines, maxLen, n)
  {
  }

  /** The own findings of each of the first `k` lines, line by line. */
  function OwnFindings(lines: seq<string>, maxLen: int, k: nat): (r: seq<seq<Issue>>)
    requires k <= |lines|
    ensures |r| == k
  {
    seq(k, i requires 0 <= i < k => LineFindings(lines, maxLen, i + 1))
  }

  /** One more line adds its own findings at the end. */
  lemma OwnSnoc(lines: seq<string>, maxLen: int, j: nat)
    requires j < |lines|
    ensures OwnFindings(lines, maxLen, j + 1) == OwnFindings(lines, maxLen, j) + [LineFindings(lines, maxLen, j + 1)]
  {
    var a, b := OwnFindings(lines, maxLen, j + 1), OwnFindings(lines, maxLen, j) + [LineFindings(lines, maxLen, j + 1)];
    forall i | 0 <= i < j + 1
      ensures a[i] == b[i]
    {
      if i < j {
        assert b[i] == OwnFindings(lines, maxLen, j)[i];
      }
    }
  }

  /** What the pass over the first `k` lines keeps is, line by line, each
      line's own findings: later lines never change what an earlier line
      reported. */
  lemma {:induction false} RunKeeps(lines: seq<string>, maxLen: int, k: nat)
    requires k <= |lines|
    ensures Run(lines, maxLen, k).found == OwnFindings(lines, maxLen, k)
  {
    if k > 0 {
      var j := k - 1;
      RunKeeps(lines, maxLen, j);
      OwnSnoc(lines, maxLen, j);
    }
  }

  /** However many lines follow, the findings kept for line `n` are those it
      reported when it was scanned. */
  lemma RunFound(lines: seq<string>, maxLen: int, k: nat, n: nat)
    requires 1 <= n <= k <= |lines|
    ensures Run(lines, maxLen, k).found[n - 1] == LineFindings(lines, maxLen, n)
  {
    RunKeeps(lines, maxLen, k);
  }

  /** Every finding of the pass lies on a line of the document, and the
      findings come out in line order. */
  lemma ScanRange(lines: seq<string>, maxLen: int)
    ensures forall x {:trigger x in ScanIssues(lines, maxLen)} :: x in ScanIssues(lines, maxLen) ==> 1 <= x.line <= |lines|
    ensures LinesOrdered(ScanIssues(lines, maxLen))
  {
    var s := Run(lines, maxLen, |lines|);
    RunRange(lines, maxLen, |lines|);
    if |lines| == 0 {
      assert Finalize(s.state, |lines|) == [];
    }
    FlattenThen(s.found, Finalize(s.state, |lines|));
  }

  /** The findings at line `n` of the document: what the pass recorded for
      that line, then, at the last line, those of the end of the document. */
  lemma ScanAtLine(lines: seq<string>, maxLen: int, n: nat)
    requires 1 <= n <= |lines|
    ensures AtLine(ScanIssues(lines, maxLen), n) ==
      Run(lines, maxLen, n).found[n - 1]
      + if n == |lines| then Finalize(Run(lines, maxLen, |lines|).state, |lines|) else []
  {
    var s := Run(lines, maxLen, |lines|);
    var fin := Finalize(s.state, |lines|);
    RunRange(lines, maxLen, |lines|);
    AtLineAppend(Flatten(s.found), fin, n);
    FlattenAtLine(s.found, n);
    RunFound(lines, maxLen, |lines|, n);
    KeptFirst(lines, maxLen, n);
    if n == |lines| {
      AtLineAll(fin, n);
    } else {
      AtLineNone(fin, n);
    }
  }

  // ----- whole-text findings -----

  /** The line pass never reports what the read and the whole-text tests
      report, so in the result of a readable file those findings are exactly
      the whole-text ones; in particular there is no E-READ. */
  lemma WholeTextReport(raw: string, maxLen: int, k: Rule)
    requires k == ReadRule || k == CrlfRule || k == EofRule
    ensures OfRule(CheckText(raw, maxLen), k) == OfRule(WholeTextIssues(raw), k)
  {
    OfRuleLinePass(WholeTextIssues(raw), ScanIssues(SplitLines(raw), maxLen), k);
  }

  /** Adding the missing final newline to a text removes its W-NOEOFNL and
      changes nothing else, so long as the text is not empty and does not
      end in '\r'. */
  lemma AppendFinalNewline(raw: string, maxLen: int)
    requires raw != [] && raw[|raw| - 1] != '\n' && raw[|raw| - 1] != '\r'
    ensures Issue(0, 0, NoEofNewline) in CheckText(raw, maxLen)
    ensures CheckText(raw + "\n", maxLen) == DropCode(CheckText(raw, maxLen), NoEofNewline)
  {
    var t := raw + "\n";
    var scan := ScanIssues(SplitLines(raw), maxLen);
    SplitAppendNewline(raw);
    CrlfAppendNewline(raw);
    assert EndsWithNewline(t) && !EndsWithNewline(raw);
    var crlf := When(ContainsCrlf(raw), Issue(1, 1, Crlf));
    assert WholeTextIssues(raw) == crlf + [Issue(0, 0, NoEofNewline)];
    assert WholeTextIssues(t) == crlf;
    assert CheckText(raw, maxLen) == crlf + [Issue(0, 0, NoEofNewline)] + scan;
    assert CheckText(t, maxLen) == crlf + scan;
    DropCodeAppend(crlf + [Issue(0, 0, NoEofNewline)], scan, NoEofNewline);
    DropCodeAppend(crlf, [Issue(0, 0, NoEofNewline)], NoEofNewline);
    DropCodeAbsent(crlf, NoEofNewline);
    DropCodeAbsent(scan, NoEofNewline);
    assert DropCode([Issue(0, 0, NoEofNewline)], NoEofNewline) == [];
  }

  /** The first exception: after a final '\r' the added '\n' completes a
      "\r\n" break, so W-CRLF appears where there was none. */
  lemma AppendAfterCr(raw: string, maxLen: int)
    requires raw != [] && raw[|raw| - 1] == '\r' && !ContainsCrlf(raw)
    ensures OfRule(CheckText(raw, maxLen), CrlfRule) == []
    ensures OfRule(CheckText(raw + "\n", maxLen), CrlfRule) == [Issue(1, 1, Crlf)]
    ensures OfRule(CheckText(raw + "\n", maxLen), EofRule) == []
  {
    CrlfAfterCr(raw);
    assert EndsWithNewline(raw + "\n");
    WholeTextRules(raw);
    WholeTextRules(raw + "\n");
    WholeTextReport(raw, maxLen, CrlfRule);
    WholeTextReport(raw + "\n", maxLen, CrlfRule);
    WholeTextReport(raw + "\n", maxLen, EofRule);
  }

  /** The second exception: the empty text gets only W-NOEOFNL, while "\n"
      is one empty line, which gets W-LINELEN when the limit is negative. */
  lemma AppendToEmpty(maxLen: int)
    ensures CheckText("", maxLen) == [Issue(0, 0, NoEofNewline)]
    ensures CheckText("\n", maxLen) == When(maxLen < 0, Issue(1, maxLen + 1, LineLen(0, maxLen)))
  {
    assert !ContainsCrlf("") && !ContainsCrlf("\n");
    assert SplitLines("") == [];
    assert ScanIssues([], maxLen) == [];
    SplitFirst("", "");
    assert "" + "\n" + "" == "\n";
    EmptyLineScan(maxLen);
  }

  /** A document of one empty line. */
  lemma EmptyLineScan(maxLen: int)
    ensures ScanIssues([""], maxLen) == When(maxLen < 0, Issue(1, maxLen + 1, LineLen(0, maxLen)))
  {
    var lines: seq<string> := [""];
    assert FenceMatch("").None?;
    assert !IsTableRow("");
    assert FindLinks("", 0) == [];
    assert BasicChecks("", "", 1, maxLen) == When(maxLen < 0, Issue(1, maxLen + 1, LineLen(0, maxLen)));
    assert HeadingIssues(Start, "", 1) == [];
    assert LinkIssues("", 1) == [] by {
      assert MatchesIssues([], 1) == [];
    }
    assert TableEnd(Start, "", 1) == [];
    assert ListIndent("").None?;
    assert ListIssues("", 1) == [];
    assert Previous(lines, 1) == "" && lines[0] == "";
    assert ProseIssues(lines, maxLen, 1, Start) == When(maxLen < 0, Issue(1, maxLen + 1, LineLen(0, maxLen)));
    assert LineResult(lines, maxLen, 1) == Scanned(Start, When(maxLen < 0, Issue(1, maxLen + 1, LineLen(0, maxLen))));
    var p := Run(lines, maxLen, 1);
    assert p.found == [When(maxLen < 0, Issue(1, maxLen + 1, LineLen(0, maxLen)))];
    assert Finalize(p.state, 1) == [];
    assert Flatten(p.found) == Flatten([]) + p.found[0];
    assert ScanIssues(lines, maxLen) == Flatten(p.found) + Finalize(p.state, 1);
  }

  /** After the whole-text findings, of which there are at most two, every
      finding lies on a line of the document and the line numbers never
      decrease. */
  lemma LineOrder(raw: string, maxLen: int)
    ensures |WholeTextIssues(raw)| <= 2
    ensures var rest := CheckText(raw, maxLen)[|WholeTextIssues(raw)|..];
      LinesOrdered(rest) && forall x {:trigger x in rest} :: x in rest ==> 1 <= x.line <= |SplitLines(raw)|
  {
    var w := WholeTextIssues(raw);
    var scan := ScanIssues(SplitLines(raw), maxLen);
    assert (w + scan)[|w|..] == scan;
    ScanRange(SplitLines(raw), maxLen);
  }

  // ----- the reference state -----

  /** The fence open after a line, given the one open before it: a fence line
      opens one when none is open and closes the open one only when marker
      character and indentation both agree; any other line changes nothing. */
  function FenceAfterLine(open: Option<Fence>, line: string): Option<Fence> {
    match FenceMatch(line)
    case None => open
    case Some(f) => if open.None? then Some(f) else if open == Some(f) then None else open
  }

  /** The fence open after the first `k` lines. */
  function OpenFence(lines: seq<string>, k: nat): Option<Fence>
    requires k <= |lines|
  {
    if k == 0 then None else FenceAfterLine(OpenFence(lines, k - 1), lines[k - 1])
  }

  /** `lines[j]` gets the prose checks: it is no fence line and no fence is open. */
  predicate ProseLine(lines: seq<string>, j: nat)
    requires j < |lines|
  {
    FenceMatch(lines[j]).None? && OpenFence(lines, j).None?
  }

  /** The heading on `lines[j]`, if it is a prose line that matches
      HEADING_PAT; a heading-like line inside a fence is not a heading. */
  function HeadingAt(lines: seq<string>, j: nat): Option<Heading>
    requires j < |lines|
  {
    if ProseLine(lines, j) then HeadingMatch(lines[j]) else None
  }

  /** The level of the last heading among the first `k` lines, 0 if none. */
  function LastLevel(lines: seq<string>, k: nat): nat
    requires k <= |lines|
  {
    if k == 0 then 0
    else match HeadingAt(lines, k - 1)
      case Some(h) => h.level
      case None => LastLevel(lines, k - 1)
  }

  predicate IsH1(lines: seq<string>, j: nat)
    requires j < |lines|
  {
    HeadingAt(lines, j).Some? && HeadingAt(lines, j).value.level == 1
  }

  /** Whether a level-1 heading is among the first `k` lines. */
  predicate SeenH1(lines: seq<string>, k: nat)
    requires k <= |lines|
  {
    k > 0 && (IsH1(lines, k - 1) || SeenH1(lines, k - 1))
  }

  /** `SeenH1` holds exactly when one of the first `k` lines is a level-1 heading. */
  lemma {:induction false} SeenH1Exists(lines: seq<string>, k: nat)
    requires k <= |lines|
    ensures SeenH1(lines, k) <==> exists j :: 0 <= j < k && IsH1(lines, j)
  {
    if k > 0 {
      SeenH1Exists(lines, k - 1);
      if SeenH1(lines, k - 1) {
        var j :| 0 <= j < k - 1 && IsH1(lines, j);
        assert 0 <= j < k && IsH1(lines, j);
      }
    }
  }

  /** The pipe counts of the table rows that directly precede line `k + 1`
      among the prose lines: any other prose line ends the block, while
      fence lines and fenced lines leave it as it is. */
  function TableBlock(lines: seq<string>, k: nat): seq<nat>
    requires k <= |lines|
  {
    if k == 0 then []
    else if !ProseLine(lines, k - 1) then TableBlock(lines, k - 1)
    else if IsTableRow(lines[k - 1]) then TableBlock(lines, k - 1) + [PipeCount(lines[k - 1])]
    else []
  }

  /** What the first `k` lines leave behind, looked up directly in the lines. */
  function Reference(lines: seq<string>, k: nat): ScanState
    requires k <= |lines|
  {
    ScanState(OpenFence(lines, k), LastLevel(lines, k), SeenH1(lines, k), TableBlock(lines, k))
  }

  /** The state after a prose line, field by field. */
  lemma ProseStateFields(st: ScanState, line: string)
    ensures ProseState(st, line) == ScanState(
      st.fence,
      if HeadingMatch(line).Some? then HeadingMatch(line).value.level else st.lastLevel,
      st.seenH1 || (HeadingMatch(line).Some? && HeadingMatch(line).value.level == 1),
      if IsTableRow(line) then st.run + [PipeCount(line)] else [])
  {
  }

  /** Line `n` takes the reference state of the lines before it to that of
      the lines up to it. */
  lemma StepReference(lines: seq<string>, maxLen: int, n: nat)
    requires 1 <= n <= |lines|
    ensures Step(lines, maxLen, n, Reference(lines, n - 1)).state == Reference(lines, n)
  {
    if ProseLine(lines, n - 1) {
      ProseStateFields(Reference(lines, n - 1), lines[n - 1]);
    }
  }

  /** The pass keeps exactly the reference state: the fence the lines leave
      open, the level of the last heading, whether a level-1 heading was
      seen, and the current table block. */
  lemma {:induction false} StateTracking(lines: seq<string>, maxLen: int, k: nat)
    requires k <= |lines|
    ensures Run(lines, maxLen, k).state == Reference(lines, k)
  {
    if k > 0 {
      StateTracking(lines, maxLen, k - 1);
      StepReference(lines, maxLen, k);
    }
  }

  // ----- each line, rule by rule -----

  /** What line `i` reports for rule `k` in state `st`: nothing on a fence
      line, only trailing whitespace inside a fence, and on a prose line
      exactly what that rule's check reports on its own. */
  function Expected(lines: seq<string>, maxLen: int, i: nat, st: ScanState, k: Rule): seq<Issue>
    requires 1 <= i <= |lines|
  {
    if FenceMatch(lines[i - 1]).Some? then []
    else if st.fence.Some? then (if k == TrailRule then TrailIssues(lines[i - 1], i) else [])
    else RuleFindings(lines, maxLen, i, st, k)
  }

  /** One step, rule by rule, is what `Expected` describes. */
  lemma StepByRule(lines: seq<string>, maxLen: int, i: nat, st: ScanState, k: Rule)
    requires 1 <= i <= |lines|
    ensures OfRule(Step(lines, maxLen, i, st).issues, k) == Expected(lines, maxLen, i, st, k)
  {
    var line := lines[i - 1];
    if FenceMatch(line).Some? {
      assert Step(lines, maxLen, i, st).issues == [];
    } else if st.fence.Some? {
      assert Step(lines, maxLen, i, st).issues == TrailIssues(line, i);
      OfRuleOnly(TrailIssues(line, i), TrailRule, k);
    } else {
      assert Step(lines, maxLen, i, st).issues == ProseIssues(lines, maxLen, i, st);
      ProseByRule(lines, maxLen, i, st, k);
    }
  }

  /** The end of the document reports only fence and table findings, so
      for every other rule the findings at a line are those the pass
      recorded for it. */
  lemma ScanLineRule(lines: seq<string>, maxLen: int, n: nat, k: Rule)
    requires 1 <= n <= |lines|
    requires k != TableRule && k != FenceRule
    ensures OfRule(AtLine(ScanIssues(lines, maxLen), n), k) == OfRule(Run(lines, maxLen, n).found[n - 1], k)
  {
    var last := |lines|;
    ScanAtLine(lines, maxLen, n);
    OfRuleWithout(Run(lines, maxLen, n).found[n - 1], if n == last then Finalize(Run(lines, maxLen, last).state, last) else [], k);
  }

  /** What the pass records for line `n`, rule by rule, is what `Expected`
      gives in the reference state of the lines before it. */
  lemma OwnByRule(lines: seq<string>, maxLen: int, n: nat, k: Rule)
    requires 1 <= n <= |lines|
    ensures OfRule(Run(lines, maxLen, n).found[n - 1], k) == Expected(lines, maxLen, n, Reference(lines, n - 1), k)
  {
    KeptFirst(lines, maxLen, n);
    StateTracking(lines, maxLen, n - 1);
    StepByRule(lines, maxLen, n, Reference(lines, n - 1), k);
  }

  /** The document's findings at line `n` for every per-line rule but the
      table check are what `Expected` gives in the reference state of the
      lines before it. */
  lemma LineReport(lines: seq<string>, maxLen: int, n: nat, k: Rule)
    requires 1 <= n <= |lines|
    requires k != TableRule && k != FenceRule
    ensures OfRule(AtLine(ScanIssues(lines, maxLen), n), k) == Expected(lines, maxLen, n, Reference(lines, n - 1), k)
  {
    ScanLineRule(lines, maxLen, n, k);
    OwnByRule(lines, maxLen, n, k);
  }

  // ----- unclosed fence -----

  /** The lines themselves never report E-FENCE. */
  lemma RunNoFence(lines: seq<string>, maxLen: int, k: nat)
    requires k <= |lines|
    ensures OfRule(Flatten(Run(lines, maxLen, k).found), FenceRule) == []
  {
    RunRange(lines, maxLen, k);
    FlattenGrouped(Run(lines, maxLen, k).found);
    OfRuleNone(Flatten(Run(lines, maxLen, k).found), FenceRule);
  }

  /** E-FENCE: reported once, at the last line, exactly when a fence is still
      open after the last line. */
  lemma FenceReport(lines: seq<string>, maxLen: int)
    ensures OfRule(ScanIssues(lines, maxLen), FenceRule) ==
      if OpenFence(lines, |lines|).Some? then [Issue(|lines|, 1, UnclosedFence)] else []
  {
    var s := Run(lines, maxLen, |lines|);
    OfRuleAppend(Flatten(s.found), Finalize(s.state, |lines|), FenceRule);
    RunNoFence(lines, maxLen, |lines|);
    StateTracking(lines, maxLen, |lines|);
  }

  // ----- table blocks -----

  /** At the end of the document the table block still open is flushed at
      the last line. */
  lemma TableTail(lines: seq<string>, maxLen: int)
    ensures OfRule(Finalize(Run(lines, maxLen, |lines|).state, |lines|), TableRule) == Flush(TableBlock(lines, |lines|), |lines|)
  {
    StateTracking(lines, maxLen, |lines|);
  }

  /** W-TABLEPIPES at line `n`: what the line itself reports when it ends a
      table block, then, at the last line, the flush of the block still open. */
  lemma TableReport(lines: seq<string>, maxLen: int, n: nat)
    requires 1 <= n <= |lines|
    ensures OfRule(AtLine(ScanIssues(lines, maxLen), n), TableRule) ==
      Expected(lines, maxLen, n, Reference(lines, n - 1), TableRule)
      + if n == |lines| then Flush(TableBlock(lines, |lines|), n) else []
  {
    var last := |lines|;
    var fin := if n == last then Finalize(Run(lines, maxLen, last).state, last) else [];
    ScanAtLine(lines, maxLen, n);
    OfRuleAppend(Run(lines, maxLen, n).found[n - 1], fin, TableRule);
    OwnByRule(lines, maxLen, n, TableRule);
    if n == last {
      TableTail(lines, maxLen);
    }
  }

  // ----- heading findings over the document -----

  /** When the findings of rule `k` at line `n` are `expected`, a finding of
      that rule at that line is among all the findings exactly when it is
      among the expected ones. */
  lemma ReportVia(issues: seq<Issue>, x: Issue, n: nat, k: Rule, expected: seq<Issue>, p: bool)
    requires RuleOf(x.code) == k && x.line == n
    requires OfRule(AtLine(issues, n), k) == expected
    requires x in expected <==> p
    ensures x in issues <==> p
  {
  }

  /** The heading findings of a line that is the heading `hh`, if any,
      after a last level `last`, with `seen` telling whether a level-1
      heading came before. */
  function HeadingOf(hh: Option<Heading>, last: nat, seen: bool, line: string, n: nat): seq<Issue> {
    match hh
    case None => []
    case Some(h) => HeadingFindings(last, seen, h, !SpaceAfterHashes(line, h.level), n)
  }

  /** The heading findings of line `n`, from the reference state. */
  function HeadingReference(lines: seq<string>, n: nat): seq<Issue>
    requires 1 <= n <= |lines|
  {
    HeadingOf(HeadingAt(lines, n - 1), LastLevel(lines, n - 1), SeenH1(lines, n - 1), lines[n - 1], n)
  }

  lemma MultiH1Of(hh: Option<Heading>, last: nat, seen: bool, line: string, n: nat)
    ensures Issue(n, 1, MultiH1) in HeadingOf(hh, last, seen, line, n) <==> hh.Some? && hh.value.level == 1 && seen
    ensures CountCode(HeadingOf(hh, last, seen, line, n), MultiH1) == if hh.Some? && hh.value.level == 1 && seen then 1 else 0
  {
    if hh.Some? {
      FindingsOfHeading(last, seen, hh.value, !SpaceAfterHashes(line, hh.value.level), n);
    }
  }

  lemma HeadJumpOf(hh: Option<Heading>, last: nat, seen: bool, line: string, n: nat, from: nat, to: nat)
    ensures Issue(n, 1, HeadJump(from, to)) in HeadingOf(hh, last, seen, line, n) <==>
      hh.Some? && to == hh.value.level && from == last && from > 0 && to > from + 1
  {
    if hh.Some? {
      FindingsOfHeading(last, seen, hh.value, !SpaceAfterHashes(line, hh.value.level), n);
    }
  }

  lemma HeadJumpCountOf(hh: Option<Heading>, last: nat, seen: bool, line: string, n: nat, from: nat, to: nat)
    ensures CountCode(HeadingOf(hh, last, seen, line, n), HeadJump(from, to)) ==
      if hh.Some? && to == hh.value.level && from == last && from > 0 && to > from + 1 then 1 else 0
  {
    if hh.Some? {
      HeadJumpCount(last, seen, hh.value, !SpaceAfterHashes(line, hh.value.level), n, from, to);
    }
  }

  /** Of the prose checks, the heading rule reports what `HeadingIssues` does. */
  lemma RuleHeading(lines: seq<string>, maxLen: int, i: nat, st: ScanState)
    requires 1 <= i <= |lines|
    ensures RuleFindings(lines, maxLen, i, st, HeadingRule) == HeadingIssues(st, lines[i - 1], i)
  {
  }

  lemma HeadingIssuesOf(st: ScanState, line: string, i: nat)
    ensures HeadingIssues(st, line, i) == HeadingOf(HeadingMatch(line), st.lastLevel, st.seenH1, line, i)
  {
  }

  lemma ExpectedHeading(lines: seq<string>, maxLen: int, n: nat)
    requires 1 <= n <= |lines|
    ensures Expected(lines, maxLen, n, Reference(lines, n - 1), HeadingRule) == HeadingReference(lines, n)
  {
    var st := Reference(lines, n - 1);
    if ProseLine(lines, n - 1) {
      RuleHeading(lines, maxLen, n, st);
      HeadingIssuesOf(st, lines[n - 1], n);
    }
  }

  /** The heading findings the document gets at line `n` are those of the
      heading on that line, judged against the headings before it. */
  lemma HeadingLine(lines: seq<string>, maxLen: int, n: nat)
    requires 1 <= n <= |lines|
    ensures OfRule(AtLine(ScanIssues(lines, maxLen), n), HeadingRule) == HeadingReference(lines, n)
  {
    LineReport(lines, maxLen, n, HeadingRule);
    ExpectedHeading(lines, maxLen, n);
  }

  lemma MultiH1Reference(lines: seq<string>, n: nat)
    requires 1 <= n <= |lines|
    ensures Issue(n, 1, MultiH1) in HeadingReference(lines, n) <==> IsH1(lines, n - 1) && SeenH1(lines, n - 1)
    ensures CountCode(HeadingReference(lines, n), MultiH1) == if IsH1(lines, n - 1) && SeenH1(lines, n - 1) then 1 else 0
  {
    MultiH1Of(HeadingAt(lines, n - 1), LastLevel(lines, n - 1), SeenH1(lines, n - 1), lines[n - 1], n);
  }

  /** W-MULTIH1 at line `n` exactly when that line is a level-1 heading and
      an earlier line was one too. */
  lemma MultiH1Report(lines: seq<string>, maxLen: int, n: nat)
    requires 1 <= n <= |lines|
    ensures Issue(n, 1, MultiH1) in ScanIssues(lines, maxLen) <==> IsH1(lines, n - 1) && SeenH1(lines, n - 1)
    ensures CountCode(AtLine(ScanIssues(lines, maxLen), n), MultiH1) == if IsH1(lines, n - 1) && SeenH1(lines, n - 1) then 1 else 0
  {
    HeadingLine(lines, maxLen, n);
    MultiH1Reference(lines, n);
    CountCodeOfRule(AtLine(ScanIssues(lines, maxLen), n), HeadingRule, MultiH1);
    ReportVia(ScanIssues(lines, maxLen), Issue(n, 1, MultiH1), n, HeadingRule, HeadingReference(lines, n),
      IsH1(lines, n - 1) && SeenH1(lines, n - 1));
  }

  lemma HeadJumpReference(lines: seq<string>, n: nat, from: nat, to: nat)
    requires 1 <= n <= |lines|
    ensures Issue(n, 1, HeadJump(from, to)) in HeadingReference(lines, n) <==>
      HeadingAt(lines, n - 1).Some? && to == HeadingAt(lines, n - 1).value.level
      && from == LastLevel(lines, n - 1) && from > 0 && to > from + 1
    ensures CountCode(HeadingReference(lines, n), HeadJump(from, to)) ==
      if HeadingAt(lines, n - 1).Some? && to == HeadingAt(lines, n - 1).value.level
        && from == LastLevel(lines, n - 1) && from > 0 && to > from + 1 then 1 else 0
  {
    HeadJumpOf(HeadingAt(lines, n - 1), LastLevel(lines, n - 1), SeenH1(lines, n - 1), lines[n - 1], n, from, to);
    HeadJumpCountOf(HeadingAt(lines, n - 1), LastLevel(lines, n - 1), SeenH1(lines, n - 1), lines[n - 1], n, from, to);
  }

  /** W-HEADJUMP at line `n` exactly when that line is a heading whose level
      exceeds that of the last heading before it by more than one. */
  lemma HeadJumpReport(lines: seq<string>, maxLen: int, n: nat, from: nat, to: nat)
    requires 1 <= n <= |lines|
    ensures Issue(n, 1, HeadJump(from, to)) in ScanIssues(lines, maxLen) <==>
      HeadingAt(lines, n - 1).Some? && to == HeadingAt(lines, n - 1).value.level
      && from == LastLevel(lines, n - 1) && from > 0 && to > from + 1
    ensures CountCode(AtLine(ScanIssues(lines, maxLen), n), HeadJump(from, to)) ==
      if HeadingAt(lines, n - 1).Some? && to == HeadingAt(lines, n - 1).value.level
        && from == LastLevel(lines, n - 1) && from > 0 && to > from + 1 then 1 else 0
  {
    HeadingLine(lines, maxLen, n);
    HeadJumpReference(lines, n, from, to);
    CountCodeOfRule(AtLine(ScanIssues(lines, maxLen), n), HeadingRule, HeadJump(from, to));
    ReportVia(ScanIssues(lines, maxLen), Issue(n, 1, HeadJump(from, to)), n, HeadingRule, HeadingReference(lines, n),
      HeadingAt(lines, n - 1).Some? && to == HeadingAt(lines, n - 1).value.level
      && from == LastLevel(lines, n - 1) && from > 0 && to > from + 1);
  }
}
