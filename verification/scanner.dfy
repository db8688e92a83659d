/** The single forward pass of `check_file` (md_lint.py:69-211) as a pure
    step function over an explicit state record, folded over the lines. */
module Scanner {
  import opened Wrappers
  import opened Text
  import opened Patterns
  import opened Issues
  import opened Seqs

  /** What the pass remembers between lines: the open fence (its marker and
      indentation), the level of the last heading (0 before any), whether a
      level-1 heading was seen, and the pipe counts of the current table block. */
  datatype ScanState = ScanState(fence: Option<Fence>, lastLevel: nat, seenH1: bool, run: seq<nat>)

  const Start: ScanState := ScanState(None, 0, false, [])

  datatype Scanned = Scanned(state: ScanState, issues: seq<Issue>)

  /** A document is its decoded text before any newline translation, or a
      file that could not be read. `Reading.Translate` gives the text a
      text-mode read hands to `check_file`. */
  datatype Document = Readable(raw: string) | Unreadable

  // ----- table blocks -----

  /** `m` occurs in the block and no value occurs more often. */
  predicate IsMode(run: seq<nat>, m: nat) {
    m in run && forall x {:trigger x in run} :: x in run ==> Count(run, x) <= Count(run, m)
  }

  /** A most frequent value among the first `k` entries. */
  function MostFrequentOf(run: seq<nat>, k: nat): (m: nat)
    requires 0 < k <= |run|
    ensures m in run
    ensures forall j :: 0 <= j < k ==> Count(run, run[j]) <= Count(run, m)
  {
    if k == 1 then run[0]
    else
      var b := MostFrequentOf(run, k - 1);
      if Count(run, run[k - 1]) > Count(run, b) then run[k - 1] else b
  }

  /** `max(set(run), key=run.count)`: a value of maximal frequency. Which of
      several tied values wins is deliberately left out of the contract. */
  function Majority(run: seq<nat>): (m: nat)
    requires run != []
    ensures IsMode(run, m)
  {
    MostFrequentOf(run, |run|)
  }

  /** One W-TABLEPIPES finding per entry that differs from `expected`, in
      block order, all reported at `line`. */
  function Mismatches(run: seq<nat>, expected: nat, line: nat): (r: seq<Issue>)
    ensures Reports(r, line, TableRule)
    ensures |r| == |run| - Count(run, expected)
    ensures forall x {:trigger x in r} :: x in r ==>
      && x.line == line && x.col == 1 && x.code.TablePipes?
      && x.code.expected == expected && x.code.actual != expected && x.code.actual in run
    ensures forall v :: v != expected ==> CountCode(r, TablePipes(expected, v)) == Count(run, v)
  {
    if run == [] then []
    else
      var rest := Mismatches(run[1..], expected, line);
      var head := if run[0] != expected then [Issue(line, 1, TablePipes(expected, run[0]))] else [];
      CountCodeAppend(head, rest, TablePipes(expected, run[0]));
      forall v | v != expected
        ensures CountCode(head + rest, TablePipes(expected, v)) == Count(run, v)
      {
        CountCodeAppend(head, rest, TablePipes(expected, v));
        if head != [] {
          CountCodeSingle(head[0], TablePipes(expected, v));
        }
      }
      head + rest
  }

  /** `[cnt for cnt in run if cnt != expected]`: the entries that differ
      from the expected count, in block order. */
  function Differing(run: seq<nat>, expected: nat): (d: seq<nat>)
    ensures |d| <= |run|
    ensures forall k :: 0 <= k < |d| ==> d[k] != expected && d[k] in run
  {
    if run == [] then []
    else (if run[0] != expected then [run[0]] else []) + Differing(run[1..], expected)
  }

  /** The k-th finding names the k-th entry that differs from `expected`, as
      the `enumerate` loop over the block emits them. */
  lemma {:induction false} MismatchesInOrder(run: seq<nat>, expected: nat, line: nat)
    ensures var r, d := Mismatches(run, expected, line), Differing(run, expected);
      |r| == |d| && forall k :: 0 <= k < |d| ==> r[k] == Issue(line, 1, TablePipes(expected, d[k]))
  {
    if run != [] {
      MismatchesInOrder(run[1..], expected, line);
      var rest, dt := Mismatches(run[1..], expected, line), Differing(run[1..], expected);
      if run[0] != expected {
        assert Mismatches(run, expected, line) == [Issue(line, 1, TablePipes(expected, run[0]))] + rest;
        assert Differing(run, expected) == [run[0]] + dt;
      } else {
        assert Mismatches(run, expected, line) == rest;
        assert Differing(run, expected) == dt;
      }
    }
  }

  /** The findings when a table block ends at `line`: one for every row whose
      pipe count differs from the block's majority count. */
  function Flush(run: seq<nat>, line: nat): (r: seq<Issue>)
    ensures Reports(r, line, TableRule)
    ensures run == [] ==> r == []
    ensures run != [] ==> |r| == |run| - Count(run, Majority(run))
    ensures forall x {:trigger x in r} :: x in r ==>
      && x.line == line && x.col == 1 && x.code.TablePipes?
      && IsMode(run, x.code.expected) && x.code.expected == Majority(run)
      && x.code.actual != x.code.expected && x.code.actual in run
    ensures run != [] ==> forall v :: v != Majority(run) ==> CountCode(r, TablePipes(Majority(run), v)) == Count(run, v)
  {
    if run == [] then [] else Mismatches(run, Majority(run), line)
  }

  // ----- per-line checks -----

  /** W-TRAIL, reported at the line's length. */
  function TrailIssues(line: string, i: nat): (r: seq<Issue>)
    ensures OnLine(r, i)
    ensures FromRule(r, TrailRule)
    ensures forall x {:trigger x in r} :: x in r ==> x == Issue(i, |line|, Trail)
    ensures CountCode(r, Trail) == if HasTrailingBlank(line) then 1 else 0
  {
    When(HasTrailingBlank(line), Issue(i, |line|, Trail))
  }

  /** W-MULTIBLANK: the line before and this line are both blank, from the
      third line on (md_lint.py:127-128). */
  function MultiBlankIssues(line: string, prev: string, i: nat): (r: seq<Issue>)
    ensures OnLine(r, i)
    ensures FromRule(r, BlankRule)
    ensures forall x {:trigger x in r} :: x in r ==> x == Issue(i, 1, MultiBlank)
    ensures CountCode(r, MultiBlank) == if i >= 3 && IsBlank(prev) && IsBlank(line) then 1 else 0
  {
    When(i >= 3 && IsBlank(prev) && IsBlank(line), Issue(i, 1, MultiBlank))
  }

  /** W-LINELEN: the line is too long once inline code spans are removed
      (md_lint.py:130-133). */
  function LineLenIssues(line: string, i: nat, maxLen: int): (r: seq<Issue>)
    ensures OnLine(r, i)
    ensures FromRule(r, LengthRule)
    ensures forall x {:trigger x in r} :: x in r ==> x == Issue(i, maxLen + 1, LineLen(|StripCode(line)|, maxLen))
    ensures r != [] <==> |StripCode(line)| > maxLen
    ensures CountCode(r, LineLen(|StripCode(line)|, maxLen)) == if |StripCode(line)| > maxLen then 1 else 0
  {
    When(|StripCode(line)| > maxLen, Issue(i, maxLen + 1, LineLen(|StripCode(line)|, maxLen)))
  }

  /** W-TAB, at the first tab (md_lint.py:135-137). */
  function TabIssues(line: string, i: nat): (r: seq<Issue>)
    ensures OnLine(r, i)
    ensures FromRule(r, TabRule)
    ensures forall x {:trigger x in r} :: x in r ==>
      x.code.Tab? && x.line == i && 1 <= x.col <= |line| && line[x.col - 1] == '\t' && '\t' !in line[..x.col - 1]
    ensures CountCode(r, Tab) == if '\t' in line then 1 else 0
  {
    match IndexOf(line, '\t')
    case Some(t) => When(true, Issue(i, t + 1, Tab))
    case None => []
  }

  /** W-TRAIL, W-MULTIBLANK, W-LINELEN and W-TAB, in that order
      (md_lint.py:122-137). */
  function BasicChecks(line: string, prev: string, i: nat, maxLen: int): (r: seq<Issue>)
    ensures OnLine(r, i)
  {
    var a := TrailIssues(line, i);
    var b := MultiBlankIssues(line, prev, i);
    var c := LineLenIssues(line, i, maxLen);
    var d := TabIssues(line, i);
    OnLineAppend(a, b, i);
    OnLineAppend(a + b, c, i);
    OnLineAppend(a + b + c, d, i);
    a + b + c + d
  }

  /** The heading findings (md_lint.py:139-160). */
  function HeadingIssues(st: ScanState, line: string, i: nat): (r: seq<Issue>)
    ensures OnLine(r, i)
    ensures HeadingMatch(line).None? ==> r == []
    ensures FromRule(r, HeadingRule)
  {
    match HeadingMatch(line)
    case None => []
    case Some(h) => HeadingFindings(st.lastLevel, st.seenH1, h, !SpaceAfterHashes(line, h.level), i)
  }

  /** The findings for a matched heading: no space after the hashes, empty
      text, a second level-1 heading, a jump of more than one level. */
  function HeadingFindings(lastLevel: nat, seenH1: bool, h: Heading, noSpace: bool, i: nat): (r: seq<Issue>)
    ensures OnLine(r, i)
    ensures FromRule(r, HeadingRule)
  {
    var a := When(noSpace, Issue(i, h.level + 1, HeadSpace));
    var b := When(IsBlank(h.text), Issue(i, h.level + 2, EmptyHead));
    var c := When(h.level == 1 && seenH1, Issue(i, 1, MultiH1));
    var d := When(lastLevel > 0 && h.level - lastLevel > 1, Issue(i, 1, HeadJump(lastLevel, h.level)));
    ReportsWhen(noSpace, Issue(i, h.level + 1, HeadSpace), HeadingRule);
    ReportsWhen(IsBlank(h.text), Issue(i, h.level + 2, EmptyHead), HeadingRule);
    ReportsWhen(h.level == 1 && seenH1, Issue(i, 1, MultiH1), HeadingRule);
    ReportsWhen(lastLevel > 0 && h.level - lastLevel > 1, Issue(i, 1, HeadJump(lastLevel, h.level)), HeadingRule);
    ReportsAppend(a, b, i, HeadingRule);
    ReportsAppend(a + b, c, i, HeadingRule);
    ReportsAppend(a + b + c, d, i, HeadingRule);
    a + b + c + d
  }

  /** Which heading findings a matched heading gets: E-HEADSPACE at the
      column after the hashes when no space follows them, E-EMPTYHEAD one
      column further when the text is blank, W-MULTIH1 for a level-1 heading
      after an earlier one, W-HEADJUMP when the level rises by more than one
      over the last heading's; nothing else. */
  lemma HeadingRules(st: ScanState, line: string, i: nat, h: Heading)
    requires HeadingMatch(line) == Some(h)
    ensures var r := HeadingIssues(st, line, i);
      && (Issue(i, h.level + 1, HeadSpace) in r <==> !SpaceAfterHashes(line, h.level))
      && (Issue(i, h.level + 2, EmptyHead) in r <==> IsBlank(h.text))
      && (Issue(i, 1, MultiH1) in r <==> h.level == 1 && st.seenH1)
      && (Issue(i, 1, HeadJump(st.lastLevel, h.level)) in r <==> st.lastLevel > 0 && h.level > st.lastLevel + 1)
      && forall x {:trigger x in r} :: x in r ==>
        x in {Issue(i, h.level + 1, HeadSpace), Issue(i, h.level + 2, EmptyHead),
              Issue(i, 1, MultiH1), Issue(i, 1, HeadJump(st.lastLevel, h.level))}
    ensures var r := HeadingIssues(st, line, i);
      && CountCode(r, HeadSpace) == (if SpaceAfterHashes(line, h.level) then 0 else 1)
      && CountCode(r, EmptyHead) == (if IsBlank(h.text) then 1 else 0)
      && CountCode(r, MultiH1) == (if h.level == 1 && st.seenH1 then 1 else 0)
      && CountCode(r, HeadJump(st.lastLevel, h.level)) == (if st.lastLevel > 0 && h.level > st.lastLevel + 1 then 1 else 0)
  {
    FindingsOfHeading(st.lastLevel, st.seenH1, h, !SpaceAfterHashes(line, h.level), i);
  }

  lemma FindingsOfHeading(lastLevel: nat, seenH1: bool, h: Heading, noSpace: bool, i: nat)
    ensures var r := HeadingFindings(lastLevel, seenH1, h, noSpace, i);
      && (Issue(i, h.level + 1, HeadSpace) in r <==> noSpace)
      && (Issue(i, h.level + 2, EmptyHead) in r <==> IsBlank(h.text))
      && (Issue(i, 1, MultiH1) in r <==> h.level == 1 && seenH1)
      && (Issue(i, 1, HeadJump(lastLevel, h.level)) in r <==> lastLevel > 0 && h.level > lastLevel + 1)
      && forall x {:trigger x in r} :: x in r ==>
        x in {Issue(i, h.level + 1, HeadSpace), Issue(i, h.level + 2, EmptyHead),
              Issue(i, 1, MultiH1), Issue(i, 1, HeadJump(lastLevel, h.level))}
    ensures var r := HeadingFindings(lastLevel, seenH1, h, noSpace, i);
      && CountCode(r, HeadSpace) == (if noSpace then 1 else 0)
      && CountCode(r, EmptyHead) == (if IsBlank(h.text) then 1 else 0)
      && CountCode(r, MultiH1) == (if h.level == 1 && seenH1 then 1 else 0)
      && CountCode(r, HeadJump(lastLevel, h.level)) == (if lastLevel > 0 && h.level > lastLevel + 1 then 1 else 0)
  {
    var x1, x2, x3, x4 := Issue(i, h.level + 1, HeadSpace), Issue(i, h.level + 2, EmptyHead),
      Issue(i, 1, MultiH1), Issue(i, 1, HeadJump(lastLevel, h.level));
    FourWhens(noSpace, IsBlank(h.text), h.level == 1 && seenH1, lastLevel > 0 && h.level - lastLevel > 1,
      x1, x2, x3, x4);
    FourWhenCounts(noSpace, IsBlank(h.text), h.level == 1 && seenH1, lastLevel > 0 && h.level - lastLevel > 1,
      x1, x2, x3, x4);
  }

  /** W-HEADJUMP occurs once, naming the last and the new level, when the
      level rises by more than one; no other W-HEADJUMP occurs. */
  lemma HeadJumpCount(lastLevel: nat, seenH1: bool, h: Heading, noSpace: bool, i: nat, from: nat, to: nat)
    ensures CountCode(HeadingFindings(lastLevel, seenH1, h, noSpace, i), HeadJump(from, to)) ==
      if from == lastLevel && to == h.level && lastLevel > 0 && h.level > lastLevel + 1 then 1 else 0
  {
    FindingsOfHeading(lastLevel, seenH1, h, noSpace, i);
    if from != lastLevel || to != h.level {
      CountCodeZero(HeadingFindings(lastLevel, seenH1, h, noSpace, i), HeadJump(from, to));
    }
  }

  /** The heading part of the state after a line: the last level and whether
      a level-1 heading has been seen. */
  function HeadingState(st: ScanState, line: string): (r: ScanState)
    ensures r.fence == st.fence && r.run == st.run
  {
    match HeadingMatch(line)
    case None => st
    case Some(h) => st.(lastLevel := h.level, seenH1 := st.seenH1 || h.level == 1)
  }

  /** The findings for one link or image occurrence, all at its start column
      (md_lint.py:164-176). */
  function MatchIssues(m: Link, i: nat): (r: seq<Issue>)
    ensures forall x {:trigger x in r} :: x in r ==> x.line == i && x.col == m.start + 1 && RuleOf(x.code) == LinkRule
  {
    var col := m.start + 1;
    var a := When(IsBlank(m.text), Issue(i, col, if m.image then NoAltText else EmptyLinkText));
    var b := When(IsBlank(m.url), Issue(i, col, EmptyUrl));
    var c := SchemeIssues(m.url, i, col);
    a + b + c
  }

  /** W-SCHEME: a scheme outside the allowed set (md_lint.py:172-176). */
  function SchemeIssues(url: string, i: nat, col: int): (r: seq<Issue>)
    ensures forall x {:trigger x in r} :: x in r ==> x.line == i && x.col == col && x.code.BadScheme?
    ensures r != [] <==> Scheme(url).Some? && !AllowedScheme(Scheme(url).value)
    ensures forall x {:trigger x in r} :: x in r ==> Scheme(url) == Some(x.code.scheme)
    ensures |r| <= 1
  {
    match Scheme(url)
    case Some(s) => When(!AllowedScheme(s), Issue(i, col, BadScheme(s)))
    case None => []
  }

  /** Which findings one occurrence gives: E-NOALTTEXT for an image and
      W-EMPTYLINKTEXT for a link with blank text, E-EMPTYURL for a blank
      target, W-SCHEME for a target whose scheme is not allowed. */
  lemma MatchFindings(m: Link, i: nat)
    ensures Issue(i, m.start + 1, NoAltText) in MatchIssues(m, i) <==> m.image && IsBlank(m.text)
    ensures Issue(i, m.start + 1, EmptyLinkText) in MatchIssues(m, i) <==> !m.image && IsBlank(m.text)
    ensures Issue(i, m.start + 1, EmptyUrl) in MatchIssues(m, i) <==> IsBlank(m.url)
    ensures (exists x {:trigger x in MatchIssues(m, i)} :: x in MatchIssues(m, i) && x.code.BadScheme?) <==>
      Scheme(m.url).Some? && !AllowedScheme(Scheme(m.url).value)
    ensures forall x {:trigger x in MatchIssues(m, i)} :: x in MatchIssues(m, i) && x.code.BadScheme? ==> Scheme(m.url) == Some(x.code.scheme)
  {
    var c := SchemeIssues(m.url, i, m.start + 1);
    if c != [] {
      assert c[0] in MatchIssues(m, i);
    }
  }

  /** E-NOALTTEXT, W-EMPTYLINKTEXT, E-EMPTYURL and W-SCHEME each occur once
      per occurrence when their condition holds and not at all otherwise. */
  lemma MatchCounts(m: Link, i: nat, code: Code)
    requires code == NoAltText || code == EmptyLinkText || code == EmptyUrl || code.BadScheme?
    ensures CountCode(MatchIssues(m, i), code) ==
      if code.BadScheme? then (if Scheme(m.url) == Some(code.scheme) && !AllowedScheme(code.scheme) then 1 else 0)
      else if code == EmptyUrl then (if IsBlank(m.url) then 1 else 0)
      else if IsBlank(m.text) && m.image == code.NoAltText? then 1 else 0
  {
    if code.BadScheme? {
      MatchSchemeCount(m, i, code.scheme);
    } else {
      MatchTextCounts(m, i, code);
    }
  }

  /** W-SCHEME naming `v` occurs once when `v` is the target's scheme and is
      not allowed. */
  lemma MatchSchemeCount(m: Link, i: nat, v: string)
    ensures CountCode(MatchIssues(m, i), BadScheme(v)) ==
      if Scheme(m.url) == Some(v) && !AllowedScheme(v) then 1 else 0
  {
    var col := m.start + 1;
    var w := When(IsBlank(m.text), Issue(i, col, if m.image then NoAltText else EmptyLinkText))
      + When(IsBlank(m.url), Issue(i, col, EmptyUrl));
    var c := SchemeIssues(m.url, i, col);
    assert MatchIssues(m, i) == w + c;
    CountCodeWithout(c, w, BadScheme(v));
    match Scheme(m.url)
    case Some(s) =>
      if !AllowedScheme(s) {
        assert c == [Issue(i, col, BadScheme(s))];
        CountCodeSingle(Issue(i, col, BadScheme(s)), BadScheme(v));
      }
    case None =>
  }

  lemma MatchTextCounts(m: Link, i: nat, code: Code)
    requires code == NoAltText || code == EmptyLinkText || code == EmptyUrl
    ensures CountCode(MatchIssues(m, i), code) ==
      if code == EmptyUrl then (if IsBlank(m.url) then 1 else 0)
      else if IsBlank(m.text) && m.image == code.NoAltText? then 1 else 0
  {
    var col := m.start + 1;
    var x := Issue(i, col, if m.image then NoAltText else EmptyLinkText);
    var y := Issue(i, col, EmptyUrl);
    var c := SchemeIssues(m.url, i, col);
    assert MatchIssues(m, i) == When(IsBlank(m.text), x) + When(IsBlank(m.url), y) + c;
    TwoWhenCounts(IsBlank(m.text), IsBlank(m.url), x, y, c, code);
  }

  /** Two optional findings followed by findings of other codes. */
  lemma TwoWhenCounts(b1: bool, b2: bool, x: Issue, y: Issue, rest: seq<Issue>, code: Code)
    requires forall z {:trigger z in rest} :: z in rest ==> z.code != code
    ensures CountCode(When(b1, x) + When(b2, y) + rest, code)
      == (if b1 && x.code == code then 1 else 0) + (if b2 && y.code == code then 1 else 0)
  {
    CountCodeAppend(When(b1, x), When(b2, y), code);
    CountCodeWithout(When(b1, x) + When(b2, y), rest, code);
    CountCodeSingle(x, code);
    CountCodeSingle(y, code);
  }

  /** The findings of a list of occurrences, occurrence by occurrence. */
  function MatchesIssues(ms: seq<Link>, i: nat): (r: seq<Issue>)
    ensures OnLine(r, i)
    ensures FromRule(r, LinkRule)
  {
    var r := FlatMap(ms, m => MatchIssues(m, i));
    assert forall x {:trigger x in r} :: x in r ==> x.line == i && RuleOf(x.code) == LinkRule by {
      forall x | x in r ensures x.line == i && RuleOf(x.code) == LinkRule {
        var k := FlatMapFrom(ms, m => MatchIssues(m, i), x);
      }
    }
    assert OnLine(r, i) by {
      forall x | x in r ensures IsLineCode(x.code) {
        LineRule(x.code);
      }
    }
    r
  }

  /** The link and image findings of a line (md_lint.py:162-176). */
  function LinkIssues(line: string, i: nat): (r: seq<Issue>)
    ensures OnLine(r, i)
    ensures FromRule(r, LinkRule)
  {
    MatchesIssues(FindLinks(line, 0), i)
  }

  /** Every occurrence the search reports is checked, and the line's link
      findings are those of the reported occurrences and nothing else. */
  lemma LinkChecks(line: string, i: nat, x: Issue)
    ensures x in LinkIssues(line, i) <==>
      exists k :: 0 <= k < |FindLinks(line, 0)| && x in MatchIssues(FindLinks(line, 0)[k], i)
  {
    var ms := FindLinks(line, 0);
    assert LinkIssues(line, i) == FlatMap(ms, m => MatchIssues(m, i));
    if x in LinkIssues(line, i) {
      var k := FlatMapFrom(ms, m => MatchIssues(m, i), x);
      assert 0 <= k < |ms| && x in MatchIssues(ms[k], i);
      assert exists j :: 0 <= j < |FindLinks(line, 0)| && x in MatchIssues(FindLinks(line, 0)[j], i);
    } else {
      forall k | 0 <= k < |ms| && x in MatchIssues(ms[k], i)
        ensures false
      {
        FlatMapCover(ms, m => MatchIssues(m, i), k, x);
      }
    }
  }

  /** W-LISTTAB (md_lint.py:195-200). */
  function ListIssues(line: string, i: nat): (r: seq<Issue>)
    ensures OnLine(r, i)
    ensures FromRule(r, ListRule)
    ensures forall x {:trigger x in r} :: x in r ==> x == Issue(i, 1, ListTab)
    ensures CountCode(r, ListTab) == if ListIndent(line).Some? && '\t' in ListIndent(line).value then 1 else 0
  {
    When(ListIndent(line).Some? && '\t' in ListIndent(line).value, Issue(i, 1, ListTab))
  }

  /** A line that is neither a fence line nor inside a fence gets every check. */
  predicate IsProse(line: string, st: ScanState) {
    FenceMatch(line).None? && st.fence.None?
  }

  /** Table entries are pipe counts of table rows, so at least 2. */
  predicate RunWellFormed(st: ScanState) {
    forall n :: n in st.run ==> n >= 2
  }

  /** A line that is not a table row ends the current table block
      (md_lint.py:188-193). */
  function TableEnd(st: ScanState, line: string, i: nat): (r: seq<Issue>)
    ensures OnLine(r, i)
    ensures FromRule(r, TableRule)
  {
    if IsTableRow(line) then [] else Flush(st.run, i)
  }

  /** The line before line `i`, or nothing before the first. */
  function Previous(lines: seq<string>, i: nat): string
    requires 1 <= i <= |lines|
  {
    if i >= 2 then lines[i - 2] else ""
  }

  /** The findings of a prose line, in source order: whitespace, length and
      tabs, heading, links, end of a table block, list indentation
      (md_lint.py:122-200). */
  function ProseIssues(lines: seq<string>, maxLen: int, i: nat, st: ScanState): (r: seq<Issue>)
    requires 1 <= i <= |lines|
    ensures OnLine(r, i)
  {
    var line := lines[i - 1];
    var a := BasicChecks(line, Previous(lines, i), i, maxLen);
    var b := HeadingIssues(st, line, i);
    var c := LinkIssues(line, i);
    var d := TableEnd(st, line, i);
    var e := ListIssues(line, i);
    OnLineAppend(a, b, i);
    OnLineAppend(a + b, c, i);
    OnLineAppend(a + b + c, d, i);
    OnLineAppend(a + b + c + d, e, i);
    a + b + c + d + e
  }

  /** What each per-line rule reports on its own for line `i` in state `st`. */
  function RuleFindings(lines: seq<string>, maxLen: int, i: nat, st: ScanState, k: Rule): seq<Issue>
    requires 1 <= i <= |lines|
  {
    var line := lines[i - 1];
    match k
    case TrailRule => TrailIssues(line, i)
    case BlankRule => MultiBlankIssues(line, Previous(lines, i), i)
    case LengthRule => LineLenIssues(line, i, maxLen)
    case TabRule => TabIssues(line, i)
    case HeadingRule => HeadingIssues(st, line, i)
    case LinkRule => LinkIssues(line, i)
    case TableRule => TableEnd(st, line, i)
    case ListRule => ListIssues(line, i)
    case _ => []
  }

  /** The checks of a prose line do not interfere: the findings of each rule
      are exactly what that rule reports on its own, and no other rule
      reports anything. */
  lemma ProseByRule(lines: seq<string>, maxLen: int, i: nat, st: ScanState, k: Rule)
    requires 1 <= i <= |lines|
    ensures OfRule(ProseIssues(lines, maxLen, i, st), k) == RuleFindings(lines, maxLen, i, st, k)
  {
    var line := lines[i - 1];
    ProseParts(lines, maxLen, i, st);
    OfRuleLine(TrailIssues(line, i), MultiBlankIssues(line, Previous(lines, i), i),
      LineLenIssues(line, i, maxLen), TabIssues(line, i), HeadingIssues(st, line, i),
      LinkIssues(line, i), TableEnd(st, line, i), ListIssues(line, i), k);
  }

  lemma ProseParts(lines: seq<string>, maxLen: int, i: nat, st: ScanState)
    requires 1 <= i <= |lines|
    ensures var line := lines[i - 1];
      ProseIssues(lines, maxLen, i, st) ==
        TrailIssues(line, i) + MultiBlankIssues(line, Previous(lines, i), i)
        + LineLenIssues(line, i, maxLen) + TabIssues(line, i) + HeadingIssues(st, line, i)
        + LinkIssues(line, i) + TableEnd(st, line, i) + ListIssues(line, i)
  {
  }

  /** The eight per-line lists, each from its own rule: the findings of rule
      `k` are the list of `k`, or nothing. */
  lemma OfRuleLine(t: seq<Issue>, mb: seq<Issue>, ll: seq<Issue>, tb: seq<Issue>,
                   h: seq<Issue>, l: seq<Issue>, te: seq<Issue>, li: seq<Issue>, k: Rule)
    requires FromRule(t, TrailRule) && FromRule(mb, BlankRule) && FromRule(ll, LengthRule) && FromRule(tb, TabRule)
    requires FromRule(h, HeadingRule) && FromRule(l, LinkRule) && FromRule(te, TableRule) && FromRule(li, ListRule)
    ensures OfRule(t + mb + ll + tb + h + l + te + li, k) ==
      match k
      case TrailRule => t
      case BlankRule => mb
      case LengthRule => ll
      case TabRule => tb
      case HeadingRule => h
      case LinkRule => l
      case TableRule => te
      case ListRule => li
      case _ => []
  {
    OfRuleFour(t, mb, ll, tb, TrailRule, BlankRule, LengthRule, TabRule, k);
    var a := t + mb + ll + tb;
    OfRuleAppend(a, h, k);
    OfRuleAppend(a + h, l, k);
    OfRuleAppend(a + h + l, te, k);
    OfRuleAppend(a + h + l + te, li, k);
    OfRuleOnly(h, HeadingRule, k);
    OfRuleOnly(l, LinkRule, k);
    OfRuleOnly(te, TableRule, k);
    OfRuleOnly(li, ListRule, k);
  }

  /** Four lists, each from its own rule: the findings of rule `k` are the
      list of `k`, or nothing. */
  lemma OfRuleFour(a: seq<Issue>, b: seq<Issue>, c: seq<Issue>, d: seq<Issue>, ka: Rule, kb: Rule, kc: Rule, kd: Rule, k: Rule)
    requires FromRule(a, ka) && FromRule(b, kb) && FromRule(c, kc) && FromRule(d, kd)
    requires ka != kb && ka != kc && ka != kd && kb != kc && kb != kd && kc != kd
    ensures OfRule(a + b + c + d, k) ==
      if k == ka then a else if k == kb then b else if k == kc then c else if k == kd then d else []
  {
    OfRuleAppend(a, b, k);
    OfRuleAppend(a + b, c, k);
    OfRuleAppend(a + b + c, d, k);
    OfRuleOnly(a, ka, k);
    OfRuleOnly(b, kb, k);
    OfRuleOnly(c, kc, k);
    OfRuleOnly(d, kd, k);
  }

  /** The state after a prose line: the heading part as the heading checks
      leave it, the table block extended by a table row and emptied by any
      other line. */
  function ProseState(st: ScanState, line: string): (r: ScanState)
    ensures r.fence == st.fence
    ensures RunWellFormed(st) ==> RunWellFormed(r)
  {
    var h := HeadingState(st, line);
    if IsTableRow(line) then
      TableRowPipes(line);
      h.(run := st.run + [PipeCount(line)])
    else h.(run := [])
  }

  function ProseStep(lines: seq<string>, maxLen: int, i: nat, st: ScanState): (r: Scanned)
    requires 1 <= i <= |lines|
  {
    Scanned(ProseState(st, lines[i - 1]), ProseIssues(lines, maxLen, i, st))
  }

  /** Line `i` (1-based) of the document, in state `st` (md_lint.py:96-200). */
  function Step(lines: seq<string>, maxLen: int, i: nat, st: ScanState): Scanned
    requires 1 <= i <= |lines|
  {
    var line := lines[i - 1];
    match FenceMatch(line)
    case Some(f) =>
      if st.fence.None? then Scanned(st.(fence := Some(f)), [])
      else if st.fence == Some(f) then Scanned(st.(fence := None), [])
      else Scanned(st, [])
    case None =>
      if st.fence.Some? then Scanned(st, TrailIssues(line, i))
      else ProseStep(lines, maxLen, i, st)
  }

  /** What one line does: all its findings are at that line; a fence line is
      silent and opens a fence, closes the matching one, or changes nothing;
      inside a fence only trailing whitespace is reported, at the line's
      length; and table entries stay pipe counts of table rows. */
  lemma StepContract(lines: seq<string>, maxLen: int, i: nat, st: ScanState)
    requires 1 <= i <= |lines|
    ensures OnLine(Step(lines, maxLen, i, st).issues, i)
    ensures FenceMatch(lines[i - 1]).Some? ==> Step(lines, maxLen, i, st).issues == []
    ensures FenceMatch(lines[i - 1]).Some? && st.fence.None? ==>
      Step(lines, maxLen, i, st).state == st.(fence := FenceMatch(lines[i - 1]))
    ensures FenceMatch(lines[i - 1]).Some? && st.fence.Some? ==>
      Step(lines, maxLen, i, st).state == st.(fence := if st.fence == FenceMatch(lines[i - 1]) then None else st.fence)
    ensures FenceMatch(lines[i - 1]).None? && st.fence.Some? ==>
      && Step(lines, maxLen, i, st).state == st
      && forall x {:trigger x in Step(lines, maxLen, i, st).issues} ::
           x in Step(lines, maxLen, i, st).issues ==> x == Issue(i, |lines[i - 1]|, Trail)
    ensures IsProse(lines[i - 1], st) ==> Step(lines, maxLen, i, st).state.fence.None?
    ensures RunWellFormed(st) ==> RunWellFormed(Step(lines, maxLen, i, st).state)
  {
  }

  /** The state after the first `k` lines, and the findings of each of
      those lines: `found[j]` is what line `j + 1` reported. */
  datatype Pass = Pass(state: ScanState, found: seq<seq<Issue>>)

  function Run(lines: seq<string>, maxLen: int, k: nat): (r: Pass)
    requires k <= |lines|
    ensures |r.found| == k
    decreases k, 1
  {
    if k == 0 then Pass(Start, [])
    else
      var s := LineResult(lines, maxLen, k);
      Pass(s.state, Run(lines, maxLen, k - 1).found + [s.issues])
  }

  /** Line `k` scanned in the state the lines before it leave. */
  function LineResult(lines: seq<string>, maxLen: int, k: nat): Scanned
    requires 1 <= k <= |lines|
    decreases k, 0
  {
    Step(lines, maxLen, k, Run(lines, maxLen, k - 1).state)
  }

  /** The findings kept for each of the first `k` lines lie on that line and
      carry per-line codes, and table entries stay pipe counts of table rows. */
  lemma {:induction false} RunRange(lines: seq<string>, maxLen: int, k: nat)
    requires k <= |lines|
    ensures Grouped(Run(lines, maxLen, k).found)
    ensures RunWellFormed(Run(lines, maxLen, k).state)
  {
    if k > 0 {
      RunRange(lines, maxLen, k - 1);
      LineContract(lines, maxLen, k);
      GroupedSnoc(Run(lines, maxLen, k - 1).found, LineResult(lines, maxLen, k).issues);
    }
  }

  /** The part of `StepContract` the fold needs, for line `k` of the pass. */
  lemma LineContract(lines: seq<string>, maxLen: int, k: nat)
    requires 1 <= k <= |lines|
    ensures OnLine(LineResult(lines, maxLen, k).issues, k)
    ensures RunWellFormed(Run(lines, maxLen, k - 1).state) ==> RunWellFormed(LineResult(lines, maxLen, k).state)
  {
    StepContract(lines, maxLen, k, Run(lines, maxLen, k - 1).state);
  }

  /** End of document (md_lint.py:202-211): an open fence, then the last
      table block, both reported at the last line. */
  function Finalize(st: ScanState, n: nat): (r: seq<Issue>)
    ensures forall x {:trigger x in r} :: x in r ==> x.line == n && (x.code.UnclosedFence? || x.code.TablePipes?)
    ensures OfRule(r, FenceRule) == if st.fence.Some? then [Issue(n, 1, UnclosedFence)] else []
    ensures OfRule(r, TableRule) == Flush(st.run, n)
  {
    var fence := if st.fence.Some? then [Issue(n, 1, UnclosedFence)] else [];
    var table := Flush(st.run, n);
    EndFindings(fence, table, n);
    fence + table
  }

  /** An open-fence part followed by a table part, both at line `n`. */
  lemma EndFindings(fence: seq<Issue>, table: seq<Issue>, n: nat)
    requires forall x {:trigger x in fence} :: x in fence ==> x.line == n && x.code.UnclosedFence?
    requires forall x {:trigger x in table} :: x in table ==> x.line == n && x.code.TablePipes?
    ensures forall x {:trigger x in fence + table} :: x in fence + table ==>
      x.line == n && (x.code.UnclosedFence? || x.code.TablePipes?)
    ensures OfRule(fence + table, FenceRule) == fence
    ensures OfRule(fence + table, TableRule) == table
  {
    OfRuleTwo(fence, table, FenceRule, TableRule, FenceRule);
    OfRuleTwo(fence, table, FenceRule, TableRule, TableRule);
  }

  /** The findings of the line pass and of the end of the document. */
  function ScanIssues(lines: seq<string>, maxLen: int): (r: seq<Issue>)
    ensures FromLinePass(r)
  {
    var s := Run(lines, maxLen, |lines|);
    RunRange(lines, maxLen, |lines|);
    FlattenGrouped(s.found);
    LinePassJoin(Flatten(s.found), Finalize(s.state, |lines|));
    Flatten(s.found) + Finalize(s.state, |lines|)
  }

  /** The whole-text findings, before any line is looked at (md_lint.py:78-84). */
  function WholeTextIssues(raw: string): (r: seq<Issue>)
    ensures forall x {:trigger x in r} :: x in r ==> x.code.Crlf? || x.code.NoEofNewline?
  {
    When(ContainsCrlf(raw), Issue(1, 1, Crlf)) + When(!EndsWithNewline(raw), Issue(0, 0, NoEofNewline))
  }

  /** W-CRLF is reported once, at line 1, exactly when the text holds "\r\n";
      W-NOEOFNL once, at line 0, exactly when the text does not end in '\n'. */
  lemma WholeTextRules(raw: string)
    ensures OfRule(WholeTextIssues(raw), CrlfRule) == if ContainsCrlf(raw) then [Issue(1, 1, Crlf)] else []
    ensures OfRule(WholeTextIssues(raw), EofRule) == if EndsWithNewline(raw) then [] else [Issue(0, 0, NoEofNewline)]
  {
    var c := When(ContainsCrlf(raw), Issue(1, 1, Crlf));
    var e := When(!EndsWithNewline(raw), Issue(0, 0, NoEofNewline));
    OfRuleTwo(c, e, CrlfRule, EofRule, CrlfRule);
    OfRuleTwo(c, e, CrlfRule, EofRule, EofRule);
  }

  /** Whole-text findings followed by findings of the line pass hold no E-READ. */
  lemma ReadableJoin(w: seq<Issue>, scan: seq<Issue>)
    requires forall x {:trigger x in w} :: x in w ==> x.code.Crlf? || x.code.NoEofNewline?
    requires FromLinePass(scan)
    ensures forall x {:trigger x in w + scan} :: x in w + scan ==> !x.code.ReadError?
  {
  }

  /** `check_file` on a text that was read. */
  function CheckText(raw: string, maxLen: int): (r: seq<Issue>)
    ensures forall x {:trigger x in r} :: x in r ==> !x.code.ReadError?
  {
    ReadableJoin(WholeTextIssues(raw), ScanIssues(SplitLines(raw), maxLen));
    WholeTextIssues(raw) + ScanIssues(SplitLines(raw), maxLen)
  }

  /** `check_file`: an unreadable file gives a single E-READ and nothing else;
      a readable one never gives E-READ. */
  function CheckFile(doc: Document, maxLen: int): (r: seq<Issue>)
    ensures doc.Unreadable? ==> r == [Issue(0, 0, ReadError)]
    ensures doc.Readable? ==> forall x {:trigger x in r} :: x in r ==> !x.code.ReadError?
  {
    match doc
    case Unreadable => [Issue(0, 0, ReadError)]
    case Readable(raw) => CheckText(raw, maxLen)
  }
}
