/** The `Issue` record of md_lint.py and its closed set of category codes.
    The file name every issue of one document shares, the human-readable
    message and the context excerpt are not modelled; a code carries the
    numbers and the scheme its message embeds. */
module Issues {

  datatype Code =
    | ReadError                                  // E-READ
    | Crlf                                       // W-CRLF
    | NoEofNewline                               // W-NOEOFNL
    | Trail                                      // W-TRAIL
    | MultiBlank                                 // W-MULTIBLANK
    | LineLen(length: nat, limit: int)           // W-LINELEN
    | Tab                                        // W-TAB
    | HeadSpace                                  // E-HEADSPACE
    | EmptyHead                                  // E-EMPTYHEAD
    | MultiH1                                    // W-MULTIH1
    | HeadJump(from: nat, to: nat)               // W-HEADJUMP
    | NoAltText                                  // E-NOALTTEXT
    | EmptyLinkText                              // W-EMPTYLINKTEXT
    | EmptyUrl                                   // E-EMPTYURL
    | BadScheme(scheme: string)                  // W-SCHEME
    | TablePipes(expected: nat, actual: nat)     // W-TABLEPIPES
    | ListTab                                    // W-LISTTAB
    | UnclosedFence                              // E-FENCE

  /** One finding: 1-based line (0 for whole-file findings) and column. */
  datatype Issue = Issue(line: nat, col: int, code: Code)

  /** The structural defects; everything else is a style warning. */
  predicate IsError(c: Code) {
    c.ReadError? || c.HeadSpace? || c.EmptyHead? || c.NoAltText? || c.EmptyUrl? || c.UnclosedFence?
  }

  /** The category string the linter prints; its `E-`/`W-` prefix is the severity. */
  function Name(c: Code): (r: string)
    ensures |r| >= 5 && r[1] == '-'
    ensures r[0] == 'E' || r[0] == 'W'
    ensures r[0] == 'E' <==> IsError(c)
  {
    match c
    case ReadError => "E-READ"
    case Crlf => "W-CRLF"
    case NoEofNewline => "W-NOEOFNL"
    case Trail => "W-TRAIL"
    case MultiBlank => "W-MULTIBLANK"
    case LineLen(_, _) => "W-LINELEN"
    case Tab => "W-TAB"
    case HeadSpace => "E-HEADSPACE"
    case EmptyHead => "E-EMPTYHEAD"
    case MultiH1 => "W-MULTIH1"
    case HeadJump(_, _) => "W-HEADJUMP"
    case NoAltText => "E-NOALTTEXT"
    case EmptyLinkText => "W-EMPTYLINKTEXT"
    case EmptyUrl => "E-EMPTYURL"
    case BadScheme(_) => "W-SCHEME"
    case TablePipes(_, _) => "W-TABLEPIPES"
    case ListTab => "W-LISTTAB"
    case UnclosedFence => "E-FENCE"
  }

  /** Codes the per-line pass can produce: all but the read failure, the two
      whole-text findings and the unclosed fence (W-TABLEPIPES also comes at
      the end of the document). */
  predicate IsLineCode(c: Code) {
    !c.ReadError? && !c.Crlf? && !c.NoEofNewline? && !c.UnclosedFence?
  }

  /** The linter rule behind each code: the read, the two whole-text tests,
      the per-line checks in the order they run, and the open fence at the end. */
  datatype Rule =
    | ReadRule | CrlfRule | EofRule
    | TrailRule | BlankRule | LengthRule | TabRule | HeadingRule | LinkRule | TableRule | ListRule
    | FenceRule

  function RuleOf(c: Code): Rule {
    match c
    case ReadError => ReadRule
    case Crlf => CrlfRule
    case NoEofNewline => EofRule
    case Trail => TrailRule
    case MultiBlank => BlankRule
    case LineLen(_, _) => LengthRule
    case Tab => TabRule
    case HeadSpace => HeadingRule
    case EmptyHead => HeadingRule
    case MultiH1 => HeadingRule
    case HeadJump(_, _) => HeadingRule
    case NoAltText => LinkRule
    case EmptyLinkText => LinkRule
    case EmptyUrl => LinkRule
    case BadScheme(_) => LinkRule
    case TablePipes(_, _) => TableRule
    case ListTab => ListRule
    case UnclosedFence => FenceRule
  }

  /** Every finding after the first is a finding of the list. */
  lemma InTail(b: seq<Issue>)
    requires b != []
    ensures forall x {:trigger x in b[1..]} :: x in b[1..] ==> x in b
  {
    forall x | x in b[1..] ensures x in b {
      var i :| 0 <= i < |b[1..]| && b[1..][i] == x;
      assert b[i + 1] == x;
    }
  }

  /** The findings of one rule, in order. */
  function OfRule(issues: seq<Issue>, k: Rule): (r: seq<Issue>)
    ensures forall x {:trigger x in r} :: x in r <==> x in issues && RuleOf(x.code) == k
  {
    if issues == [] then []
    else (if RuleOf(issues[0].code) == k then [issues[0]] else []) + OfRule(issues[1..], k)
  }

  lemma {:induction false} OfRuleAppend(a: seq<Issue>, b: seq<Issue>, k: Rule)
    ensures OfRule(a + b, k) == OfRule(a, k) + OfRule(b, k)
  {
    if a == [] {
      assert a + b == b;
    } else {
      assert (a + b)[1..] == a[1..] + b;
      OfRuleAppend(a[1..], b, k);
      var head := if RuleOf(a[0].code) == k then [a[0]] else [];
      assert OfRule(a + b, k) == head + OfRule(a[1..] + b, k);
      assert OfRule(a, k) == head + OfRule(a[1..], k);
    }
  }

  /** A list whose findings all come from rule `k0` is its own `k0` part and
      has no part for any other rule. */
  lemma {:induction false} OfRuleOnly(b: seq<Issue>, k0: Rule, k: Rule)
    requires forall x {:trigger x in b} :: x in b ==> RuleOf(x.code) == k0
    ensures OfRule(b, k) == if k == k0 then b else []
  {
    if b != [] {
      assert b[0] in b;
      InTail(b);
      OfRuleOnly(b[1..], k0, k);
    }
  }

  /** A list with no finding of rule `k` has an empty `k` part. */
  lemma {:induction false} OfRuleNone(b: seq<Issue>, k: Rule)
    requires forall x {:trigger x in b} :: x in b ==> RuleOf(x.code) != k
    ensures OfRule(b, k) == []
  {
    if b != [] {
      assert b[0] in b;
      InTail(b);
      OfRuleNone(b[1..], k);
    }
  }

  /** Appending findings of other rules leaves the `k` part unchanged. */
  lemma OfRuleWithout(a: seq<Issue>, b: seq<Issue>, k: Rule)
    requires forall x {:trigger x in b} :: x in b ==> RuleOf(x.code) != k
    ensures OfRule(a + b, k) == OfRule(a, k)
  {
    OfRuleAppend(a, b, k);
    OfRuleNone(b, k);
  }

  /** Findings that neither the read nor the whole-text tests report. */
  predicate FromLinePass(issues: seq<Issue>) {
    forall x {:trigger x in issues} :: x in issues ==> !x.code.ReadError? && !x.code.Crlf? && !x.code.NoEofNewline?
  }

  /** Per-line findings followed by end-of-document findings are all
      findings of the line pass. */
  lemma LinePassJoin(a: seq<Issue>, b: seq<Issue>)
    requires forall x {:trigger x in a} :: x in a ==> IsLineCode(x.code)
    requires forall x {:trigger x in b} :: x in b ==> x.code.UnclosedFence? || x.code.TablePipes?
    ensures FromLinePass(a + b)
  {
  }

  /** Appending findings of the line pass leaves the read and whole-text parts unchanged. */
  lemma OfRuleLinePass(a: seq<Issue>, b: seq<Issue>, k: Rule)
    requires FromLinePass(b)
    requires k == ReadRule || k == CrlfRule || k == EofRule
    ensures OfRule(a + b, k) == OfRule(a, k)
  {
    OfRuleWithout(a, b, k);
  }

  /** The rule parts of two lists, each from a single rule. */
  lemma OfRuleTwo(a: seq<Issue>, b: seq<Issue>, ka: Rule, kb: Rule, k: Rule)
    requires forall x {:trigger x in a} :: x in a ==> RuleOf(x.code) == ka
    requires forall x {:trigger x in b} :: x in b ==> RuleOf(x.code) == kb
    requires ka != kb
    ensures OfRule(a + b, k) == if k == ka then a else if k == kb then b else []
  {
    OfRuleAppend(a, b, k);
    OfRuleOnly(a, ka, k);
    OfRuleOnly(b, kb, k);
  }

  /** Every finding of the list comes from rule `k`. */
  predicate FromRule(issues: seq<Issue>, k: Rule) {
    forall x {:trigger x in issues} :: x in issues ==> RuleOf(x.code) == k
  }

  /** Only the read, the whole-text tests and the fence check report codes
      that are not per-line codes. */
  lemma LineRule(c: Code)
    requires RuleOf(c) != ReadRule && RuleOf(c) != CrlfRule && RuleOf(c) != EofRule && RuleOf(c) != FenceRule
    ensures IsLineCode(c)
  {
  }

  /** Every finding is reported at line `i`, with a per-line code. */
  predicate OnLine(issues: seq<Issue>, i: nat) {
    forall x {:trigger x in issues} :: x in issues ==> x.line == i && IsLineCode(x.code)
  }

  lemma OnLineAppend(a: seq<Issue>, b: seq<Issue>, i: nat)
    requires OnLine(a, i) && OnLine(b, i)
    ensures OnLine(a + b, i)
  {
  }

  /** The single finding `x` when `b` holds, nothing otherwise. */
  function When(b: bool, x: Issue): (r: seq<Issue>)
    ensures b ==> r == [x]
    ensures !b ==> r == []
  {
    if b then [x] else []
  }

  /** Four optional findings with different codes: each is present exactly
      when its condition holds, and nothing else is. */
  lemma FourWhens(b1: bool, b2: bool, b3: bool, b4: bool, x1: Issue, x2: Issue, x3: Issue, x4: Issue)
    requires x1.code != x2.code && x1.code != x3.code && x1.code != x4.code
    requires x2.code != x3.code && x2.code != x4.code && x3.code != x4.code
    ensures var r := When(b1, x1) + When(b2, x2) + When(b3, x3) + When(b4, x4);
      && (x1 in r <==> b1) && (x2 in r <==> b2) && (x3 in r <==> b3) && (x4 in r <==> b4)
      && forall x {:trigger x in r} :: x in r ==> x in {x1, x2, x3, x4}
  {
  }

  /** Line `i`'s findings of rule `k`. */
  predicate Reports(issues: seq<Issue>, i: nat, k: Rule) {
    OnLine(issues, i) && FromRule(issues, k)
  }

  lemma ReportsAppend(a: seq<Issue>, b: seq<Issue>, i: nat, k: Rule)
    requires Reports(a, i, k) && Reports(b, i, k)
    ensures Reports(a + b, i, k)
  {
  }

  lemma ReportsWhen(b: bool, x: Issue, k: Rule)
    requires IsLineCode(x.code) && RuleOf(x.code) == k
    ensures Reports(When(b, x), x.line, k)
  {
  }

  /** The issues without those of code `c`, in order. */
  function DropCode(issues: seq<Issue>, c: Code): (r: seq<Issue>)
    ensures forall x {:trigger x in r} :: x in r <==> x in issues && x.code != c
  {
    if issues == [] then []
    else (if issues[0].code == c then [] else [issues[0]]) + DropCode(issues[1..], c)
  }

  lemma {:induction false} DropCodeAppend(a: seq<Issue>, b: seq<Issue>, c: Code)
    ensures DropCode(a + b, c) == DropCode(a, c) + DropCode(b, c)
  {
    if a == [] {
      assert a + b == b;
    } else {
      assert (a + b)[1..] == a[1..] + b;
      DropCodeAppend(a[1..], b, c);
    }
  }

  /** Dropping a code nobody carries changes nothing. */
  lemma {:induction false} DropCodeAbsent(issues: seq<Issue>, c: Code)
    requires forall x {:trigger x in issues} :: x in issues ==> x.code != c
    ensures DropCode(issues, c) == issues
  {
    if issues != [] {
      assert issues[0] in issues;
      InTail(issues);
      DropCodeAbsent(issues[1..], c);
    }
  }

  /** How many issues carry exactly the code `c`. */
  function CountCode(issues: seq<Issue>, c: Code): nat
  {
    if issues == [] then 0
    else (if issues[0].code == c then 1 else 0) + CountCode(issues[1..], c)
  }

  lemma {:induction false} CountCodeAppend(a: seq<Issue>, b: seq<Issue>, c: Code)
    ensures CountCode(a + b, c) == CountCode(a, c) + CountCode(b, c)
  {
    if a == [] {
      assert a + b == b;
    } else {
      assert (a + b)[1..] == a[1..] + b;
      CountCodeAppend(a[1..], b, c);
    }
  }

  lemma {:induction false} CountCodeZero(issues: seq<Issue>, c: Code)
    ensures CountCode(issues, c) == 0 <==> forall x {:trigger x in issues} :: x in issues ==> x.code != c
  {
    if issues != [] {
      CountCodeZero(issues[1..], c);
      InTail(issues);
      assert issues[0] in issues;
      forall x | x in issues ensures x == issues[0] || x in issues[1..] {
        var i :| 0 <= i < |issues| && issues[i] == x;
        if i > 0 {
          assert issues[1..][i - 1] == x;
        }
      }
    }
  }

  /** Line numbers never decrease along the list. */
  predicate LinesOrdered(issues: seq<Issue>) {
    forall a, b :: 0 <= a < b < |issues| ==> issues[a].line <= issues[b].line
  }

  lemma CountCodeWithout(a: seq<Issue>, b: seq<Issue>, c: Code)
    requires forall x {:trigger x in b} :: x in b ==> x.code != c
    ensures CountCode(a + b, c) == CountCode(a, c)
    ensures CountCode(b + a, c) == CountCode(a, c)
  {
    CountCodeAppend(a, b, c);
    CountCodeAppend(b, a, c);
    CountCodeZero(b, c);
  }

  lemma CountCodeSingle(x: Issue, c: Code)
    ensures CountCode([x], c) == if x.code == c then 1 else 0
  {
    assert [x][1..] == [];
  }

  /** Taking one rule's part keeps every finding of a code of that rule. */
  lemma {:induction false} CountCodeOfRule(issues: seq<Issue>, k: Rule, c: Code)
    requires RuleOf(c) == k
    ensures CountCode(OfRule(issues, k), c) == CountCode(issues, c)
  {
    if issues != [] {
      CountCodeOfRule(issues[1..], k, c);
      var head := if RuleOf(issues[0].code) == k then [issues[0]] else [];
      assert OfRule(issues, k) == head + OfRule(issues[1..], k);
      CountCodeAppend(head, OfRule(issues[1..], k), c);
      if head != [] {
        CountCodeSingle(issues[0], c);
      }
    }
  }

  /** Four optional findings of four distinct codes: each code occurs once
      when its condition holds and not at all otherwise. */
  lemma FourWhenCounts(b1: bool, b2: bool, b3: bool, b4: bool, x1: Issue, x2: Issue, x3: Issue, x4: Issue)
    requires x1.code != x2.code && x1.code != x3.code && x1.code != x4.code
    requires x2.code != x3.code && x2.code != x4.code && x3.code != x4.code
    ensures var r := When(b1, x1) + When(b2, x2) + When(b3, x3) + When(b4, x4);
      && CountCode(r, x1.code) == (if b1 then 1 else 0)
      && CountCode(r, x2.code) == (if b2 then 1 else 0)
      && CountCode(r, x3.code) == (if b3 then 1 else 0)
      && CountCode(r, x4.code) == (if b4 then 1 else 0)
  {
    var w1, w2, w3, w4 := When(b1, x1), When(b2, x2), When(b3, x3), When(b4, x4);
    forall c | c in {x1.code, x2.code, x3.code, x4.code}
      ensures CountCode(w1 + w2 + w3 + w4, c) == CountCode(w1, c) + CountCode(w2, c) + CountCode(w3, c) + CountCode(w4, c)
    {
      CountCodeAppend(w1, w2, c);
      CountCodeAppend(w1 + w2, w3, c);
      CountCodeAppend(w1 + w2 + w3, w4, c);
    }
    forall c | c in {x1.code, x2.code, x3.code, x4.code}
      ensures CountCode(w1, c) == (if b1 && x1.code == c then 1 else 0)
      ensures CountCode(w2, c) == (if b2 && x2.code == c then 1 else 0)
      ensures CountCode(w3, c) == (if b3 && x3.code == c then 1 else 0)
      ensures CountCode(w4, c) == (if b4 && x4.code == c then 1 else 0)
    {
      CountCodeSingle(x1, c);
      CountCodeSingle(x2, c);
      CountCodeSingle(x3, c);
      CountCodeSingle(x4, c);
    }
  }

  /** The findings reported at line `n`, in order. */
  function AtLine(issues: seq<Issue>, n: nat): (r: seq<Issue>)
    ensures forall x {:trigger x in r} :: x in r <==> x in issues && x.line == n
  {
    if issues == [] then []
    else (if issues[0].line == n then [issues[0]] else []) + AtLine(issues[1..], n)
  }

  lemma {:induction false} AtLineAppend(a: seq<Issue>, b: seq<Issue>, n: nat)
    ensures AtLine(a + b, n) == AtLine(a, n) + AtLine(b, n)
  {
    if a == [] {
      assert a + b == b;
    } else {
      assert (a + b)[1..] == a[1..] + b;
      AtLineAppend(a[1..], b, n);
      var head := if a[0].line == n then [a[0]] else [];
      assert AtLine(a + b, n) == head + AtLine(a[1..] + b, n);
      assert AtLine(a, n) == head + AtLine(a[1..], n);
    }
  }

  lemma {:induction false} AtLineNone(b: seq<Issue>, n: nat)
    requires forall x {:trigger x in b} :: x in b ==> x.line != n
    ensures AtLine(b, n) == []
  {
    if b != [] {
      assert b[0] in b;
      InTail(b);
      AtLineNone(b[1..], n);
    }
  }

  lemma {:induction false} AtLineAll(b: seq<Issue>, n: nat)
    requires forall x {:trigger x in b} :: x in b ==> x.line == n
    ensures AtLine(b, n) == b
  {
    if b != [] {
      assert b[0] in b;
      InTail(b);
      AtLineAll(b[1..], n);
    }
  }

  /** Findings at line `i` of a list extended by the findings of a later
      line `k`: the extension adds to line `k` only. */
  lemma AtLineExtend(a: seq<Issue>, b: seq<Issue>, i: nat, k: nat)
    requires i <= k
    requires forall x {:trigger x in a} :: x in a ==> x.line < k
    requires forall x {:trigger x in b} :: x in b ==> x.line == k
    ensures AtLine(a + b, i) == if i == k then b else AtLine(a, i)
  {
    AtLineAppend(a, b, i);
    if k == i {
      AtLineNone(a, i);
      AtLineAll(b, i);
    } else {
      AtLineNone(b, i);
    }
  }

  /** Ordered findings up to line `n`, followed by findings at line `n`, are ordered. */
  lemma OrderedThen(a: seq<Issue>, b: seq<Issue>, n: nat)
    requires LinesOrdered(a)
    requires forall x {:trigger x in a} :: x in a ==> x.line <= n
    requires forall x {:trigger x in b} :: x in b ==> x.line == n
    ensures LinesOrdered(a + b)
  {
    assert LinesOrdered(b) by {
      forall p, q | 0 <= p < q < |b| ensures b[p].line <= b[q].line {
        assert b[p] in b && b[q] in b;
      }
    }
    OrderedAppend(a, b);
  }

  lemma OrderedAppend(a: seq<Issue>, b: seq<Issue>)
    requires LinesOrdered(a) && LinesOrdered(b)
    requires forall x, y {:trigger x in a, y in b} :: x in a && y in b ==> x.line <= y.line
    ensures LinesOrdered(a + b)
  {
    var s := a + b;
    forall i, j | 0 <= i < j < |s| ensures s[i].line <= s[j].line {
      if j < |a| {
        assert s[i] == a[i] && s[j] == a[j];
      } else if i >= |a| {
        assert s[i] == b[i - |a|] && s[j] == b[j - |a|];
      } else {
        assert s[i] == a[i] && s[j] == b[j - |a|];
        assert a[i] in a && b[j - |a|] in b;
      }
    }
  }
  // ----- findings kept line by line -----

  /** The findings of consecutive lines, one group per line, in order. */
  function Flatten(groups: seq<seq<Issue>>): seq<Issue>
  {
    if groups == [] then []
    else Flatten(groups[..|groups| - 1]) + groups[|groups| - 1]
  }

  /** Group `i` holds findings of line `i + 1` only. */
  predicate Grouped(groups: seq<seq<Issue>>) {
    forall i {:trigger groups[i]} :: 0 <= i < |groups| ==> OnLine(groups[i], i + 1)
  }

  lemma FlattenSnoc(groups: seq<seq<Issue>>, g: seq<Issue>)
    ensures Flatten(groups + [g]) == Flatten(groups) + g
  {
    assert (groups + [g])[..|groups|] == groups;
  }

  lemma GroupedSnoc(groups: seq<seq<Issue>>, g: seq<Issue>)
    requires Grouped(groups)
    requires OnLine(g, |groups| + 1)
    ensures Grouped(groups + [g])
  {
    forall i | 0 <= i < |groups| + 1 ensures OnLine((groups + [g])[i], i + 1) {
      if i < |groups| {
        assert (groups + [g])[i] == groups[i];
      }
    }
  }

  lemma GroupedPrefix(groups: seq<seq<Issue>>)
    requires Grouped(groups) && groups != []
    ensures Grouped(groups[..|groups| - 1])
  {
    var front := groups[..|groups| - 1];
    forall i | 0 <= i < |front| ensures OnLine(front[i], i + 1) {
      assert front[i] == groups[i];
    }
  }

  /** The groups flattened: every finding lies on one of their lines, with a
      per-line code, and line numbers never decrease. */
  lemma {:induction false} FlattenGrouped(groups: seq<seq<Issue>>)
    requires Grouped(groups)
    ensures forall x {:trigger x in Flatten(groups)} :: x in Flatten(groups) ==>
      1 <= x.line <= |groups| && IsLineCode(x.code)
    ensures LinesOrdered(Flatten(groups))
  {
    if groups != [] {
      var front := groups[..|groups| - 1];
      var last := groups[|groups| - 1];
      GroupedPrefix(groups);
      FlattenGrouped(front);
      assert OnLine(last, |groups|);
      OrderedThen(Flatten(front), last, |groups|);
    }
  }

  /** The findings at line `n` of the flattened groups are group `n - 1`. */
  lemma {:induction false} FlattenAtLine(groups: seq<seq<Issue>>, n: nat)
    requires Grouped(groups)
    requires 1 <= n <= |groups|
    ensures AtLine(Flatten(groups), n) == groups[n - 1]
  {
    var front := groups[..|groups| - 1];
    var last := groups[|groups| - 1];
    GroupedPrefix(groups);
    FlattenGrouped(front);
    assert OnLine(last, |groups|);
    AtLineExtend(Flatten(front), last, n, |groups|);
    if n < |groups| {
      FlattenAtLine(front, n);
      assert front[n - 1] == groups[n - 1];
    }
  }

  /** The groups flattened, followed by findings at the last group's line:
      every finding lies on one of the lines, in line order. */
  lemma FlattenThen(groups: seq<seq<Issue>>, fin: seq<Issue>)
    requires Grouped(groups)
    requires forall x {:trigger x in fin} :: x in fin ==> x.line == |groups|
    requires groups == [] ==> fin == []
    ensures forall x {:trigger x in Flatten(groups) + fin} :: x in Flatten(groups) + fin ==> 1 <= x.line <= |groups|
    ensures LinesOrdered(Flatten(groups) + fin)
  {
    FlattenGrouped(groups);
    OrderedThen(Flatten(groups), fin, |groups|);
  }
}
