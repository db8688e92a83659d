/** The loop of `check_file`: one pass over the lines that appends each
    line's findings to a growing list and carries the scan state in local
    variables, then the end-of-document checks. `Check` runs it on the
    untranslated text, as the model's `check_file` does; `CheckAsWritten`
    runs it on the text a text-mode read gives, as md_lint.py does. */
module ScanLoop {
  import opened Patterns
  import opened Issues
  import opened Scanner
  import opened ScanProperties
  import opened Reading

  /** The pass over the first `k + 1` lines is the pass over the first `k`
      followed by line `k + 1` in the state that pass leaves. */
  lemma RunNext(lines: seq<string>, maxLen: int, k: nat)
    requires k < |lines|
    ensures Run(lines, maxLen, k + 1).state == Step(lines, maxLen, k + 1, Run(lines, maxLen, k).state).state
    ensures Flatten(Run(lines, maxLen, k + 1).found) ==
      Flatten(Run(lines, maxLen, k).found) + Step(lines, maxLen, k + 1, Run(lines, maxLen, k).state).issues
  {
    FlattenSnoc(Run(lines, maxLen, k).found, LineResult(lines, maxLen, k + 1).issues);
  }

  /** The loop over the lines (md_lint.py:86-200) and the end-of-document
      checks (md_lint.py:202-211), with the findings of the whole-text
      checks (md_lint.py:78-84) in front. It computes the fold exactly, so
      its findings after the whole-text ones come in line order. */
  method CheckLines(raw: string, maxLen: int) returns (issues: seq<Issue>)
    ensures issues == CheckText(raw, maxLen)
    ensures LinesOrdered(issues[|WholeTextIssues(raw)|..])
  {
    var lines := SplitLines(raw);
    var st := Start;
    var found: seq<Issue> := [];
    var n := 0;
    while n < |lines|
      invariant n <= |lines|
      invariant st == Run(lines, maxLen, n).state
      invariant found == Flatten(Run(lines, maxLen, n).found)
    {
      RunNext(lines, maxLen, n);
      var s := Step(lines, maxLen, n + 1, st);
      found := found + s.issues;
      st := s.state;
      n := n + 1;
    }
    issues := WholeTextIssues(raw) + (found + Finalize(st, |lines|));
    LineOrder(raw, maxLen);
  }

  /** The model's `check_file` on a document, on its untranslated text: a
      file that cannot be read gives only E-READ (md_lint.py:71-76). */
  method Check(doc: Document, maxLen: int) returns (issues: seq<Issue>)
    ensures issues == CheckFile(doc, maxLen)
  {
    match doc
    case Unreadable =>
      issues := [Issue(0, 0, ReadError)];
    case Readable(raw) =>
      issues := CheckLines(raw, maxLen);
  }

  /** `check_file` as md_lint.py writes it: the loop runs on the text after
      newline translation (md_lint.py:69-76). */
  method CheckAsWritten(doc: Document, maxLen: int) returns (issues: seq<Issue>)
    ensures issues == CheckFileAsWritten(doc, maxLen)
  {
    match doc
    case Unreadable =>
      issues := [Issue(0, 0, ReadError)];
    case Readable(raw) =>
      issues := CheckLines(Translate(raw), maxLen);
  }
}
