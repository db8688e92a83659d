/** How md_lint.py:72 reads a document: in text mode, where universal
    newlines turn every "\r\n" and every lone '\r' into '\n' before
    `check_file` sees the text. As written, W-CRLF can therefore never be
    reported; `Scanner.CheckFile` is the check on the untranslated text
    (as `open(..., newline="")` would read it), which is what the W-CRLF
    check evidently intends. */
module Reading {
  import opened Patterns
  import opened Issues
  import opened Scanner
  import opened ScanProperties

  /** Universal-newline translation: "\r\n" and a lone '\r' become '\n'. */
  function Translate(s: string): (r: string)
    ensures '\r' !in r
    ensures '\r' !in s ==> r == s
    ensures |r| <= |s|
    decreases |s|
  {
    if s == [] then []
    else if s[0] == '\r' then
      "\n" + Translate(if |s| > 1 && s[1] == '\n' then s[2..] else s[1..])
    else [s[0]] + Translate(s[1..])
  }

  /** Text without '\r' passes through unchanged, whatever follows it. */
  lemma {:induction false} TranslatePlain(l: string, rest: string)
    requires '\r' !in l
    ensures Translate(l + rest) == l + Translate(rest)
  {
    if l != [] {
      assert (l + rest)[0] == l[0];
      assert (l + rest)[1..] == l[1..] + rest;
      TranslatePlain(l[1..], rest);
      assert l == [l[0]] + l[1..];
    } else {
      assert l + rest == rest;
    }
  }

  /** Read in text mode, a document with "\r\n" breaks is its '\n' version. */
  lemma {:induction false} TranslateCrlf(lines: seq<string>)
    requires forall k :: 0 <= k < |lines| ==> '\r' !in lines[k]
    ensures Translate(JoinCrlf(lines)) == JoinLines(lines)
  {
    if lines != [] {
      var tail := lines[1..];
      forall k | 0 <= k < |tail|
        ensures '\r' !in tail[k]
      {
        assert tail[k] == lines[k + 1];
      }
      TranslateCrlf(tail);
      assert '\r' !in lines[0];
      assert JoinCrlf(lines) == lines[0] + ("\r\n" + JoinCrlf(tail));
      TranslatePlain(lines[0], "\r\n" + JoinCrlf(tail));
      assert ("\r\n" + JoinCrlf(tail))[2..] == JoinCrlf(tail);
    }
  }

  /** Text without '\r' holds no "\r\n". */
  lemma NoCrNoCrlf(t: string)
    requires '\r' !in t
    ensures !ContainsCrlf(t)
  {
    forall k | 0 <= k < |t| - 1
      ensures t[k] != '\r'
    {
      assert t[k] in t;
    }
  }

  /** `check_file` as written: the document is the translated text. */
  function CheckFileAsWritten(doc: Document, maxLen: int): (r: seq<Issue>)
    ensures doc.Unreadable? ==> r == [Issue(0, 0, ReadError)]
    ensures forall x {:trigger x in r} :: x in r ==> !x.code.Crlf?
  {
    match doc
    case Unreadable => [Issue(0, 0, ReadError)]
    case Readable(raw) =>
      var t := Translate(raw);
      NoCrNoCrlf(t);
      WholeTextRules(t);
      WholeTextReport(t, maxLen, CrlfRule);
      assert forall x {:trigger x in CheckText(t, maxLen)} :: x in CheckText(t, maxLen) ==> !x.code.Crlf?;
      CheckText(t, maxLen)
  }

  /** On the untranslated text, W-CRLF is reported, once and at line 1,
      exactly when the document holds a "\r\n" break. */
  lemma CrlfReported(raw: string, maxLen: int)
    ensures Issue(1, 1, Crlf) in CheckFile(Readable(raw), maxLen) <==> ContainsCrlf(raw)
    ensures OfRule(CheckFile(Readable(raw), maxLen), CrlfRule) == if ContainsCrlf(raw) then [Issue(1, 1, Crlf)] else []
  {
    var r := CheckFile(Readable(raw), maxLen);
    assert r == CheckText(raw, maxLen);
    WholeTextRules(raw);
    WholeTextReport(raw, maxLen, CrlfRule);
    var crlf := OfRule(r, CrlfRule);
    assert crlf == if ContainsCrlf(raw) then [Issue(1, 1, Crlf)] else [];
    assert Issue(1, 1, Crlf) in r <==> Issue(1, 1, Crlf) in crlf;
  }

  /** Every non-empty document with "\r\n" breaks shows the difference: the
      intended check reports W-CRLF, the check as written does not, and it
      lints the document exactly as its '\n' version. */
  lemma CrlfMissed(lines: seq<string>, maxLen: int)
    requires lines != []
    requires forall k :: 0 <= k < |lines| ==> '\r' !in lines[k]
    ensures Issue(1, 1, Crlf) in CheckFile(Readable(JoinCrlf(lines)), maxLen)
    ensures Issue(1, 1, Crlf) !in CheckFileAsWritten(Readable(JoinCrlf(lines)), maxLen)
    ensures CheckFileAsWritten(Readable(JoinCrlf(lines)), maxLen) == CheckFile(Readable(JoinLines(lines)), maxLen)
  {
    CrlfJoinDetected(lines);
    CrlfReported(JoinCrlf(lines), maxLen);
    TranslateCrlf(lines);
  }

  /** A concrete such document: two lines, each ended by "\r\n". */
  lemma CrlfExample()
    ensures Issue(1, 1, Crlf) in CheckFile(Readable("a\r\nb\r\n"), 80)
    ensures Issue(1, 1, Crlf) !in CheckFileAsWritten(Readable("a\r\nb\r\n"), 80)
  {
    assert JoinCrlf(["a", "b"]) == "a\r\nb\r\n" by {
      assert JoinCrlf(["b"]) == "b\r\n";
      assert ["a", "b"][1..] == ["b"];
    }
    CrlfMissed(["a", "b"], 80);
  }
}
