/** The line recognisers of md_lint.py (its module-level regular expressions)
    as pure functions over one line, plus the two whole-text tests and the
    line split the scanner starts from. A line never contains '\n'. */
module Patterns {
  import opened Wrappers
  import opened Text

  // ----- CODE_FENCE_PAT: ^(\s*)(`{3,}|~{3,})(.*)$ -----

  /** What an opening fence records: its marker character and its indentation. */
  datatype Fence = Fence(marker: char, indent: string)

  predicate IsFenceChar(c: char) {
    c == '`' || c == '~'
  }

  /** The indentation is the whole whitespace prefix (a marker is never
      whitespace) and three equal marker characters must follow it. */
  function FenceMatch(line: string): (r: Option<Fence>)
    ensures r.Some? ==> IsFenceChar(r.value.marker) && IsBlank(r.value.indent)
    ensures r.Some? ==>
      var n := |r.value.indent|;
      && n + 3 <= |line| && line[..n] == r.value.indent
      && line[n] == r.value.marker && line[n + 1] == r.value.marker && line[n + 2] == r.value.marker
  {
    var n := LeadingSpace(line);
    if n + 3 <= |line| && IsFenceChar(line[n]) && line[n + 1] == line[n] && line[n + 2] == line[n]
    then Some(Fence(line[n], line[..n]))
    else None
  }

  /** Writing an indented fence opener and recognising it gives back the
      same marker and indentation, whatever info string follows. */
  lemma FenceRoundTrip(indent: string, m: char, info: string)
    requires IsBlank(indent) && IsFenceChar(m)
    ensures FenceMatch(indent + [m, m, m] + info) == Some(Fence(m, indent))
  {
    var line := indent + [m, m, m] + info;
    assert line == indent + ([m, m, m] + info);
    LeadingSpaceOf(indent, [m, m, m] + info);
    assert line[..|indent|] == indent;
  }

  // ----- HEADING_PAT: ^(#{1,6})\s*(.*)$ -----

  /** The level is the number of matched '#' (at most six); the text is what
      follows once the whitespace after them is skipped. */
  datatype Heading = Heading(level: nat, text: string)

  /** Length of the leading run of '#'. */
  function HashRun(s: string): (n: nat)
    ensures n <= |s|
    ensures forall k :: 0 <= k < n ==> s[k] == '#'
    ensures n < |s| ==> s[n] != '#'
  {
    if s == [] || s[0] != '#' then 0 else 1 + HashRun(s[1..])
  }

  function HeadingMatch(line: string): (r: Option<Heading>)
    ensures r.Some? <==> |line| > 0 && line[0] == '#'
    ensures r.Some? ==> 1 <= r.value.level <= 6 && r.value.level <= |line|
  {
    if |line| == 0 || line[0] != '#' then None
    else
      var level := if HashRun(line) < 6 then HashRun(line) else 6;
      var rest := line[level..];
      Some(Heading(level, rest[LeadingSpace(rest)..]))
  }

  /** A matched heading is its run of '#' (the whole run, unless it is longer
      than six), then blanks, then a text that does not start with a blank
      and runs to the end of the line. */
  lemma HeadingShape(line: string)
    requires HeadingMatch(line).Some?
    ensures var h := HeadingMatch(line).value;
      && (forall k :: 0 <= k < h.level ==> line[k] == '#')
      && (h.level < 6 ==> h.level == |line| || line[h.level] != '#')
      && h.level + |h.text| <= |line|
      && IsBlank(line[h.level..|line| - |h.text|])
      && line[|line| - |h.text|..] == h.text
      && (h.text == [] || !IsSpace(h.text[0]))
  {
    var h := HeadingMatch(line).value;
    var rest := line[h.level..];
    var n := LeadingSpace(rest);
    assert h.text == rest[n..];
    assert line[h.level..|line| - |h.text|] == rest[..n];
  }

  /** `line.startswith(hashes + " ")` for the matched run of '#'. */
  predicate SpaceAfterHashes(line: string, level: nat) {
    level < |line| && line[level] == ' '
  }

  /** Writing a heading of level 1 to 6 and recognising it gives back the
      same level and text. */
  lemma HeadingRoundTrip(level: nat, text: string)
    requires 1 <= level <= 6
    requires text == [] || !IsSpace(text[0])
    ensures HeadingMatch(Repeat('#', level) + " " + text) == Some(Heading(level, text))
  {
    var line := Repeat('#', level) + " " + text;
    assert line[level] == ' ';
    assert HashRun(line) == level;
    assert line[level..] == " " + text;
    LeadingSpaceOf(" ", text);
  }

  /** Seven or more '#' still match, as a level-6 heading whose text starts
      with the surplus '#'. */
  lemma TooManyHashes(n: nat, rest: string)
    requires n >= 7
    ensures HeadingMatch(Repeat('#', n) + rest) == Some(Heading(6, Repeat('#', n - 6) + rest))
  {
    var line := Repeat('#', n) + rest;
    assert line[5] == '#';
    assert HashRun(line) >= 6;
    assert line[6..] == Repeat('#', n - 6) + rest;
    assert line[6] == '#';
  }

  // ----- LINK_PAT: !?\[([^\]]*)\]\(([^)]+)\) -----

  /** One match: where it starts, whether it begins with '!', the bracketed
      text, the parenthesised target and the position just after ')'. */
  datatype Link = Link(start: nat, image: bool, text: string, url: string, end: nat)

  /** The text a match consumes. */
  function LinkSyntax(image: bool, text: string, url: string): string {
    (if image then "!" else "") + "[" + text + "](" + url + ")"
  }

  /** The character classes of the pattern: no ']' in the text, a
      non-empty target without ')'. */
  predicate WellFormedLink(m: Link) {
    ']' !in m.text && ')' !in m.url && |m.url| > 0
  }

  /** `m` is a match of the pattern in `line` starting at `m.start`. */
  predicate LinkOccursAt(line: string, m: Link) {
    && WellFormedLink(m)
    && m.end == m.start + |LinkSyntax(m.image, m.text, m.url)| <= |line|
    && line[m.start..m.end] == LinkSyntax(m.image, m.text, m.url)
  }

  /** Where the '[' of an occurrence is, where its ']' is and where its ')' is. */
  function OpenBracket(m: Link): nat { if m.image then m.start + 1 else m.start }
  function CloseBracket(m: Link): nat { OpenBracket(m) + 1 + |m.text| }
  function CloseParen(m: Link): nat { CloseBracket(m) + 2 + |m.url| }

  /** The same occurrence described position by position. */
  predicate LinkPositions(line: string, m: Link) {
    && WellFormedLink(m) && m.end == CloseParen(m) + 1 <= |line|
    && (m.image ==> line[m.start] == '!')
    && line[OpenBracket(m)] == '['
    && line[OpenBracket(m) + 1..CloseBracket(m)] == m.text
    && line[CloseBracket(m)] == ']' && line[CloseBracket(m) + 1] == '('
    && line[CloseBracket(m) + 2..CloseParen(m)] == m.url
    && line[CloseParen(m)] == ')'
  }

  lemma SliceExtend(line: string, a: nat, b: nat, c: nat, x: string, y: string)
    requires a <= b <= c <= |line|
    requires line[a..b] == x && line[b..c] == y
    ensures line[a..c] == x + y
  {
    SliceSplit(line, a, b, c);
  }

  lemma SlicePeel(line: string, a: nat, c: nat, x: string, y: string)
    requires a + |x| <= c <= |line| && line[a..c] == x + y
    ensures line[a..a + |x|] == x && line[a + |x|..c] == y
  {
    SliceSplit(line, a, a + |x|, c);
    ConcatSplit(line[a..a + |x|], line[a + |x|..c], x, y);
  }

  lemma SliceOne(line: string, a: nat)
    requires a < |line|
    ensures line[a..a + 1] == [line[a]]
  {
  }

  lemma PositionsOccur(line: string, m: Link)
    requires LinkPositions(line, m)
    ensures LinkOccursAt(line, m)
  {
    var p, q, e, f := m.start, OpenBracket(m), CloseBracket(m), CloseParen(m);
    var pre := if m.image then "!" else "";
    assert line[p..q] == pre by {
      if m.image { SliceOne(line, p); }
    }
    SliceOne(line, q);
    SliceExtend(line, p, q, q + 1, pre, "[");
    SliceExtend(line, p, q + 1, e, pre + "[", m.text);
    SliceOne(line, e);
    SliceOne(line, e + 1);
    SliceExtend(line, e, e + 1, e + 2, "]", "(");
    SliceExtend(line, p, e, e + 2, pre + "[" + m.text, "](");
    SliceExtend(line, p, e + 2, f, pre + "[" + m.text + "](", m.url);
    SliceOne(line, f);
    SliceExtend(line, p, f, f + 1, pre + "[" + m.text + "](" + m.url, ")");
  }

  lemma OccurSlices(line: string, m: Link)
    requires LinkOccursAt(line, m)
    ensures var p, q, e, f := m.start, OpenBracket(m), CloseBracket(m), CloseParen(m);
      && line[p..q] == (if m.image then "!" else "") && line[q..q + 1] == "["
      && line[q + 1..e] == m.text && line[e..e + 2] == "](" && line[e + 2..f] == m.url
      && line[f..f + 1] == ")"
  {
    var p, q, e, f := m.start, OpenBracket(m), CloseBracket(m), CloseParen(m);
    var pre := if m.image then "!" else "";
    SlicePeel(line, p, f + 1, pre + "[" + m.text + "](" + m.url, ")");
    SlicePeel(line, p, f, pre + "[" + m.text + "](", m.url);
    SlicePeel(line, p, e + 2, pre + "[" + m.text, "](");
    SlicePeel(line, p, e, pre + "[", m.text);
    SlicePeel(line, p, q + 1, pre, "[");
  }

  lemma OccurPositions(line: string, m: Link)
    requires LinkOccursAt(line, m)
    ensures LinkPositions(line, m)
  {
    var p, q, e, f := m.start, OpenBracket(m), CloseBracket(m), CloseParen(m);
    OccurSlices(line, m);
    SliceOne(line, q);
    SliceOne(line, f);
    SliceSplit(line, e, e + 1, e + 2);
    SliceOne(line, e);
    SliceOne(line, e + 1);
    assert m.image ==> line[p] == line[p..q][0];
  }

  /** The regular-expression match attempted at position `p`. */
  function LinkAt(line: string, p: nat): (r: Option<Link>)
    ensures r.Some? ==> r.value.start == p < r.value.end <= |line|
  {
    var image := p < |line| && line[p] == '!';
    var q := if image then p + 1 else p;
    if q >= |line| || line[q] != '[' then None
    else match IndexFrom(line, ']', q + 1)
      case None => None
      case Some(e) =>
        if e + 1 >= |line| || line[e + 1] != '(' then None
        else match IndexFrom(line, ')', e + 2)
          case None => None
          case Some(f) =>
            if f == e + 2 then None
            else Some(Link(p, image, line[q + 1..e], line[e + 2..f], f + 1))
  }

  /** What the match at `p` returns is an occurrence of the pattern there. */
  lemma LinkAtSound(line: string, p: nat)
    ensures LinkAt(line, p).Some? ==> LinkOccursAt(line, LinkAt(line, p).value)
  {
    if LinkAt(line, p).Some? {
      var m := LinkAt(line, p).value;
      var e := IndexFrom(line, ']', OpenBracket(m) + 1).value;
      var f := IndexFrom(line, ')', e + 2).value;
      assert e == CloseBracket(m) && f == CloseParen(m);
      AbsentFromSlice(line, OpenBracket(m) + 1, e, ']');
      AbsentFromSlice(line, e + 2, f, ')');
      PositionsOccur(line, m);
    }
  }

  /** Conversely, wherever the pattern occurs, the match at that position is
      exactly that occurrence: the pattern has one way to match there. */
  lemma LinkAtComplete(line: string, m: Link)
    requires LinkOccursAt(line, m)
    ensures LinkAt(line, m.start) == Some(m)
  {
    OccurPositions(line, m);
    var q, e, f := OpenBracket(m), CloseBracket(m), CloseParen(m);
    NotInSlice(line, q + 1, e, ']');
    IndexFromFirst(line, ']', q + 1, e);
    NotInSlice(line, e + 2, f, ')');
    IndexFromFirst(line, ')', e + 2, f);
    LinkAtFound(line, m.start, m.image, q, e, f);
  }

  /** The match at `p` once the '[' has been checked and the two searches
      have found `e` and `f`. */
  lemma LinkAtFound(line: string, p: nat, image: bool, q: nat, e: nat, f: nat)
    requires image <==> p < |line| && line[p] == '!'
    requires q == if image then p + 1 else p
    requires q < e && e + 2 < f < |line| && line[q] == '[' && line[e + 1] == '('
    requires IndexFrom(line, ']', q + 1) == Some(e) && IndexFrom(line, ')', e + 2) == Some(f)
    ensures LinkAt(line, p) == Some(Link(p, image, line[q + 1..e], line[e + 2..f], f + 1))
  {
  }


  /** `[text]()` is no match where it starts: the target must hold at
      least one character, so the empty one never reaches the URL checks. */
  lemma EmptyTargetNoLink(text: string)
    requires ']' !in text
    ensures LinkAt("[" + text + "]()", 0).None?
  {
    var line := "[" + text + "]()";
    var e := |text| + 1;
    forall j | 1 <= j < e
      ensures line[j] != ']'
    {
      assert line[j] == text[j - 1];
    }
    assert line[e] == ']' && line[e + 1] == '(' && line[e + 2] == ')';
    IndexFromFirst(line, ']', 1, e);
    IndexFromFirst(line, ')', e + 2, e + 2);
  }

  /** No position of the slice holds `c`, given that the slice lacks `c`. */
  lemma NotInSlice(line: string, a: nat, b: nat, c: char)
    requires a <= b <= |line| && c !in line[a..b]
    ensures forall j :: a <= j < b ==> line[j] != c
  {
    forall j | a <= j < b ensures line[j] != c {
      assert line[j] == line[a..b][j - a];
    }
  }

  /** A slice without `c` at any position does not contain `c`. */
  lemma AbsentFromSlice(line: string, a: nat, b: nat, c: char)
    requires a <= b <= |line| && forall j :: a <= j < b ==> line[j] != c
    ensures c !in line[a..b]
  {
  }

  /** `LINK_PAT.finditer(line)` from position `pos`: leftmost matches, each
      search resuming where the previous match ended, so the matches come in
      order and never overlap. */
  function FindLinks(line: string, pos: nat): seq<Link>
    requires pos <= |line|
    decreases |line| - pos
  {
    if pos == |line| then []
    else
      var o := LinkAt(line, pos);
      if o.Some? then [o.value] + FindLinks(line, o.value.end)
      else FindLinks(line, pos + 1)
  }

  /** The matches lie in the searched part of the line, in order, without
      overlapping. */
  lemma {:induction false} FindLinksInOrder(line: string, pos: nat)
    requires pos <= |line|
    ensures forall k :: 0 <= k < |FindLinks(line, pos)| ==>
      pos <= FindLinks(line, pos)[k].start < FindLinks(line, pos)[k].end <= |line|
    ensures forall k :: 0 <= k < |FindLinks(line, pos)| - 1 ==>
      FindLinks(line, pos)[k].end <= FindLinks(line, pos)[k + 1].start
    decreases |line| - pos
  {
    if pos < |line| {
      var o := LinkAt(line, pos);
      if o.Some? {
        FindLinksInOrder(line, o.value.end);
        ConsLinks(o.value, FindLinks(line, o.value.end), pos, |line|);
      } else {
        FindLinksInOrder(line, pos + 1);
        FindLinksSkip(line, pos);
      }
    }
  }

  /** A match in range followed by ordered matches that start after it
      gives ordered matches in range. */
  lemma ConsLinks(x: Link, rest: seq<Link>, pos: nat, n: nat)
    requires pos <= x.start < x.end <= n
    requires forall k :: 0 <= k < |rest| ==> x.end <= rest[k].start < rest[k].end <= n
    requires forall k :: 0 <= k < |rest| - 1 ==> rest[k].end <= rest[k + 1].start
    ensures forall k :: 0 <= k < |[x] + rest| ==> pos <= ([x] + rest)[k].start < ([x] + rest)[k].end <= n
    ensures forall k :: 0 <= k < |[x] + rest| - 1 ==> ([x] + rest)[k].end <= ([x] + rest)[k + 1].start
  {
    var r := [x] + rest;
    forall k | 1 <= k < |r| ensures r[k] == rest[k - 1] {
    }
    forall k | 0 <= k < |r| - 1 ensures r[k].end <= r[k + 1].start {
      if k > 0 {
        assert r[k] == rest[k - 1] && r[k + 1] == rest[k];
      }
    }
  }

  /** Every reported match is the match of the pattern at its own start. */
  lemma {:induction false} FindLinksSound(line: string, pos: nat, k: nat)
    requires pos <= |line| && k < |FindLinks(line, pos)|
    ensures LinkAt(line, FindLinks(line, pos)[k].start) == Some(FindLinks(line, pos)[k])
    decreases |line| - pos
  {
    var o := LinkAt(line, pos);
    if o.Some? {
      if k > 0 {
        FindLinksSound(line, o.value.end, k - 1);
      }
    } else {
      FindLinksSound(line, pos + 1, k);
    }
  }

  /** No occurrence is missed: every position where the pattern matches is
      the start of a reported match or lies inside one. */
  lemma {:induction false} FindLinksCovers(line: string, pos: nat, p: nat) returns (k: nat)
    requires pos <= p < |line| && LinkAt(line, p).Some?
    ensures k < |FindLinks(line, pos)| && FindLinks(line, pos)[k].start <= p < FindLinks(line, pos)[k].end
    decreases |line| - pos
  {
    var o := LinkAt(line, pos);
    if o.None? {
      assert p != pos;
      FindLinksSkip(line, pos);
      k := FindLinksCovers(line, pos + 1, p);
    } else if p < o.value.end {
      FindLinksHead(line, pos);
      k := 0;
    } else {
      var j := FindLinksCovers(line, o.value.end, p);
      FindLinksNext(line, pos, j);
      k := j + 1;
    }
  }

  /** A match at `pos` is the first one reported from there. */
  lemma FindLinksHead(line: string, pos: nat)
    requires pos < |line| && LinkAt(line, pos).Some?
    ensures |FindLinks(line, pos)| > 0 && FindLinks(line, pos)[0] == LinkAt(line, pos).value
  {
  }

  /** After a match at `pos`, the search resumes where it ended. */
  lemma FindLinksNext(line: string, pos: nat, j: nat)
    requires pos < |line| && LinkAt(line, pos).Some?
    requires j < |FindLinks(line, LinkAt(line, pos).value.end)|
    ensures j + 1 < |FindLinks(line, pos)|
    ensures FindLinks(line, pos)[j + 1] == FindLinks(line, LinkAt(line, pos).value.end)[j]
  {
  }

  /** Without a match at `pos`, the search moves on by one position. */
  lemma FindLinksSkip(line: string, pos: nat)
    requires pos < |line| && LinkAt(line, pos).None?
    ensures FindLinks(line, pos) == FindLinks(line, pos + 1)
  {
  }

  /** The characters urlparse accepts in a scheme name. */
  predicate IsSchemeChar(c: char) {
    IsAsciiLetter(c) || IsAsciiDigit(c) || c == '+' || c == '-' || c == '.'
  }

  predicate IsSchemeName(s: string) {
    |s| > 0 && IsAsciiLetter(s[0]) && forall k :: 0 <= k < |s| ==> IsSchemeChar(s[k])
  }

  /** What urlparse strips from the front of a URL: C0 controls and space. */
  predicate IsControlOrSpace(c: char) {
    c as int <= 0x20
  }

  /** What urlparse deletes wherever it occurs: tab, CR and LF. */
  predicate IsUnsafe(c: char) {
    c == '\t' || c == '\r' || c == '\n'
  }

  /** Length of the leading run of controls and spaces. */
  function LeadingControl(s: string): (n: nat)
    ensures n <= |s|
  {
    if s == [] || !IsControlOrSpace(s[0]) then 0 else 1 + LeadingControl(s[1..])
  }

  /** `s` with every tab, CR and LF deleted. */
  function RemoveUnsafe(s: string): (r: string)
    ensures ':' !in s ==> ':' !in r
  {
    if s == [] then []
    else
      var rest := RemoveUnsafe(s[1..]);
      if IsUnsafe(s[0]) then rest else [s[0]] + rest
  }

  /** Nothing is deleted from text without tabs, CRs and LFs. */
  lemma {:induction false} RemoveUnsafeNone(s: string)
    requires forall k :: 0 <= k < |s| ==> !IsUnsafe(s[k])
    ensures RemoveUnsafe(s) == s
  {
    if s != [] {
      RemoveUnsafeNone(s[1..]);
    }
  }

  lemma {:induction false} RemoveUnsafeAppend(a: string, b: string)
    ensures RemoveUnsafe(a + b) == RemoveUnsafe(a) + RemoveUnsafe(b)
  {
    if a == [] {
      assert a + b == b;
    } else {
      assert (a + b)[1..] == a[1..] + b;
      RemoveUnsafeAppend(a[1..], b);
    }
  }

  /** The URL urlparse goes on to split: leading controls and spaces
      stripped, then tabs, CRs and LFs deleted. */
  function CleanUrl(url: string): (r: string)
    ensures ':' !in url ==> ':' !in r
  {
    RemoveUnsafe(url[LeadingControl(url)..])
  }

  /** The scheme of a cleaned URL: the text before the first ':' when it is
      a scheme name, lower-cased. */
  function SchemeName(url: string): (r: Option<string>)
    ensures ':' !in url ==> r.None?
    ensures r.Some? ==>
      && IsSchemeName(r.value) && Lower(r.value) == r.value
      && |r.value| < |url| && url[|r.value|] == ':' && Lower(url[..|r.value|]) == r.value
  {
    match IndexOf(url, ':')
    case None => None
    case Some(k) =>
      if IsSchemeName(url[..k]) then Some(Lower(url[..k])) else None
  }

  /** The scheme `urllib.parse.urlparse` reports for `url`. */
  function Scheme(url: string): (r: Option<string>)
    ensures ':' !in url ==> r.None?
    ensures r.Some? ==> IsSchemeName(r.value) && Lower(r.value) == r.value
  {
    SchemeName(CleanUrl(url))
  }

  /** A scheme name followed by ':' is always extracted, lower-cased. */
  lemma SchemeNameRoundTrip(name: string, rest: string)
    requires IsSchemeName(name)
    ensures SchemeName(name + ":" + rest) == Some(Lower(name))
  {
    var url := name + ":" + rest;
    IndexOfFirst(url, ':', |name|);
    assert url[..|name|] == name;
  }

  /** The same through urlparse's cleaning: leading controls and spaces do
      not hide the scheme. */
  lemma SchemeRoundTrip(pad: string, name: string, rest: string)
    requires forall k :: 0 <= k < |pad| ==> IsControlOrSpace(pad[k])
    requires IsSchemeName(name)
    ensures Scheme(pad + name + ":" + rest) == Some(Lower(name))
  {
    var url := pad + name + ":" + rest;
    var head := name + ":";
    assert url == pad + (head + rest);
    LeadingControlOf(pad, head + rest);
    assert url[|pad|..] == head + rest;
    KeepSafe(head, rest);
    assert CleanUrl(url) == head + RemoveUnsafe(rest);
    SchemeNameRoundTrip(name, RemoveUnsafe(rest));
  }

  /** Deleting tabs, CRs and LFs leaves a prefix without them alone. */
  lemma KeepSafe(a: string, b: string)
    requires forall k :: 0 <= k < |a| ==> !IsUnsafe(a[k])
    ensures RemoveUnsafe(a + b) == a + RemoveUnsafe(b)
  {
    RemoveUnsafeAppend(a, b);
    RemoveUnsafeNone(a);
  }

  /** The run stops exactly after the controls and spaces in front. */
  lemma {:induction false} LeadingControlOf(pad: string, rest: string)
    requires forall k :: 0 <= k < |pad| ==> IsControlOrSpace(pad[k])
    requires rest == [] || !IsControlOrSpace(rest[0])
    ensures LeadingControl(pad + rest) == |pad|
  {
    if pad == [] {
      assert pad + rest == rest;
    } else {
      assert (pad + rest)[1..] == pad[1..] + rest;
      LeadingControlOf(pad[1..], rest);
    }
  }

  lemma LowerFtp()
    ensures Lower("ftp") == "ftp"
  {
    var l := Lower("ftp");
    assert l[0] == 'f' && l[1] == 't' && l[2] == 'p';
  }

  /** A space before the scheme does not stop urlparse from finding it. */
  lemma SchemeAfterSpace()
    ensures Scheme(" ftp://host") == Some("ftp")
  {
    var pad, name, rest := " ", "ftp", "//host";
    assert " ftp://host" == pad + name + ":" + rest;
    assert IsSchemeName(name);
    SchemeRoundTrip(pad, name, rest);
    LowerFtp();
  }

  predicate AllowedScheme(s: string) {
    s == "http" || s == "https" || s == "mailto"
  }

  // ----- INLINE_CODE_PAT: `[^`]*` -----

  /** A first span `s[a..a + b + 2]` holds exactly two backticks, and none
      comes before it. */
  lemma CountSpan(s: string, a: nat, b: nat)
    requires a + b + 1 < |s| && s[a] == '`' && s[a + b + 1] == '`'
    requires forall k :: 0 <= k < a ==> s[k] != '`'
    requires forall k :: a < k < a + b + 1 ==> s[k] != '`'
    ensures Count(s, '`') == 2 + Count(s[a + b + 2..], '`')
  {
    var head := s[..a];
    var code := s[a + 1..a + b + 1];
    var tail := s[a + b + 2..];
    assert s == head + ['`'] + code + ['`'] + tail;
    CountPair(head, code, tail, '`');
  }

  /** `INLINE_CODE_PAT.sub("", s)`: every backtick-delimited span removed,
      scanning left to right. A lone unmatched backtick stays. */
  function StripCode(s: string): (r: string)
    ensures |r| <= |s|
    ensures '`' !in s ==> r == s
    ensures Count(r, '`') <= 1
    decreases |s|
  {
    match IndexOf(s, '`')
    case None => CountAbsent(s, '`'); s
    case Some(a) =>
      assert '`' !in s[..a];
      CountAbsent(s[..a], '`');
      match IndexOf(s[a + 1..], '`')
      case None =>
        assert s == s[..a] + [s[a]] + s[a + 1..];
        CountAbsent(s[a + 1..], '`');
        CountAppend(s[..a] + [s[a]], s[a + 1..], '`');
        CountAppend(s[..a], [s[a]], '`');
        s
      case Some(b) =>
        var rest := StripCode(s[a + b + 2..]);
        CountAppend(s[..a], rest, '`');
        s[..a] + rest
  }

  /** Spans remove backticks in pairs: one is left exactly when the line
      has an odd number of them. */
  lemma {:induction false} StripCodeParity(s: string)
    ensures Count(StripCode(s), '`') == Count(s, '`') % 2
    decreases |s|
  {
    match IndexOf(s, '`')
    case None =>
    case Some(a) =>
      match IndexOf(s[a + 1..], '`')
      case None =>
        StripCodeUnclosed(s, a);
      case Some(b) =>
        StripCodeParity(s[a + b + 2..]);
        ParityAfterSpan(s, a, b);
  }

  /** The parity is kept across the first span. */
  lemma ParityAfterSpan(s: string, a: nat, b: nat)
    requires a + b + 1 < |s| && s[a] == '`' && s[a + b + 1] == '`'
    requires forall k :: 0 <= k < a ==> s[k] != '`'
    requires forall k :: a < k < a + b + 1 ==> s[k] != '`'
    requires Count(StripCode(s[a + b + 2..]), '`') == Count(s[a + b + 2..], '`') % 2
    ensures Count(StripCode(s), '`') == Count(s, '`') % 2
  {
    var tail := s[a + b + 2..];
    StripCodeFirstSpan(s, a, b);
    CountSpan(s, a, b);
    assert '`' !in s[..a];
    CountAbsent(s[..a], '`');
    JoinParity(s[..a], StripCode(tail), Count(tail, '`'), Count(s, '`'));
  }

  lemma JoinParity(p: string, q: string, t: nat, total: nat)
    requires Count(p, '`') == 0 && Count(q, '`') == t % 2 && total == t + 2
    ensures Count(p + q, '`') == total % 2
  {
    CountAppend(p, q, '`');
  }

  /** An unclosed backtick is the only one on the line. */
  lemma StripCodeUnclosed(s: string, a: nat)
    requires a < |s| && s[a] == '`'
    requires forall k :: 0 <= k < |s| && k != a ==> s[k] != '`'
    ensures Count(s, '`') == 1
  {
    var head := s[..a];
    var tail := s[a + 1..];
    assert '`' !in head && '`' !in tail;
    assert s == head + ['`'] + tail;
    CountAbsent(head, '`');
    CountAbsent(tail, '`');
    CountAppend(head, ['`'], '`');
    CountAppend(head + ['`'], tail, '`');
  }

  /** Stripping removes the first span and goes on after it. */
  lemma StripCodeFirstSpan(s: string, a: nat, b: nat)
    requires a + b + 1 < |s| && s[a] == '`' && s[a + b + 1] == '`'
    requires forall k :: 0 <= k < a ==> s[k] != '`'
    requires forall k :: a < k < a + b + 1 ==> s[k] != '`'
    ensures StripCode(s) == s[..a] + StripCode(s[a + b + 2..])
  {
    var code := s[a + 1..a + b + 1];
    assert '`' !in s[..a] && '`' !in code;
    SplitAround(s, a, b);
    StripCodeSpan(s[..a], code, s[a + b + 2..]);
  }

  /** A code span contributes nothing to the measured text. */
  lemma StripCodeSpan(prose: string, code: string, rest: string)
    requires '`' !in prose && '`' !in code
    ensures StripCode(prose + "`" + code + "`" + rest) == prose + StripCode(rest)
  {
    var s := prose + "`" + code + "`" + rest;
    IndexOfFirst(s, '`', |prose|);
    var t := s[|prose| + 1..];
    assert t == code + "`" + rest;
    IndexOfFirst(t, '`', |code|);
    assert s[..|prose|] == prose;
    assert s[|prose| + |code| + 2..] == rest;
  }

  /** A lone backtick opens no span: the text around it is kept as it is. */
  lemma StripCodeLone(prose: string, rest: string)
    requires '`' !in prose && '`' !in rest
    ensures StripCode(prose + "`" + rest) == prose + "`" + rest
  {
    var s := prose + "`" + rest;
    IndexOfFirst(s, '`', |prose|);
    assert s[|prose| + 1..] == rest;
  }

  // ----- TRAILING_SPACE_PAT: [ \t]+$ -----

  /** `TRAILING_SPACE_PAT.search(line)` on a line without '\n': the line
      ends in a space or a tab. */
  predicate HasTrailingBlank(line: string) {
    |line| > 0 && (line[|line| - 1] == ' ' || line[|line| - 1] == '\t')
  }

  /** From `j` to the end the line is a non-empty run of spaces and tabs:
      where a match of `[ \t]+$` can start. */
  predicate BlankRunFrom(line: string, j: nat) {
    j < |line| && forall k :: j <= k < |line| ==> line[k] == ' ' || line[k] == '\t'
  }

  /** The search succeeds exactly when some match start exists. */
  lemma TrailingBlankSearch(line: string)
    ensures HasTrailingBlank(line) <==> exists j :: BlankRunFrom(line, j)
  {
    if HasTrailingBlank(line) {
      assert BlankRunFrom(line, |line| - 1);
    }
  }

  /** Spaces and tabs appended to a line give it a trailing blank, and only
      they or the line's own end can. */
  lemma TrailingBlankOf(body: string, pad: string)
    requires forall k :: 0 <= k < |pad| ==> pad[k] == ' ' || pad[k] == '\t'
    ensures HasTrailingBlank(body + pad) <==> pad != [] || HasTrailingBlank(body)
  {
    if pad == [] {
      assert body + pad == body;
    }
  }

  // ----- LIST_MARKER_PAT: ^(\s*)([-+*]|\d+\.)\s+ -----

  /** Length of the leading run of ASCII digits. */
  function DigitRun(s: string): (n: nat)
    ensures n <= |s|
    ensures forall k :: 0 <= k < n ==> IsAsciiDigit(s[k])
    ensures n < |s| ==> !IsAsciiDigit(s[n])
  {
    if s == [] || !IsAsciiDigit(s[0]) then 0 else 1 + DigitRun(s[1..])
  }

  /** The digit run ends at the first non-digit. */
  lemma {:induction false} DigitRunStops(s: string, j: nat)
    requires j < |s| && !IsAsciiDigit(s[j])
    requires forall i :: 0 <= i < j ==> IsAsciiDigit(s[i])
    ensures DigitRun(s) == j
  {
    if j > 0 {
      DigitRunStops(s[1..], j - 1);
    }
  }

  /** Length of a bullet ('-', '+', '*') or ordinal ("12.") marker at the
      start of `s`, or 0 when there is none. */
  function MarkerLength(s: string): nat {
    if |s| > 0 && (s[0] == '-' || s[0] == '+' || s[0] == '*') then 1
    else
      var d := DigitRun(s);
      if 0 < d < |s| && s[d] == '.' then d + 1 else 0
  }

  /** A list marker as the pattern spells it: a bullet, or one or more
      ASCII digits and a '.'. */
  predicate IsListMarker(m: string) {
    || m == "-" || m == "+" || m == "*"
    || (|m| >= 2 && m[|m| - 1] == '.' && forall k :: 0 <= k < |m| - 1 ==> IsAsciiDigit(m[k]))
  }

  /** A list marker starts at `n` and whitespace follows it. */
  predicate ListItemAt(line: string, n: nat) {
    exists k :: n < k < |line| && IsListMarker(line[n..k]) && IsSpace(line[k])
  }

  /** The indentation group of a list-item line, when the line is one: a
      marker after the leading whitespace and at least one whitespace after
      the marker. */
  function ListIndent(line: string): (r: Option<string>)
    ensures r.Some? ==> r.value <= line && IsBlank(r.value) && ListItemAt(line, |r.value|)
  {
    var n := LeadingSpace(line);
    var rest := line[n..];
    var m := MarkerLength(rest);
    if 0 < m < |rest| && IsSpace(rest[m]) then
      assert line[n..n + m] == rest[..m];
      assert IsListMarker(line[n..n + m]);
      Some(line[..n])
    else None
  }

  /** Every list item is recognised, with its leading whitespace as the
      indentation; with `ListIndent`'s own contract this makes the match
      exact. */
  lemma ListIndentComplete(line: string, n: nat, k: nat)
    requires n < k < |line| && IsBlank(line[..n])
    requires IsListMarker(line[n..k]) && IsSpace(line[k])
    ensures ListIndent(line) == Some(line[..n])
  {
    assert line == line[..n] + line[n..];
    LeadingSpaceOf(line[..n], line[n..]);
    var rest := line[n..];
    assert rest[..k - n] == line[n..k];
    MarkerLengthOf(rest, k - n);
  }

  /** A marker at the start of `s` is measured exactly. */
  lemma MarkerLengthOf(s: string, m: nat)
    requires 0 < m < |s| && IsListMarker(s[..m])
    ensures MarkerLength(s) == m
  {
    if s[0] != '-' && s[0] != '+' && s[0] != '*' {
      assert s[..m][0] == s[0];
      assert s[m - 1] == s[..m][m - 1];
      forall i | 0 <= i < m - 1
        ensures IsAsciiDigit(s[i])
      {
        assert s[i] == s[..m][i];
      }
      DigitRunStops(s, m - 1);
    }
  }

  /** Writing an indented bullet item and recognising it gives back the indentation. */
  lemma ListRoundTrip(indent: string, bullet: char, gap: char, item: string)
    requires IsBlank(indent) && IsSpace(gap)
    requires bullet == '-' || bullet == '+' || bullet == '*'
    ensures ListIndent(indent + [bullet, gap] + item) == Some(indent)
  {
    var line := indent + [bullet, gap] + item;
    assert line[..|indent|] == indent;
    assert line[|indent|..|indent| + 1] == [bullet];
    ListIndentComplete(line, |indent|, |indent| + 1);
  }

  /** The same for an ordinal item such as "12. text". */
  lemma OrdinalRoundTrip(indent: string, digits: string, gap: char, item: string)
    requires IsBlank(indent) && IsSpace(gap) && |digits| > 0
    requires forall k :: 0 <= k < |digits| ==> IsAsciiDigit(digits[k])
    ensures ListIndent(indent + digits + "." + [gap] + item) == Some(indent)
  {
    var line := indent + digits + "." + [gap] + item;
    var n := |indent|;
    var k := n + |digits| + 1;
    assert line[..n] == indent;
    assert line[n..k] == digits + ".";
    ListIndentComplete(line, n, k);
  }

  // ----- TABLE_LINE_PAT: ^\s*\|.*\|\s*$ -----

  /** The stripped line starts and ends with '|' (two distinct pipes). */
  predicate IsTableRow(line: string) {
    var t := Strip(line);
    |t| >= 2 && t[0] == '|' && t[|t| - 1] == '|'
  }

  /** `line.count("|")`. */
  function PipeCount(line: string): nat {
    Count(line, '|')
  }

  /** Every table row has at least two pipes. */
  lemma TableRowPipes(line: string)
    requires IsTableRow(line)
    ensures PipeCount(line) >= 2
  {
    var a := LeadingSpace(line);
    var t := line[a..];
    var b := a + |t| - TrailingSpace(t);
    assert Strip(line) == line[a..b];
    CountEnds(line[a..b], '|');
    CountSlice(line, a, b, '|');
  }

  /** A pipe-delimited row, whatever its padding and cells, is a table row. */
  lemma TableRowRoundTrip(pad: string, cells: string, tail: string)
    requires IsBlank(pad) && IsBlank(tail)
    ensures IsTableRow(pad + "|" + cells + "|" + tail)
  {
    var line := pad + "|" + cells + "|" + tail;
    var body := "|" + cells + "|";
    assert line == pad + (body + tail);
    LeadingSpaceOf(pad, body + tail);
    var t := line[|pad|..];
    assert t == body + tail;
    TrailingSpaceOf(body, tail);
    assert t[..|t| - |tail|] == body;
  }

  // ----- whole-text tests -----

  /** `CRLF_PAT.search(raw)`. */
  predicate ContainsCrlf(raw: string) {
    exists k :: 0 <= k < |raw| - 1 && raw[k] == '\r' && raw[k + 1] == '\n'
  }

  /** `raw.endswith("\n")`. */
  predicate EndsWithNewline(raw: string) {
    |raw| > 0 && raw[|raw| - 1] == '\n'
  }

  // ----- raw.splitlines() -----

  /** One '\r' before the line break belongs to the break, not the line. */
  function DropCr(s: string): string {
    if |s| > 0 && s[|s| - 1] == '\r' then s[..|s| - 1] else s
  }

  /** The document's lines: split on '\n', no line after a final '\n', and a
      "\r\n" break counted as one. */
  function SplitLines(raw: string): (lines: seq<string>)
    ensures forall k :: 0 <= k < |lines| ==> '\n' !in lines[k]
    ensures raw == [] <==> lines == []
    decreases |raw|
  {
    match IndexOf(raw, '\n')
    case None => if raw == [] then [] else [DropCr(raw)]
    case Some(k) =>
      assert '\n' !in raw[..k];
      [DropCr(raw[..k])] + SplitLines(raw[k + 1..])
  }

  /** The inverse of the split: every line followed by '\n'. */
  function JoinLines(lines: seq<string>): string {
    if lines == [] then [] else lines[0] + "\n" + JoinLines(lines[1..])
  }

  /** A line without '\n' and its break come off the front of the split. */
  lemma SplitFirst(l: string, rest: string)
    requires '\n' !in l
    ensures SplitLines(l + "\n" + rest) == [DropCr(l)] + SplitLines(rest)
  {
    var raw := l + "\n" + rest;
    assert forall j :: 0 <= j < |l| ==> raw[j] == l[j];
    IndexOfFirst(raw, '\n', |l|);
    assert raw[..|l|] == l;
    assert raw[|l| + 1..] == rest;
  }

  /** A line the split can give back: no '\n' in it and no '\r' at its end. */
  predicate PlainLine(l: string) {
    '\n' !in l && DropCr(l) == l
  }

  /** Splitting a '\n'-terminated text gives back its lines (so long as no
      line ends in '\r', which the split would take for half of a break). */
  lemma {:induction false} SplitJoin(lines: seq<string>)
    requires forall k :: 0 <= k < |lines| ==> PlainLine(lines[k])
    ensures SplitLines(JoinLines(lines)) == lines
  {
    if lines != [] {
      var tail := lines[1..];
      forall k | 0 <= k < |tail|
        ensures PlainLine(tail[k])
      {
        assert tail[k] == lines[k + 1];
      }
      SplitJoin(tail);
      assert PlainLine(lines[0]);
      SplitFirst(lines[0], JoinLines(tail));
      assert lines == [lines[0]] + tail;
    }
  }

  /** A text whose last line has no '\n' after it still splits into all its
      lines. */
  lemma {:induction false} SplitLast(lines: seq<string>, last: string)
    requires forall k :: 0 <= k < |lines| ==> PlainLine(lines[k])
    requires PlainLine(last) && last != []
    ensures SplitLines(JoinLines(lines) + last) == lines + [last]
  {
    if lines == [] {
      assert JoinLines(lines) + last == last;
      assert IndexOf(last, '\n').None?;
    } else {
      var tail := lines[1..];
      forall k | 0 <= k < |tail|
        ensures PlainLine(tail[k])
      {
        assert tail[k] == lines[k + 1];
      }
      SplitLast(tail, last);
      assert PlainLine(lines[0]);
      assert lines == [lines[0]] + tail;
      JoinLinesCons(lines[0], tail, last);
      SplitPlainFirst(lines[0], JoinLines(tail) + last);
      assert [lines[0]] + (tail + [last]) == lines + [last];
    }
  }

  /** A plain first line splits off unchanged. */
  lemma SplitPlainFirst(first: string, rest: string)
    requires PlainLine(first)
    ensures SplitLines(first + "\n" + rest) == [first] + SplitLines(rest)
  {
    SplitFirst(first, rest);
  }

  lemma JoinLinesCons(first: string, tail: seq<string>, last: string)
    ensures JoinLines([first] + tail) + last == first + "\n" + (JoinLines(tail) + last)
  {
    assert ([first] + tail)[1..] == tail;
  }

  /** A final '\n' added to a text that lacks one adds no line. */
  lemma {:induction false} SplitAppendNewline(raw: string)
    requires raw != [] && raw[|raw| - 1] != '\n'
    ensures SplitLines(raw + "\n") == SplitLines(raw)
    decreases |raw|
  {
    var t := raw + "\n";
    match IndexOf(raw, '\n')
    case None =>
      IndexOfFirst(t, '\n', |raw|);
      assert t[..|raw|] == raw;
      assert t[|raw| + 1..] == [];
    case Some(k) =>
      IndexOfFirst(t, '\n', k);
      assert t[..k] == raw[..k];
      assert t[k + 1..] == raw[k + 1..] + "\n";
      SplitAppendNewline(raw[k + 1..]);
  }

  /** A final '\n' after anything but '\r' creates no "\r\n". */
  lemma CrlfAppendNewline(raw: string)
    requires raw == [] || raw[|raw| - 1] != '\r'
    ensures ContainsCrlf(raw + "\n") == ContainsCrlf(raw)
  {
    var t := raw + "\n";
    if ContainsCrlf(t) {
      var k :| 0 <= k < |t| - 1 && t[k] == '\r' && t[k + 1] == '\n';
      assert k < |raw| - 1 && raw[k] == '\r' && raw[k + 1] == '\n';
    }
    if ContainsCrlf(raw) {
      var k :| 0 <= k < |raw| - 1 && raw[k] == '\r' && raw[k + 1] == '\n';
      assert t[k] == '\r' && t[k + 1] == '\n';
    }
  }

  /** A final '\n' after a '\r' completes a "\r\n". */
  lemma CrlfAfterCr(raw: string)
    requires raw != [] && raw[|raw| - 1] == '\r'
    ensures ContainsCrlf(raw + "\n")
  {
    var t := raw + "\n";
    assert t[|raw| - 1] == '\r' && t[|raw|] == '\n';
  }

  /** The text with every line followed by a "\r\n" break. */
  function JoinCrlf(lines: seq<string>): string {
    if lines == [] then [] else lines[0] + "\r\n" + JoinCrlf(lines[1..])
  }

  /** "\r\n" breaks split like '\n' breaks: the '\r' goes with the break. */
  lemma {:induction false} SplitJoinCrlf(lines: seq<string>)
    requires forall k :: 0 <= k < |lines| ==> '\n' !in lines[k]
    ensures SplitLines(JoinCrlf(lines)) == lines
  {
    if lines != [] {
      var tail := lines[1..];
      forall k | 0 <= k < |tail|
        ensures '\n' !in tail[k]
      {
        assert tail[k] == lines[k + 1];
      }
      SplitJoinCrlf(tail);
      assert '\n' !in lines[0];
      SplitCrlfStep(lines);
    }
  }

  lemma SplitCrlfStep(lines: seq<string>)
    requires lines != [] && '\n' !in lines[0]
    requires SplitLines(JoinCrlf(lines[1..])) == lines[1..]
    ensures SplitLines(JoinCrlf(lines)) == lines
  {
    var l := lines[0] + "\r";
    var tail := lines[1..];
    assert '\n' !in l;
    assert JoinCrlf(lines) == l + "\n" + JoinCrlf(tail);
    SplitFirst(l, JoinCrlf(tail));
    assert DropCr(l) == lines[0];
    assert lines == [lines[0]] + tail;
  }

  /** A non-empty text with "\r\n" breaks contains one. */
  lemma CrlfJoinDetected(lines: seq<string>)
    requires lines != []
    ensures ContainsCrlf(JoinCrlf(lines))
  {
    var raw := JoinCrlf(lines);
    var k := |lines[0]|;
    assert raw == lines[0] + "\r\n" + JoinCrlf(lines[1..]);
    assert raw[k] == '\r' && raw[k + 1] == '\n';
  }

  /** With '\n' breaks and no '\r' in any line there is no "\r\n". */
  lemma {:induction false} NoCrJoin(lines: seq<string>)
    requires forall k :: 0 <= k < |lines| ==> '\r' !in lines[k]
    ensures '\r' !in JoinLines(lines)
    ensures !ContainsCrlf(JoinLines(lines))
  {
    if lines != [] {
      var tail := lines[1..];
      forall k | 0 <= k < |tail|
        ensures '\r' !in tail[k]
      {
        assert tail[k] == lines[k + 1];
      }
      NoCrJoin(tail);
      assert '\r' !in lines[0];
      assert JoinLines(lines) == lines[0] + "\n" + JoinLines(tail);
    }
  }

  /** A joined non-empty text ends in a line break, whichever break is used. */
  lemma {:induction false} JoinEndsWithNewline(lines: seq<string>)
    requires lines != []
    ensures EndsWithNewline(JoinLines(lines))
    ensures EndsWithNewline(JoinCrlf(lines))
  {
    var tail := lines[1..];
    if tail == [] {
      assert JoinLines(lines) == lines[0] + "\n";
      assert JoinCrlf(lines) == lines[0] + "\r\n";
    } else {
      JoinEndsWithNewline(tail);
      assert JoinLines(lines) == lines[0] + "\n" + JoinLines(tail);
      assert JoinCrlf(lines) == lines[0] + "\r\n" + JoinCrlf(tail);
    }
  }

  /** A text whose last line has no break after it does not end in one. */
  lemma NoFinalNewline(lines: seq<string>, last: string)
    requires last != [] && '\n' !in last
    ensures !EndsWithNewline(JoinLines(lines) + last)
  {
    assert (JoinLines(lines) + last)[|JoinLines(lines) + last| - 1] == last[|last| - 1];
  }
}
