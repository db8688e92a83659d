/** The handful of Python `str` operations the linter relies on, stated over
    `string` (a sequence of Unicode scalar values). */
module Text {
  import opened Wrappers

  /** Python's `str.isspace()`. The same set is the `\s` class of `re` on str
      patterns and the set of characters `str.strip()` removes. */
  predicate IsSpace(c: char) {
    var n := c as int;
    (9 <= n <= 13) || (0x1c <= n <= 0x20) || n == 0x85 || n == 0xa0 || n == 0x1680
    || (0x2000 <= n <= 0x200a) || n == 0x2028 || n == 0x2029 || n == 0x202f
    || n == 0x205f || n == 0x3000
  }

  /** `s.strip() == ""`: nothing but whitespace (the empty string included). */
  predicate IsBlank(s: string) {
    forall k :: 0 <= k < |s| ==> IsSpace(s[k])
  }

  predicate IsAsciiLetter(c: char) {
    'a' <= c <= 'z' || 'A' <= c <= 'Z'
  }

  predicate IsAsciiDigit(c: char) {
    '0' <= c <= '9'
  }

  function LowerChar(c: char): char {
    if 'A' <= c <= 'Z' then (c as int + 32) as char else c
  }

  /** `str.lower()` restricted to ASCII letters. */
  function Lower(s: string): (r: string)
    ensures |r| == |s|
    ensures forall k :: 0 <= k < |s| ==> r[k] == LowerChar(s[k])
  {
    seq(|s|, k requires 0 <= k < |s| => LowerChar(s[k]))
  }

  /** `s.count(x)`: the number of positions holding `x`. */
  function Count<T(==)>(s: seq<T>, x: T): nat
    ensures Count(s, x) <= |s|
  {
    if s == [] then 0 else (if s[0] == x then 1 else 0) + Count(s[1..], x)
  }

  lemma {:induction false} CountAppend<T>(a: seq<T>, b: seq<T>, x: T)
    ensures Count(a + b, x) == Count(a, x) + Count(b, x)
  {
    if a == [] {
      assert a + b == b;
    } else {
      assert (a + b)[1..] == a[1..] + b;
      CountAppend(a[1..], b, x);
    }
  }

  lemma {:induction false} CountAbsent<T>(s: seq<T>, x: T)
    ensures Count(s, x) == 0 <==> x !in s
  {
    if s != [] {
      CountAbsent(s[1..], x);
      assert x in s <==> s[0] == x || x in s[1..];
    }
  }

  /** Two occurrences of `x` around a stretch without it, after a prefix
      without it, add two to the count of what follows. */
  lemma CountPair<T>(head: seq<T>, mid: seq<T>, tail: seq<T>, x: T)
    requires x !in head && x !in mid
    ensures Count(head + [x] + mid + [x] + tail, x) == 2 + Count(tail, x)
  {
    CountAbsent(head, x);
    CountAbsent(mid, x);
    assert Count([x], x) == 1;
    CountAppend(head, [x], x);
    CountAppend(head + [x], mid, x);
    CountAppend(head + [x] + mid, [x], x);
    CountAppend(head + [x] + mid + [x], tail, x);
  }

  /** `s` cut around the two positions `a` and `a + b + 1`. */
  lemma SplitAround<T>(s: seq<T>, a: nat, b: nat)
    requires a + b + 1 < |s|
    ensures s == s[..a] + [s[a]] + s[a + 1..a + b + 1] + [s[a + b + 1]] + s[a + b + 2..]
  {
    assert s == s[..a] + s[a..a + b + 2] + s[a + b + 2..];
    assert s[a..a + b + 2] == [s[a]] + s[a + 1..a + b + 1] + [s[a + b + 1]];
  }

  /** A slice holds no more occurrences than the whole. */
  lemma CountSlice<T>(s: seq<T>, a: nat, b: nat, x: T)
    requires a <= b <= |s|
    ensures Count(s[a..b], x) <= Count(s, x)
  {
    assert s[..b] == s[..a] + s[a..b];
    assert s == s[..b] + s[b..];
    CountAppend(s[..b], s[b..], x);
    CountAppend(s[..a], s[a..b], x);
  }

  /** A sequence that starts and ends with `x` holds it at least twice. */
  lemma CountEnds<T>(s: seq<T>, x: T)
    requires |s| >= 2 && s[0] == x && s[|s| - 1] == x
    ensures Count(s, x) >= 2
  {
    assert s == [s[0]] + s[1..|s| - 1] + [s[|s| - 1]];
    CountAppend([s[0]] + s[1..|s| - 1], [s[|s| - 1]], x);
    CountAppend([s[0]], s[1..|s| - 1], x);
  }

  /** `n` copies of `c`. */
  function Repeat(c: char, n: nat): (r: string)
    ensures |r| == n
    ensures forall k :: 0 <= k < n ==> r[k] == c
  {
    seq(n, _ => c)
  }

  /** Length of the longest all-whitespace prefix of `s`. */
  function LeadingSpace(s: string): (n: nat)
    ensures n <= |s|
    ensures forall k :: 0 <= k < n ==> IsSpace(s[k])
    ensures n < |s| ==> !IsSpace(s[n])
  {
    if s == [] || !IsSpace(s[0]) then 0 else 1 + LeadingSpace(s[1..])
  }

  /** Length of the longest all-whitespace suffix of `s`. */
  function TrailingSpace(s: string): (n: nat)
    ensures n <= |s|
    ensures forall k :: |s| - n <= k < |s| ==> IsSpace(s[k])
    ensures n < |s| ==> !IsSpace(s[|s| - n - 1])
  {
    if s == [] || !IsSpace(s[|s| - 1]) then 0 else 1 + TrailingSpace(s[..|s| - 1])
  }

  /** `s.strip()`. */
  function Strip(s: string): (r: string)
    ensures |r| <= |s|
    ensures r == [] || (!IsSpace(r[0]) && !IsSpace(r[|r| - 1]))
  {
    var t := s[LeadingSpace(s)..];
    t[..|t| - TrailingSpace(t)]
  }

  /** `s.find(c)`: the first position of `c`, if any. */
  function IndexOf(s: string, c: char): (r: Option<nat>)
    ensures r.None? <==> c !in s
    ensures r.Some? ==> r.value < |s| && s[r.value] == c
    ensures r.Some? ==> forall k :: 0 <= k < r.value ==> s[k] != c
  {
    if s == [] then None
    else if s[0] == c then Some(0)
    else match IndexOf(s[1..], c)
      case None => None
      case Some(k) => Some(k + 1)
  }

  /** `s.rfind(c)`: the last position of `c`, if any. */
  function LastIndexOf(s: string, c: char): (r: Option<nat>)
    ensures r.None? <==> c !in s
    ensures r.Some? ==> r.value < |s| && s[r.value] == c
    ensures r.Some? ==> forall k :: r.value < k < |s| ==> s[k] != c
  {
    if s == [] then None
    else if s[|s| - 1] == c then Some(|s| - 1)
    else LastIndexOf(s[..|s| - 1], c)
  }

  /** `s.find(c, from)`: the first position at or after `from` holding `c`. */
  function IndexFrom(s: string, c: char, from: nat): (r: Option<nat>)
    ensures r.None? ==> forall k :: from <= k < |s| ==> s[k] != c
    ensures r.Some? ==> from <= r.value < |s| && s[r.value] == c
    ensures r.Some? ==> forall k :: from <= k < r.value ==> s[k] != c
    decreases |s| - from
  {
    if from >= |s| then None
    else if s[from] == c then Some(from)
    else IndexFrom(s, c, from + 1)
  }

  /** A position `k` holding `c` with no `c` before it is what `IndexOf` finds. */
  lemma IndexOfFirst(s: string, c: char, k: nat)
    requires k < |s| && s[k] == c
    requires forall j :: 0 <= j < k ==> s[j] != c
    ensures IndexOf(s, c) == Some(k)
  {
    assert c in s;
  }

  /** A position `k >= from` holding `c` with no `c` between is what `IndexFrom` finds. */
  lemma IndexFromFirst(s: string, c: char, from: nat, k: nat)
    requires from <= k < |s| && s[k] == c
    requires forall j :: from <= j < k ==> s[j] != c
    ensures IndexFrom(s, c, from) == Some(k)
  {
  }

  lemma SliceSplit(s: string, a: nat, b: nat, c: nat)
    requires a <= b <= c <= |s|
    ensures s[a..c] == s[a..b] + s[b..c]
  {
  }

  lemma ConcatSplit(a: string, b: string, c: string, d: string)
    requires a + b == c + d && |a| == |c|
    ensures a == c && b == d
  {
    assert a == (a + b)[..|a|];
    assert c == (c + d)[..|c|];
    assert b == (a + b)[|a|..];
    assert d == (c + d)[|c|..];
  }

  /** A blank run followed by a non-space is measured exactly. */
  lemma LeadingSpaceOf(w: string, rest: string)
    requires IsBlank(w)
    requires rest == [] || !IsSpace(rest[0])
    ensures LeadingSpace(w + rest) == |w|
  {
    var s := w + rest;
    assert forall k :: 0 <= k < |w| ==> s[k] == w[k];
    assert |w| < |s| ==> s[|w|] == rest[0];
  }

  lemma TrailingSpaceOf(rest: string, w: string)
    requires IsBlank(w)
    requires rest == [] || !IsSpace(rest[|rest| - 1])
    ensures TrailingSpace(rest + w) == |w|
  {
    var s := rest + w;
    assert forall k :: |rest| <= k < |s| ==> s[k] == w[k - |rest|];
    assert rest != [] ==> s[|rest| - 1] == rest[|rest| - 1];
  }
}
