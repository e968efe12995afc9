/** The handful of Python `str` operations the two scripts rely on, on
    `string` = `seq<char>`: single-character `replace`, `replace(a, b, 1)`,
    `split(c, 1)`, `split(c)`, `startswith` and `strip()`. */
module Text {

  /** Position of the first `c` in `s`, or `|s|` when `s` has none. */
  function FirstIndex(s: string, c: char): (i: nat)
    ensures i <= |s|
    ensures c !in s[..i]
    ensures i < |s| ==> s[i] == c
    ensures i == |s| <==> c !in s
  {
    if s == [] then 0
    else if s[0] == c then 0
    else
      var j := FirstIndex(s[1..], c);
      assert s[..1 + j] == [s[0]] + s[1..][..j];
      1 + j
  }

  /** The first `c` is the one with no `c` before it. */
  lemma FirstIndexAt(s: string, c: char, j: nat)
    requires j < |s| && s[j] == c
    requires forall k :: 0 <= k < j ==> s[k] != c
    ensures FirstIndex(s, c) == j
  {
    var i := FirstIndex(s, c);
    assert forall k :: 0 <= k < i ==> s[..i][k] == s[k];
  }

  /** Where the first `c` of a text that has one is. */
  lemma FirstOccurrence(s: string, c: char) returns (i: nat)
    requires c in s
    ensures i < |s| && s[i] == c && c !in s[..i]
  {
    i := FirstIndex(s, c);
  }

  /** Concatenation is associative (stated once, so that proofs can name it). */
  lemma ConcatAssoc<T>(p: seq<T>, q: seq<T>, r: seq<T>)
    ensures p + (q + r) == (p + q) + r
  {
  }

  /** A text is its part before position `i`, the character there, and its part after. */
  lemma CutAt(s: string, i: nat)
    requires i < |s|
    ensures s == s[..i] + [s[i]] + s[i + 1..]
  {
  }

  /** A prefix of a suffix is a middle slice. */
  lemma SliceOfSuffix(s: string, i: nat, n: nat)
    requires i + n <= |s|
    ensures s[i..][..n] == s[i..i + n]
  {
  }

  /** Position of the last `c` in `s`, or -1 when `s` has none (`str.rfind`). */
  function LastIndex(s: string, c: char): (i: int)
    ensures -1 <= i < |s|
    ensures c !in s[i + 1..]
    ensures 0 <= i ==> s[i] == c
    ensures i == -1 <==> c !in s
  {
    if s == [] then -1
    else if s[|s| - 1] == c then |s| - 1
    else
      var j := LastIndex(s[..|s| - 1], c);
      assert s[j + 1..] == s[..|s| - 1][j + 1..] + [s[|s| - 1]];
      j
  }

  /** `s.replace(a, b)` for single characters: every `a` becomes `b`. */
  function ReplaceAll(s: string, a: char, b: char): (r: string)
    ensures |r| == |s|
    ensures forall k :: 0 <= k < |s| ==> r[k] == (if s[k] == a then b else s[k])
  {
    if s == [] then [] else [if s[0] == a then b else s[0]] + ReplaceAll(s[1..], a, b)
  }

  /** `s.replace(a, b, 1)`: only the first `a`, the one with no `a` before it,
      becomes `b`; every other character is kept. */
  function ReplaceFirst(s: string, a: char, b: char): (r: string)
    ensures |r| == |s|
    ensures forall k :: 0 <= k < |s| ==> r[k] == (if s[k] == a && a !in s[..k] then b else s[k])
  {
    var i := FirstIndex(s, a);
    if i == |s| then s
    else
      var r := s[..i] + [b] + s[i + 1..];
      assert forall k :: i < k < |s| ==> s[i] in s[..k];
      r
  }

  /** `s.split(c, 1)`: one part when `s` has no `c`, otherwise the text before
      the first `c` and everything after it. */
  function SplitOnce(s: string, c: char): (parts: seq<string>)
    ensures |parts| == (if c in s then 2 else 1)
    ensures c !in parts[0]
    ensures |parts| == 1 ==> parts[0] == s
    ensures |parts| == 2 ==> s == parts[0] + [c] + parts[1]
    ensures |parts| == 2 ==> parts[0] == s[..FirstIndex(s, c)]
  {
    var i := FirstIndex(s, c);
    if i == |s| then [s]
    else
      assert s == s[..i] + [c] + s[i + 1..];
      [s[..i], s[i + 1..]]
  }

  /** Joins `parts` with `c` between neighbours (`c.join(parts)`). */
  function Join(parts: seq<string>, c: char): string
    requires |parts| >= 1
  {
    if |parts| == 1 then parts[0] else parts[0] + [c] + Join(parts[1..], c)
  }

  /** `s.split(c)`: the `c`-free pieces of `s`, in order; an empty `s` gives
      one empty piece, as in Python. */
  function Split(s: string, c: char): (parts: seq<string>)
    ensures |parts| >= 1
    ensures forall k :: 0 <= k < |parts| ==> c !in parts[k]
    decreases |s|
  {
    var i := FirstIndex(s, c);
    if i == |s| then [s] else [s[..i]] + Split(s[i + 1..], c)
  }

  /** The first piece ends at the first `c`; the rest is split on its own. */
  lemma SplitFirst(s: string, c: char, i: nat)
    requires i < |s| && s[i] == c && c !in s[..i]
    ensures Split(s, c) == [s[..i]] + Split(s[i + 1..], c)
  {
    assert forall k :: 0 <= k < i ==> s[..i][k] == s[k];
    FirstIndexAt(s, c, i);
  }

  /** A text without `c` is one piece. */
  lemma SplitNone(s: string, c: char)
    requires c !in s
    ensures Split(s, c) == [s]
  {
  }

  /** Joining a first piece in front of more pieces puts one `c` between them. */
  lemma JoinCons(x: string, rest: seq<string>, c: char)
    requires |rest| >= 1
    ensures Join([x] + rest, c) == x + [c] + Join(rest, c)
  {
    assert ([x] + rest)[1..] == rest;
  }

  /** Joining the pieces with `c` gives back the text: nothing is lost. */
  lemma {:induction false} JoinSplit(s: string, c: char)
    ensures Join(Split(s, c), c) == s
    decreases |s|
  {
    if c in s {
      var i := FirstOccurrence(s, c);
      var tail := s[i + 1..];
      JoinSplit(tail, c);
      calc {
        Join(Split(s, c), c);
      == { SplitFirst(s, c, i); }
        Join([s[..i]] + Split(tail, c), c);
      == { JoinCons(s[..i], Split(tail, c), c); }
        s[..i] + [c] + Join(Split(tail, c), c);
      ==
        s[..i] + [c] + tail;
      == { CutAt(s, i); }
        s;
      }
    }
  }

  /** Python's `str.isspace` for one character: the characters `str.strip()`
      removes when it is given no argument. */
  predicate IsSpace(ch: char) {
    || '\t' <= ch <= '\r'
    || '\U{1C}' <= ch <= ' '
    || ch == '\U{85}' || ch == '\U{A0}' || ch == '\U{1680}'
    || '\U{2000}' <= ch <= '\U{200A}'
    || ch == '\U{2028}' || ch == '\U{2029}' || ch == '\U{202F}'
    || ch == '\U{205F}' || ch == '\U{3000}'
  }

  /** `s.lstrip()`: `s` without its leading whitespace. */
  function TrimLeft(s: string): (r: string)
    ensures |r| <= |s|
    ensures r == s[|s| - |r|..]
    ensures r == [] || !IsSpace(r[0])
    ensures forall k :: 0 <= k < |s| - |r| ==> IsSpace(s[k])
  {
    if s != [] && IsSpace(s[0]) then TrimLeft(s[1..]) else s
  }

  /** `s.rstrip()`: `s` without its trailing whitespace. */
  function TrimRight(s: string): (r: string)
    ensures |r| <= |s|
    ensures r == s[..|r|]
    ensures r == [] || !IsSpace(r[|r| - 1])
    ensures forall k :: |r| <= k < |s| ==> IsSpace(s[k])
  {
    if s != [] && IsSpace(s[|s| - 1]) then TrimRight(s[..|s| - 1]) else s
  }

  /** `l` is `s` without its leading run of `P`-characters, and `r` is `l`
      without its trailing run: what `TrimLeft` and then `TrimRight` promise,
      for any character class. */
  predicate TrimmedBy(s: string, l: string, r: string, P: char -> bool) {
    && |l| <= |s| && l == s[|s| - |l|..] && (l == [] || !P(l[0]))
    && (forall k :: 0 <= k < |s| - |l| ==> P(s[k]))
    && |r| <= |l| && r == l[..|r|] && (r == [] || !P(r[|r| - 1]))
    && (forall k :: |r| <= k < |l| ==> P(l[k]))
  }

  /** Trimming both ends leaves clean ends, nothing of a text made only of
      `P`-characters, and all of a text whose ends are already clean. */
  lemma TrimEnds(s: string, l: string, r: string, P: char -> bool)
    requires TrimmedBy(s, l, r, P)
    ensures r == [] || (!P(r[0]) && !P(r[|r| - 1]))
    ensures (forall k :: 0 <= k < |s| ==> P(s[k])) ==> r == []
    ensures s == [] || (!P(s[0]) && !P(s[|s| - 1])) ==> r == s
  {
    assert r != [] ==> r[0] == l[0];
    assert l != [] ==> l[0] == s[|s| - |l|];
    if s != [] && !P(s[0]) && !P(s[|s| - 1]) {
      assert |s| - |l| == 0;
      assert l == s;
      assert |r| == |l|;
    }
  }

  /** `TrimLeft` and then `TrimRight` trim whitespace in the sense above. */
  lemma SpaceTrimmed(s: string)
    ensures TrimmedBy(s, TrimLeft(s), TrimRight(TrimLeft(s)), IsSpace)
  {
    var l := TrimLeft(s);
    var r := TrimRight(l);
    assert forall k :: 0 <= k < |s| - |l| ==> IsSpace(s[k]);
    assert forall k :: |r| <= k < |l| ==> IsSpace(l[k]);
  }

  /** `s.strip()`: the one piece of `s` that has clean ends and only
      whitespace before and after it. */
  function Strip(s: string): (r: string)
    ensures |r| <= |s|
    ensures IsStripOf(s, r, IsSpace)
    ensures (forall k :: 0 <= k < |s| ==> IsSpace(s[k])) ==> r == []
    ensures s == [] || (!IsSpace(s[0]) && !IsSpace(s[|s| - 1])) ==> r == s
  {
    SpaceTrimmed(s);
    TrimEnds(s, TrimLeft(s), TrimRight(TrimLeft(s)), IsSpace);
    MiddlePiece(s, TrimLeft(s), TrimRight(TrimLeft(s)), IsSpace);
    TrimRight(TrimLeft(s))
  }

  /** `r` sits in `s` at position `i`, with only `P`-characters before and after it. */
  predicate IsWindow(s: string, i: int, r: string, P: char -> bool) {
    && 0 <= i <= |s| - |r| && r == s[i..i + |r|]
    && (forall k :: 0 <= k < i ==> P(s[k]))
    && (forall k :: i + |r| <= k < |s| ==> P(s[k]))
  }

  /** `r` is a piece of `s` with only `P`-characters around it, and neither end
      of `r` is a `P`-character. */
  predicate IsStripOf(s: string, r: string, P: char -> bool) {
    && (r == [] || (!P(r[0]) && !P(r[|r| - 1])))
    && exists i :: 0 <= i <= |s| && IsWindow(s, i, r, P)
  }

  /** Cutting a suffix `l` off the front of `s` and a prefix `r` off `l` leaves
      `r` as one contiguous piece of `s`, with only `P`-characters around it. */
  lemma MiddlePiece(s: string, l: string, r: string, P: char -> bool)
    requires TrimmedBy(s, l, r, P)
    ensures IsWindow(s, |s| - |l|, r, P)
  {
    var i := |s| - |l|;
    SliceOfSuffix(s, i, |r|);
    forall k | i + |r| <= k < |s|
      ensures P(s[k])
    {
      assert s[k] == l[k - i];
    }
  }

  /** Two pieces of `s` with clean ends and only `P`-characters around them
      are the same piece. */
  lemma WindowUnique(s: string, r: string, q: string, P: char -> bool)
    requires IsStripOf(s, r, P) && IsStripOf(s, q, P)
    ensures r == q
  {
    var i :| 0 <= i <= |s| && IsWindow(s, i, r, P);
    var j :| 0 <= j <= |s| && IsWindow(s, j, q, P);
    if r != [] && q != [] {
      assert s[i] == r[0] && s[j] == q[0];
      assert i == j;
      assert s[i + |r| - 1] == r[|r| - 1] && s[j + |q| - 1] == q[|q| - 1];
      assert |r| == |q|;
    }
  }

  /** So `strip()` is the only piece of the text with clean ends and only
      whitespace around it. */
  lemma StripUnique(s: string, q: string)
    requires IsStripOf(s, q, IsSpace)
    ensures q == Strip(s)
  {
    WindowUnique(s, q, Strip(s), IsSpace);
  }
}
