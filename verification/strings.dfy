/** The few functions of Go's `strings` package (and `unicode.IsSpace`) that the
    import scanner relies on, on strings seen as sequences of code points. */
module GoStrings {

  predicate HasPrefix(s: string, prefix: string) {
    |prefix| <= |s| && s[..|prefix|] == prefix
  }

  predicate HasSuffix(s: string, suffix: string) {
    |suffix| <= |s| && s[|s| - |suffix|..] == suffix
  }

  /** `utf8.RuneLen`: the number of bytes UTF-8 spends on one code point. */
  function RuneLen(c: char): (n: nat)
    ensures 1 <= n <= 4
    ensures n == 1 <==> (c as int) < 0x80
  {
    if (c as int) < 0x80 then 1
    else if (c as int) < 0x800 then 2
    else if (c as int) < 0x1_0000 then 3
    else 4
  }

  /** Go's `len` of a string: the length in bytes of its UTF-8 encoding. It is
      1 exactly for a single ASCII character. */
  function Utf8Len(s: string): (n: nat)
    ensures |s| <= n <= 4 * |s|
    ensures n == 1 <==> |s| == 1 && (s[0] as int) < 0x80
  {
    if s == [] then 0 else RuneLen(s[0]) + Utf8Len(s[1..])
  }

  /** `strings.ReplaceAll(s, string(a), string(b))` for one-character arguments. */
  function ReplaceChar(s: string, a: char, b: char): (r: string)
    ensures |r| == |s|
    ensures forall i :: 0 <= i < |s| ==> r[i] == (if s[i] == a then b else s[i])
  {
    seq(|s|, i requires 0 <= i < |s| => if s[i] == a then b else s[i])
  }

  lemma ReplaceCharAppend(a: string, b: string, x: char, y: char)
    ensures ReplaceChar(a + b, x, y) == ReplaceChar(a, x, y) + ReplaceChar(b, x, y)
  {
  }

  lemma ReplaceCharAbsent(s: string, x: char, y: char)
    requires x !in s
    ensures ReplaceChar(s, x, y) == s
  {
  }

  /** Replacing `x` by `y` is undone by replacing `y` by `x` when `y` did not occur. */
  lemma ReplaceCharInverse(s: string, x: char, y: char)
    requires y !in s
    ensures ReplaceChar(ReplaceChar(s, x, y), y, x) == s
  {
  }

  /** `strings.LastIndex(s, string(c))`: -1 when `c` does not occur. */
  function LastIndex(s: string, c: char): (r: int)
    ensures -1 <= r < |s|
    ensures r == -1 <==> c !in s
    ensures r >= 0 ==> s[r] == c && c !in s[r + 1..]
  {
    if s == [] then -1
    else if s[|s| - 1] == c then |s| - 1
    else LastIndex(s[..|s| - 1], c)
  }

  /** `strings.Index(s, string(c))`: -1 when `c` does not occur. */
  function IndexOf(s: string, c: char): (r: int)
    ensures -1 <= r < |s|
    ensures r == -1 <==> c !in s
    ensures r >= 0 ==> s[r] == c && c !in s[..r]
  {
    if s == [] then -1
    else if s[0] == c then 0
    else var k := IndexOf(s[1..], c); if k == -1 then -1 else k + 1
  }

  /** `strings.Count(s, string(c))`: the number of occurrences of `c`. */
  function Count(s: string, c: char): nat {
    multiset(s)[c]
  }

  lemma CountAppend(a: string, b: string, c: char)
    ensures Count(a + b, c) == Count(a, c) + Count(b, c)
  {
    assert multiset(a + b) == multiset(a) + multiset(b);
  }

  lemma CountZero(s: string, c: char)
    ensures Count(s, c) == 0 <==> c !in s
  {
  }

  /** Replacing the text after a kept prefix by one with as many `c` keeps the count. */
  lemma CountKeepPrefix(s: string, n: int, out: string, c: char)
    requires 0 <= n <= |s| && Count(out, c) == Count(s[n..], c)
    ensures Count(s[..n] + out, c) == Count(s, c)
  {
    SplitAt(s, n);
    CountAppend(s[..n], s[n..], c);
    CountAppend(s[..n], out, c);
  }

  /** Dropping a prefix free of `c` and replacing the rest by a text with as many
      `c` keeps the count. */
  lemma CountDropPrefix(s: string, n: int, out: string, c: char)
    requires 0 <= n <= |s| && Count(s[..n], c) == 0 && Count(out, c) == Count(s[n..], c)
    ensures Count(out, c) == Count(s, c)
  {
    SplitAt(s, n);
    CountAppend(s[..n], s[n..], c);
  }

  /** A non-empty text is its first character followed by the rest. */
  lemma ConsSplit(a: string, b: string)
    requires a != []
    ensures a + b == [a[0]] + (a[1..] + b)
  {
  }

  lemma ConsTail<T>(x: T, rest: seq<T>)
    ensures ([x] + rest)[0] == x && ([x] + rest)[1..] == rest
  {
  }

  lemma SplitAround(s: string, i: int)
    requires 0 <= i < |s|
    ensures s == s[..i] + [s[i]] + s[i + 1..]
  {
  }

  lemma SplitAt(s: string, n: int)
    requires 0 <= n <= |s|
    ensures s == s[..n] + s[n..]
  {
  }

  /** Concatenation of `parts` with `sep` between consecutive parts. */
  function JoinWith(parts: seq<string>, sep: char): string
    requires |parts| >= 1
  {
    if |parts| == 1 then parts[0] else parts[0] + [sep] + JoinWith(parts[1..], sep)
  }

  lemma CountAtFirst(s: string, i: int, c: char)
    requires 0 <= i < |s| && s[i] == c && c !in s[..i]
    ensures Count(s, c) == Count(s[i + 1..], c) + 1
  {
    var tail := [c] + s[i + 1..];
    assert s == s[..i] + tail;
    CountAppend(s[..i], tail, c);
    CountZero(s[..i], c);
    assert tail[0] == c && tail[1..] == s[i + 1..];
  }

  /** `strings.Split(s, string(sep))`: there is always at least one part
      (an empty `s` gives one empty part), and one more part than separators. */
  function Split(s: string, sep: char): (parts: seq<string>)
    ensures |parts| == Count(s, sep) + 1
    ensures forall i :: 0 <= i < |parts| ==> sep !in parts[i]
    ensures JoinWith(parts, sep) == s
    decreases |s|
  {
    var i := IndexOf(s, sep);
    if i == -1 then
      CountZero(s, sep);
      [s]
    else
      var rest := Split(s[i + 1..], sep);
      SplitStep(s, sep, i, rest);
      [s[..i]] + rest
  }

  /** The first part, up to the first separator, followed by the parts of the
      rest, are the parts of the whole. */
  lemma SplitStep(s: string, sep: char, i: int, rest: seq<string>)
    requires 0 <= i < |s| && s[i] == sep && sep !in s[..i]
    requires |rest| == Count(s[i + 1..], sep) + 1
    requires forall j :: 0 <= j < |rest| ==> sep !in rest[j]
    requires JoinWith(rest, sep) == s[i + 1..]
    ensures |[s[..i]] + rest| == Count(s, sep) + 1
    ensures forall j :: 0 <= j < |[s[..i]] + rest| ==> sep !in ([s[..i]] + rest)[j]
    ensures JoinWith([s[..i]] + rest, sep) == s
  {
    CountAtFirst(s, i, sep);
    var parts := [s[..i]] + rest;
    ConsTail(s[..i], rest);
    assert forall j :: 1 <= j < |parts| ==> parts[j] == rest[j - 1];
    assert JoinWith(parts, sep) == s[..i] + [sep] + JoinWith(rest, sep);
    SplitAround(s, i);
  }

  /** In `p`, the separator, then `tail`, with no separator in `p`, the first
      separator is the one after `p`. */
  lemma FirstSeparator(p: string, sep: char, tail: string)
    requires sep !in p
    ensures IndexOf(p + [sep] + tail, sep) == |p|
    ensures (p + [sep] + tail)[..|p|] == p
    ensures (p + [sep] + tail)[|p| + 1..] == tail
  {
    var s := p + [sep] + tail;
    assert s[|p|] == sep;
    assert s[..|p|] == p;
  }

  /** Splitting undoes joining when no part holds the separator. */
  lemma {:induction false} SplitJoin(parts: seq<string>, sep: char)
    requires |parts| >= 1
    requires forall i :: 0 <= i < |parts| ==> sep !in parts[i]
    ensures Split(JoinWith(parts, sep), sep) == parts
    decreases |parts|
  {
    if |parts| == 1 {
      assert IndexOf(parts[0], sep) == -1;
    } else {
      var p, tail := parts[0], JoinWith(parts[1..], sep);
      FirstSeparator(p, sep, tail);
      SplitJoin(parts[1..], sep);
      ConsTail(p, parts[1..]);
      assert Split(p + [sep] + tail, sep) == [p] + parts[1..];
    }
  }

  /** `strings.TrimLeftFunc(s, cut)`. */
  function TrimLeftFunc(s: string, cut: char -> bool): (r: string)
    ensures |r| <= |s| && r == s[|s| - |r|..]
    ensures forall i :: 0 <= i < |s| - |r| ==> cut(s[i])
    ensures r != [] ==> !cut(r[0])
  {
    if s != [] && cut(s[0]) then TrimLeftFunc(s[1..], cut) else s
  }

  /** `strings.TrimRightFunc(s, cut)`. */
  function TrimRightFunc(s: string, cut: char -> bool): (r: string)
    ensures |r| <= |s| && r == s[..|r|]
    ensures forall i :: |r| <= i < |s| ==> cut(s[i])
    ensures r != [] ==> !cut(r[|r| - 1])
  {
    if s != [] && cut(s[|s| - 1]) then TrimRightFunc(s[..|s| - 1], cut) else s
  }

  /** `r` sits at offset `i` of `s`, and everything of `s` around it satisfies `cut`. */
  ghost predicate FramedBy(s: string, r: string, i: int, cut: char -> bool) {
    && 0 <= i <= |s| - |r|
    && s[i..i + |r|] == r
    && (forall j :: 0 <= j < i ==> cut(s[j]))
    && (forall j :: i + |r| <= j < |s| ==> cut(s[j]))
  }

  /** A suffix of `s` cut on the left, then a prefix of that cut on the right,
      is framed in `s` by cut characters. */
  lemma Framed(s: string, left: string, r: string, cut: char -> bool)
    requires |left| <= |s| && left == s[|s| - |left|..]
    requires forall i :: 0 <= i < |s| - |left| ==> cut(s[i])
    requires |r| <= |left| && r == left[..|r|]
    requires forall i :: |r| <= i < |left| ==> cut(left[i])
    ensures FramedBy(s, r, |s| - |left|, cut)
  {
    var i := |s| - |left|;
    assert s[i..i + |r|] == r;
    assert forall j :: i + |r| <= j < |s| ==> s[j] == left[j - i];
  }

  /** `strings.TrimFunc(s, cut)`: removes every leading and trailing character
      satisfying `cut`; the result is a contiguous piece of `s`, framed by such
      characters only, and neither starts nor ends with one. */
  function TrimFunc(s: string, cut: char -> bool): (r: string)
    ensures exists i :: FramedBy(s, r, i, cut)
    ensures r != [] ==> !cut(r[0]) && !cut(r[|r| - 1])
  {
    var left := TrimLeftFunc(s, cut);
    var r := TrimRightFunc(left, cut);
    Framed(s, left, r, cut);
    r
  }

  /** `strings.Trim(s, cutset)`: the piece of `s` left when every leading and
      trailing character of the cutset is removed. */
  function Trim(s: string, cutset: string): (r: string)
    ensures r != [] ==> r[0] !in cutset && r[|r| - 1] !in cutset
    ensures forall i :: 0 <= i < |s| && s[i] !in cutset ==> r != []
  {
    TrimFunc(s, c => c in cutset)
  }

  /** Membership in a cutset, as a predicate on characters. */
  function InCutset(cutset: string): char -> bool {
    c => c in cutset
  }

  /** `Trim` keeps a contiguous piece of `s` and removes only cutset
      characters around it. */
  lemma TrimFramed(s: string, cutset: string)
    ensures exists i :: FramedBy(s, Trim(s, cutset), i, InCutset(cutset))
  {
    var r := TrimFunc(s, InCutset(cutset));
    assert Trim(s, cutset) == r;
  }

  /** Text that neither starts nor ends with a cutset character is left alone. */
  lemma TrimUntouched(s: string, cutset: string)
    requires s != [] && s[0] !in cutset && s[|s| - 1] !in cutset
    ensures Trim(s, cutset) == s
  {
    assert [] + s + [] == s;
    TrimPadded([], s, [], c => c in cutset);
  }

  /** `unicode.IsSpace`. */
  predicate IsSpace(c: char) {
    || c == '\t' || c == '\n' || c == '\U{000B}' || c == '\U{000C}' || c == '\r' || c == ' '
    || c == '\U{0085}' || c == '\U{00A0}' || c == '\U{1680}'
    || ('\U{2000}' <= c <= '\U{200A}')
    || c == '\U{2028}' || c == '\U{2029}' || c == '\U{202F}' || c == '\U{205F}' || c == '\U{3000}'
  }

  /** `strings.TrimSpace`. */
  function TrimSpace(s: string): (r: string)
    ensures exists i :: FramedBy(s, r, i, IsSpace)
    ensures r != [] ==> !IsSpace(r[0]) && !IsSpace(r[|r| - 1])
    ensures forall i :: 0 <= i < |s| && !IsSpace(s[i]) ==> r != []
  {
    TrimFunc(s, IsSpace)
  }

  /** Text that neither starts nor ends with white space is left alone. */
  lemma TrimSpaceUntouched(s: string)
    requires s != [] && !IsSpace(s[0]) && !IsSpace(s[|s| - 1])
    ensures TrimSpace(s) == s
  {
    assert [] + s + [] == s;
    TrimPadded([], s, [], IsSpace);
  }

  lemma {:induction false} TrimLeftPadded(pad: string, x: string, cut: char -> bool)
    requires forall i :: 0 <= i < |pad| ==> cut(pad[i])
    requires x != [] && !cut(x[0])
    ensures TrimLeftFunc(pad + x, cut) == x
    decreases |pad|
  {
    var s := pad + x;
    if pad == [] {
      assert s == x;
    } else {
      assert s[0] == pad[0] && cut(s[0]);
      assert s[1..] == pad[1..] + x;
      assert TrimLeftFunc(s, cut) == TrimLeftFunc(s[1..], cut);
      TrimLeftPadded(pad[1..], x, cut);
    }
  }

  lemma {:induction false} TrimRightPadded(x: string, pad: string, cut: char -> bool)
    requires forall i :: 0 <= i < |pad| ==> cut(pad[i])
    requires x != [] && !cut(x[|x| - 1])
    ensures TrimRightFunc(x + pad, cut) == x
    decreases |pad|
  {
    var s := x + pad;
    if pad == [] {
      assert s == x;
    } else {
      assert s[|s| - 1] == pad[|pad| - 1] && cut(s[|s| - 1]);
      assert s[..|s| - 1] == x + pad[..|pad| - 1];
      assert TrimRightFunc(s, cut) == TrimRightFunc(s[..|s| - 1], cut);
      TrimRightPadded(x, pad[..|pad| - 1], cut);
    }
  }

  /** Trimming removes exactly the padding around a text that neither starts
      nor ends with a trimmed character. */
  lemma TrimPadded(before: string, x: string, after: string, cut: char -> bool)
    requires forall i :: 0 <= i < |before| ==> cut(before[i])
    requires forall i :: 0 <= i < |after| ==> cut(after[i])
    requires x != [] && !cut(x[0]) && !cut(x[|x| - 1])
    ensures TrimFunc(before + x + after, cut) == x
  {
    assert before + x + after == before + (x + after);
    TrimLeftPadded(before, x + after, cut);
    TrimRightPadded(x, after, cut);
  }
}
