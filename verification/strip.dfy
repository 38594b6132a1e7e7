/** `stripComments` (pyast.go): the heuristic pass that removes single-line
    triple-quoted blocks and `#` comments from Python source before imports are
    matched. Each regular expression of the code becomes a left-to-right scanner
    that follows Go's leftmost-first, lazy matching: `.` matches anything but
    '\n', and `$` in multi-line mode matches only before '\n' or at the end. */
module Strip {
  import opened GoStrings
  import opened Wrappers

  // ---------------------------------------------------------------------------
  // Pass 1: `(?m)'''.+?'''` and `(?m)""".+?"""`, each replaced by nothing.

  predicate IsTriple(s: string, q: char, k: int) {
    0 <= k && k + 3 <= |s| && s[k] == q && s[k + 1] == q && s[k + 2] == q
  }

  /** A triple-quote run at offset `k` closes the block opened at the start of `s`:
      at least one character sits between them and none of them is a newline. */
  ghost predicate ClosesBlock(s: string, q: char, k: int) {
    IsTriple(s, q, 0) && 4 <= k && IsTriple(s, q, k) && '\n' !in s[3..k]
  }

  /** Lazy search for the closing run, trying offsets `k` upwards. */
  function FindClose(s: string, q: char, k: nat): (r: Option<nat>)
    requires IsTriple(s, q, 0) && 4 <= k <= |s| && '\n' !in s[3..k - 1]
    ensures r.Some? ==> k <= r.value && ClosesBlock(s, q, r.value)
    ensures r.Some? ==> forall j :: k <= j < r.value ==> !IsTriple(s, q, j)
    ensures r.None? ==> forall j :: k <= j ==> !ClosesBlock(s, q, j)
    decreases |s| - k
  {
    if k + 3 > |s| then None
    else if s[k - 1] == '\n' then
      assert forall j :: k <= j && j + 3 <= |s| ==> s[3..j][k - 4] == '\n';
      None
    else
      assert s[3..k] == s[3..k - 1] + [s[k - 1]];
      if IsTriple(s, q, k) then Some(k) else FindClose(s, q, k + 1)
  }

  /** Length of the block the pattern matches at the very start of `s`, if any:
      the opening run, the shortest non-empty newline-free middle, the closing run. */
  function BlockAt(s: string, q: char): (r: Option<nat>)
    ensures r.Some? <==> exists k :: ClosesBlock(s, q, k)
    ensures r.Some? ==> 7 <= r.value <= |s| && ClosesBlock(s, q, r.value - 3)
    ensures r.Some? ==> forall j :: 4 <= j < r.value - 3 ==> !IsTriple(s, q, j)
  {
    if !IsTriple(s, q, 0) || |s| < 4 then None
    else match FindClose(s, q, 4)
      case Some(k) => Some(k + 3)
      case None => None
  }

  /** `re.ReplaceAllLiteralString(s, "")` for the block pattern of quote `q`. */
  function DropBlocks(s: string, q: char): (r: string)
    requires IsQuote(q)
    ensures |r| <= |s|
    ensures q !in s ==> r == s
    decreases |s|
  {
    if s == [] then []
    else match BlockAt(s, q)
      case Some(n) => DropBlocks(s[n..], q)
      case None => [s[0]] + DropBlocks(s[1..], q)
  }

  lemma BlockNewlineFree(s: string, q: char, n: nat)
    requires IsQuote(q) && BlockAt(s, q) == Some(n)
    ensures Count(s[..n], '\n') == 0
  {
    var k := n - 3;
    forall j | 0 <= j < n
      ensures s[..n][j] != '\n'
    {
      if 3 <= j < k {
        assert s[..n][j] == s[3..k][j - 3];
      }
    }
    CountZero(s[..n], '\n');
  }

  /** A block never spans a line break, so the pass keeps every line break. */
  lemma {:induction false} BlocksKeepLines(s: string, q: char)
    requires IsQuote(q)
    ensures Count(DropBlocks(s, q), '\n') == Count(s, '\n')
    decreases |s|
  {
    if s != [] {
      match BlockAt(s, q)
      case Some(n) =>
        BlocksKeepLines(s[n..], q);
        BlockNewlineFree(s, q, n);
        CountDropPrefix(s, n, DropBlocks(s[n..], q), '\n');
      case None =>
        BlocksKeepLines(s[1..], q);
        assert s[..1] == [s[0]];
        CountKeepPrefix(s, 1, DropBlocks(s[1..], q), '\n');
    }
  }

  // ---------------------------------------------------------------------------
  // Pass 2: `(?m)(\".*?\"|\'.*?\')|(#[^\r\n]*$)`, where a quoted string is
  // replaced by itself and a comment by nothing.

  predicate IsQuote(c: char) {
    c == '"' || c == '\''
  }

  /** A text neither pass can match anything in: no quote and no `#`. */
  predicate Inert(s: string) {
    forall i :: 0 <= i < |s| ==> !IsQuote(s[i]) && s[i] != '#'
  }

  lemma InertConcat(a: string, b: string)
    requires Inert(a) && Inert(b)
    ensures Inert(a + b)
  {
    assert forall i :: 0 <= i < |a + b| ==> (a + b)[i] == if i < |a| then a[i] else b[i - |a|];
  }

  /** What the pattern matches at the start of a non-empty text. */
  datatype Token =
    | Quoted(len: nat)    // a single-line quoted string, kept verbatim
    | Comment(len: nat)   // `#` up to the end of its line, deleted
    | Plain               // no match here: the first character is kept

  /** Offset of the quote closing the string opened by `s[0]`, searching from `k`. */
  function QuoteEnd(s: string, k: nat): (r: Option<nat>)
    requires 1 <= k <= |s| && IsQuote(s[0]) && '\n' !in s[1..k] && s[0] !in s[1..k]
    ensures r.Some? ==> k <= r.value < |s| && s[r.value] == s[0]
                        && '\n' !in s[1..r.value] && s[0] !in s[1..r.value]
    ensures r.None? ==> forall j :: k <= j < |s| && s[j] == s[0] ==> '\n' in s[1..j]
    decreases |s| - k
  {
    if k == |s| then None
    else if s[k] == s[0] then Some(k)
    else if s[k] == '\n' then
      assert forall j :: k < j < |s| ==> s[1..j][k - 1] == '\n';
      None
    else
      assert s[1..k + 1] == s[1..k] + [s[k]];
      QuoteEnd(s, k + 1)
  }

  /** Offset of the first '\r' or '\n' at or after `k`, or `|s|`. */
  function LineEnd(s: string, k: nat): (r: nat)
    requires k <= |s|
    ensures k <= r <= |s|
    ensures r < |s| ==> s[r] == '\r' || s[r] == '\n'
    ensures forall j :: k <= j < r ==> s[j] != '\r' && s[j] != '\n'
    decreases |s| - k
  {
    if k == |s| || s[k] == '\r' || s[k] == '\n' then k else LineEnd(s, k + 1)
  }

  /** The token at the start of a non-empty text: a quoted string when its
      quote is closed on the same line, a comment when its line ends with '\n'
      or the text, before any '\r'; otherwise the first character alone. */
  function TokenAt(s: string): (t: Token)
    requires s != []
    ensures !IsQuote(s[0]) && s[0] != '#' ==> t == Plain
    ensures IsQuote(s[0]) && (exists k :: 1 <= k < |s| && s[k] == s[0] && '\n' !in s[1..k]) ==> t.Quoted?
    ensures s[0] == '#' && (forall j :: 1 <= j < |s| && s[j] == '\r' ==> '\n' in s[1..j]) ==> t.Comment?
    ensures t.Quoted? ==> 2 <= t.len <= |s| && IsQuote(s[0]) && s[t.len - 1] == s[0]
                          && '\n' !in s[1..t.len - 1] && s[0] !in s[1..t.len - 1]
    ensures t.Comment? ==> 1 <= t.len <= |s| && s[0] == '#'
                           && (t.len == |s| || s[t.len] == '\n')
                           && '\n' !in s[..t.len] && '\r' !in s[..t.len]
  {
    if IsQuote(s[0]) then
      match QuoteEnd(s, 1)
      case Some(k) => Quoted(k + 1)
      case None => Plain
    else if s[0] == '#' then
      var j := LineEnd(s, 1);
      if j == |s| || s[j] == '\n' then Comment(j) else Plain
    else Plain
  }

  /** `ReplaceAllStringFunc` with the function that keeps quoted strings and
      deletes comments. */
  function DropComments(s: string): (r: string)
    ensures |r| <= |s|
    ensures '#' !in s ==> r == s
    decreases |s|
  {
    if s == [] then []
    else
      match TokenAt(s)
      case Quoted(n) =>
        SplitAt(s, n);
        s[..n] + DropComments(s[n..])
      case Comment(n) => DropComments(s[n..])
      case Plain =>
        ConsSplit(s, []);
        [s[0]] + DropComments(s[1..])
  }

  /** A comment never spans a line break and a kept string is kept whole, so the
      pass keeps every line break. */
  lemma {:induction false} CommentsKeepLines(s: string)
    ensures Count(DropComments(s), '\n') == Count(s, '\n')
    decreases |s|
  {
    if s != [] {
      match TokenAt(s)
      case Quoted(n) =>
        CommentsKeepLines(s[n..]);
        CountKeepPrefix(s, n, DropComments(s[n..]), '\n');
      case Comment(n) =>
        CommentsKeepLines(s[n..]);
        CountZero(s[..n], '\n');
        CountDropPrefix(s, n, DropComments(s[n..]), '\n');
      case Plain =>
        CommentsKeepLines(s[1..]);
        assert s[..1] == [s[0]];
        CountKeepPrefix(s, 1, DropComments(s[1..]), '\n');
    }
  }

  // ---------------------------------------------------------------------------

  /** `stripComments`: both block passes, the comment pass, then `strings.TrimSpace`.
      The line structure inside the kept text is untouched, and the result
      neither starts nor ends with white space. */
  function StripComments(source: string): (r: string)
    ensures |r| <= |source|
    ensures r != [] ==> !IsSpace(r[0]) && !IsSpace(r[|r| - 1])
  {
    TrimSpace(DropComments(DropBlocks(DropBlocks(source, '\''), '"')))
  }

  // ---------------------------------------------------------------------------
  // What the passes do to the pieces of a text.

  /** Text without the quote character goes through the block pass unchanged. */
  lemma {:induction false} BlocksSkipPlain(a: string, b: string, q: char)
    requires IsQuote(q) && q !in a
    ensures DropBlocks(a + b, q) == a + DropBlocks(b, q)
    decreases |a|
  {
    if a != [] {
      var s := a + b;
      assert !IsTriple(s, q, 0);
      assert s[1..] == a[1..] + b;
      BlocksSkipPlain(a[1..], b, q);
      assert a == [a[0]] + a[1..];
    } else {
      assert a + b == b;
    }
  }

  /** A single-line block with a non-empty, quote-free middle is deleted whole. */
  lemma BlockDeleted(q: char, middle: string, b: string)
    requires IsQuote(q) && middle != [] && q !in middle && '\n' !in middle
    ensures DropBlocks([q, q, q] + middle + [q, q, q] + b, q) == DropBlocks(b, q)
  {
    var s := [q, q, q] + middle + [q, q, q] + b;
    var k := |middle| + 3;
    assert s[3..k] == middle;
    assert ClosesBlock(s, q, k);
    assert forall j :: 4 <= j < k ==> s[j] == middle[j - 3];
    var n := BlockAt(s, q).value;
    assert n == k + 3;
    assert s[n..] == b;
  }

  /** A first character that starts neither a string nor a comment is kept. */
  lemma PlainStep(c: char, rest: string)
    requires !IsQuote(c) && c != '#'
    ensures DropComments([c] + rest) == [c] + DropComments(rest)
  {
    var s := [c] + rest;
    assert s[0] == c && s[1..] == rest;
    assert TokenAt(s) == Plain;
  }

  lemma InertTail(a: string)
    requires a != [] && Inert(a)
    ensures !IsQuote(a[0]) && a[0] != '#' && Inert(a[1..])
  {
    forall i | 0 <= i < |a[1..]|
      ensures !IsQuote(a[1..][i]) && a[1..][i] != '#'
    {
      assert a[1..][i] == a[i + 1];
    }
  }

  /** Text without quotes or `#` goes through the comment pass unchanged. */
  lemma {:induction false} CommentsSkipPlain(a: string, b: string)
    requires Inert(a)
    ensures DropComments(a + b) == a + DropComments(b)
    decreases |a|
  {
    if a != [] {
      InertTail(a);
      CommentsSkipPlain(a[1..], b);
      PlainStep(a[0], a[1..] + b);
      ConsSplit(a, b);
      ConsSplit(a, DropComments(b));
    } else {
      assert a + b == b;
    }
  }

  /** A single-line quoted string is kept verbatim, even when it holds a `#`. */
  lemma QuotedKept(q: char, body: string, b: string)
    requires IsQuote(q) && q !in body && '\n' !in body
    ensures DropComments([q] + body + [q] + b) == [q] + body + [q] + DropComments(b)
  {
    var s := [q] + body + [q] + b;
    var k := |body| + 1;
    assert s[1..k] == body;
    assert s[k] == s[0];
    assert forall j :: 1 <= j < k ==> s[j] == body[j - 1];
    assert QuoteEnd(s, 1) == Some(k);
    assert TokenAt(s) == Quoted(k + 1);
    assert s[..k + 1] == [q] + body + [q];
    assert s[k + 1..] == b;
  }

  /** The line of a `#` followed by a line-break-free text ends right after that text. */
  lemma LineEndAfter(comment: string, rest: string)
    requires '\n' !in comment && '\r' !in comment
    requires rest == [] || rest[0] == '\n' || rest[0] == '\r'
    ensures LineEnd(['#'] + comment + rest, 1) == |comment| + 1
  {
    var s := ['#'] + comment + rest;
    var n := |comment| + 1;
    forall i | 1 <= i < n
      ensures s[i] != '\n' && s[i] != '\r'
    {
      assert s[i] == comment[i - 1];
    }
    assert n < |s| ==> s[n] == rest[0];
  }

  /** A `#` comment running to a newline or to the end of the text is deleted,
      and the newline stays. */
  lemma CommentDeleted(comment: string, b: string)
    requires '\n' !in comment && '\r' !in comment
    requires b == [] || b[0] == '\n'
    ensures DropComments("#" + comment + b) == DropComments(b)
  {
    var s := "#" + comment + b;
    var n := |comment| + 1;
    LineEndAfter(comment, b);
    assert TokenAt(s) == Comment(n);
    assert s[n..] == b;
  }

  /** `$` does not match before a carriage return, so a comment ending a
      "\r\n" line is NOT deleted. */
  lemma CarriageReturnKeepsComment(comment: string)
    requires Inert(comment)
    requires '\r' !in comment && '\n' !in comment
    ensures DropComments("#" + comment + "\r\n") == "#" + comment + "\r\n"
  {
    var crlf := ['\r', '\n'];
    var s := ['#'] + comment + crlf;
    assert s == "#" + comment + "\r\n";
    var n := |comment| + 1;
    LineEndAfter(comment, crlf);
    assert s[n] == '\r';
    assert TokenAt(s) == Plain;
    assert DropComments(s) == [s[0]] + DropComments(s[1..]);
    assert s[1..] == comment + crlf;
    CommentsSkipPlain(comment, crlf);
    assert '#' !in crlf;
    assert DropComments(crlf) == crlf;
  }

  /** Text without quotes or `#` passes through all three passes unchanged. */
  lemma PlainTextKept(a: string)
    requires Inert(a)
    ensures DropComments(DropBlocks(DropBlocks(a, '\''), '"')) == a
  {
    assert a + [] == a;
    assert DropBlocks([], '\'') == [] && DropBlocks([], '"') == [];
    BlocksSkipPlain(a, [], '\'');
    BlocksSkipPlain(a, [], '"');
    assert '#' !in a;
  }

  // ---------------------------------------------------------------------------
  // What `stripComments` does to a whole text.

  /** Text without quotes or `#` only loses its outer white space. */
  lemma StripInert(s: string)
    requires Inert(s)
    ensures StripComments(s) == TrimSpace(s)
  {
    PlainTextKept(s);
  }

  /** A text with no run of three quotes `q` goes through the block pass unchanged. */
  lemma {:induction false} NoTripleKept(s: string, q: char)
    requires IsQuote(q) && forall k :: !IsTriple(s, q, k)
    ensures DropBlocks(s, q) == s
    decreases |s|
  {
    if s != [] {
      assert !IsTriple(s, q, 0);
      forall k
        ensures !IsTriple(s[1..], q, k)
      {
        if IsTriple(s[1..], q, k) {
          assert IsTriple(s, q, k + 1);
        }
      }
      NoTripleKept(s[1..], q);
      assert s == [s[0]] + s[1..];
    }
  }

  /** Quote characters sit only at the two ends of the quoted string. */
  lemma QuotesAt(a: string, q: char, body: string, b: string, i: int)
    requires Inert(a) && Inert(b) && forall j :: 0 <= j < |body| ==> !IsQuote(body[j])
    requires 0 <= i < |a + [q] + body + [q] + b| && IsQuote((a + [q] + body + [q] + b)[i])
    ensures i == |a| || i == |a| + |body| + 1
  {
  }

  /** A single-line quoted string between code without quotes or `#` is kept
      whole by `stripComments`, even when it holds a `#`. */
  lemma StripKeepsQuoted(a: string, q: char, body: string, b: string)
    requires Inert(a) && Inert(b) && IsQuote(q)
    requires forall j :: 0 <= j < |body| ==> !IsQuote(body[j]) && body[j] != '\n'
    ensures StripComments(a + [q] + body + [q] + b) == TrimSpace(a + [q] + body + [q] + b)
  {
    var s := a + [q] + body + [q] + b;
    forall x, k | IsQuote(x)
      ensures !IsTriple(s, x, k)
    {
      if IsTriple(s, x, k) {
        QuotesAt(a, q, body, b, k);
        QuotesAt(a, q, body, b, k + 1);
        QuotesAt(a, q, body, b, k + 2);
      }
    }
    NoTripleKept(s, '\'');
    NoTripleKept(s, '"');
    var t := [q] + body + [q] + b;
    assert s == a + t;
    CommentsSkipPlain(a, t);
    assert q !in body && '\n' !in body;
    QuotedKept(q, body, b);
    assert '#' !in b;
    assert a + ([q] + body + [q] + b) == s;
  }

  /** A text without quotes passes both block passes unchanged. */
  lemma BlocksSkipUnquoted(s: string)
    requires '\'' !in s && '"' !in s
    ensures DropBlocks(DropBlocks(s, '\''), '"') == s
  {
    assert s + [] == s;
    assert DropBlocks([], '\'') == [] && DropBlocks([], '"') == [];
    BlocksSkipPlain(s, [], '\'');
    BlocksSkipPlain(s, [], '"');
  }

  /** A `#` comment after code is removed by `stripComments` up to its line
      break, which stays. */
  lemma StripDropsComment(a: string, comment: string, b: string)
    requires Inert(a) && Inert(b) && (b == [] || b[0] == '\n')
    requires '\n' !in comment && '\r' !in comment && '\'' !in comment && '"' !in comment
    ensures StripComments(a + "#" + comment + b) == TrimSpace(a + b)
  {
    var t := "#" + comment + b;
    assert a + "#" + comment + b == a + t;
    assert '\'' !in a && '"' !in a && '\'' !in b && '"' !in b;
    assert '\'' !in t && '"' !in t;
    BlocksSkipUnquoted(a + t);
    CommentsSkipPlain(a, t);
    CommentDeleted(comment, b);
    assert '#' !in b;
  }

  /** A single-line triple-quoted block after code is removed whole by
      `stripComments`. */
  lemma StripDropsBlock(a: string, q: char, middle: string, b: string)
    requires Inert(a) && Inert(b) && IsQuote(q)
    requires middle != [] && '\n' !in middle && '\'' !in middle && '"' !in middle
    ensures StripComments(a + [q, q, q] + middle + [q, q, q] + b) == TrimSpace(a + b)
  {
    BlockPassesDropBlock(a, q, middle, b);
    InertConcat(a, b);
    assert '#' !in a + b;
  }

  lemma BlockPassesDropBlock(a: string, q: char, middle: string, b: string)
    requires Inert(a) && Inert(b) && IsQuote(q)
    requires middle != [] && '\n' !in middle && '\'' !in middle && '"' !in middle
    ensures DropBlocks(DropBlocks(a + [q, q, q] + middle + [q, q, q] + b, '\''), '"') == a + b
  {
    var s := a + [q, q, q] + middle + [q, q, q] + b;
    BlockPassDropsBlock(a, q, middle, b);
    if q == '"' {
      assert '\'' !in s;
      assert s + [] == s && DropBlocks([], '\'') == [];
      BlocksSkipPlain(s, [], '\'');
    } else {
      assert '"' !in a + b;
      assert (a + b) + [] == a + b && DropBlocks([], '"') == [];
      BlocksSkipPlain(a + b, [], '"');
    }
  }

  lemma BlockPassDropsBlock(a: string, q: char, middle: string, b: string)
    requires Inert(a) && Inert(b) && IsQuote(q)
    requires middle != [] && '\n' !in middle && q !in middle
    ensures DropBlocks(a + [q, q, q] + middle + [q, q, q] + b, q) == a + b
  {
    var t := [q, q, q] + middle + [q, q, q] + b;
    assert a + [q, q, q] + middle + [q, q, q] + b == a + t;
    assert q !in a && q !in b;
    BlocksSkipPlain(a, t, q);
    BlockDeleted(q, middle, b);
    BlocksSkipPlain(b, [], q);
    assert b + [] == b && DropBlocks([], q) == [];
  }
}
