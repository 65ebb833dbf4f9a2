/** parse_command (src/project.c:154-236): one command with an optional
    output redirection, parsed in place in the line buffer.

    The pure function ParseAt states what the parser returns for the string
    s[p..n]; ParseWrites states which indices of the buffer it overwrites
    with NUL on the way (the first '>', and the delimiter after each word of
    the command part).  The method ParseCommand runs the C algorithm on an
    array and is proved to do both. */
module Parser {
  import opened CString

  /** cmd_t: the argument words (argv without its NULL terminator), the
      redirection target, and whether the shell does not wait for it. */
  datatype Command = Command(argv: seq<string>, redir: Option<string>, isBackground: bool)

  /** What parse_command makes of a string: a command (allocated with
      calloc, so not background), NULL with no message because there are no
      words, or NULL after the error message for a malformed redirection. */
  datatype ParseResult = Parsed(cmd: Command) | NoWords | BadRedirection

  /** The target check at lines 172-174, for the target starting at rp
      (after its leading blanks): it is empty, or holds another '>', or has
      a space that is not its last character.  Only ' ' is looked for, so a
      tab inside the target passes. */
  predicate BadTarget(s: seq<char>, rp: nat, n: nat)
    requires rp <= n <= |s|
  {
    rp == n || Span(s, {'>'}, rp, n) < n || Span(s, {' '}, rp, n) + 1 < n
  }

  /** The end of the string s[t..e] once trailing blanks are overwritten,
      walking back from the last character but never removing the first
      (lines 186-190, and 253-257 of the splitter). */
  function TrimEnd(s: seq<char>, t: nat, e: nat): (k: nat)
    requires t <= e <= |s|
    ensures t <= k <= e && (t < e ==> t < k)
    ensures forall m :: k <= m < e ==> s[m] in Blanks
    ensures k > t + 1 ==> s[k - 1] !in Blanks
    decreases e - t
  {
    if e > t + 1 && s[e - 1] in Blanks then TrimEnd(s, t, e - 1) else e
  }

  /** The redirection target after the '>' at g: None when the check at
      line 174 rejects it, otherwise its copy without leading and trailing
      blanks (lines 169-190). */
  function Target(s: seq<char>, g: nat, n: nat): Option<string>
    requires g < n <= |s|
  {
    var rp := Skip(s, Blanks, g + 1, n);
    if BadTarget(s, rp, n) then None else Some(s[rp..TrimEnd(s, rp, n)])
  }

  /** What parse_command returns for the string s[p..n]: split at the first
      '>' (g == n when there is none), check the target, and take the words
      of the command part s[p..g]. */
  function ParseAt(s: seq<char>, p: nat, n: nat): ParseResult
    requires p <= n <= |s|
  {
    var g := Span(s, {'>'}, p, n);
    var redir := if g < n then Target(s, g, n) else None;
    if g < n && redir.None? then BadRedirection
    else
      var ws := TokensIn(s, Blanks, p, g);
      if ws == [] then NoWords else Parsed(Command(ws, redir, false))
  }

  /** parse_command on a whole string. */
  function Parse(line: string): ParseResult {
    ParseAt(line, 0, |line|)
  }

  /** Whether parse_command on s[p..n] overwrites index i with NUL: the
      first '>' always (line 167, before any check), and, unless the target
      is rejected, strtok's cuts in the command part (lines 222 and 231). */
  predicate ParseWrites(s: seq<char>, p: nat, n: nat, i: nat)
    requires p <= i < n <= |s|
  {
    var g := Span(s, {'>'}, p, n);
    (g < n && i == g) || (i < g && (g == n || Target(s, g, n).Some?) && CutAt(s, Blanks, p, i))
  }

  /** What a parsed command looks like: at least one word, no word empty or
      holding a blank or a '>', not in the background, and a target that is
      nonempty, holds neither ' ' nor '>' and neither starts nor ends with a
      blank (a tab inside it is kept). */
  lemma ParsedShape(s: seq<char>, p: nat, n: nat)
    requires p <= n <= |s| && ParseAt(s, p, n).Parsed?
    ensures var c := ParseAt(s, p, n).cmd;
      c.argv != [] && !c.isBackground &&
      (forall k :: 0 <= k < |c.argv| ==>
        c.argv[k] != [] && forall ch :: ch in c.argv[k] ==> ch !in Blanks && ch != '>') &&
      (c.redir.Some? ==> var f := c.redir.value;
        f != [] && ' ' !in f && '>' !in f && f[0] !in Blanks && f[|f| - 1] !in Blanks)
  {
    var g := Span(s, {'>'}, p, n);
    SpanChars(s, {'>'}, p, n);
    TokensShape(s, Blanks, p, g);
    TokensAvoid(s, Blanks, p, g, {'>'});
    if g < n {
      TargetShape(s, g, n);
    }
  }

  /** An accepted target: see ParsedShape. */
  lemma TargetShape(s: seq<char>, g: nat, n: nat)
    requires g < n <= |s| && Target(s, g, n).Some?
    ensures var f := Target(s, g, n).value;
      f != [] && ' ' !in f && '>' !in f && f[0] !in Blanks && f[|f| - 1] !in Blanks
  {
    var rp := Skip(s, Blanks, g + 1, n);
    var k := TrimEnd(s, rp, n);
    SkipChars(s, Blanks, g + 1, n);
    SpanChars(s, {'>'}, rp, n);
    SpanChars(s, {' '}, rp, n);
    assert forall m :: rp <= m < n - 1 ==> s[m] != ' ';
    if s[n - 1] == ' ' {
      assert k < n;
    }
    assert forall m :: rp <= m < k ==> s[m] != ' ' && s[m] != '>';
    var f := s[rp..k];
    assert forall ch :: ch in f ==> exists m :: rp <= m < k && s[m] == ch;
  }

  /** Words that parse_command can return, as a predicate on one list. */
  predicate PlainWords(ws: seq<string>) {
    ws != [] && forall k :: 0 <= k < |ws| ==>
      ws[k] != [] && forall ch :: ch in ws[k] ==> ch !in Blanks && ch != '>'
  }

  /** Round trip: words joined by single spaces parse back to those words. */
  lemma ParseJoin(ws: seq<string>)
    requires PlainWords(ws)
    ensures Parse(Join(ws, ' ')) == Parsed(Command(ws, None, false))
  {
    var line := Join(ws, ' ');
    JoinAvoid(ws, ' ', {'>'});
    SpanUnique(line, {'>'}, 0, |line|, |line|);
    TokensOfJoin(ws, ' ', Blanks);
  }

  /** Round trip with a redirection: "w1 w2 ... > f" parses back to the
      words and the target f. */
  lemma ParseJoinRedirect(ws: seq<string>, f: string)
    requires PlainWords(ws)
    requires f != [] && ' ' !in f && '>' !in f && f[0] !in Blanks && f[|f| - 1] !in Blanks
    ensures Parse(Join(ws, ' ') + " > " + f) == Parsed(Command(ws, Some(f), false))
  {
    var j := Join(ws, ' ');
    var x := j + [' '];
    var y := ['>', ' '] + f;
    var line := x + ['>', ' '] + f;
    assert line == j + " > " + f;
    assert line == j + [' '] + y;
    var g := |j| + 1;
    JoinAvoid(ws, ' ', {'>'});
    WordsBeforeMark(j, y, g);
    TokensOfJoin(ws, ' ', Blanks);
    TargetAfterMark(x, f, g);
    ParseAtRedirect(line, 0, |line|, g, ws, f);
  }

  /** In j + " " + y, with y starting with '>' and j free of '>', the first
      '>' is at g and the words before it are those of j. */
  lemma WordsBeforeMark(j: string, y: string, g: nat)
    requires g == |j| + 1 && y != [] && y[0] == '>' && '>' !in j
    ensures Span(j + [' '] + y, {'>'}, 0, |j + [' '] + y|) == g
    ensures TokensIn(j + [' '] + y, Blanks, 0, g) == Tokens(j, Blanks)
  {
    var line := j + [' '] + y;
    assert forall m :: 0 <= m < g ==> line[m] != '>';
    SpanUnique(line, {'>'}, 0, |line|, g);
    TokensSplit(line, Blanks, 0, |j|, g);
    TokensPrefix(j, ' ', y, Blanks);
  }

  /** After the '>' at g of x + "> " + f, with f an acceptable name, the
      target is f. */
  lemma TargetAfterMark(x: string, f: string, g: nat)
    requires g == |x| && f != [] && ' ' !in f && '>' !in f && f[0] !in Blanks && f[|f| - 1] !in Blanks
    ensures Target(x + ['>', ' '] + f, g, |x + ['>', ' '] + f|) == Some(f)
  {
    var line := x + ['>', ' '] + f;
    var n := |line|;
    assert forall m :: g + 2 <= m < n ==> line[m] == f[m - (g + 2)];
    SkipUnique(line, Blanks, g + 1, n, g + 2);
    SpanUnique(line, {'>'}, g + 2, n, n);
    SpanUnique(line, {' '}, g + 2, n, n);
    assert line[g + 2..n] == f;
  }

  /** ParseAt when the first '>' is at g, the target is accepted and there
      are words. */
  lemma ParseAtRedirect(s: seq<char>, p: nat, n: nat, g: nat, ws: seq<string>, f: string)
    requires p <= n <= |s| && g == Span(s, {'>'}, p, n) && g < n
    requires TokensIn(s, Blanks, p, g) == ws && ws != [] && Target(s, g, n) == Some(f)
    ensures ParseAt(s, p, n) == Parsed(Command(ws, Some(f), false))
  {
  }

  /** A second word after the target is rejected (line 174). */
  lemma TwoTargetsRejected()
    ensures Parse("ls > a b") == BadRedirection
  {
    assert Span("ls > a b", {'>'}, 0, 8) == 3;
    assert Skip("ls > a b", Blanks, 4, 8) == 5;
    assert Span("ls > a b", {' '}, 5, 8) == 6;
  }

  /** A '>' with no file after it is rejected (line 174). */
  lemma MissingTargetRejected()
    ensures Parse("cmd >") == BadRedirection
  {
    assert Span("cmd >", {'>'}, 0, 5) == 4;
    assert Skip("cmd >", Blanks, 5, 5) == 5;
  }

  /** A second '>' after the first is rejected (line 174). */
  lemma TwoRedirectionsRejected()
    ensures Parse("cmd > a > b") == BadRedirection
  {
    assert Span("cmd > a > b", {'>'}, 0, 11) == 4;
    assert Skip("cmd > a > b", Blanks, 5, 11) == 6;
    assert Span("cmd > a > b", {'>'}, 6, 11) == 8;
  }

  /** Only ' ' is looked for in the target, so a tab inside it passes. */
  lemma TabInTargetAccepted()
    ensures Parse("ls > a\tb") == Parsed(Command(["ls"], Some("a\tb"), false))
  {
    var line := "ls > a\tb";
    assert Span(line, {'>'}, 0, 8) == 3;
    assert Skip(line, Blanks, 4, 8) == 5;
    assert Span(line, {' '}, 5, 8) == 8 && Span(line, {'>'}, 5, 8) == 8;
    assert TrimEnd(line, 5, 8) == 8;
    assert Skip(line, Blanks, 0, 3) == 0 && Span(line, Blanks, 0, 3) == 2;
    TokensUnfold(line, Blanks, 0, 3, 0, 2);
    TokensUnfold(line, Blanks, 3, 3, 3, 3);
    assert line[0..2] == "ls" && line[5..8] == "a\tb";
  }

  /** One trailing space after the target is allowed and trimmed, two are
      rejected, because only the character after the first space is
      checked.  This is parse_command alone: its one caller trims the
      segment first, so two trailing spaces never reach it from the shell
      (Splitter.TrimmedTarget). */
  lemma TrailingSpaces()
    ensures Parse("ls > out ") == Parsed(Command(["ls"], Some("out"), false))
    ensures Parse("ls > out  ") == BadRedirection
  {
    var one := "ls > out ";
    assert Span(one, {'>'}, 0, 9) == 3;
    assert Skip(one, Blanks, 4, 9) == 5;
    assert Span(one, {' '}, 5, 9) == 8 && Span(one, {'>'}, 5, 9) == 9;
    assert TrimEnd(one, 5, 9) == 8;
    assert Skip(one, Blanks, 0, 3) == 0 && Span(one, Blanks, 0, 3) == 2;
    TokensUnfold(one, Blanks, 0, 3, 0, 2);
    TokensUnfold(one, Blanks, 3, 3, 3, 3);
    assert one[0..2] == "ls" && one[5..8] == "out";
    var two := "ls > out  ";
    assert Span(two, {'>'}, 0, 10) == 3;
    assert Skip(two, Blanks, 4, 10) == 5;
    assert Span(two, {' '}, 5, 10) == 8;
  }

  /** A redirection with no command before it gives NULL without the error
      message (only the empty-target check prints one). */
  lemma RedirectWithoutCommand()
    ensures Parse("> out") == NoWords
  {
    var line := "> out";
    assert Span(line, {'>'}, 0, 5) == 0;
    assert Skip(line, Blanks, 1, 5) == 2;
    assert Span(line, {' '}, 2, 5) == 5 && Span(line, {'>'}, 2, 5) == 5;
    assert Skip(line, Blanks, 0, 0) == 0;
  }

  /** The leading-blank loops at lines 169 and 252. */
  method SkipBlanks(a: array<char>, ghost s: seq<char>, q: nat, ghost n: nat) returns (t: nat)
    requires StrAt(a[..], s, q, n)
    ensures t == Skip(s, Blanks, q, n)
  {
    t := q;
    while a[t] == ' ' || a[t] == '\t'
      invariant q <= t <= n
      invariant forall m :: q <= m < t ==> s[m] in Blanks
      decreases n - t
    {
      t := t + 1;
    }
    SkipUnique(s, Blanks, q, n, t);
  }

  /** The trailing-blank loops at lines 186-190 and 253-257: NULs over the
      trailing blanks of the string at t, never over its first character. */
  method TrimTrailing(a: array<char>, ghost s: seq<char>, t: nat, ghost n: nat) returns (k: nat)
    requires StrAt(a[..], s, t, n)
    modifies a
    ensures k == TrimEnd(s, t, n)
    ensures forall i :: 0 <= i < a.Length ==> a[i] == if k <= i < n then '\0' else old(a[i])
  {
    var len := StrLen(a, s, t, n);
    var end: int := t + len - 1;
    while end > t && (a[end] == ' ' || a[end] == '\t')
      invariant t - 1 <= end < n
      invariant TrimEnd(s, t, n) == TrimEnd(s, t, end + 1)
      invariant forall i :: 0 <= i < a.Length ==> a[i] == if end < i < n then '\0' else old(a[i])
    {
      a[end] := '\0';
      end := end - 1;
    }
    k := end + 1;
  }

  /** Lines 194-206: count the words on a private copy, so the buffer
      itself is not changed. */
  method CountTokens(a: array<char>, ghost s: seq<char>, p: nat, ghost n: nat) returns (count: nat)
    requires StrAt(a[..], s, p, n)
    ensures count == |TokensIn(s, Blanks, p, n)|
  {
    var tmp := StrDupBuffer(a, s, p, n);
    ghost var t := tmp[..];
    ghost var m := n - p;
    AgreeOfChars(t, 0, m, s, p);
    TokensAgree(t, 0, m, s, p, n, Blanks);
    var tok, q := StrTok(tmp, t, 0, Blanks, m);
    TokLoopStart(t, t, Blanks, 0, m, tmp[..], tok, q);
    ghost var r := 0;
    count := 0;
    while tok.Some?
      invariant TokLoop(t, t, Blanks, 0, m, tmp[..], r, tok, q)
      invariant count + |TokensIn(t, Blanks, r, m)| == |TokensIn(t, Blanks, 0, m)|
      decreases m - r
    {
      TokLoopReady(t, t, Blanks, 0, m, tmp[..], r, tok, q);
      count := count + 1;
      ghost var cur := tmp[..];
      var tok2, q2 := StrTok(tmp, t, q, Blanks, m);
      TokLoopStep(t, t, Blanks, 0, m, cur, r, tok, q, tmp[..], tok2, q2);
      r, tok, q := q, tok2, q2;
    }
    TokLoopReady(t, t, Blanks, 0, m, tmp[..], r, tok, q);
  }

  /** Lines 220-233: copy out each word with strtok, in place; count is the
      number of words found by CountTokens. */
  method FillArgv(a: array<char>, ghost s: seq<char>, p: nat, ghost n: nat, count: nat)
    returns (argv: seq<string>)
    requires StrAt(a[..], s, p, n) && count == |TokensIn(s, Blanks, p, n)|
    modifies a
    ensures argv == TokensIn(s, Blanks, p, n)
    ensures a[..] == CutsUpTo(old(a[..]), s, Blanks, p, n)
  {
    ghost var b := a[..];
    var tok, q := StrTok(a, s, p, Blanks, n);
    TokLoopStart(b, s, Blanks, p, n, a[..], tok, q);
    ghost var r := p;
    argv := [];
    var i := 0;
    while tok.Some? && i < count
      invariant TokLoop(b, s, Blanks, p, n, a[..], r, tok, q)
      invariant TokensIn(s, Blanks, p, n) == argv + TokensIn(s, Blanks, r, n)
      invariant i == |argv| <= count
      decreases n - r
    {
      TokLoopReady(b, s, Blanks, p, n, a[..], r, tok, q);
      var w := StrDup(a, s, tok.value, TokEnd(s, Blanks, r, n));
      SnocAssoc(TokensIn(s, Blanks, p, n), argv + [w], argv, w, TokensIn(s, Blanks, q, n));
      ghost var cur := a[..];
      var tok2, q2 := StrTok(a, s, q, Blanks, n);
      TokLoopStep(b, s, Blanks, p, n, cur, r, tok, q, a[..], tok2, q2);
      r, tok, q := q, tok2, q2;
      argv := argv + [w];
      i := i + 1;
    }
    TokLoopReady(b, s, Blanks, p, n, a[..], r, tok, q);
  }

  /** Lines 169-174: skip the blanks after the '>' at g, already
      overwritten by NUL, and check the target that starts there. */
  method CheckTarget(a: array<char>, ghost s: seq<char>, g: nat, ghost n: nat) returns (rp: nat, bad: bool)
    requires StrAt(a[..], s, g + 1, n)
    ensures rp == Skip(s, Blanks, g + 1, n) && (bad <==> BadTarget(s, rp, n))
  {
    rp := SkipBlanks(a, s, g + 1, n);
    var sp := StrChr(a, s, rp, ' ', n);
    var gt := StrChr(a, s, rp, '>', n);
    assert a[rp] == '\0' <==> rp == n;
    assert sp.Some? ==> (a[sp.value + 1] != '\0' <==> sp.value + 1 < n);
    bad := a[rp] == '\0' || gt.Some? || (sp.Some? && a[sp.value + 1] != '\0');
  }

  /** Lines 179-190: a private copy of the target at rp with its trailing
      blanks overwritten by NUL; the buffer is not changed. */
  method TrimmedCopy(a: array<char>, ghost s: seq<char>, rp: nat, ghost n: nat) returns (f: string)
    requires StrAt(a[..], s, rp, n)
    ensures f == s[rp..TrimEnd(s, rp, n)]
  {
    var b := StrDupBuffer(a, s, rp, n);
    TrimEndAgree(b[..], 0, n - rp, s, rp, n);
    var k := TrimTrailing(b, b[..], 0, n - rp);
    forall m | 0 <= m < k
      ensures b[m] == s[rp + m]
    {
    }
    PrefixCopy(b[..], s, rp, TrimEnd(s, rp, n), k);
    f := b[..k];
  }

  /** Lines 168-190: the redirection target after the '>' at g; None when
      the check at line 174 rejects it, otherwise its trimmed copy. */
  method RedirectTarget(a: array<char>, ghost s: seq<char>, g: nat, ghost n: nat) returns (t: Option<string>)
    requires StrAt(a[..], s, g + 1, n)
    ensures t == Target(s, g, n)
  {
    var rp, bad := CheckTarget(a, s, g, n);
    if bad {
      return None;
    }
    var f := TrimmedCopy(a, s, rp, n);
    t := Some(f);
  }

  /** Lines 193-233: the words of the command part s[p..e], cut out of the
      buffer by strtok, or None when there are none (the buffer is then
      left as it was). */
  method ParseWords(a: array<char>, ghost s: seq<char>, p: nat, ghost e: nat) returns (argv: Option<seq<string>>)
    requires StrAt(a[..], s, p, e)
    modifies a
    ensures argv == if TokensIn(s, Blanks, p, e) == [] then None else Some(TokensIn(s, Blanks, p, e))
    ensures a[..] == CutsUpTo(old(a[..]), s, Blanks, p, e)
  {
    var count := CountTokens(a, s, p, e);
    if count == 0 {
      NoTokens(s, Blanks, p, e);
      NoCuts(a[..], s, Blanks, p, e);
      return None;
    }
    var words := FillArgv(a, s, p, e, count);
    argv := Some(words);
  }

  /** parse_command, lines 161-235, on the string at p in the buffer. */
  method ParseCommand(a: array<char>, ghost s: seq<char>, p: nat, ghost n: nat) returns (r: ParseResult)
    requires StrAt(a[..], s, p, n)
    modifies a
    ensures r == ParseAt(s, p, n)
    ensures forall i :: 0 <= i < a.Length ==> a[i] == if p <= i < n && ParseWrites(s, p, n, i) then '\0' else old(a[i])
  {
    var gt := StrChr(a, s, p, '>', n);
    if gt.None? {
      var argv := ParseWords(a, s, p, n);
      r := if argv.None? then NoWords else Parsed(Command(argv.value, None, false));
    } else {
      var g := gt.value;
      ghost var b := a[..];
      a[g] := '\0';
      var redir := RedirectTarget(a, s, g, n);
      if redir.None? {
        return BadRedirection;
      }
      var argv := ParseWords(a, s, p, g);
      CutsAfterMark(b, s, Blanks, p, g);
      r := if argv.None? then NoWords else Parsed(Command(argv.value, redir, false));
    }
  }

  /** The NUL over the '>' at g followed by strtok's cuts in s[p..g]. */
  lemma CutsAfterMark(b: seq<char>, s: seq<char>, d: set<char>, p: nat, g: nat)
    requires |b| == |s| && p <= g < |s|
    ensures forall i :: 0 <= i < |b| ==>
      CutsUpTo(b[g := '\0'], s, d, p, g)[i] == if i == g || (p <= i < g && CutAt(s, d, p, i)) then '\0' else b[i]
  {
    var c := b[g := '\0'];
    forall i | 0 <= i < |b|
      ensures CutsUpTo(c, s, d, p, g)[i] == if i == g || (p <= i < g && CutAt(s, d, p, i)) then '\0' else b[i]
    {
      assert CutsUpTo(c, s, d, p, g)[i] == if p <= i < g && CutAt(s, d, p, i) then '\0' else c[i];
    }
  }

  /** TrimEnd looks only at s[t..e]. */
  lemma {:induction false} TrimEndAgree(s: seq<char>, t: nat, e: nat, u: seq<char>, t2: nat, e2: nat)
    requires t <= e <= |s| && e2 <= |u| && e2 - t2 == e - t
    requires forall m :: t <= m < e ==> u[t2 + (m - t)] == s[m]
    ensures TrimEnd(u, t2, e2) - t2 == TrimEnd(s, t, e) - t
    decreases e - t
  {
    if e > t + 1 {
      assert u[t2 + (e - 1 - t)] == s[e - 1];
      if s[e - 1] in Blanks {
        TrimEndAgree(s, t, e - 1, u, t2, e2 - 1);
      }
    }
  }

  /** A copy of y[i..j] is that slice. */
  lemma PrefixCopy(x: seq<char>, y: seq<char>, i: nat, j: nat, k: nat)
    requires k <= |x| && i + k == j <= |y|
    requires forall m :: 0 <= m < k ==> x[m] == y[i + m]
    ensures x[..k] == y[i..j]
  {
  }
}
