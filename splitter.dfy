/** split_parallel_commands (src/project.c:239-282): the line is cut into
    segments on '&' by strtok_r, each segment is trimmed and parsed in place,
    and every command parsed is collected, at most 64 of them.  SplitCmds
    states which commands come out, SplitWrites which bytes of the line are
    overwritten by NUL; the method CollectCommands runs the C loop on the
    buffer and is proved to do both.

    The final test at line 278 looks at the character before the FIRST NUL
    of the line once all of that has been written, not at the end of the
    line: SplitParallelCommands models it as written, ParallelCommands is
    the corrected splitter that looks at the last non-blank character. */
module Splitter {
  import opened CString
  import opened Parser

  /** MAX_PARALLEL_CMDS. */
  const MaxParallel: nat := 64

  /** The delimiter set given to strtok_r. */
  const Amp: set<char> := {'&'}

  /** Where the strtok_r call after the one started at r starts. */
  function NextStart(s: seq<char>, r: nat, n: nat): (q: nat)
    requires r <= n <= |s|
    ensures r <= q <= n && (Skip(s, Amp, r, n) < n ==> r < q)
  {
    var te := TokEnd(s, Amp, r, n);
    if te == n then n else te + 1
  }

  /** The command made of the segment s[j..te] (lines 251-265): leading
      blanks skipped, trailing blanks trimmed, skipped when nothing is left
      or when parse_command returns NULL, and marked background. */
  function SegCmd(s: seq<char>, j: nat, te: nat): Option<Command>
    requires j <= te <= |s|
  {
    var t := Skip(s, Blanks, j, te);
    var k := TrimEnd(s, t, te);
    if t < te && ParseAt(s, t, k).Parsed? then Some(ParseAt(s, t, k).cmd.(isBackground := true)) else None
  }

  /** Whether handling the segment s[j..te] writes NUL at i: the trimming
      loop at lines 254-257, then parse_command on what is left. */
  predicate SegWrites(s: seq<char>, j: nat, te: nat, i: nat)
    requires j <= te <= |s|
  {
    var t := Skip(s, Blanks, j, te);
    var k := TrimEnd(s, t, te);
    (k <= i < te) || (t <= i < k && ParseWrites(s, t, k, i))
  }

  /** The NUL strtok_r writes after the token it finds from r. */
  predicate Cut(s: seq<char>, r: nat, n: nat, i: nat)
    requires r <= n <= |s|
  {
    i == TokEnd(s, Amp, r, n) && i < n
  }

  /** The number of commands the segment found from r adds. */
  function Produced(s: seq<char>, r: nat, n: nat): nat
    requires r <= n <= |s|
  {
    if SegCmd(s, Skip(s, Amp, r, n), TokEnd(s, Amp, r, n)).Some? then 1 else 0
  }

  /** The commands collected by the loop at lines 250-269 from the strtok_r
      call started at r, with count commands collected before it. */
  function SplitCmds(s: seq<char>, n: nat, r: nat, count: nat): (cs: seq<Command>)
    requires r <= n <= |s|
    ensures count <= MaxParallel ==> count + |cs| <= MaxParallel
    ensures forall k :: 0 <= k < |cs| ==> cs[k].isBackground && cs[k].argv != []
    decreases n - r
  {
    var j := Skip(s, Amp, r, n);
    if count >= MaxParallel || j == n then []
    else
      var c := SegCmd(s, j, TokEnd(s, Amp, r, n));
      var rest := SplitCmds(s, n, NextStart(s, r, n), count + Produced(s, r, n));
      if c.Some? then [c.value] + rest else rest
  }

  /** Whether handling the segment s[j..te] makes parse_command print the
      error message (line 175): something is left after trimming and its
      redirection is rejected. */
  predicate SegError(s: seq<char>, j: nat, te: nat)
    requires j <= te <= |s|
  {
    var t := Skip(s, Blanks, j, te);
    var k := TrimEnd(s, t, te);
    t < te && ParseAt(s, t, k).BadRedirection?
  }

  /** The segments the loop at lines 250-269 reports the error for, from the
      strtok_r call started at r on, by the index where strtok_r found each:
      in increasing order, inside s[r..n], and cut off at the same count as
      SplitCmds. */
  function SplitErrors(s: seq<char>, n: nat, r: nat, count: nat): (e: seq<nat>)
    requires r <= n <= |s|
    ensures forall k :: 0 <= k < |e| ==> r <= e[k] < n && s[e[k]] != '&'
    ensures forall k :: 0 < k < |e| ==> e[k - 1] < e[k]
    decreases n - r
  {
    var j := Skip(s, Amp, r, n);
    if count >= MaxParallel || j == n then []
    else
      var rest := SplitErrors(s, n, NextStart(s, r, n), count + Produced(s, r, n));
      if SegError(s, j, TokEnd(s, Amp, r, n)) then [j] + rest else rest
  }

  /** SplitErrors, one step, at a segment that is handled. */
  lemma SplitErrorsUnfold(s: seq<char>, n: nat, r: nat, count: nat, j: nat, te: nat, q: nat, count2: nat)
    requires r <= n <= |s| && count < MaxParallel
    requires j == Skip(s, Amp, r, n) < n && te == TokEnd(s, Amp, r, n) && q == NextStart(s, r, n)
    requires count2 == count + Produced(s, r, n)
    ensures SplitErrors(s, n, r, count) == (if SegError(s, j, te) then [j] else []) + SplitErrors(s, n, q, count2)
  {
    var rest := SplitErrors(s, n, q, count2);
    if SegError(s, j, te) {
      assert SplitErrors(s, n, r, count) == [j] + rest;
    } else {
      assert SplitErrors(s, n, r, count) == rest;
      assert [] + rest == rest;
    }
  }

  /** Every index SplitErrors reports starts a segment, one that strtok_r
      would return from that index, whose redirection parse_command
      rejects. */
  lemma {:induction false} ErrorsAreRejected(s: seq<char>, n: nat, r: nat, count: nat)
    requires r <= n <= |s|
    ensures var e := SplitErrors(s, n, r, count);
      forall k :: 0 <= k < |e| ==> Skip(s, Amp, e[k], n) == e[k] && SegError(s, e[k], TokEnd(s, Amp, e[k], n))
    decreases n - r
  {
    var j := Skip(s, Amp, r, n);
    if count < MaxParallel && j < n {
      var te := TokEnd(s, Amp, r, n);
      var q := NextStart(s, r, n);
      var count2 := count + Produced(s, r, n);
      ErrorsAreRejected(s, n, q, count2);
      SkipChars(s, Amp, r, n);
      SkipUnique(s, Amp, j, n, j);
      assert TokEnd(s, Amp, j, n) == te;
      SplitErrorsUnfold(s, n, r, count, j, te, q, count2);
    }
  }

  /** Whether the loop, from the strtok_r call started at r on, writes NUL
      at i.  The call's own cut is made even when the count check then ends
      the loop. */
  predicate SplitWrites(s: seq<char>, n: nat, r: nat, count: nat, i: nat)
    requires r <= n <= |s|
    decreases n - r
  {
    Cut(s, r, n, i) ||
    (count < MaxParallel && Skip(s, Amp, r, n) < n &&
     (SegWrites(s, Skip(s, Amp, r, n), TokEnd(s, Amp, r, n), i) ||
      SplitWrites(s, n, NextStart(s, r, n), count + Produced(s, r, n), i)))
  }

  /** The first index from i on that the splitter overwrites, or n. */
  function FirstWriteFrom(s: seq<char>, n: nat, i: nat): (f: nat)
    requires i <= n <= |s|
    ensures i <= f <= n && (f < n ==> SplitWrites(s, n, 0, 0, f))
    ensures forall m :: i <= m < f ==> !SplitWrites(s, n, 0, 0, m)
    decreases n - i
  {
    if i == n || SplitWrites(s, n, 0, 0, i) then i else FirstWriteFrom(s, n, i + 1)
  }

  /** strlen(line) at line 278. */
  function FirstWrite(s: seq<char>, n: nat): nat
    requires n <= |s|
  {
    FirstWriteFrom(s, n, 0)
  }

  /** The test at line 278 as written: the character before the first NUL
      is '&' (line[-1] is read when that NUL is at 0: false here, and
      excluded by SplitParallelCommands). */
  function AsWrittenFlag(s: seq<char>, n: nat): bool
    requires n <= |s|
  {
    var f := FirstWrite(s, n);
    0 < f && s[f - 1] == '&'
  }

  /** The list with the background flag of its last command set to b. */
  function SetLast(cs: seq<Command>, b: bool): (r: seq<Command>)
    requires cs != []
    ensures |r| == |cs| && r[..|cs| - 1] == cs[..|cs| - 1]
    ensures r[|cs| - 1] == cs[|cs| - 1].(isBackground := b)
  {
    cs[..|cs| - 1] + [cs[|cs| - 1].(isBackground := b)]
  }

  /** What split_parallel_commands returns for the string s[0..n], as
      written; [] stands for NULL with count 0. */
  function SplitAsWritten(s: seq<char>, n: nat): seq<Command>
    requires n <= |s|
  {
    var cs := SplitCmds(s, n, 0, 0);
    if cs == [] then [] else SetLast(cs, AsWrittenFlag(s, n))
  }

  /** Whether the last non-blank character of s[0..n] is '&'. */
  function TrailingAmp(s: seq<char>, n: nat): bool
    requires n <= |s|
  {
    n > 0 && if s[n - 1] in Blanks then TrailingAmp(s, n - 1) else s[n - 1] == '&'
  }

  /** The corrected splitter on s[0..n]: the last command is background
      exactly when the line ends with '&', blanks aside. */
  function ParallelCommandsAt(s: seq<char>, n: nat): seq<Command>
    requires n <= |s|
  {
    var cs := SplitCmds(s, n, 0, 0);
    if cs == [] then [] else SetLast(cs, TrailingAmp(s, n))
  }

  /** The corrected splitter on a whole line. */
  function ParallelCommands(line: string): seq<Command> {
    ParallelCommandsAt(line, |line|)
  }

  /** Lines 251-265 on the segment at j, whose NUL is at te: skip leading
      blanks, trim trailing ones, and parse what is left. */
  method ProcessSegment(a: array<char>, ghost s: seq<char>, j: nat, ghost te: nat) returns (c: Option<Command>, bad: bool)
    requires StrAt(a[..], s, j, te)
    modifies a
    ensures c == SegCmd(s, j, te) && bad == SegError(s, j, te)
    ensures forall i :: 0 <= i < a.Length ==> a[i] == if SegWrites(s, j, te, i) then '\0' else old(a[i])
  {
    var t := SkipBlanks(a, s, j, te);
    var k := TrimTrailing(a, s, t, te);
    if a[t] != '\0' {
      var r := ParseCommand(a, s, t, k);
      c := if r.Parsed? then Some(r.cmd.(isBackground := true)) else None;
      bad := r.BadRedirection?;
    } else {
      c, bad := None, false;
    }
  }

  /** A segment's writes lie inside it. */
  lemma SegWritesIn(s: seq<char>, j: nat, te: nat, i: nat)
    requires j <= te <= |s| && SegWrites(s, j, te, i)
    ensures j <= i < te
  {
  }

  /** The loop's writes from the call at r on lie in s[r..n]. */
  lemma {:induction false} SplitWritesIn(s: seq<char>, n: nat, r: nat, count: nat, i: nat)
    requires r <= n <= |s| && SplitWrites(s, n, r, count, i)
    ensures r <= i < n
    decreases n - r
  {
    if !Cut(s, r, n, i) {
      var j := Skip(s, Amp, r, n);
      if SegWrites(s, j, TokEnd(s, Amp, r, n), i) {
        SegWritesIn(s, j, TokEnd(s, Amp, r, n), i);
      } else {
        SplitWritesIn(s, n, NextStart(s, r, n), count + Produced(s, r, n), i);
      }
    }
  }

  /** The state of the loop at lines 250-269: the last strtok_r call started
      at r, returned tok and set the next start to q; cmds were collected
      before it, the commands still to come are those from r, and the
      buffer cur holds every write made before r and the call's own cut. */
  ghost predicate SplitLoop(b: seq<char>, s: seq<char>, n: nat, cur: seq<char>, r: nat,
                            tok: Option<nat>, q: nat, cmds: seq<Command>)
  {
    StrAt(b, s, 0, n) && r <= q <= n && TokCall(s, Amp, r, n, tok, q) &&
    SplitCmds(s, n, 0, 0) == cmds + SplitCmds(s, n, r, |cmds|) &&
    LoopWrites(b, s, n, cur, r, |cmds|)
  }

  /** The buffer part of SplitLoop: the writes from r on split the writes of
      the whole loop at r, and cur holds those before r and the cut. */
  ghost predicate LoopWrites(b: seq<char>, s: seq<char>, n: nat, cur: seq<char>, r: nat, count: nat)
  {
    r <= n <= |s| && |cur| == |b| &&
    forall i :: 0 <= i < |b| ==>
      (SplitWrites(s, n, 0, 0, i) <==> (i < r && SplitWrites(s, n, 0, 0, i)) || SplitWrites(s, n, r, count, i)) &&
      cur[i] == if (i < r && SplitWrites(s, n, 0, 0, i)) || Cut(s, r, n, i) then '\0' else b[i]
  }

  /** The first strtok_r call starts the loop. */
  lemma SplitLoopStart(b: seq<char>, s: seq<char>, n: nat, cur: seq<char>, tok: Option<nat>, q: nat)
    requires StrAt(b, s, 0, n) && TokCall(s, Amp, 0, n, tok, q) && cur == CutToken(b, s, Amp, 0, n)
    ensures SplitLoop(b, s, n, cur, 0, tok, q, [])
  {
  }

  /** In the loop the segment found can be handled: it is an intact string
      of the buffer, ended by the cut or by the line's NUL. */
  lemma SplitLoopReady(b: seq<char>, s: seq<char>, n: nat, cur: seq<char>, r: nat,
                       tok: Option<nat>, q: nat, cmds: seq<Command>)
    requires SplitLoop(b, s, n, cur, r, tok, q, cmds) && tok.Some?
    ensures tok.value == Skip(s, Amp, r, n) < n && q == NextStart(s, r, n)
    ensures StrAt(cur, s, tok.value, TokEnd(s, Amp, r, n))
  {
    var te := TokEnd(s, Amp, r, n);
    forall i | tok.value <= i < te
      ensures cur[i] == s[i]
    {
    }
  }

  /** The facts of one loop iteration: the segment at j = tok.value ending
      at te was handled, giving c and the buffer cur1. */
  ghost predicate SegmentDone(b: seq<char>, s: seq<char>, n: nat, cur: seq<char>, r: nat,
                              tok: Option<nat>, q: nat, cmds: seq<Command>, j: nat, te: nat,
                              c: Option<Command>, cur1: seq<char>)
  {
    SplitLoop(b, s, n, cur, r, tok, q, cmds) && tok == Some(j) && |cmds| < MaxParallel &&
    j == Skip(s, Amp, r, n) < n && te == TokEnd(s, Amp, r, n) && q == NextStart(s, r, n) &&
    c == SegCmd(s, j, te) && |cur1| == |cur| &&
    forall i :: 0 <= i < |cur1| ==> cur1[i] == if SegWrites(s, j, te, i) then '\0' else cur[i]
  }

  /** After the segment is handled the rest of the line is intact. */
  lemma SplitLoopMid(b: seq<char>, s: seq<char>, n: nat, cur: seq<char>, r: nat,
                     tok: Option<nat>, q: nat, cmds: seq<Command>, j: nat, te: nat,
                     c: Option<Command>, cur1: seq<char>)
    requires SegmentDone(b, s, n, cur, r, tok, q, cmds, j, te, c, cur1)
    ensures StrAt(cur1, s, q, n)
  {
    forall i | q <= i <= n
      ensures cur1[i] == b[i]
    {
      if SegWrites(s, j, te, i) {
        SegWritesIn(s, j, te, i);
      }
    }
  }

  /** SplitCmds, one step, at a segment that is handled. */
  lemma SplitCmdsUnfold(s: seq<char>, n: nat, r: nat, count: nat, j: nat, te: nat, q: nat)
    requires r <= n <= |s| && count < MaxParallel
    requires j == Skip(s, Amp, r, n) < n && te == TokEnd(s, Amp, r, n) && q == NextStart(s, r, n)
    ensures SplitCmds(s, n, r, count) ==
      (if SegCmd(s, j, te).Some? then [SegCmd(s, j, te).value] else []) + SplitCmds(s, n, q, count + Produced(s, r, n))
  {
  }

  /** The commands still to come after the segment. */
  lemma StepCmds(s: seq<char>, n: nat, r: nat, q: nat, cmds: seq<Command>, j: nat, te: nat,
                 c: Option<Command>, cmds2: seq<Command>)
    requires r <= n <= |s| && |cmds| < MaxParallel
    requires j == Skip(s, Amp, r, n) < n && te == TokEnd(s, Amp, r, n) && q == NextStart(s, r, n)
    requires c == SegCmd(s, j, te) && cmds2 == (if c.Some? then cmds + [c.value] else cmds)
    requires SplitCmds(s, n, 0, 0) == cmds + SplitCmds(s, n, r, |cmds|)
    ensures SplitCmds(s, n, 0, 0) == cmds2 + SplitCmds(s, n, q, |cmds2|)
  {
    SplitCmdsUnfold(s, n, r, |cmds|, j, te, q);
    assert |cmds2| == |cmds| + Produced(s, r, n);
    StepAlgebra(SplitCmds(s, n, 0, 0), cmds, SplitCmds(s, n, r, |cmds|), c, SplitCmds(s, n, q, |cmds2|), cmds2);
  }

  /** The sequence algebra of StepCmds. */
  lemma StepAlgebra(all: seq<Command>, cmds: seq<Command>, u: seq<Command>, c: Option<Command>,
                    rest: seq<Command>, cmds2: seq<Command>)
    requires all == cmds + u && u == (if c.Some? then [c.value] else []) + rest
    requires cmds2 == (if c.Some? then cmds + [c.value] else cmds)
    ensures all == cmds2 + rest
  {
    if c.Some? {
      SnocAssoc(all, cmds2, cmds, c.value, rest);
    } else {
      assert [] + rest == rest;
    }
  }

  /** The writes still to come after the segment. */
  lemma StepWrites(s: seq<char>, n: nat, r: nat, q: nat, count: nat, count2: nat, j: nat, te: nat, i: nat)
    requires r <= n <= |s| && count < MaxParallel
    requires j == Skip(s, Amp, r, n) < n && te == TokEnd(s, Amp, r, n) && q == NextStart(s, r, n)
    requires count2 == count + Produced(s, r, n)
    requires SplitWrites(s, n, 0, 0, i) <==> (i < r && SplitWrites(s, n, 0, 0, i)) || SplitWrites(s, n, r, count, i)
    ensures SplitWrites(s, n, 0, 0, i) <==> (i < q && SplitWrites(s, n, 0, 0, i)) || SplitWrites(s, n, q, count2, i)
    ensures i < q && SplitWrites(s, n, 0, 0, i) <==>
      (i < r && SplitWrites(s, n, 0, 0, i)) || Cut(s, r, n, i) || SegWrites(s, j, te, i)
  {
    if SplitWrites(s, n, q, count2, i) {
      SplitWritesIn(s, n, q, count2, i);
    }
    if SegWrites(s, j, te, i) {
      SegWritesIn(s, j, te, i);
    }
  }

  /** The next strtok_r call, from q, continues the loop. */
  lemma SplitLoopStep(b: seq<char>, s: seq<char>, n: nat, cur: seq<char>, r: nat,
                      tok: Option<nat>, q: nat, cmds: seq<Command>, j: nat, te: nat,
                      c: Option<Command>, cur1: seq<char>, tok2: Option<nat>, q2: nat, cur2: seq<char>)
    requires SegmentDone(b, s, n, cur, r, tok, q, cmds, j, te, c, cur1)
    requires TokCall(s, Amp, q, n, tok2, q2) && cur2 == CutToken(cur1, s, Amp, q, n)
    ensures SplitLoop(b, s, n, cur2, q, tok2, q2, if c.Some? then cmds + [c.value] else cmds)
  {
    var cmds2 := if c.Some? then cmds + [c.value] else cmds;
    TokensAfterCall(s, Amp, q, n, tok2, q2);
    StepCmds(s, n, r, q, cmds, j, te, c, cmds2);
    StepBuffer(b, s, n, cur, r, |cmds|, |cmds2|, j, te, q, cur1, cur2);
  }

  /** The buffer part of SplitLoopStep. */
  lemma StepBuffer(b: seq<char>, s: seq<char>, n: nat, cur: seq<char>, r: nat, count: nat, count2: nat,
                   j: nat, te: nat, q: nat, cur1: seq<char>, cur2: seq<char>)
    requires LoopWrites(b, s, n, cur, r, count) && |b| == |s| && count < MaxParallel
    requires j == Skip(s, Amp, r, n) < n && te == TokEnd(s, Amp, r, n) && q == NextStart(s, r, n)
    requires count2 == count + Produced(s, r, n)
    requires |cur1| == |cur| && forall i :: 0 <= i < |cur1| ==> cur1[i] == if SegWrites(s, j, te, i) then '\0' else cur[i]
    requires cur2 == CutToken(cur1, s, Amp, q, n)
    ensures LoopWrites(b, s, n, cur2, q, count2)
  {
    forall i | 0 <= i < |b|
      ensures SplitWrites(s, n, 0, 0, i) <==> (i < q && SplitWrites(s, n, 0, 0, i)) || SplitWrites(s, n, q, count2, i)
      ensures cur2[i] == if (i < q && SplitWrites(s, n, 0, 0, i)) || Cut(s, q, n, i) then '\0' else b[i]
    {
      CutTokenAt(cur1, s, q, n, i);
      StepAt(b, s, n, cur, cur1, cur2, r, q, count, count2, j, te, i);
    }
  }

  /** SplitLoopStep at one index i of the buffer. */
  lemma StepAt(b: seq<char>, s: seq<char>, n: nat, cur: seq<char>, cur1: seq<char>, cur2: seq<char>,
               r: nat, q: nat, count: nat, count2: nat, j: nat, te: nat, i: nat)
    requires r <= q <= n <= |s| && count < MaxParallel && i < |b|
    requires j == Skip(s, Amp, r, n) < n && te == TokEnd(s, Amp, r, n) && q == NextStart(s, r, n)
    requires count2 == count + Produced(s, r, n)
    requires SplitWrites(s, n, 0, 0, i) <==> (i < r && SplitWrites(s, n, 0, 0, i)) || SplitWrites(s, n, r, count, i)
    requires |cur| == |b| && cur[i] == if (i < r && SplitWrites(s, n, 0, 0, i)) || Cut(s, r, n, i) then '\0' else b[i]
    requires |cur1| == |cur| && cur1[i] == if SegWrites(s, j, te, i) then '\0' else cur[i]
    requires |cur2| == |cur1| && cur2[i] == if Cut(s, q, n, i) then '\0' else cur1[i]
    ensures SplitWrites(s, n, 0, 0, i) <==> (i < q && SplitWrites(s, n, 0, 0, i)) || SplitWrites(s, n, q, count2, i)
    ensures cur2[i] == if (i < q && SplitWrites(s, n, 0, 0, i)) || Cut(s, q, n, i) then '\0' else b[i]
  {
    StepWrites(s, n, r, q, count, count2, j, te, i);
  }

  /** strtok_r's write, at one index. */
  lemma CutTokenAt(b: seq<char>, s: seq<char>, q: nat, n: nat, i: nat)
    requires q <= n <= |s| && |b| == |s| && i < |b|
    ensures CutToken(b, s, Amp, q, n)[i] == if Cut(s, q, n, i) then '\0' else b[i]
  {
  }

  /** When the loop ends no command and no write is left to come. */
  lemma SplitLoopEnd(b: seq<char>, s: seq<char>, n: nat, cur: seq<char>, r: nat,
                     tok: Option<nat>, q: nat, cmds: seq<Command>)
    requires SplitLoop(b, s, n, cur, r, tok, q, cmds) && !(tok.Some? && |cmds| < MaxParallel)
    ensures cmds == SplitCmds(s, n, 0, 0)
    ensures forall i :: 0 <= i < |cur| ==> cur[i] == if SplitWrites(s, n, 0, 0, i) then '\0' else b[i]
  {
    assert SplitCmds(s, n, r, |cmds|) == [];
    forall i | 0 <= i < |cur|
      ensures cur[i] == if SplitWrites(s, n, 0, 0, i) then '\0' else b[i]
    {
      assert SplitWrites(s, n, r, |cmds|, i) == Cut(s, r, n, i);
    }
  }

  /** Lines 247-269: cut the line at s[0..n] on '&' with strtok_r, handle
      each segment in place and collect the commands parsed, at most
      MaxParallel of them, each marked background. */
  method CollectCommands(a: array<char>, ghost s: seq<char>, ghost n: nat) returns (cmds: seq<Command>, errs: seq<nat>)
    requires StrAt(a[..], s, 0, n)
    modifies a
    ensures cmds == SplitCmds(s, n, 0, 0) && errs == SplitErrors(s, n, 0, 0)
    ensures forall i :: 0 <= i < a.Length ==> a[i] == if SplitWrites(s, n, 0, 0, i) then '\0' else old(a[i])
  {
    ghost var b := a[..];
    var tok, q := StrTok(a, s, 0, Amp, n);
    SplitLoopStart(b, s, n, a[..], tok, q);
    ghost var r := 0;
    cmds, errs := [], [];
    while tok.Some? && |cmds| < MaxParallel
      invariant SplitLoop(b, s, n, a[..], r, tok, q, cmds) && ErrLoop(s, n, r, |cmds|, errs)
      decreases n - r
    {
      ghost var r0 := r;
      r := q;
      tok, q, cmds, errs := NextSegment(a, b, s, n, r0, tok, q, cmds, errs);
    }
    SplitLoopEnd(b, s, n, a[..], r, tok, q, cmds);
    ErrorsEnd(s, n, r, tok, q, |cmds|, errs);
  }

  /** One pass of the loop body (lines 251-268): handle the segment that
      the strtok_r call at r found, then make the next call, from q. */
  method NextSegment(a: array<char>, ghost b: seq<char>, ghost s: seq<char>, ghost n: nat, ghost r: nat,
                     tok: Option<nat>, q: nat, cmds: seq<Command>, errs: seq<nat>)
    returns (tok2: Option<nat>, q2: nat, cmds2: seq<Command>, errs2: seq<nat>)
    requires SplitLoop(b, s, n, a[..], r, tok, q, cmds) && ErrLoop(s, n, r, |cmds|, errs)
    requires tok.Some? && |cmds| < MaxParallel
    modifies a
    ensures r < q && SplitLoop(b, s, n, a[..], q, tok2, q2, cmds2) && ErrLoop(s, n, q, |cmds2|, errs2)
  {
    SplitLoopReady(b, s, n, a[..], r, tok, q, cmds);
    ghost var cur := a[..];
    ghost var te := TokEnd(s, Amp, r, n);
    var c, bad := ProcessSegment(a, s, tok.value, te);
    SplitLoopMid(b, s, n, cur, r, tok, q, cmds, tok.value, te, c, a[..]);
    ghost var cur1 := a[..];
    tok2, q2 := StrTok(a, s, q, Amp, n);
    SplitLoopStep(b, s, n, cur, r, tok, q, cmds, tok.value, te, c, cur1, tok2, q2, a[..]);
    cmds2 := if c.Some? then cmds + [c.value] else cmds;
    errs2 := if bad then errs + [tok.value] else errs;
    StepErrors(s, n, r, q, |cmds|, |cmds2|, tok.value, te, c, bad, errs, errs2);
  }

  /** The errors still to be reported after the segment at j. */
  lemma StepErrors(s: seq<char>, n: nat, r: nat, q: nat, count: nat, count2: nat, j: nat, te: nat,
                   c: Option<Command>, bad: bool, errs: seq<nat>, errs2: seq<nat>)
    requires r <= n <= |s| && count < MaxParallel
    requires j == Skip(s, Amp, r, n) < n && te == TokEnd(s, Amp, r, n) && q == NextStart(s, r, n)
    requires c == SegCmd(s, j, te) && bad == SegError(s, j, te)
    requires count2 == (if c.Some? then count + 1 else count) && errs2 == (if bad then errs + [j] else errs)
    requires ErrLoop(s, n, r, count, errs)
    ensures ErrLoop(s, n, q, count2, errs2)
  {
    assert count2 == count + Produced(s, r, n);
    var rest := SplitErrors(s, n, q, count + Produced(s, r, n));
    assert SplitErrors(s, n, r, count) == (if bad then [j] else []) + rest;
    if bad {
      SnocAssoc(SplitErrors(s, n, 0, 0), errs + [j], errs, j, rest);
    } else {
      assert [] + rest == rest;
    }
  }

  /** The error part of the loop's state: errs were reported before the
      strtok_r call started at r, and the rest are those from r. */
  ghost predicate ErrLoop(s: seq<char>, n: nat, r: nat, count: nat, errs: seq<nat>) {
    r <= n <= |s| && SplitErrors(s, n, 0, 0) == errs + SplitErrors(s, n, r, count)
  }

  /** When the loop ends every error has been reported. */
  lemma ErrorsEnd(s: seq<char>, n: nat, r: nat, tok: Option<nat>, q: nat, count: nat, errs: seq<nat>)
    requires ErrLoop(s, n, r, count, errs) && TokCall(s, Amp, r, n, tok, q) && !(tok.Some? && count < MaxParallel)
    ensures errs == SplitErrors(s, n, 0, 0)
  {
    assert SplitErrors(s, n, r, count) == [];
  }

  /** The writes around the first segment s[j..te]: none before it, one at
      j exactly when it starts with '>' (the NUL parse_command puts over
      it), and strtok_r's cut at te. */
  lemma FirstSegment(s: seq<char>, n: nat, j: nat, te: nat)
    requires n <= |s| && j == Skip(s, Amp, 0, n) < n && te == TokEnd(s, Amp, 0, n)
    ensures j < te && forall m :: j <= m < te ==> s[m] != '&'
    ensures forall i :: 0 <= i < j ==> s[i] == '&' && !SplitWrites(s, n, 0, 0, i)
    ensures SplitWrites(s, n, 0, 0, j) <==> s[j] == '>'
    ensures te < n ==> SplitWrites(s, n, 0, 0, te)
  {
    SkipChars(s, Amp, 0, n);
    SpanChars(s, Amp, j, n);
    var q := NextStart(s, 0, n);
    var count := Produced(s, 0, n);
    forall i | 0 <= i <= j && SplitWrites(s, n, 0, 0, i)
      ensures i == j && SegWrites(s, j, te, i)
    {
      if SegWrites(s, j, te, i) {
        SegWritesIn(s, j, te, i);
      } else if SplitWrites(s, n, q, count, i) {
        SplitWritesIn(s, n, q, count, i);
      }
    }
    var t := Skip(s, Blanks, j, te);
    var k := TrimEnd(s, t, te);
    if s[j] == '>' {
      assert t == j;
      assert Span(s, {'>'}, t, k) == j;
      assert ParseWrites(s, t, k, j);
      assert SegWrites(s, j, te, j);
    }
  }

  /** The first NUL of the final buffer lies in the first segment, and is
      its first character exactly when that is '>'. */
  lemma FirstWriteIn(s: seq<char>, n: nat, j: nat, te: nat)
    requires n <= |s| && j == Skip(s, Amp, 0, n) < n && te == TokEnd(s, Amp, 0, n)
    ensures j <= FirstWrite(s, n) <= te
    ensures FirstWrite(s, n) == j <==> s[j] == '>'
  {
    FirstSegment(s, n, j, te);
  }

  /** The line[-1] read at line 278: the first NUL is at index 0 of a
      nonempty line exactly when the line starts with '>'. */
  lemma FirstWriteZero(s: seq<char>, n: nat)
    requires 0 < n <= |s|
    ensures FirstWrite(s, n) == 0 <==> s[0] == '>'
  {
    var j := Skip(s, Amp, 0, n);
    SkipChars(s, Amp, 0, n);
    if j < n {
      FirstWriteIn(s, n, j, TokEnd(s, Amp, 0, n));
    } else {
      assert forall i :: 0 <= i < n ==> !SplitWrites(s, n, 0, 0, i);
    }
  }

  /** The test at line 278 as written: true exactly when the line starts
      with one or more '&' followed directly by '>' (as in "&>f & ls"), and
      so false for "sleep 1 &". */
  lemma AsWrittenFlagIs(s: seq<char>, n: nat)
    requires n <= |s| && Skip(s, Amp, 0, n) < n && FirstWrite(s, n) > 0
    ensures AsWrittenFlag(s, n) <==> 0 < Skip(s, Amp, 0, n) && s[Skip(s, Amp, 0, n)] == '>'
  {
    var j := Skip(s, Amp, 0, n);
    var te := TokEnd(s, Amp, 0, n);
    FirstSegment(s, n, j, te);
    FirstWriteIn(s, n, j, te);
  }

  /** split_parallel_commands as written, on the line at s[0..n]; []
      stands for NULL with count 0.  The source reads line[-1] when the
      first NUL written lands at index 0, which happens exactly when the
      line starts with '>' (FirstWriteZero) and some command was collected;
      that case is excluded here. */
  method SplitParallelCommands(a: array<char>, ghost s: seq<char>, ghost n: nat) returns (cmds: seq<Command>, errs: seq<nat>)
    requires StrAt(a[..], s, 0, n)
    requires n > 0 && s[0] == '>' ==> SplitCmds(s, n, 0, 0) == []
    modifies a
    ensures cmds == SplitAsWritten(s, n) && errs == SplitErrors(s, n, 0, 0)
    ensures forall i :: 0 <= i < a.Length ==> a[i] == if SplitWrites(s, n, 0, 0, i) then '\0' else old(a[i])
  {
    cmds, errs := CollectCommands(a, s, n);
    if |cmds| == 0 {
      return;
    }
    FirstWriteZero(s, n);
    var last := LastCharIsAmp(a, old(a[..]), s, n);
    cmds := SetLast(cmds, last);
  }

  /** The test at line 278 on the buffer the loop leaves, once the first
      NUL is known not to be at index 0. */
  method LastCharIsAmp(a: array<char>, ghost b: seq<char>, ghost s: seq<char>, ghost n: nat) returns (last: bool)
    requires StrAt(b, s, 0, n) && a.Length == |b| && FirstWrite(s, n) > 0
    requires forall i :: 0 <= i < a.Length ==> a[i] == if SplitWrites(s, n, 0, 0, i) then '\0' else b[i]
    ensures last == AsWrittenFlag(s, n)
  {
    FinalLine(b, s, n, a[..]);
    var len := StrLen(a, a[..], 0, FirstWrite(s, n));
    last := a[len - 1] == '&';
  }

  /** After the loop the line, read as a C string, ends at FirstWrite, and
      the characters before it are the original ones. */
  lemma FinalLine(b: seq<char>, s: seq<char>, n: nat, cur: seq<char>)
    requires StrAt(b, s, 0, n) && |cur| == |b|
    requires forall i :: 0 <= i < |cur| ==> cur[i] == if SplitWrites(s, n, 0, 0, i) then '\0' else b[i]
    ensures StrAt(cur, cur, 0, FirstWrite(s, n))
    ensures forall i :: 0 <= i < FirstWrite(s, n) ==> cur[i] == s[i]
  {
  }

  /** Whether the line at s[0..n] ends with '&', trailing blanks aside,
      read before anything is written into it. */
  method EndsWithAmp(a: array<char>, ghost s: seq<char>, ghost n: nat) returns (amp: bool)
    requires StrAt(a[..], s, 0, n)
    ensures amp == TrailingAmp(s, n)
  {
    var e: nat := StrLen(a, s, 0, n);
    while e > 0 && (a[e - 1] == ' ' || a[e - 1] == '\t')
      invariant e <= n && TrailingAmp(s, e) == TrailingAmp(s, n)
    {
      e := e - 1;
    }
    amp := e > 0 && a[e - 1] == '&';
  }

  /** The corrected split_parallel_commands: the trailing '&' is looked for
      before the line is cut up. */
  method SplitParallelCommandsFixed(a: array<char>, ghost s: seq<char>, ghost n: nat) returns (cmds: seq<Command>, errs: seq<nat>)
    requires StrAt(a[..], s, 0, n)
    modifies a
    ensures cmds == ParallelCommandsAt(s, n) && errs == SplitErrors(s, n, 0, 0)
    ensures forall i :: 0 <= i < a.Length ==> a[i] == if SplitWrites(s, n, 0, 0, i) then '\0' else old(a[i])
  {
    var amp := EndsWithAmp(a, s, n);
    cmds, errs := CollectCommands(a, s, n);
    if |cmds| > 0 {
      cmds := SetLast(cmds, amp);
    }
  }

  /** A line made only of '&' and blanks gives no command: every segment
      is blank once trimmed and is skipped without being parsed. */
  lemma {:induction false} OnlyOperators(s: seq<char>, n: nat, r: nat, count: nat)
    requires r <= n <= |s| && forall m :: r <= m < n ==> s[m] in Blanks || s[m] == '&'
    ensures SplitCmds(s, n, r, count) == []
    decreases n - r
  {
    var j := Skip(s, Amp, r, n);
    if count < MaxParallel && j < n {
      var te := TokEnd(s, Amp, r, n);
      var q := NextStart(s, r, n);
      SkipChars(s, Amp, r, n);
      SpanChars(s, Amp, j, n);
      assert forall m :: j <= m < te ==> s[m] in Blanks;
      SkipUnique(s, Blanks, j, te, te);
      assert SegCmd(s, j, te).None?;
      OnlyOperators(s, n, q, count + Produced(s, r, n));
      SplitCmdsUnfold(s, n, r, count, j, te, q);
    }
  }

  /** The segment trim runs before parse_command, so the two trailing
      spaces parse_command alone rejects never reach it from the shell. */
  lemma TrimmedTarget()
    ensures SegCmd("ls > out  ", 0, 10) == Some(Command(["ls"], Some("out"), true))
  {
    var s := "ls > out  ";
    assert Skip(s, Blanks, 0, 10) == 0;
    assert TrimEnd(s, 0, 10) == 8;
    assert Span(s, {'>'}, 0, 8) == 3;
    assert Skip(s, Blanks, 4, 8) == 5;
    assert Span(s, {' '}, 5, 8) == 8 && Span(s, {'>'}, 5, 8) == 8;
    assert TrimEnd(s, 5, 8) == 8;
    assert Skip(s, Blanks, 0, 3) == 0 && Span(s, Blanks, 0, 3) == 2;
    TokensUnfold(s, Blanks, 0, 3, 0, 2);
    TokensUnfold(s, Blanks, 3, 3, 3, 3);
    assert s[0..2] == "ls" && s[5..8] == "out";
    assert Target(s, 3, 8) == Some("out");
    assert TokensIn(s, Blanks, 0, 3) == ["ls"];
    assert ParseAt(s, 0, 8) == Parsed(Command(["ls"], Some("out"), false));
  }

  /** Runs of '&' collapse: a strtok_r call started anywhere inside a run
      of '&' leads to the same commands as one started at its beginning. */
  lemma SplitRunsCollapse(s: seq<char>, n: nat, r: nat, r2: nat, count: nat)
    requires r <= r2 <= n <= |s| && forall m :: r <= m < r2 ==> s[m] == '&'
    ensures SplitCmds(s, n, r, count) == SplitCmds(s, n, r2, count)
  {
    var j := Skip(s, Amp, r2, n);
    SkipChars(s, Amp, r2, n);
    SkipUnique(s, Amp, r, n, j);
    SplitCmdsSameStart(s, n, r, r2, count);
  }

  /** A segment s[r..m] free of '&' and ended by the '&' at m: the commands
      from r are that segment's command, when it gives one, followed by the
      commands of the rest of the line after m, which the segment does not
      otherwise affect. */
  lemma SplitCmdsAtAmp(s: seq<char>, n: nat, r: nat, m: nat, count: nat)
    requires r < m < n <= |s| && s[m] == '&' && count < MaxParallel
    requires forall i :: r <= i < m ==> s[i] != '&'
    ensures SplitCmds(s, n, r, count) ==
      (if SegCmd(s, r, m).Some? then [SegCmd(s, r, m).value] else []) +
      SplitCmds(s, n, m + 1, if SegCmd(s, r, m).Some? then count + 1 else count)
  {
    SkipUnique(s, Amp, r, n, r);
    SpanUnique(s, Amp, r, n, m);
    SplitCmdsParts(s, n, r, count, r, m, m + 1, if SegCmd(s, r, m).Some? then 1 else 0);
  }

  /** SplitCmds from r depends on r only through the first non-'&' index. */
  lemma SplitCmdsSameStart(s: seq<char>, n: nat, r: nat, r2: nat, count: nat)
    requires r <= n <= |s| && r2 <= n && Skip(s, Amp, r, n) == Skip(s, Amp, r2, n)
    ensures SplitCmds(s, n, r, count) == SplitCmds(s, n, r2, count)
  {
    var j := Skip(s, Amp, r, n);
    var te := Span(s, Amp, j, n);
    var q := if te == n then n else te + 1;
    var p := if SegCmd(s, j, te).Some? then 1 else 0;
    SplitCmdsParts(s, n, r, count, j, te, q, p);
    SplitCmdsParts(s, n, r2, count, j, te, q, p);
  }

  /** SplitCmds, one step, in terms of the first segment's bounds and its
      contribution p. */
  lemma SplitCmdsParts(s: seq<char>, n: nat, r: nat, count: nat, j: nat, te: nat, q: nat, p: nat)
    requires r <= n <= |s| && j == Skip(s, Amp, r, n) && te == Span(s, Amp, j, n) && q == (if te == n then n else te + 1)
    requires j <= te <= n && p == (if SegCmd(s, j, te).Some? then 1 else 0)
    ensures SplitCmds(s, n, r, count) ==
      if count >= MaxParallel || j == n then [] else
      (if SegCmd(s, j, te).Some? then [SegCmd(s, j, te).value] else []) + SplitCmds(s, n, q, count + p)
  {
    assert TokEnd(s, Amp, r, n) == te;
    if count < MaxParallel && j < n {
      SplitCmdsUnfold(s, n, r, count, j, te, q);
    } else {
      SplitCmdsDone(s, n, r, count);
    }
  }

  /** SplitCmds once the count is reached or no segment is left. */
  lemma SplitCmdsDone(s: seq<char>, n: nat, r: nat, count: nat)
    requires r <= n <= |s| && (count >= MaxParallel || Skip(s, Amp, r, n) == n)
    ensures SplitCmds(s, n, r, count) == []
  {
  }

  /** The corrected splitter: at most MaxParallel commands, each with words,
      every one but the last in the background, and the last in the
      background exactly when the line ends with '&'. */
  lemma ParallelFlags(s: seq<char>, n: nat)
    requires n <= |s|
    ensures var cs := ParallelCommandsAt(s, n);
      |cs| <= MaxParallel && (forall k :: 0 <= k < |cs| ==> cs[k].argv != []) &&
      (forall k :: 0 <= k < |cs| - 1 ==> cs[k].isBackground) &&
      (cs != [] ==> cs[|cs| - 1].isBackground == TrailingAmp(s, n))
  {
    var cs := SplitCmds(s, n, 0, 0);
    if cs != [] {
      var r := SetLast(cs, TrailingAmp(s, n));
      assert forall k :: 0 <= k < |cs| - 1 ==> r[k] == r[..|cs| - 1][k];
    }
  }

  /** The same shape as written, with the flag of line 278 on the last. */
  lemma AsWrittenFlags(s: seq<char>, n: nat)
    requires n <= |s|
    ensures var cs := SplitAsWritten(s, n);
      |cs| <= MaxParallel && (forall k :: 0 <= k < |cs| ==> cs[k].argv != []) &&
      (forall k :: 0 <= k < |cs| - 1 ==> cs[k].isBackground) &&
      (cs != [] ==> cs[|cs| - 1].isBackground == AsWrittenFlag(s, n))
  {
    var cs := SplitCmds(s, n, 0, 0);
    if cs != [] {
      var r := SetLast(cs, AsWrittenFlag(s, n));
      assert forall k :: 0 <= k < |cs| - 1 ==> r[k] == r[..|cs| - 1][k];
    }
  }

  /** A line without '&' is one segment, so it gives at most one command. */
  lemma NoAmpOneSegment(s: seq<char>, n: nat)
    requires n <= |s| && forall m :: 0 <= m < n ==> s[m] != '&'
    ensures |SplitCmds(s, n, 0, 0)| <= 1
  {
    if n > 0 {
      SkipUnique(s, Amp, 0, n, 0);
      SpanUnique(s, Amp, 0, n, n);
      assert NextStart(s, 0, n) == n;
      assert SplitCmds(s, n, n, Produced(s, 0, n)) == [];
    }
  }

  /** A line without '&' gives at most one command and waits for it, in
      the corrected splitter and as written alike. */
  lemma NoAmpForeground(s: seq<char>, n: nat)
    requires n <= |s| && forall m :: 0 <= m < n ==> s[m] != '&'
    ensures |ParallelCommandsAt(s, n)| <= 1 && forall k :: 0 <= k < |ParallelCommandsAt(s, n)| ==> !ParallelCommandsAt(s, n)[k].isBackground
    ensures |SplitAsWritten(s, n)| <= 1 && forall k :: 0 <= k < |SplitAsWritten(s, n)| ==> !SplitAsWritten(s, n)[k].isBackground
  {
    NoAmpOneSegment(s, n);
    NoAmpTrailing(s, n);
    var cs := SplitCmds(s, n, 0, 0);
    var f := FirstWrite(s, n);
    assert !AsWrittenFlag(s, n) by {
      if 0 < f {
        assert f - 1 < n;
      }
    }
    if cs != [] {
      assert ParallelCommandsAt(s, n) == SetLast(cs, false) == SplitAsWritten(s, n);
      assert |SetLast(cs, false)| == 1 && !SetLast(cs, false)[0].isBackground;
    }
  }

  /** Without '&' the line does not end with one. */
  lemma {:induction false} NoAmpTrailing(s: seq<char>, n: nat)
    requires n <= |s| && forall m :: 0 <= m < n ==> s[m] != '&'
    ensures !TrailingAmp(s, n)
  {
    if n > 0 && s[n - 1] in Blanks {
      NoAmpTrailing(s, n - 1);
    }
  }

  /** A line with neither '&' nor '>' and some non-blank character gives
      exactly one command: its words, no redirection, waited for, both as
      written and in the corrected splitter. */
  lemma SingleCommand(line: string)
    requires '&' !in line && '>' !in line && exists m :: 0 <= m < |line| && line[m] !in Blanks
    ensures ParallelCommands(line) == [Command(Tokens(line, Blanks), None, false)]
    ensures SplitAsWritten(line, |line|) == [Command(Tokens(line, Blanks), None, false)]
  {
    var n := |line|;
    NoAmpOneSegment(line, n);
    NoAmpTrailing(line, n);
    SkipUnique(line, Amp, 0, n, 0);
    SpanUnique(line, Amp, 0, n, n);
    NoTokens(line, Blanks, 0, n);
    var c := SegCmd(line, 0, n);
    var t := Skip(line, Blanks, 0, n);
    var k := TrimEnd(line, t, n);
    SkipChars(line, Blanks, 0, n);
    TokensSkipLead(line, Blanks, 0, n);
    TokensTrailing(line, Blanks, t, k, n);
    SpanUnique(line, {'>'}, t, k, k);
    assert c == Some(Command(Tokens(line, Blanks), None, true));
    assert SplitCmds(line, n, 0, 0) == [c.value];
    NoAmpForeground(line, n);
  }

  /** The comment at line 276 promises that "sleep 1 &" runs its command in
      the background; as written it is waited for (the first NUL is the
      one strtok writes after "sleep"), and the corrected splitter runs it
      in the background. */
  lemma SleepExample()
    ensures SplitAsWritten("sleep 1 &", 9) == [Command(["sleep", "1"], None, false)]
    ensures ParallelCommands("sleep 1 &") == [Command(["sleep", "1"], None, true)]
  {
    var s := "sleep 1 &";
    SleepSplit();
    FirstWriteZero(s, 9);
    AsWrittenFlagIs(s, 9);
    assert Skip(s, Amp, 0, 9) == 0;
    assert TrailingAmp(s, 9);
  }

  /** The one command "sleep 1 &" is cut into. */
  lemma SleepSplit()
    ensures SplitCmds("sleep 1 &", 9, 0, 0) == [Command(["sleep", "1"], None, true)]
  {
    var s := "sleep 1 &";
    assert Skip(s, Amp, 0, 9) == 0 && Span(s, Amp, 0, 9) == 8;
    assert Skip(s, Blanks, 0, 8) == 0 && TrimEnd(s, 0, 8) == 7;
    SleepParse();
    assert SegCmd(s, 0, 8) == Some(Command(["sleep", "1"], None, true));
    assert NextStart(s, 0, 9) == 9;
    assert SplitCmds(s, 9, 9, 1) == [];
  }

  /** parse_command on "sleep 1", inside "sleep 1 &". */
  lemma SleepParse()
    ensures ParseAt("sleep 1 &", 0, 7) == Parsed(Command(["sleep", "1"], None, false))
  {
    var s := "sleep 1 &";
    assert Span(s, {'>'}, 0, 7) == 7;
    assert TokensIn(s, Blanks, 6, 7) == ["1"] by {
      assert Skip(s, Blanks, 6, 7) == 6 && Span(s, Blanks, 6, 7) == 7;
      TokensUnfold(s, Blanks, 6, 7, 6, 7);
      assert s[6..7] == "1";
    }
    assert TokensIn(s, Blanks, 0, 7) == ["sleep", "1"] by {
      assert Skip(s, Blanks, 0, 7) == 0 && Span(s, Blanks, 0, 7) == 5;
      TokensUnfold(s, Blanks, 0, 7, 0, 5);
      assert s[0..5] == "sleep";
    }
  }

  /** For ">out & ls" the first NUL is at index 0 while a command ("ls")
      was collected, so line 278 reads line[-1]: the case the requires of
      SplitParallelCommands excludes. */
  lemma OutOfBoundsRead()
    ensures SplitCmds(">out & ls", 9, 0, 0) != [] && FirstWrite(">out & ls", 9) == 0
  {
    var s := ">out & ls";
    FirstWriteZero(s, 9);
    assert Skip(s, Amp, 0, 9) == 0 && Span(s, Amp, 0, 9) == 5;
    assert NextStart(s, 0, 9) == 6;
    LsSegment();
    assert SplitCmds(s, 9, 6, Produced(s, 0, 9)) != [];
  }

  /** The segment " ls" of ">out & ls" gives a command. */
  lemma LsSegment()
    ensures Skip(">out & ls", Amp, 6, 9) == 6 && TokEnd(">out & ls", Amp, 6, 9) == 9
    ensures SegCmd(">out & ls", 6, 9).Some?
  {
    var s := ">out & ls";
    assert Skip(s, Amp, 6, 9) == 6 && Span(s, Amp, 6, 9) == 9;
    assert Skip(s, Blanks, 6, 9) == 7 && TrimEnd(s, 7, 9) == 9;
    assert Span(s, {'>'}, 7, 9) == 9;
    assert Skip(s, Blanks, 7, 9) == 7 && Span(s, Blanks, 7, 9) == 9;
  }
}
