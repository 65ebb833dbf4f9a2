/** NUL-terminated strings in a mutable character buffer, and the C library
    calls the shell makes on them (strlen, strchr, strdup, strtok, strtok_r).

    A buffer is an `array<char>`; the C string starting at index q is the run
    of characters up to the first NUL, written '\0'.  Every buffer method takes
    a ghost sequence s, the reference content of the buffer, and requires the
    string at q to agree with s up to its NUL at index n (predicate StrAt).
    Results are then stated with the pure functions below, all of which look
    at a fixed sequence s between two indices:
      Skip(s, d, i, n)      strspn: first index in [i, n) outside d, else n
      Span(s, d, i, n)      strcspn: first index in [i, n) inside d, else n
      TokensIn(s, d, i, n)  the tokens strtok returns on s[i..n]
      CutAt(s, d, p, i)     whether strtok, run to completion on a string
                            starting at p, overwrites index i with NUL. */
module CString {

  datatype Option<+T> = None | Some(value: T)

  /** The delimiters of `strtok(…, " \t")`, also the characters trimmed. */
  const Blanks: set<char> := {' ', '\t'}

  /** In buffer b the string at q agrees with s and ends at the NUL at n. */
  ghost predicate StrAt(b: seq<char>, s: seq<char>, q: nat, n: nat) {
    |b| == |s| && q <= n < |b| && b[n] == '\0' &&
    forall i :: q <= i < n ==> b[i] == s[i] && s[i] != '\0'
  }

  /** strspn on s[i..n], as an index. */
  function Skip(s: seq<char>, d: set<char>, i: nat, n: nat): (k: nat)
    requires i <= n <= |s|
    ensures i <= k <= n
    decreases n - i
  {
    if i == n || s[i] !in d then i else Skip(s, d, i + 1, n)
  }

  /** strcspn on s[i..n], as an index. */
  function Span(s: seq<char>, d: set<char>, i: nat, n: nat): (k: nat)
    requires i <= n <= |s|
    ensures i <= k <= n
    decreases n - i
  {
    if i == n || s[i] in d then i else Span(s, d, i + 1, n)
  }

  /** Skip passes over characters of d only and stops at one outside d. */
  lemma {:induction false} SkipChars(s: seq<char>, d: set<char>, i: nat, n: nat)
    requires i <= n <= |s|
    ensures forall m :: i <= m < Skip(s, d, i, n) ==> s[m] in d
    ensures Skip(s, d, i, n) < n ==> s[Skip(s, d, i, n)] !in d
    decreases n - i
  {
    if i < n && s[i] in d {
      SkipChars(s, d, i + 1, n);
    }
  }

  /** Span passes over characters outside d only and stops at one in d. */
  lemma {:induction false} SpanChars(s: seq<char>, d: set<char>, i: nat, n: nat)
    requires i <= n <= |s|
    ensures forall m :: i <= m < Span(s, d, i, n) ==> s[m] !in d
    ensures Span(s, d, i, n) < n ==> s[Span(s, d, i, n)] in d
    decreases n - i
  {
    if i < n && s[i] !in d {
      SpanChars(s, d, i + 1, n);
    }
  }

  /** The index where a run of d-characters ends is Skip. */
  lemma {:induction false} SkipUnique(s: seq<char>, d: set<char>, i: nat, n: nat, k: nat)
    requires i <= k <= n <= |s|
    requires forall m :: i <= m < k ==> s[m] in d
    requires k < n ==> s[k] !in d
    ensures Skip(s, d, i, n) == k
    decreases k - i
  {
    if i < k {
      SkipUnique(s, d, i + 1, n, k);
    }
  }

  /** The index where a run of non-d characters ends is Span. */
  lemma {:induction false} SpanUnique(s: seq<char>, d: set<char>, i: nat, n: nat, k: nat)
    requires i <= k <= n <= |s|
    requires forall m :: i <= m < k ==> s[m] !in d
    requires k < n ==> s[k] in d
    ensures Span(s, d, i, n) == k
    decreases k - i
  {
    if i < k {
      SpanUnique(s, d, i + 1, n, k);
    }
  }

  /** t holds the characters of s[i..n] from index i2 on. */
  predicate Agree(s: seq<char>, i: nat, n: nat, t: seq<char>, i2: nat)
    requires i <= n <= |s| && i2 + (n - i) <= |t|
    decreases n - i
  {
    i == n || (t[i2] == s[i] && Agree(s, i + 1, n, t, i2 + 1))
  }

  /** Agreement, character by character. */
  lemma {:induction false} AgreeOfChars(s: seq<char>, i: nat, n: nat, t: seq<char>, i2: nat)
    requires i <= n <= |s| && i2 + (n - i) <= |t|
    requires forall m :: i <= m < n ==> t[i2 + (m - i)] == s[m]
    ensures Agree(s, i, n, t, i2)
    decreases n - i
  {
    if i < n {
      assert t[i2 + (i - i)] == s[i];
      AgreeOfChars(s, i + 1, n, t, i2 + 1);
    }
  }

  /** Agreement on s[i..n] holds on any later part s[k..n]. */
  lemma {:induction false} AgreeLater(s: seq<char>, i: nat, k: nat, n: nat, t: seq<char>, i2: nat, k2: nat)
    requires i <= k <= n <= |s| && i2 + (n - i) <= |t| && k2 - i2 == k - i
    requires Agree(s, i, n, t, i2)
    ensures Agree(s, k, n, t, k2)
    decreases k - i
  {
    if i < k {
      AgreeLater(s, i + 1, k, n, t, i2 + 1, k2);
    }
  }

  /** Agreement on s[i..n] gives equal slices inside it. */
  lemma {:induction false} AgreeSlice(s: seq<char>, i: nat, e: nat, n: nat, t: seq<char>, i2: nat, e2: nat)
    requires i <= e <= n <= |s| && i2 + (n - i) <= |t| && e2 - i2 == e - i
    requires Agree(s, i, n, t, i2)
    ensures t[i2..e2] == s[i..e]
    decreases e - i
  {
    if i < e {
      AgreeSlice(s, i + 1, e, n, t, i2 + 1, e2);
      assert t[i2..e2] == [t[i2]] + t[i2 + 1..e2];
      assert s[i..e] == [s[i]] + s[i + 1..e];
    }
  }

  /** Skip and Span look only at s[i..n]: a sequence t that holds the same
      characters from i2 on gives the same answers, shifted. */
  lemma {:induction false} ScanAgree(s: seq<char>, i: nat, n: nat, t: seq<char>, i2: nat, n2: nat, d: set<char>)
    requires i <= n <= |s| && n2 <= |t| && n2 - i2 == n - i
    requires Agree(s, i, n, t, i2)
    ensures Skip(t, d, i2, n2) - i2 == Skip(s, d, i, n) - i
    ensures Span(t, d, i2, n2) - i2 == Span(s, d, i, n) - i
    decreases n - i
  {
    if i < n {
      ScanAgree(s, i + 1, n, t, i2 + 1, n2, d);
    }
  }

  /** Lowering the end bound from n to m cuts Skip at m. */
  lemma SkipBound(s: seq<char>, d: set<char>, i: nat, m: nat, n: nat)
    requires i <= m <= n <= |s|
    ensures Skip(s, d, i, m) == if Skip(s, d, i, n) < m then Skip(s, d, i, n) else m
  {
    SkipChars(s, d, i, n);
    var k := Skip(s, d, i, n);
    SkipUnique(s, d, i, m, if k < m then k else m);
  }

  /** Lowering the end bound from n to m cuts Span at m. */
  lemma SpanBound(s: seq<char>, d: set<char>, i: nat, m: nat, n: nat)
    requires i <= m <= n <= |s|
    ensures Span(s, d, i, m) == if Span(s, d, i, n) < m then Span(s, d, i, n) else m
  {
    SpanChars(s, d, i, n);
    var k := Span(s, d, i, n);
    SpanUnique(s, d, i, m, if k < m then k else m);
  }

  /** The tokens strtok returns, one after another, on the string s[i..n]:
      skip delimiters, take the run of non-delimiters, continue after the
      delimiter that ends it. */
  function TokensIn(s: seq<char>, d: set<char>, i: nat, n: nat): seq<seq<char>>
    requires i <= n <= |s|
    decreases n - i
  {
    var j := Skip(s, d, i, n);
    if j == n then []
    else
      var e := Span(s, d, j, n);
      if e == n then [s[j..e]] else [s[j..e]] + TokensIn(s, d, e + 1, n)
  }

  /** The tokens of a whole sequence. */
  function Tokens(s: seq<char>, d: set<char>): seq<seq<char>> {
    TokensIn(s, d, 0, |s|)
  }

  /** TokensIn, one step, at a given token start j and end e. */
  lemma TokensUnfold(s: seq<char>, d: set<char>, i: nat, n: nat, j: nat, e: nat)
    requires i <= n <= |s| && j == Skip(s, d, i, n) && e == Span(s, d, j, n)
    ensures TokensIn(s, d, i, n) ==
      if j == n then [] else if e == n then [s[j..e]] else [s[j..e]] + TokensIn(s, d, e + 1, n)
  {
  }

  /** TokensIn, one step, when a delimiter ends the first token. */
  lemma TokensFirst(s: seq<char>, d: set<char>, i: nat, n: nat, j: nat, e: nat)
    requires i <= n <= |s| && j == Skip(s, d, i, n) && j < n && e == Span(s, d, j, n) && e < n
    ensures TokensIn(s, d, i, n) == [s[j..e]] + TokensIn(s, d, e + 1, n)
  {
  }

  /** Moving the tail of a cons across a concatenation: [w] + (x + y) is
      ([w] + x) + y. */
  lemma ConsAssoc<T>(a: seq<T>, b: seq<T>, w: T, x: seq<T>, y: seq<T>)
    requires a == [w] + (x + y) && b == [w] + x
    ensures a == b + y
  {
  }

  /** Moving an element across a concatenation: x + ([w] + y) is
      (x + [w]) + y. */
  lemma SnocAssoc<T>(a: seq<T>, b: seq<T>, x: seq<T>, w: T, y: seq<T>)
    requires a == x + ([w] + y) && b == x + [w]
    ensures a == b + y
  {
  }

  /** Two strings whose first tokens agree, and whose tokens after them
      (from r and r2) agree, have the same tokens. */
  lemma TokensSameStep(s: seq<char>, t: seq<char>, d: set<char>, i: nat, n: nat, j: nat, e: nat, r: nat,
                       i2: nat, n2: nat, j2: nat, e2: nat, r2: nat)
    requires i <= n <= |s| && i2 <= n2 <= |t|
    requires j == Skip(s, d, i, n) && j2 == Skip(t, d, i2, n2) && (j == n <==> j2 == n2)
    requires e == Span(s, d, j, n) && e2 == Span(t, d, j2, n2) && (e == n <==> e2 == n2)
    requires r == e + 1 && r2 == e2 + 1
    requires j < n ==> t[j2..e2] == s[j..e]
    requires j < n && e < n ==> TokensIn(t, d, r2, n2) == TokensIn(s, d, r, n)
    ensures TokensIn(t, d, i2, n2) == TokensIn(s, d, i, n)
  {
    TokensUnfold(s, d, i, n, j, e);
    TokensUnfold(t, d, i2, n2, j2, e2);
  }

  /** Tokens come out nonempty and free of delimiters. */
  lemma {:induction false} TokensShape(s: seq<char>, d: set<char>, i: nat, n: nat)
    requires i <= n <= |s|
    ensures forall k :: 0 <= k < |TokensIn(s, d, i, n)| ==>
      TokensIn(s, d, i, n)[k] != [] && forall c :: c in TokensIn(s, d, i, n)[k] ==> c !in d
    decreases n - i
  {
    var j := Skip(s, d, i, n);
    if j < n {
      var e := Span(s, d, j, n);
      SkipChars(s, d, i, n);
      SpanChars(s, d, j, n);
      assert forall c :: c in s[j..e] ==> c !in d;
      if e < n {
        TokensShape(s, d, e + 1, n);
      }
    }
  }

  /** Characters absent from s[i..n] are absent from its tokens. */
  lemma {:induction false} TokensAvoid(s: seq<char>, d: set<char>, i: nat, n: nat, x: set<char>)
    requires i <= n <= |s|
    requires forall m :: i <= m < n ==> s[m] !in x
    ensures forall k :: 0 <= k < |TokensIn(s, d, i, n)| ==>
      forall c :: c in TokensIn(s, d, i, n)[k] ==> c !in x
    decreases n - i
  {
    var j := Skip(s, d, i, n);
    if j < n {
      var e := Span(s, d, j, n);
      assert forall c :: c in s[j..e] ==> c !in x;
      if e < n {
        TokensAvoid(s, d, e + 1, n, x);
      }
    }
  }

  /** There are no tokens exactly when every character is a delimiter. */
  lemma NoTokens(s: seq<char>, d: set<char>, i: nat, n: nat)
    requires i <= n <= |s|
    ensures TokensIn(s, d, i, n) == [] <==> forall m :: i <= m < n ==> s[m] in d
  {
    SkipChars(s, d, i, n);
  }

  /** Leading delimiters do not change the tokens. */
  lemma TokensSkipLead(s: seq<char>, d: set<char>, i: nat, n: nat)
    requires i <= n <= |s|
    ensures TokensIn(s, d, i, n) == TokensIn(s, d, Skip(s, d, i, n), n)
  {
    var j := Skip(s, d, i, n);
    SkipChars(s, d, i, n);
    SkipUnique(s, d, j, n, j);
    TokensUnfold(s, d, i, n, j, Span(s, d, j, n));
    TokensUnfold(s, d, j, n, j, Span(s, d, j, n));
  }

  /** Trailing delimiters do not change the tokens. */
  lemma TokensTrailing(s: seq<char>, d: set<char>, t: nat, k: nat, n: nat)
    requires t <= k <= n <= |s|
    requires forall m :: k <= m < n ==> s[m] in d
    ensures TokensIn(s, d, t, k) == TokensIn(s, d, t, n)
  {
    if k < n {
      TokensSplit(s, d, t, k, n);
      NoTokens(s, d, k + 1, n);
    }
  }

  /** TokensIn looks only at s[i..n] (see ScanAgree). */
  lemma {:induction false} TokensAgree(s: seq<char>, i: nat, n: nat, t: seq<char>, i2: nat, n2: nat, d: set<char>)
    requires i <= n <= |s| && n2 <= |t| && n2 - i2 == n - i
    requires Agree(s, i, n, t, i2)
    ensures TokensIn(t, d, i2, n2) == TokensIn(s, d, i, n)
    decreases n - i
  {
    var j := Skip(s, d, i, n);
    var e := Span(s, d, j, n);
    var j2 := Skip(t, d, i2, n2);
    var e2 := Span(t, d, j2, n2);
    AgreeFirst(s, i, n, t, i2, n2, d, j, e, j2, e2);
    if j < n && e < n {
      TokensAgree(s, e + 1, n, t, e2 + 1, n2, d);
    }
    TokensSameStep(s, t, d, i, n, j, e, e + 1, i2, n2, j2, e2, e2 + 1);
  }

  /** Agreement carries over to the first token and to what follows it. */
  lemma AgreeFirst(s: seq<char>, i: nat, n: nat, t: seq<char>, i2: nat, n2: nat, d: set<char>,
                   j: nat, e: nat, j2: nat, e2: nat)
    requires i <= n <= |s| && n2 <= |t| && n2 - i2 == n - i
    requires Agree(s, i, n, t, i2)
    requires j == Skip(s, d, i, n) && e == Span(s, d, j, n)
    requires j2 == Skip(t, d, i2, n2) && e2 == Span(t, d, j2, n2)
    ensures j2 - i2 == j - i && e2 - i2 == e - i
    ensures j < n ==> t[j2..e2] == s[j..e]
    ensures j < n && e < n ==> Agree(s, e + 1, n, t, e2 + 1)
  {
    ScanAgree(s, i, n, t, i2, n2, d);
    if j < n {
      AgreeLater(s, i, j, n, t, i2, j2);
      ScanAgree(s, j, n, t, j2, n2, d);
      AgreeSlice(s, j, e, n, t, j2, e2);
      if e < n {
        AgreeLater(s, j, e + 1, n, t, j2, e2 + 1);
      }
    }
  }

  /** TokensSplit when the first token ends before m. */
  lemma TokensSplitBefore(s: seq<char>, d: set<char>, i: nat, m: nat, n: nat, j: nat, e: nat)
    requires i <= m < n <= |s| && s[m] in d
    requires j == Skip(s, d, i, n) && j < m && e == Span(s, d, j, n) && e < m
    requires TokensIn(s, d, e + 1, n) == TokensIn(s, d, e + 1, m) + TokensIn(s, d, m + 1, n)
    ensures TokensIn(s, d, i, n) == TokensIn(s, d, i, m) + TokensIn(s, d, m + 1, n)
  {
    SkipBound(s, d, i, m, n);
    SpanBound(s, d, j, m, n);
    TokensFirst(s, d, i, n, j, e);
    TokensFirst(s, d, i, m, j, e);
    ConsAssoc(TokensIn(s, d, i, n), TokensIn(s, d, i, m), s[j..e], TokensIn(s, d, e + 1, m), TokensIn(s, d, m + 1, n));
  }

  /** TokensSplit when the first token runs up to m. */
  lemma TokensSplitAt(s: seq<char>, d: set<char>, i: nat, m: nat, n: nat, j: nat, e: nat)
    requires i <= m < n <= |s| && s[m] in d
    requires j == Skip(s, d, i, n) && j < m && e == Span(s, d, j, n) && e >= m
    ensures TokensIn(s, d, i, n) == TokensIn(s, d, i, m) + TokensIn(s, d, m + 1, n)
  {
    SkipBound(s, d, i, m, n);
    SpanChars(s, d, j, n);
    SpanBound(s, d, j, m, n);
    TokensUnfold(s, d, i, n, j, m);
    TokensUnfold(s, d, i, m, j, m);
  }

  /** TokensSplit when no token starts before m. */
  lemma TokensSplitAfter(s: seq<char>, d: set<char>, i: nat, m: nat, n: nat, j: nat)
    requires i <= m < n <= |s| && s[m] in d
    requires j == Skip(s, d, i, n) && j >= m
    ensures TokensIn(s, d, i, n) == TokensIn(s, d, i, m) + TokensIn(s, d, m + 1, n)
  {
    SkipBound(s, d, i, m, n);
    SkipChars(s, d, i, n);
    SkipUnique(s, d, m + 1, n, j);
    var e := Span(s, d, j, n);
    TokensSameStep(s, s, d, m + 1, n, j, e, e + 1, i, n, j, e, e + 1);
    TokensUnfold(s, d, i, m, m, m);
  }

  /** Splitting the string at a delimiter splits its tokens. */
  lemma {:induction false} TokensSplit(s: seq<char>, d: set<char>, i: nat, m: nat, n: nat)
    requires i <= m < n <= |s| && s[m] in d
    ensures TokensIn(s, d, i, n) == TokensIn(s, d, i, m) + TokensIn(s, d, m + 1, n)
    decreases m - i
  {
    var j := Skip(s, d, i, n);
    if j < m {
      var e := Span(s, d, j, n);
      if e < m {
        TokensSplit(s, d, e + 1, m, n);
        TokensSplitBefore(s, d, i, m, n, j, e);
      } else {
        TokensSplitAt(s, d, i, m, n, j, e);
      }
    } else {
      TokensSplitAfter(s, d, i, m, n, j);
    }
  }

  /** The tokens of the part x of x + [c] + y, taken in place. */
  lemma TokensPrefix(x: seq<char>, c: char, y: seq<char>, d: set<char>)
    ensures TokensIn(x + [c] + y, d, 0, |x|) == Tokens(x, d)
  {
    var z := x + [c] + y;
    assert forall k :: 0 <= k < |x| ==> z[0 + (k - 0)] == x[k];
    AgreeOfChars(x, 0, |x|, z, 0);
    TokensAgree(x, 0, |x|, z, 0, |x|, d);
  }

  /** The tokens of the part y of x + [c] + y, taken in place. */
  lemma TokensSuffix(x: seq<char>, c: char, y: seq<char>, d: set<char>)
    ensures TokensIn(x + [c] + y, d, |x| + 1, |x + [c] + y|) == Tokens(y, d)
  {
    var z := x + [c] + y;
    assert forall k :: 0 <= k < |y| ==> z[(|x| + 1) + (k - 0)] == y[k];
    AgreeOfChars(y, 0, |y|, z, |x| + 1);
    TokensAgree(y, 0, |y|, z, |x| + 1, |z|, d);
  }

  /** Tokens of a concatenation joined by one delimiter. */
  lemma TokensConcat(x: seq<char>, c: char, y: seq<char>, d: set<char>)
    requires c in d
    ensures Tokens(x + [c] + y, d) == Tokens(x, d) + Tokens(y, d)
  {
    var z := x + [c] + y;
    TokensSplit(z, d, 0, |x|, |z|);
    TokensPrefix(x, c, y, d);
    TokensSuffix(x, c, y, d);
  }

  /** The words of ws separated by single copies of c. */
  function Join(ws: seq<seq<char>>, c: char): seq<char> {
    if ws == [] then []
    else if |ws| == 1 then ws[0]
    else ws[0] + [c] + Join(ws[1..], c)
  }

  /** Characters absent from the words and the separator are absent from
      their join. */
  lemma {:induction false} JoinAvoid(ws: seq<seq<char>>, c: char, x: set<char>)
    requires c !in x
    requires forall k :: 0 <= k < |ws| ==> forall ch :: ch in ws[k] ==> ch !in x
    ensures forall ch :: ch in Join(ws, c) ==> ch !in x
  {
    if |ws| > 1 {
      JoinAvoid(ws[1..], c, x);
      assert forall k :: 1 <= k < |ws| ==> ws[k] == ws[1..][k - 1];
    }
  }

  /** A nonempty word without delimiters is one token. */
  lemma OneToken(w: seq<char>, d: set<char>)
    requires w != [] && forall ch :: ch in w ==> ch !in d
    ensures Tokens(w, d) == [w]
  {
    SkipUnique(w, d, 0, |w|, 0);
    SpanUnique(w, d, 0, |w|, |w|);
    assert w[0..|w|] == w;
  }

  /** Round trip: tokenising joined words gives the words back. */
  lemma {:induction false} TokensOfJoin(ws: seq<seq<char>>, c: char, d: set<char>)
    requires c in d
    requires forall k :: 0 <= k < |ws| ==> ws[k] != [] && forall ch :: ch in ws[k] ==> ch !in d
    ensures Tokens(Join(ws, c), d) == ws
  {
    if ws == [] {
    } else if |ws| == 1 {
      OneToken(ws[0], d);
    } else {
      OneToken(ws[0], d);
      TokensOfJoin(ws[1..], c, d);
      TokensConcat(ws[0], c, Join(ws[1..], c), d);
    }
  }

  /** strtok, run to completion on the string starting at p, writes a NUL
      over each delimiter that directly follows a token character. */
  predicate CutAt(s: seq<char>, d: set<char>, p: nat, i: nat)
    requires i < |s|
  {
    p < i && s[i] in d && s[i - 1] !in d
  }

  /** Between a restart point q (the string's start, just after a
      delimiter, or its end) and the end of its next token, the only cut is
      that end, which lies past the token's first character. */
  lemma CutsOfNextToken(s: seq<char>, d: set<char>, p: nat, q: nat, n: nat)
    requires p <= q <= n <= |s|
    requires q == p || q == n || s[q - 1] in d
    ensures var j := Skip(s, d, q, n); j < n ==> j < Span(s, d, j, n)
    ensures var e := Span(s, d, Skip(s, d, q, n), n); e < n ==> s[e] in d
    ensures var e := Span(s, d, Skip(s, d, q, n), n);
      forall i :: q <= i < n && i <= e ==> (CutAt(s, d, p, i) <==> i == e)
  {
    var j := Skip(s, d, q, n);
    SkipChars(s, d, q, n);
    SpanChars(s, d, j, n);
  }

  /** Buffer b once strtok, working through the string that starts at p,
      has made its cuts at the indices below q. */
  ghost function CutsUpTo(b: seq<char>, s: seq<char>, d: set<char>, p: nat, q: nat): (r: seq<char>)
    requires |b| == |s|
    ensures |r| == |b|
  {
    seq(|b|, k requires 0 <= k < |b| => if p <= k < q && CutAt(s, d, p, k) then '\0' else b[k])
  }

  /** With no cut made yet, the buffer is as it was. */
  lemma NoCutsYet(b: seq<char>, s: seq<char>, d: set<char>, p: nat)
    requires |b| == |s|
    ensures CutsUpTo(b, s, d, p, p) == b
  {
  }

  /** When s[p..n] is all delimiters strtok makes no cut in it. */
  lemma NoCuts(b: seq<char>, s: seq<char>, d: set<char>, p: nat, n: nat)
    requires |b| == |s| && p <= n <= |s|
    requires forall m :: p <= m < n ==> s[m] in d
    ensures CutsUpTo(b, s, d, p, n) == b
  {
  }

  /** The end of the token that a strtok call from q finds: the index of
      the delimiter or NUL after it (n when there is no token). */
  function TokEnd(s: seq<char>, d: set<char>, q: nat, n: nat): (e: nat)
    requires q <= n <= |s|
    ensures q <= e <= n
  {
    Span(s, d, Skip(s, d, q, n), n)
  }

  /** What one strtok call from q returns: no token at the end of the
      string; otherwise the token's first index tok, and the index next
      where the following call starts, after the delimiter that ends the
      token or at the end of the string. */
  predicate TokCall(s: seq<char>, d: set<char>, q: nat, n: nat, tok: Option<nat>, next: nat)
    requires q <= n <= |s|
  {
    var j := Skip(s, d, q, n);
    var e := TokEnd(s, d, q, n);
    if j == n then tok == None && next == n
    else if e == n then tok == Some(j) && next == n
    else tok == Some(j) && next == e + 1
  }

  /** One strtok call, from q0 to the next one at q: the tokens from q0
      are the token found followed by the tokens from q. */
  lemma TokensAfterCall(s: seq<char>, d: set<char>, q0: nat, n: nat, tok: Option<nat>, q: nat)
    requires q0 <= n <= |s| && TokCall(s, d, q0, n, tok, q)
    ensures q0 <= q <= n && (tok.Some? ==> q0 <= tok.value < TokEnd(s, d, q0, n))
    ensures TokensIn(s, d, q0, n) ==
      (if tok.Some? then [s[tok.value..TokEnd(s, d, q0, n)]] else []) + TokensIn(s, d, q, n)
  {
    var j := Skip(s, d, q0, n);
    var e := Span(s, d, j, n);
    TokensUnfold(s, d, q0, n, j, e);
    SkipChars(s, d, q0, n);
    if j == n || e == n {
      TokensUnfold(s, d, n, n, n, n);
      assert TokensIn(s, d, q, n) == [];
    }
  }

  /** One strtok call, from a restart point q0 (the start p, the end n, or
      just after a delimiter) to the next one q: q is again a restart
      point, the cuts grow by the NUL at the token's end when a delimiter
      ends it, and both the token and the rest of the string stay intact
      strings of the cut buffer. */
  lemma AfterCall(b: seq<char>, s: seq<char>, d: set<char>, p: nat, q0: nat, n: nat, tok: Option<nat>, q: nat)
    requires StrAt(b, s, p, n) && p <= q0 <= n
    requires q0 == p || q0 == n || s[q0 - 1] in d
    requires TokCall(s, d, q0, n, tok, q)
    ensures q0 <= q <= n && (q == n || (p < q && s[q - 1] in d))
    ensures var te := TokEnd(s, d, q0, n);
      CutsUpTo(b, s, d, p, q) ==
        (if te < n then CutsUpTo(b, s, d, p, q0)[te := '\0'] else CutsUpTo(b, s, d, p, q0))
    ensures StrAt(CutsUpTo(b, s, d, p, q), s, q, n)
    ensures tok.Some? ==> StrAt(CutsUpTo(b, s, d, p, q), s, tok.value, TokEnd(s, d, q0, n))
  {
    CutsOfNextToken(s, d, p, q0, n);
    var j := Skip(s, d, q0, n);
    var e := Span(s, d, j, n);
    SkipChars(s, d, q0, n);
    var c0, c := CutsUpTo(b, s, d, p, q0), CutsUpTo(b, s, d, p, q);
    var r := if e < n then c0[e := '\0'] else c0;
    forall k | 0 <= k < |b|
      ensures c[k] == r[k]
    {
      if q0 <= k < q && k != e {
        assert !CutAt(s, d, p, k);
      }
    }
    assert c == r;
  }

  /** A cut buffer still holds the string from q, untouched. */
  lemma CutsKeepRest(b: seq<char>, s: seq<char>, d: set<char>, p: nat, q: nat, n: nat)
    requires StrAt(b, s, p, n) && p <= q <= n
    ensures StrAt(CutsUpTo(b, s, d, p, q), s, q, n)
  {
  }

  /** The buffer after one strtok call from q: the token's end is
      overwritten by NUL when a delimiter ends it. */
  function CutToken(b: seq<char>, s: seq<char>, d: set<char>, q: nat, n: nat): (r: seq<char>)
    requires q <= n <= |s| && |b| == |s|
    ensures |r| == |b|
  {
    var te := TokEnd(s, d, q, n);
    if te < n then b[te := '\0'] else b
  }

  /** The state of a loop that calls strtok on the string of buffer b
      starting at p: the last call started at the restart point r and
      returned tok, the next one starts at q, the buffer cur holds every cut
      made before q, and the token returned is an intact string of cur. */
  ghost predicate TokLoop(b: seq<char>, s: seq<char>, d: set<char>, p: nat, n: nat,
                          cur: seq<char>, r: nat, tok: Option<nat>, q: nat)
  {
    StrAt(b, s, p, n) && '\0' !in d && p <= r <= q <= n &&
    (r == p || r == n || s[r - 1] in d) && (q == n || (p < q && s[q - 1] in d)) &&
    TokCall(s, d, r, n, tok, q) && cur == CutsUpTo(b, s, d, p, q) &&
    (tok.Some? ==> StrAt(cur, s, tok.value, TokEnd(s, d, r, n)))
  }

  /** The first strtok call, on the string itself, starts such a loop. */
  lemma TokLoopStart(b: seq<char>, s: seq<char>, d: set<char>, p: nat, n: nat, cur: seq<char>, tok: Option<nat>, q: nat)
    requires StrAt(b, s, p, n) && '\0' !in d
    requires TokCall(s, d, p, n, tok, q) && cur == CutToken(b, s, d, p, n)
    ensures TokLoop(b, s, d, p, n, cur, p, tok, q)
  {
    NoCutsYet(b, s, d, p);
    AfterCall(b, s, d, p, p, n, tok, q);
  }

  /** In such a loop the next call can be made, on the rest of the string,
      and the token found lies inside the string. */
  lemma TokLoopReady(b: seq<char>, s: seq<char>, d: set<char>, p: nat, n: nat, cur: seq<char>, r: nat, tok: Option<nat>, q: nat)
    requires TokLoop(b, s, d, p, n, cur, r, tok, q)
    ensures StrAt(cur, s, q, n) && (tok.None? ==> q == n)
    ensures tok.Some? ==> r < q && r <= tok.value < TokEnd(s, d, r, n) <= n
    ensures TokensIn(s, d, r, n) == (if tok.Some? then [s[tok.value..TokEnd(s, d, r, n)]] else []) + TokensIn(s, d, q, n)
  {
    CutsKeepRest(b, s, d, p, q, n);
    TokensAfterCall(s, d, r, n, tok, q);
  }

  /** The next strtok call, from q, continues the loop with q as its
      restart point. */
  lemma TokLoopStep(b: seq<char>, s: seq<char>, d: set<char>, p: nat, n: nat, cur: seq<char>, r: nat, tok: Option<nat>, q: nat,
                    cur2: seq<char>, tok2: Option<nat>, q2: nat)
    requires TokLoop(b, s, d, p, n, cur, r, tok, q)
    requires TokCall(s, d, q, n, tok2, q2) && cur2 == CutToken(cur, s, d, q, n)
    ensures TokLoop(b, s, d, p, n, cur2, q, tok2, q2)
  {
    AfterCall(b, s, d, p, q, n, tok2, q2);
  }

  /** strlen. */
  method StrLen(a: array<char>, ghost s: seq<char>, p: nat, ghost n: nat) returns (len: nat)
    requires StrAt(a[..], s, p, n)
    ensures len == n - p
  {
    var i := p;
    while a[i] != '\0'
      invariant p <= i <= n
      decreases n - i
    {
      i := i + 1;
    }
    len := i - p;
  }

  /** strchr for a character other than NUL: the first occurrence, if any. */
  method StrChr(a: array<char>, ghost s: seq<char>, p: nat, c: char, ghost n: nat) returns (r: Option<nat>)
    requires StrAt(a[..], s, p, n) && c != '\0'
    ensures r == if Span(s, {c}, p, n) < n then Some(Span(s, {c}, p, n)) else None
  {
    var i := p;
    while a[i] != '\0' && a[i] != c
      invariant p <= i <= n
      invariant forall m :: p <= m < i ==> s[m] !in {c}
      decreases n - i
    {
      i := i + 1;
    }
    SpanUnique(s, {c}, p, n, i);
    r := if a[i] == c then Some(i) else None;
  }

  /** strdup, as the value of the copy. */
  method StrDup(a: array<char>, ghost s: seq<char>, p: nat, ghost n: nat) returns (r: seq<char>)
    requires StrAt(a[..], s, p, n)
    ensures r == s[p..n]
  {
    var len := StrLen(a, s, p, n);
    r := a[p..p + len];
    assert forall m :: 0 <= m < len ==> r[m] == a[p + m];
  }

  /** strdup into a fresh buffer, NUL included. */
  method StrDupBuffer(a: array<char>, ghost s: seq<char>, p: nat, ghost n: nat) returns (b: array<char>)
    requires StrAt(a[..], s, p, n)
    ensures fresh(b) && b.Length == n - p + 1 && b[n - p] == '\0'
    ensures forall m :: 0 <= m < n - p ==> b[m] == s[p + m]
  {
    var len := StrLen(a, s, p, n);
    b := new char[len + 1](_ => '\0');
    for k := 0 to len
      invariant forall m :: 0 <= m < k ==> b[m] == s[p + m]
      invariant b[len] == '\0'
    {
      b[k] := a[p + k];
    }
  }

  /** One call of strtok_r, or of strtok with its hidden position made the
      explicit q and next: skip delimiters from q; at the end of the string
      there is no token; otherwise the token runs to the next delimiter,
      which is overwritten by NUL, and the next call starts after it (at the
      end of the string when the token ends there). */
  method StrTok(a: array<char>, ghost s: seq<char>, q: nat, d: set<char>, ghost n: nat)
    returns (tok: Option<nat>, next: nat)
    requires StrAt(a[..], s, q, n) && '\0' !in d
    modifies a
    ensures TokCall(s, d, q, n, tok, next)
    ensures a[..] == CutToken(old(a[..]), s, d, q, n)
  {
    var i := q;
    while a[i] in d
      invariant q <= i <= n
      invariant forall m :: q <= m < i ==> s[m] in d
      decreases n - i
    {
      i := i + 1;
    }
    SkipUnique(s, d, q, n, i);
    if a[i] == '\0' {
      tok, next := None, i;
      return;
    }
    var k := i;
    while a[k] != '\0' && a[k] !in d
      invariant i <= k <= n
      invariant forall m :: i <= m < k ==> s[m] !in d
      decreases n - k
    {
      k := k + 1;
    }
    SpanUnique(s, d, i, n, k);
    tok := Some(i);
    if a[k] == '\0' {
      next := k;
    } else {
      a[k] := '\0';
      next := k + 1;
    }
  }
}
