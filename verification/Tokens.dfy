/** The words of a line, and the two tokenisers of libc/string.c as functions. */
module Words {
  import opened Arithmetic
  import opened CStrings
  import opened Options

  const MAX_WORDS: nat := 64
  const WORD_MAX: nat := 63

  /** How many characters at the front are no delimiter. */
  function WordLength(s: string, delim: string): (n: nat)
    ensures n <= |s|
  {
    if s == "" || s[0] in delim then 0 else 1 + WordLength(s[1..], delim)
  }

  /** The characters behind the delimiters at the front. */
  function Skip(s: string, delim: string): (t: string)
    ensures |t| <= |s| && t == s[|s| - |t|..]
  {
    if s != "" && s[0] in delim then Skip(s[1..], delim) else s
  }

  ghost predicate AllIn(s: string, delim: string) { forall i :: 0 <= i < |s| ==> s[i] in delim }
  ghost predicate NoneIn(s: string, delim: string) { forall i :: 0 <= i < |s| ==> s[i] !in delim }

  /** A line begins with a gap, a word, and then a delimiter or nothing. */
  lemma {:induction false} Skipped(s: string, delim: string)
    ensures var t := Skip(s, delim); AllIn(s[..|s| - |t|], delim) && (t != "" ==> t[0] !in delim)
  {
    if s != "" && s[0] in delim {
      Skipped(s[1..], delim);
      var n := |s[1..]| - |Skip(s[1..], delim)|;
      assert s[..n + 1] == [s[0]] + s[1..][..n];
    }
  }

  lemma {:induction false} WordEnds(s: string, delim: string)
    ensures var n := WordLength(s, delim); NoneIn(s[..n], delim) && (n < |s| ==> s[n] in delim)
    ensures s != "" && s[0] !in delim ==> WordLength(s, delim) > 0
  {
    if s != "" && s[0] !in delim {
      WordEnds(s[1..], delim);
      var n := WordLength(s[1..], delim);
      assert s[..n + 1] == [s[0]] + s[1..][..n];
    }
  }

  function Tokens(s: string, delim: string): (ts: seq<string>)
    decreases |s|
  {
    var t := Skip(s, delim);
    Skipped(s, delim);
    WordEnds(t, delim);
    if t == "" then [] else [t[..WordLength(t, delim)]] + Tokens(t[WordLength(t, delim)..], delim)
  }

  // ------------------------------------------------- exactly the maximal runs

  /** Words with the gaps around them: gaps[0], words[0], gaps[1], ..., the last gap. */
  function Join(gaps: seq<string>, words: seq<string>): string
    requires |gaps| == |words| + 1
  {
    if words == [] then gaps[0] else gaps[0] + words[0] + Join(gaps[1..], words[1..])
  }

  /** The gaps consist of delimiters, those between two words of at least one; the words are not empty and
      contain none. So every word is a run that cannot be made longer. */
  ghost predicate MaximalRuns(gaps: seq<string>, words: seq<string>, delim: string) {
    && |gaps| == |words| + 1
    && (forall i :: 0 <= i < |gaps| ==> AllIn(gaps[i], delim))
    && (forall i :: 0 < i < |words| ==> gaps[i] != "")
    && (forall i :: 0 <= i < |words| ==> words[i] != "" && NoneIn(words[i], delim))
  }

  lemma {:induction false} SkipIs(gap: string, rest: string, delim: string)
    requires AllIn(gap, delim) && (rest != "" ==> rest[0] !in delim)
    ensures Skip(gap + rest, delim) == rest
  {
    if gap == "" {
      assert gap + rest == rest;
    } else {
      assert (gap + rest)[1..] == gap[1..] + rest;
      SkipIs(gap[1..], rest, delim);
    }
  }

  lemma {:induction false} WordLengthIs(word: string, rest: string, delim: string)
    requires NoneIn(word, delim) && (rest != "" ==> rest[0] in delim)
    ensures WordLength(word + rest, delim) == |word|
  {
    if word == "" {
      assert word + rest == rest;
    } else {
      assert (word + rest)[1..] == word[1..] + rest;
      WordLengthIs(word[1..], rest, delim);
    }
  }

  lemma TokensStart(gap: string, word: string, rest: string, delim: string)
    requires AllIn(gap, delim) && word != "" && NoneIn(word, delim) && (rest != "" ==> rest[0] in delim)
    ensures Tokens(gap + word + rest, delim) == [word] + Tokens(rest, delim)
  {
    var t := word + rest;
    assert gap + word + rest == gap + t && t[0] == word[0];
    SkipIs(gap, t, delim);
    WordLengthIs(word, rest, delim);
    assert t[..|word|] == word && t[|word|..] == rest;
  }

  lemma RunsTail(gaps: seq<string>, words: seq<string>, delim: string)
    requires MaximalRuns(gaps, words, delim) && words != []
    ensures |gaps| == |words| + 1
    ensures MaximalRuns(gaps[1..], words[1..], delim) && (words[1..] != [] ==> gaps[1..][0] != "")
    ensures AllIn(gaps[0], delim) && words[0] != "" && NoneIn(words[0], delim)
  {
  }

  lemma GapOnly(gaps: seq<string>, delim: string)
    requires MaximalRuns(gaps, [], delim)
    ensures |gaps| == 1 && Tokens(gaps[0], delim) == []
  {
    SkipIs(gaps[0], "", delim);
    assert gaps[0] + "" == gaps[0];
  }

  /** If a line is made of maximal runs and gaps, its tokens are those runs. */
  lemma {:induction false} TokensOfJoin(gaps: seq<string>, words: seq<string>, delim: string)
    requires MaximalRuns(gaps, words, delim)
    ensures Tokens(Join(gaps, words), delim) == words
  {
    hide Tokens, MaximalRuns;
    if words == [] {
      GapOnly(gaps, delim);
    } else {
      RunsTail(gaps, words, delim);
      TokensOfJoin(gaps[1..], words[1..], delim);
      JoinStarts(gaps[1..], words[1..], delim);
      TokensStart(gaps[0], words[0], Join(gaps[1..], words[1..]), delim);
    }
  }

  lemma JoinStarts(gaps: seq<string>, words: seq<string>, delim: string)
    requires MaximalRuns(gaps, words, delim) && (words != [] ==> gaps[0] != "")
    ensures Join(gaps, words) != "" ==> Join(gaps, words)[0] in delim
  {
  }

  lemma RunsMore(gap: string, word: string, gaps: seq<string>, words: seq<string>, delim: string)
    requires MaximalRuns(gaps, words, delim) && (words != [] ==> gaps[0] != "")
    requires AllIn(gap, delim) && word != "" && NoneIn(word, delim)
    ensures MaximalRuns([gap] + gaps, [word] + words, delim)
    ensures Join([gap] + gaps, [word] + words) == gap + word + Join(gaps, words)
  {
    var g, w := [gap] + gaps, [word] + words;
    assert g[1..] == gaps && w[1..] == words;
    assert forall i :: 0 < i < |g| ==> g[i] == gaps[i - 1];
    assert forall i :: 0 < i < |w| ==> w[i] == words[i - 1];
  }

  /** Every line is made of its tokens and gaps. */
  lemma {:induction false} JoinOfTokens(s: string, delim: string) returns (gaps: seq<string>)
    ensures |gaps| == |Tokens(s, delim)| + 1
    ensures MaximalRuns(gaps, Tokens(s, delim), delim) && Join(gaps, Tokens(s, delim)) == s
    ensures s != "" && s[0] in delim ==> gaps[0] != ""
    decreases |s|
  {
    hide Tokens, MaximalRuns, Join, Skip, WordLength;
    var t := Skip(s, delim);
    var n := WordLength(t, delim);
    var gap, word, rest := s[..|s| - |t|], t[..n], t[n..];
    Skipped(s, delim);
    WordEnds(t, delim);
    TokensOne(s, delim);
    if t == "" {
      gaps := [gap];
      OneGap(gap, delim);
      assert gap == s;
    } else {
      var more := JoinOfTokens(rest, delim);
      LastGap(more, rest, delim);
      RunsMore(gap, word, more, Tokens(rest, delim), delim);
      gaps := [gap] + more;
      Three(s, gap, word, rest);
    }
  }

  lemma Three(s: string, gap: string, word: string, rest: string)
    requires |gap| + |word| <= |s| && gap == s[..|gap|] && word == s[|gap|..][..|word|] && rest == s[|gap|..][|word|..]
    ensures gap + word + rest == s
  {
  }

  lemma OneGap(gap: string, delim: string)
    requires AllIn(gap, delim)
    ensures MaximalRuns([gap], [], delim) && Join([gap], []) == gap
  {
  }

  lemma TokensOne(rest: string, delim: string)
    ensures var word := Skip(rest, delim); var n := WordLength(word, delim);
      Tokens(rest, delim) == if word == "" then [] else [word[..n]] + Tokens(word[n..], delim)
    ensures Tokens("", delim) == []
  {
  }

  lemma LastGap(gaps: seq<string>, rest: string, delim: string)
    requires (rest != "" ==> rest[0] in delim) && (rest != "" && rest[0] in delim ==> gaps != [] && gaps[0] != "")
    ensures Tokens(rest, delim) != [] ==> gaps != [] && gaps[0] != ""
  {
  }

  // ---------------------------------------------------------------------- split

  /** A word in pieces of 63 characters. */
  function Pieces(word: string): (ps: seq<string>)
  {
    if |word| <= WORD_MAX then [word] else [word[..WORD_MAX]] + Pieces(word[WORD_MAX..])
  }

  /** All pieces but the last have 63 characters, the last has at most that, and together they are the word. */
  lemma {:induction false} PiecesAre(word: string)
    ensures var ps := Pieces(word);
      && ps != [] && Concat(ps) == word && |ps[|ps| - 1]| <= 63
      && (forall i :: 0 <= i < |ps| - 1 ==> |ps[i]| == 63) && (word != "" ==> ps[|ps| - 1] != "")
  {
    if |word| > WORD_MAX {
      PiecesAre(word[WORD_MAX..]);
      assert word == word[..WORD_MAX] + word[WORD_MAX..];
    } else {
      assert Concat([word]) == word + Concat([]);
    }
  }

  function AllPieces(words: seq<string>): seq<string> {
    if words == [] then [] else Pieces(words[0]) + AllPieces(words[1..])
  }

  lemma {:induction false} WordSuffix(s: string, k: nat, delim: string)
    requires k <= WordLength(s, delim)
    ensures WordLength(s[k..], delim) == WordLength(s, delim) - k
  {
    if k > 0 {
      WordSuffix(s[1..], k - 1, delim);
      assert s[1..][k - 1..] == s[k..];
    }
  }

  lemma TokensWord(s: string, delim: string)
    requires s != "" && s[0] !in delim
    ensures var n := WordLength(s, delim);
      n > 0 && AllPieces(Tokens(s, delim)) == Pieces(s[..n]) + AllPieces(Tokens(s[n..], delim))
  {
    hide Pieces;
    WordEnds(s, delim);
    var n := WordLength(s, delim);
    assert Tokens(s, delim) == [s[..n]] + Tokens(s[n..], delim);
  }

  /** A line that begins with a word begins with a piece of at most 63 characters of it; the rest of a longer word
      counts as the next. */
  lemma FirstPiece(s: string, d: char)
    requires s != "" && s[0] != d
    ensures var m := Min(WORD_MAX, WordLength(s, [d]));
      m > 0 && AllPieces(Tokens(s, [d])) == [s[..m]] + AllPieces(Tokens(s[m..], [d]))
  {
    hide Tokens, AllPieces, WordLength;
    var n := WordLength(s, [d]);
    TokensWord(s, [d]);
    if n > WORD_MAX {
      var t := s[WORD_MAX..];
      WordSuffix(s, WORD_MAX, [d]);
      WordEnds(s, [d]);
      assert t[0] == s[..n][WORD_MAX];
      TokensWord(t, [d]);
      assert s[..n][..WORD_MAX] == s[..WORD_MAX] && s[..n][WORD_MAX..] == t[..n - WORD_MAX];
      assert t[n - WORD_MAX..] == s[n..];
    }
  }

  /** split: the first 64 pieces. */
  function Split(s: string, delimiter: char): seq<string> {
    var ps := AllPieces(Tokens(s, [delimiter]));
    ps[..Min(MAX_WORDS, |ps|)]
  }

  ghost predicate Short(words: seq<string>) { forall i :: 0 <= i < |words| ==> |words[i]| <= WORD_MAX }

  lemma {:induction false} PiecesOfShort(words: seq<string>)
    requires Short(words)
    ensures AllPieces(words) == words
  {
    if words != [] {
      PiecesOfShort(words[1..]);
      assert words == [words[0]] + words[1..];
    }
  }

  /** A long word is met as a piece of 63 characters in its place. */
  lemma {:induction false} PiecesOfLong(words: seq<string>, i: nat)
    requires i < |words| && Short(words[..i]) && |words[i]| > WORD_MAX
    ensures i < |AllPieces(words)| && AllPieces(words)[i] == words[i][..WORD_MAX]
  {
    if i > 0 {
      assert words[..i][0] == words[0] && words[..i][1..] == words[1..][..i - 1];
      PiecesOfLong(words[1..], i - 1);
    }
  }

  lemma FirstLong(words: seq<string>) returns (i: nat)
    ensures i <= |words| && Short(words[..i]) && (i < |words| ==> |words[i]| > WORD_MAX)
  {
    i := 0;
    while i < |words| && |words[i]| <= WORD_MAX
      invariant i <= |words| && Short(words[..i])
    {
      i := i + 1;
    }
  }

  /** The two tokenisers agree exactly on lines of at most 64 words of at most 63 characters. */
  lemma TokenisersAgree(s: string, delimiter: char)
    ensures Split(s, delimiter) == Tokens(s, [delimiter])
      <==> |Tokens(s, [delimiter])| <= 64 && forall w :: w in Tokens(s, [delimiter]) ==> |w| <= 63
  {
    var ts := Tokens(s, [delimiter]);
    var i := FirstLong(ts);
    if i == |ts| {
      assert ts[..i] == ts;
      PiecesOfShort(ts);
    } else {
      PiecesOfLong(ts, i);
      assert i < MAX_WORDS ==> Split(s, delimiter)[i] == ts[i][..WORD_MAX];
    }
  }

  // ------------------------------------------------------ nothing is lost by split

  function Concat(words: seq<string>): string { if words == [] then "" else words[0] + Concat(words[1..]) }

  function Without(s: string, c: char): string
  {
    if s == "" then "" else (if s[0] == c then "" else [s[0]]) + Without(s[1..], c)
  }

  lemma {:induction false} ConcatAppend(a: seq<string>, b: seq<string>)
    ensures Concat(a + b) == Concat(a) + Concat(b)
  {
    if a == [] {
      assert a + b == b;
    } else {
      assert (a + b)[1..] == a[1..] + b;
      ConcatAppend(a[1..], b);
    }
  }

  lemma {:induction false} WithoutSkip(s: string, c: char)
    ensures Without(s, c) == Without(Skip(s, [c]), c)
  {
    if s != "" && s[0] in [c] { WithoutSkip(s[1..], c); }
  }

  lemma {:induction false} WithoutWord(s: string, c: char)
    ensures Without(s, c) == s[..WordLength(s, [c])] + Without(s[WordLength(s, [c])..], c)
  {
    if s != "" && s[0] !in [c] {
      var n := WordLength(s[1..], [c]);
      WithoutWord(s[1..], c);
      assert s[..n + 1] == [s[0]] + s[1..][..n] && s[n + 1..] == s[1..][n..];
    }
  }

  lemma {:induction false} ConcatTokens(s: string, c: char)
    ensures Concat(Tokens(s, [c])) == Without(s, c)
    decreases |s|
  {
    var t := Skip(s, [c]);
    Skipped(s, [c]);
    WordEnds(t, [c]);
    WithoutSkip(s, c);
    if t != "" {
      WithoutWord(t, c);
      ConcatTokens(t[WordLength(t, [c])..], c);
      assert Tokens(s, [c])[1..] == Tokens(t[WordLength(t, [c])..], [c]);
    }
  }

  lemma {:induction false} ConcatOnePieces(word: string)
    ensures Concat(Pieces(word)) == word
    ensures word != "" ==> forall i :: 0 <= i < |Pieces(word)| ==> Pieces(word)[i] != ""
  {
    if |word| > WORD_MAX {
      ConcatOnePieces(word[WORD_MAX..]);
      assert Pieces(word)[1..] == Pieces(word[WORD_MAX..]);
      assert word == word[..WORD_MAX] + word[WORD_MAX..];
    } else {
      assert Concat([word][1..]) == "";
    }
  }

  lemma {:induction false} ConcatPieces(words: seq<string>)
    requires forall i :: 0 <= i < |words| ==> words[i] != ""
    ensures Concat(AllPieces(words)) == Concat(words)
    ensures forall i :: 0 <= i < |AllPieces(words)| ==> AllPieces(words)[i] != ""
  {
    if words != [] {
      ConcatOnePieces(words[0]);
      ConcatPieces(words[1..]);
      ConcatAppend(Pieces(words[0]), AllPieces(words[1..]));
    }
  }

  lemma ConcatLength(a: seq<string>)
    requires a != [] && a[0] != ""
    ensures Concat(a) != ""
  {
  }

  lemma {:induction false} TokensNotEmpty(s: string, delim: string)
    ensures forall i :: 0 <= i < |Tokens(s, delim)| ==> Tokens(s, delim)[i] != ""
    decreases |s|
  {
    hide Tokens, Skip, WordLength;
    TokensOne(s, delim);
    var t := Skip(s, delim);
    if t != "" {
      var n := WordLength(t, delim);
      Skipped(s, delim);
      WordEnds(t, delim);
      TokensNotEmpty(t[n..], delim);
      assert t[..n] != "";
    }
  }

  /** What split returns, put together, is the line without its delimiters exactly if there are no more than 64
      pieces. */
  lemma SplitKeepsAll(s: string, c: char)
    ensures Concat(Split(s, c)) == Without(s, c) <==> |AllPieces(Tokens(s, [c]))| <= MAX_WORDS
  {
    hide Tokens, AllPieces, Without, Concat;
    var ps := AllPieces(Tokens(s, [c]));
    TokensNotEmpty(s, [c]);
    ConcatPieces(Tokens(s, [c]));
    ConcatTokens(s, c);
    if |ps| <= MAX_WORDS {
      assert ps[..|ps|] == ps;
    } else {
      ConcatAppend(ps[..MAX_WORDS], ps[MAX_WORDS..]);
      assert ps[..MAX_WORDS] + ps[MAX_WORDS..] == ps;
      ConcatLength(ps[MAX_WORDS..]);
    }
  }

  // --------------------------------------------------------------------- strtok

  /** The buffer, and where the next call goes on. */
  datatype Scan = Scan(buf: seq<char>, last: Option<nat>) {
    ghost predicate Valid() { last.Some? ==> last.value <= |buf| && Terminated(buf[last.value..]) }

    /** What is still to be read. */
    function Rest(): string
      requires last.Some? ==> last.value <= |buf|
    {
      if last.Some? then Text(buf[last.value..]) else ""
    }
  }

  /** One call of strtok(NULL, delim): the new state, and where the token starts. */
  function Next(st: Scan, delim: string): (Scan, Option<nat>)
    requires st.Valid()
  {
    var rest := st.Rest();
    var word := Skip(rest, delim);
    if word == "" then (st.(last := None), None)
    else
      var a := st.last.value + (|rest| - |word|);
      var n := WordLength(word, delim);
      if n < |word| then (Scan(st.buf[a + n := NUL], Some(a + n + 1)), Some(a))
      else (st.(last := None), Some(a))
  }

  /** A token pointer: the text from p on is the token, and lies in front of the place where strtok goes on. */
  ghost predicate Holds(st: Scan, p: nat, token: string) {
    && p + |token| < |st.buf| && Terminated(st.buf[p..]) && Text(st.buf[p..]) == token
    && (st.last.Some? ==> p + |token| < st.last.value)
  }

  lemma TextTail(b: seq<char>, k: nat)
    requires Terminated(b) && k <= |Text(b)|
    ensures Terminated(b[k..]) && Text(b[k..]) == Text(b)[k..]
  {
    var n := |Text(b)| - k;
    assert b[k..][..n] == Text(b)[k..];
    TextEnds(b[k..], n);
  }

  /** Nothing in front of the place where strtok goes on changes. */
  ghost predicate Behind(st: Scan, st': Scan) {
    && |st'.buf| == |st.buf|
    && (st'.last.Some? ==> st.last.Some? && st.last.value <= st'.last.value)
    && forall i :: 0 <= i < |st.buf| && (st.last.Some? ==> i < st.last.value) ==> st'.buf[i] == st.buf[i]
  }

  /** The word found ends at a delimiter, which a terminator replaces. */
  lemma TokenCut(buf: seq<char>, a: nat, word: string, n: nat, delim: string)
    requires a <= |buf| && Terminated(buf[a..]) && Text(buf[a..]) == word
    requires n == WordLength(word, delim) < |word|
    ensures var st := Scan(buf[a + n := NUL], Some(a + n + 1));
      st.Valid() && Holds(st, a, word[..n]) && Tokens(st.Rest(), delim) == Tokens(word[n..], delim)
  {
    hide Text, WordLength, Tokens;
    var b := buf[a + n := NUL];
    assert b[a..][..n] == word[..n] && b[a..][n] == NUL;
    TextEnds(b[a..], n);
    TextTail(buf[a..], n + 1);
    assert buf[a..][n + 1..] == b[a + n + 1..];
    WordEnds(word, delim);
    AfterDelimiter(word, n, delim);
  }

  lemma AfterDelimiter(word: string, n: nat, delim: string)
    requires n < |word| && word[n] in delim
    ensures Tokens(word[n..], delim) == Tokens(word[n + 1..], delim)
  {
    assert word[n..][1..] == word[n + 1..];
    DropDelimiter(word[n..], delim);
  }

  lemma DropDelimiter(s: string, delim: string)
    requires s != "" && s[0] in delim
    ensures Tokens(s, delim) == Tokens(s[1..], delim)
  {
  }

  /** What a call promises: it hands out the first token of what is left, and leaves the others. */
  ghost predicate Handed(st: Scan, st': Scan, r: Option<nat>, ts: seq<string>, delim: string) {
    && st'.Valid() && Behind(st, st')
    && (ts == [] ==> r == None && st'.last == None && st'.buf == st.buf)
    && (ts != [] ==> r.Some? && Holds(st', r.value, ts[0]) && Tokens(st'.Rest(), delim) == ts[1..])
  }

  lemma HandedCut(st: Scan, a: nat, word: string, n: nat, delim: string)
    requires st.Valid() && st.last.Some? && st.last.value <= a <= |st.buf|
    requires Terminated(st.buf[a..]) && Text(st.buf[a..]) == word && n == WordLength(word, delim) < |word|
    ensures Handed(st, Scan(st.buf[a + n := NUL], Some(a + n + 1)), Some(a), [word[..n]] + Tokens(word[n..], delim), delim)
  {
    hide Text, WordLength, Tokens;
    TokenCut(st.buf, a, word, n, delim);
  }

  lemma HandedLast(st: Scan, a: nat, word: string, delim: string)
    requires st.Valid() && st.last.Some? && a <= |st.buf| && Terminated(st.buf[a..]) && Text(st.buf[a..]) == word
    ensures Handed(st, st.(last := None), Some(a), [word], delim)
  {
    assert Tokens("", delim) == [];
  }

  lemma HandedNone(st: Scan, delim: string)
    requires st.Valid()
    ensures Handed(st, st.(last := None), None, [], delim)
  {
  }

  lemma NextToken(st: Scan, delim: string)
    requires st.Valid()
    ensures Handed(st, Next(st, delim).0, Next(st, delim).1, Tokens(st.Rest(), delim), delim)
  {
    hide Tokens, Skip, WordLength, Text, Handed;
    TokensOne(st.Rest(), delim);
    if Skip(st.Rest(), delim) == "" {
      HandedNone(st, delim);
    } else {
      WordFound(st, delim);
    }
  }

  /** The word that a call comes to starts at a. */
  lemma WordStarts(st: Scan, delim: string) returns (a: nat)
    requires st.Valid() && st.last.Some?
    ensures var rest := st.Rest(); a == st.last.value + (|rest| - |Skip(rest, delim)|)
    ensures a <= |st.buf| && Terminated(st.buf[a..]) && Text(st.buf[a..]) == Skip(st.Rest(), delim)
  {
    hide Skip, Text;
    var p, k := st.last.value, |st.Rest()| - |Skip(st.Rest(), delim)|;
    TextTail(st.buf[p..], k);
    a := p + k;
    assert st.buf[p..][k..] == st.buf[a..];
  }

  /** What the call does when it comes to a word. */
  lemma NextAt(st: Scan, delim: string, a: nat, word: string, n: nat)
    requires st.Valid() && word == Skip(st.Rest(), delim) && word != "" && n == WordLength(word, delim)
    requires st.last.Some? && a == st.last.value + (|st.Rest()| - |word|)
    ensures n < |word| ==> a + n < |st.buf| && Next(st, delim) == (Scan(st.buf[a + n := NUL], Some(a + n + 1)), Some(a))
    ensures n == |word| ==> Next(st, delim) == (st.(last := None), Some(a))
  {
    hide Skip, WordLength, Text;
  }

  lemma WordFound(st: Scan, delim: string)
    requires st.Valid() && Skip(st.Rest(), delim) != ""
    ensures Handed(st, Next(st, delim).0, Next(st, delim).1, Tokens(st.Rest(), delim), delim)
  {
    hide Tokens, Skip, WordLength, Text, Handed, Terminated, Next;
    var word := Skip(st.Rest(), delim);
    var n := WordLength(word, delim);
    TokensOne(st.Rest(), delim);
    var a := WordStarts(st, delim);
    NextAt(st, delim, a, word, n);
    if n < |word| {
      HandedCut(st, a, word, n, delim);
    } else {
      assert word[..n] == word && word[n..] == "";
      assert [word] + [] == [word];
      HandedLast(st, a, word, delim);
    }
  }

  /** A token handed out earlier stays where it is. */
  lemma HoldsOn(st: Scan, st': Scan, p: nat, token: string)
    requires Holds(st, p, token) && Behind(st, st')
    ensures Holds(st', p, token)
  {
    var n := |token|;
    assert st.buf[p..][n] == NUL;
    assert forall i :: 0 <= i <= n ==> st'.buf[p..][i] == st'.buf[p + i] == st.buf[p + i] == st.buf[p..][i];
    TextSame(st.buf[p..], st'.buf[p..]);
  }

  /** The state and the results after k calls with the same delimiters. */
  function Calls(st: Scan, delim: string, k: nat): (r: (Scan, seq<Option<nat>>))
    requires st.Valid()
    ensures r.0.Valid() && |r.1| == k
  {
    if k == 0 then (st, [])
    else
      var (before, rs) := Calls(st, delim, k - 1);
      NextToken(before, delim);
      var (after, r) := Next(before, delim);
      (after, rs + [r])
  }

  /** The tokens that k calls leave. */
  function Left(ts: seq<string>, k: nat): seq<string> { if k < |ts| then ts[k..] else [] }

  lemma LeftNext(ts: seq<string>, k: nat)
    requires k > 0
    ensures Left(ts, k - 1) == [] <==> k > |ts|
    ensures k <= |ts| ==> Left(ts, k - 1)[0] == ts[k - 1] && Left(ts, k - 1)[1..] == Left(ts, k)
    ensures k > |ts| ==> Left(ts, k) == []
    ensures Left(ts, 0) == ts
  {
  }

  lemma HandedMeans(st: Scan, st': Scan, r: Option<nat>, ts: seq<string>, delim: string)
    requires Handed(st, st', r, ts, delim)
    ensures st'.Valid() && Behind(st, st') && (ts == [] ==> r == None)
    ensures ts != [] ==> r.Some? && Holds(st', r.value, ts[0])
    ensures Tokens(st'.Rest(), delim) == if ts == [] then [] else ts[1..]
  {
    TokensOne("", delim);
  }

  /** The calls so far handed out the first of the tokens, then NULL, and left the others. */
  ghost predicate Given(st: Scan, rs: seq<Option<nat>>, ts: seq<string>, delim: string)
    requires st.Valid()
  {
    && Tokens(st.Rest(), delim) == Left(ts, |rs|)
    && forall i :: 0 <= i < |rs| ==> if i < |ts| then rs[i].Some? && Holds(st, rs[i].value, ts[i]) else rs[i] == None
  }

  lemma GivenNext(st: Scan, rs: seq<Option<nat>>, st': Scan, r: Option<nat>, ts: seq<string>, delim: string)
    requires st.Valid() && st'.Valid() && Given(st, rs, ts, delim) && Handed(st, st', r, Left(ts, |rs|), delim)
    ensures Given(st', rs + [r], ts, delim)
  {
    hide Tokens, Holds, Behind, Handed, Text, Left, Scan.Rest;
    LeftNext(ts, |rs| + 1);
    HandedMeans(st, st', r, Left(ts, |rs|), delim);
    AllHoldOn(st, st', rs, ts);
  }

  /** Repeated calls hand out the tokens one by one, in order, and then NULL for ever; in the end every pointer
      still stands before its token. */
  lemma {:induction false} CallsGiveTokens(st: Scan, delim: string, k: nat)
    requires st.Valid()
    ensures Given(Calls(st, delim, k).0, Calls(st, delim, k).1, Tokens(st.Rest(), delim), delim)
  {
    hide Tokens, Next, Handed, Text, Given, Scan.Rest;
    var ts := Tokens(st.Rest(), delim);
    if k == 0 {
      NoneGiven(st, delim);
    } else {
      CallsGiveTokens(st, delim, k - 1);
      var (before, rs) := Calls(st, delim, k - 1);
      NextToken(before, delim);
      LeftIs(before, rs, ts, delim);
      HandedMeans(before, Next(before, delim).0, Next(before, delim).1, Left(ts, k - 1), delim);
      GivenNext(before, rs, Next(before, delim).0, Next(before, delim).1, ts, delim);
    }
  }

  lemma NoneGiven(st: Scan, delim: string)
    requires st.Valid()
    ensures Given(st, [], Tokens(st.Rest(), delim), delim)
  {
    hide Tokens;
  }

  lemma LeftIs(st: Scan, rs: seq<Option<nat>>, ts: seq<string>, delim: string)
    requires st.Valid() && Given(st, rs, ts, delim)
    ensures Tokens(st.Rest(), delim) == Left(ts, |rs|)
  {
  }

  lemma AllHoldOn(st: Scan, st': Scan, rs: seq<Option<nat>>, ts: seq<string>)
    requires Behind(st, st') && forall i :: 0 <= i < |rs| && i < |ts| ==> rs[i].Some? && Holds(st, rs[i].value, ts[i])
    ensures forall i :: 0 <= i < |rs| && i < |ts| ==> Holds(st', rs[i].value, ts[i])
  {
    hide Holds, Behind;
    forall i | 0 <= i < |rs| && i < |ts| ensures Holds(st', rs[i].value, ts[i]) { HoldsOn(st, st', rs[i].value, ts[i]); }
  }

  /** On a line of at most 64 words of at most 63 characters, what strtok hands out is what split returns. */
  lemma StrtokIsSplit(st: Scan, delimiter: char, k: nat)
    requires st.Valid() && k == |Tokens(st.Rest(), [delimiter])|
    requires k <= MAX_WORDS && Short(Tokens(st.Rest(), [delimiter]))
    ensures var (after, rs) := Calls(st, [delimiter], k); var words := Split(st.Rest(), delimiter);
      && |words| == k && Next(after, [delimiter]).1 == None
      && forall i :: 0 <= i < k ==> rs[i].Some? && Holds(after, rs[i].value, words[i])
  {
    hide Tokens, Holds, Behind, Text, Split, Scan.Rest;
    TokenisersAgree(st.Rest(), delimiter);
    CallsGiveTokens(st, [delimiter], k);
    NextToken(Calls(st, [delimiter], k).0, [delimiter]);
  }
}
