/** The two tokenisers as libc/string.c has them: strtok cuts the caller's buffer and remembers where it was,
    split fills a table of its own. */
module Tokenisers {
  import opened Arithmetic
  import opened CStrings
  import opened Options
  import opened Words

  /** strchr: the index of the first c, that of the terminator for c == NUL, or -1 for NULL. */
  method Strchr(s: CString, c: char) returns (r: int)
    ensures c == NUL ==> r == |s|
    ensures c != NUL ==> (r == -1 <==> c !in s) && (r != -1 ==> 0 <= r < |s| && s[r] == c && c !in s[..r])
  {
    var k := 0;
    while k < |s|
      invariant k <= |s| && c !in s[..k]
    {
      if s[k] == c { return k; }
      k := k + 1;
    }
    r := if c == NUL then k else -1;
  }

  /** The static variable of strtok: a place in a buffer, or NULL. */
  class Tokeniser {
    var last: array?<char>
    var pos: nat

    constructor ()
      ensures Valid() && last == null
    {
      last, pos := null, 0;
    }

    ghost predicate Valid()
      reads this, last
    {
      last != null ==> View(last).Valid()
    }

    /** The state of the scan of buffer b. */
    ghost function View(b: array<char>): (st: Scan)
      reads this, b
    {
      Scan(b[..], if last == null then None else Some(pos))
    }

    /** The first loop: past the delimiters. */
    method SkipDelimiters(delim: CString)
      requires Valid() && last != null
      modifies this`pos
      ensures pos < last.Length && Skipping(last[..], old(pos), pos, delim) && !DelimiterAt(last[..], pos, delim)
    {
      hide Skipping;
      SkippingFrom(last[..], pos, delim);
      var found := Strchr(delim, last[pos]);
      while last[pos] != NUL && found != -1
        invariant pos < last.Length && Skipping(last[..], old(pos), pos, delim)
        invariant last[pos] != NUL ==> (found != -1 <==> last[pos] in delim)
        decreases last.Length - pos
      {
        SkippingOn(last[..], old(pos), pos, delim);
        pos := pos + 1;
        found := Strchr(delim, last[pos]);
      }
    }

    /** The second loop: to the end of the word. */
    method ScanWord(delim: CString)
      requires Valid() && last != null
      modifies this`pos
      ensures pos < last.Length && Scanning(last[..], old(pos), pos, delim)
      ensures last[pos] == NUL || DelimiterAt(last[..], pos, delim)
    {
      hide Scanning;
      ScanningFrom(last[..], pos, delim);
      var found := Strchr(delim, last[pos]);
      while last[pos] != NUL && found == -1
        invariant pos < last.Length && Scanning(last[..], old(pos), pos, delim)
        invariant last[pos] != NUL ==> (found != -1 <==> last[pos] in delim)
        decreases last.Length - pos
      {
        ScanningOn(last[..], old(pos), pos, delim);
        pos := pos + 1;
        found := Strchr(delim, last[pos]);
      }
    }

    /** The terminator behind a word, unless it ends with the buffer's text. */
    method CutHere()
      requires last != null && pos < last.Length
      modifies this, last
      ensures last == null || last == old(last)
      ensures View(old(last)) == if old(last[pos]) == NUL then Scan(old(last[..]), None)
                                 else Scan(old(last[..])[old(pos) := NUL], Some(old(pos) + 1))
    {
      if last[pos] != NUL {
        last[pos] := NUL;
        pos := pos + 1;
      } else {
        last := null;
      }
    }

    /** The rest of strtok: one word from where the scan is. */
    method NextWord(delim: CString) returns (token: Option<nat>)
      requires Valid() && last != null
      modifies this, last
      ensures last == null || last == old(last)
      ensures (View(old(last)), token) == Next(old(View(last)), delim)
    {
      hide Skipping, Scanning, Next, Terminated, DelimiterAt;
      ghost var st := View(last);
      SkipDelimiters(delim);
      var start := pos;
      SkippingEnds(st, start, delim);
      if last[pos] == NUL {
        last := null;
        return None;
      }
      token := Some(start);
      ScanWord(delim);
      NextIs(st, start, pos, delim);
      CutHere();
    }

    /** strtok(str, delim), where b is the buffer that is scanned; the result is where the token starts in it. */
    method Strtok(str: array?<char>, delim: CString, b: array<char>) returns (token: Option<nat>)
      requires Valid() && if str != null then str == b && Terminated(b[..]) else last == null || last == b
      modifies this, b
      ensures Valid() && (last == null || last == b)
      ensures var st := if str != null then Scan(old(b[..]), Some(0)) else old(View(b));
        st.Valid() && (View(b), token) == Next(st, delim)
    {
      hide Next, Terminated;
      if str != null {
        last, pos := str, 0;
        assert b[..][0..] == b[..];
      }
      NextValid(View(b), delim);
      if last == null {
        NextNone(View(b), delim);
        return None;
      }
      token := NextWord(delim);
    }
  }

  /** The text from p on. */
  function From(b: seq<char>, p: nat): string
    requires p <= |b|
  {
    Text(b[p..])
  }

  ghost predicate DelimiterAt(b: seq<char>, p: nat, delim: string) { p < |b| && b[p] != NUL && b[p] in delim }

  /** Between p and q there are only delimiters. */
  ghost predicate Skipping(b: seq<char>, p: nat, q: nat, delim: string) {
    && p <= q < |b| && Terminated(b[q..]) && |From(b, p)| - |From(b, q)| == q - p
    && Skip(From(b, p), delim) == Skip(From(b, q), delim)
  }

  /** Between p and q there are none. */
  ghost predicate Scanning(b: seq<char>, p: nat, q: nat, delim: string) {
    && p <= q < |b| && Terminated(b[q..]) && WordLength(From(b, p), delim) == q - p + WordLength(From(b, q), delim)
    && |From(b, p)| - |From(b, q)| == q - p
  }

  /** The text from p on, by its first character. */
  lemma Unfold(b: seq<char>, p: nat)
    requires p <= |b| && Terminated(b[p..])
    ensures p < |b| && (From(b, p) == "" <==> b[p] == NUL)
    ensures b[p] != NUL ==> p + 1 < |b| && Terminated(b[p + 1..]) && From(b, p) == [b[p]] + From(b, p + 1)
  {
    assert b[p..][0] == b[p] && b[p..][1..] == b[p + 1..];
  }

  lemma SkippingFrom(b: seq<char>, p: nat, delim: string)
    requires p <= |b| && Terminated(b[p..])
    ensures p < |b| && Skipping(b, p, p, delim)
  {
    Unfold(b, p);
  }

  lemma SkippingOn(b: seq<char>, p: nat, q: nat, delim: string)
    requires Skipping(b, p, q, delim) && DelimiterAt(b, q, delim)
    ensures q + 1 < |b| && Skipping(b, p, q + 1, delim)
  {
    hide Text, Terminated, From;
    Unfold(b, q);
    assert From(b, q)[1..] == From(b, q + 1);
    Unfold(b, q + 1);
  }

  lemma ScanningFrom(b: seq<char>, p: nat, delim: string)
    requires p <= |b| && Terminated(b[p..])
    ensures p < |b| && Scanning(b, p, p, delim)
  {
    Unfold(b, p);
  }

  lemma ScanningOn(b: seq<char>, p: nat, q: nat, delim: string)
    requires Scanning(b, p, q, delim) && b[q] != NUL && b[q] !in delim
    ensures q + 1 < |b| && Scanning(b, p, q + 1, delim)
  {
    hide Text, Terminated, From;
    Unfold(b, q);
    assert From(b, q)[1..] == From(b, q + 1);
    Unfold(b, q + 1);
  }

  lemma NextValid(st: Scan, delim: string)
    requires st.Valid()
    ensures Next(st, delim).0.Valid()
  {
    NextToken(st, delim);
  }

  lemma NextNone(st: Scan, delim: string)
    requires st.last == None
    ensures Next(st, delim) == (st, None)
  {
  }

  /** The first loop has found the word, or the end of the text. */
  lemma SkippingEnds(st: Scan, q: nat, delim: string)
    requires st.Valid() && st.last.Some? && Skipping(st.buf, st.last.value, q, delim) && !DelimiterAt(st.buf, q, delim)
    ensures Terminated(st.buf[q..]) && From(st.buf, q) == Skip(st.Rest(), delim)
    ensures st.buf[q] == NUL ==> Next(st, delim) == (st.(last := None), None)
  {
    hide Text, Terminated;
    Unfold(st.buf, q);
    assert From(st.buf, q) != "" ==> From(st.buf, q)[0] == st.buf[q];
  }

  /** The second loop has found the end of the word. */
  lemma NextIs(st: Scan, q: nat, end: nat, delim: string)
    requires st.Valid() && st.last.Some? && Skipping(st.buf, st.last.value, q, delim)
    requires From(st.buf, q) == Skip(st.Rest(), delim) && st.buf[q] != NUL && Scanning(st.buf, q, end, delim)
    requires st.buf[end] == NUL || DelimiterAt(st.buf, end, delim)
    ensures Next(st, delim) ==
      if st.buf[end] != NUL then (Scan(st.buf[end := NUL], Some(end + 1)), Some(q)) else (st.(last := None), Some(q))
  {
    hide Text, Terminated, Skip;
    Unfold(st.buf, q);
    Unfold(st.buf, end);
    assert From(st.buf, end) != "" ==> From(st.buf, end)[0] == st.buf[end];
  }

  // ---------------------------------------------------------------------- split

  /** The static table that split fills; the pointers it returns are its rows. */
  class Splitter {
    const wordsBuf: array2<char>

    constructor ()
      ensures Valid() && fresh(wordsBuf)
    {
      wordsBuf := new char[MAX_WORDS, WORD_MAX + 1];
    }

    ghost predicate Valid() { wordsBuf.Length0 == MAX_WORDS && wordsBuf.Length1 == WORD_MAX + 1 }

    ghost function Row(n: nat): (r: seq<char>)
      requires Valid() && n < MAX_WORDS
      reads wordsBuf
      ensures |r| == WORD_MAX + 1 && forall j :: 0 <= j <= WORD_MAX ==> r[j] == wordsBuf[n, j]
    {
      seq(WORD_MAX + 1, j requires 0 <= j <= WORD_MAX && Valid() && n < MAX_WORDS reads wordsBuf => wordsBuf[n, j])
    }

    /** The rows filled so far. */
    ghost predicate Holds(ws: seq<string>)
      requires Valid()
      reads wordsBuf
    {
      |ws| <= MAX_WORDS && forall n :: 0 <= n < |ws| ==> Terminated(Row(n)) && Text(Row(n)) == ws[n]
    }

    /** The innermost loop: one piece of a word into row n. */
    method FillRow(n: nat, str: CString, ptr0: nat, delimiter: char) returns (ptr: nat)
      requires Valid() && n < MAX_WORDS && ptr0 <= |str|
      modifies wordsBuf
      ensures ptr == ptr0 + Min(WORD_MAX, WordLength(str[ptr0..], [delimiter])) <= |str|
      ensures Terminated(Row(n)) && Text(Row(n)) == str[ptr0..ptr]
      ensures forall m :: 0 <= m < n ==> Row(m) == old(Row(m))
    {
      ptr := ptr0;
      var len := 0;
      while ptr < |str| && str[ptr] != delimiter && len < WORD_MAX
        invariant ptr0 <= ptr <= |str| && len == ptr - ptr0 <= WORD_MAX
        invariant WordLength(str[ptr0..], [delimiter]) == len + WordLength(str[ptr..], [delimiter])
        invariant forall j :: 0 <= j < len ==> wordsBuf[n, j] == str[ptr0 + j]
        invariant forall m, j :: 0 <= m < n && 0 <= j <= WORD_MAX ==> wordsBuf[m, j] == old(wordsBuf[m, j])
        decreases |str| - ptr
      {
        assert str[ptr..][1..] == str[ptr + 1..];
        wordsBuf[n, len] := str[ptr];
        len, ptr := len + 1, ptr + 1;
      }
      wordsBuf[n, len] := NUL;
      assert Row(n)[..len] == str[ptr0..ptr];
      TextEnds(Row(n), len);
    }

    /** split; the words are in the first `count` rows. */
    method Split(str: CString, delimiter: char) returns (count: nat)
      requires Valid()
      modifies wordsBuf
      ensures count == |Words.Split(str, delimiter)| && Holds(Words.Split(str, delimiter))
    {
      hide Words.Split, SoFar, Terminated;
      count := 0;
      var ptr := 0;
      ghost var ws: seq<string> := [];
      NothingYet(str, delimiter);
      while ptr < |str| && count < MAX_WORDS
        invariant ptr <= |str| && count == |ws| <= MAX_WORDS && Holds(ws)
        invariant SoFar(ws, str, ptr, delimiter)
        decreases |str| - ptr
      {
        ghost var p := ptr;
        while CStrings.At(str, ptr) == delimiter
          invariant p <= ptr <= |str| && (ptr < |str| || delimiter != NUL)
          invariant SoFar(ws, str, ptr, delimiter) && Holds(ws)
          decreases |str| - ptr
        {
          DelimiterPassed(ws, str, ptr, delimiter);
          ptr := ptr + 1;
        }
        if ptr == |str| { break; }
        ghost var start := ptr;
        PieceStarts(ws, str, ptr, delimiter);
        ptr := FillRow(count, str, ptr, delimiter);
        ws := ws + [str[start..ptr]];
        count := count + 1;
        assert forall m :: 0 <= m < count - 1 ==> Terminated(Row(m)) && Text(Row(m)) == ws[m];
        assert ws[count - 1] == str[start..ptr];
      }
      SplitIs(ws, str, ptr, delimiter);
    }
  }

  /** The pieces so far, and those of the rest of the line, are those of the line. */
  ghost predicate SoFar(ws: seq<string>, s: string, p: nat, d: char) {
    p <= |s| && AllPieces(Tokens(s, [d])) == ws + AllPieces(Tokens(s[p..], [d]))
  }

  lemma NothingYet(s: string, d: char)
    ensures SoFar([], s, 0, d)
  {
    assert s[0..] == s;
  }

  lemma DelimiterPassed(ws: seq<string>, s: string, p: nat, d: char)
    requires SoFar(ws, s, p, d) && p < |s| && s[p] == d
    ensures SoFar(ws, s, p + 1, d)
  {
    hide Tokens, AllPieces;
    assert s[p..][1..] == s[p + 1..];
    DropDelimiter(s[p..], [d]);
  }

  lemma PieceStarts(ws: seq<string>, s: string, p: nat, d: char)
    requires SoFar(ws, s, p, d) && p < |s| && s[p] != d
    ensures var q := p + Min(WORD_MAX, WordLength(s[p..], [d])); p < q <= |s| && SoFar(ws + [s[p..q]], s, q, d)
  {
    hide Tokens, AllPieces;
    var t := s[p..];
    var m := Min(WORD_MAX, WordLength(t, [d]));
    assert t[0] == s[p];
    FirstPiece(t, d);
    assert t[..m] == s[p..p + m] && t[m..] == s[p + m..];
    assert ws + ([t[..m]] + AllPieces(Tokens(t[m..], [d]))) == ws + [t[..m]] + AllPieces(Tokens(t[m..], [d]));
  }

  lemma SplitIs(ws: seq<string>, s: string, p: nat, d: char)
    requires SoFar(ws, s, p, d) && |ws| <= MAX_WORDS && (p == |s| || |ws| == MAX_WORDS)
    ensures ws == Words.Split(s, d)
  {
    hide Tokens, AllPieces;
    var ps, more := AllPieces(Tokens(s, [d])), AllPieces(Tokens(s[p..], [d]));
    if p == |s| { NoPieces(s[p..], d); }
    assert (ws + more)[..|ws|] == ws;
  }

  lemma NoPieces(s: string, d: char)
    requires s == ""
    ensures AllPieces(Tokens(s, [d])) == []
  {
  }
}
