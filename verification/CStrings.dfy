/** NUL-terminated strings and the routines of libc/string.c that change them in place. */
module CStrings {
  import opened Arithmetic

  const NUL: char := '\0'

  /** A string that is only read: the characters before the terminator. */
  type CString = s: string | NUL !in s

  /** The i-th character as C reads it, the terminator included. */
  function At(s: string, i: nat): (c: char)
    requires i <= |s|
  {
    if i < |s| then s[i] else NUL
  }

  /** The string that starts at the beginning of a buffer. */
  function Text(b: seq<char>): (t: CString)
    ensures |t| <= |b| && t == b[..|t|] && (|t| < |b| ==> b[|t|] == NUL)
  {
    if b == [] || b[0] == NUL then ""
    else
      var rest := Text(b[1..]);
      assert b[1..][..|rest|] == b[1..1 + |rest|];
      [b[0]] + rest
  }

  /** The buffer holds a terminator. */
  ghost predicate Terminated(b: seq<char>) { |Text(b)| < |b| }

  lemma {:induction false} TextEnds(b: seq<char>, n: nat)
    requires n < |b| && b[n] == NUL && NUL !in b[..n]
    ensures Text(b) == b[..n]
  {
    if n > 0 {
      assert b[0] in b[..n];
      assert b[1..][..n - 1] == b[..n][1..];
      TextEnds(b[1..], n - 1);
      assert b[..n] == [b[0]] + b[1..][..n - 1];
    }
  }

  lemma TextSame(b: seq<char>, c: seq<char>)
    requires Terminated(b) && |b| <= |c| && forall i :: 0 <= i <= |Text(b)| ==> c[i] == b[i]
    ensures Text(c) == Text(b)
  {
    var n := |Text(b)|;
    assert c[..n] == b[..n];
    TextEnds(c, n);
  }

  /** The first n characters, or all. */
  function Take(s: string, n: nat): (t: string)
    ensures NUL !in s ==> NUL !in t
  {
    s[..Min(n, |s|)]
  }

  /** strncpy as this library has it: at most n characters and then, behind them, the terminator. */
  method Strncpy(dest: array<char>, src: CString, n: nat)
    requires Min(n, |src|) < dest.Length
    modifies dest
    ensures Text(dest[..]) == Take(src, n) == src[..Min(n, |src|)] && Terminated(dest[..])
    ensures forall i :: Min(n, |src|) < i < dest.Length ==> dest[i] == old(dest[i])
  {
    var k := 0;
    while k < n && At(src, k) != NUL
      invariant k <= Min(n, |src|)
      invariant forall i :: 0 <= i < k ==> dest[i] == src[i]
      invariant forall i :: k <= i < dest.Length ==> dest[i] == old(dest[i])
      decreases |src| - k
    {
      dest[k] := src[k];
      k := k + 1;
    }
    dest[k] := NUL;
    assert dest[..][..k] == Take(src, n);
    TextEnds(dest[..], k);
  }

  /** strcmp, of which only the test for equality is used. */
  method Strcmp(s1: array<char>, s2: CString) returns (equal: bool)
    requires Terminated(s1[..])
    ensures equal <==> Text(s1[..]) == s2
  {
    var n := |Text(s1[..])|;
    var k := 0;
    while s1[k] != NUL && s1[k] == At(s2, k)
      invariant k <= n && k <= |s2| && s1[..k] == s2[..k]
      decreases n - k
    {
      k := k + 1;
    }
    equal := s1[k] == At(s2, k);
    if equal { TextEnds(s1[..], k); }
  }

  /** The bytes of a buffer after the region of n at src has arrived at dest. */
  function Moved(o: seq<char>, dest: nat, src: nat, n: nat): (c: seq<char>)
    requires dest + n <= |o| && src + n <= |o|
    ensures |c| == |o|
  {
    o[..dest] + o[src..src + n] + o[dest + n..]
  }

  /** The positions from `from` up to `to` have their final value, the others the one they had. */
  ghost predicate Halfway(c: seq<char>, o: seq<char>, dest: nat, src: nat, n: nat, from: nat, to: nat)
    requires dest + n <= |o| && src + n <= |o| && from <= to <= n
  {
    && |c| == |o|
    && (forall i :: dest + from <= i < dest + to ==> c[i] == o[i - dest + src])
    && (forall i :: 0 <= i < |c| && !(dest + from <= i < dest + to) ==> c[i] == o[i])
  }

  lemma WholeWay(c: seq<char>, o: seq<char>, dest: nat, src: nat, n: nat)
    requires dest + n <= |o| && src + n <= |o|
    requires Halfway(c, o, dest, src, n, 0, n) || (dest == src && c == o)
    ensures c == Moved(o, dest, src, n)
  {
    forall i | 0 <= i < |c| ensures c[i] == Moved(o, dest, src, n)[i] {}
  }

  lemma OneForward(c: seq<char>, o: seq<char>, dest: nat, src: nat, n: nat, k: nat)
    requires dest + n <= |o| && src + n <= |o| && k < n && dest < src && Halfway(c, o, dest, src, n, 0, k)
    ensures Halfway(c[dest + k := c[src + k]], o, dest, src, n, 0, k + 1)
  {
  }

  lemma OneBackward(c: seq<char>, o: seq<char>, dest: nat, src: nat, n: nat, k: nat)
    requires dest + n <= |o| && src + n <= |o| && k < n && dest > src && Halfway(c, o, dest, src, n, k + 1, n)
    ensures Halfway(c[dest + k := c[src + k]], o, dest, src, n, k, n)
  {
  }

  lemma MovedAt(o: seq<char>, dest: nat, src: nat, n: nat, i: nat)
    requires dest + n <= |o| && src + n <= |o| && i < |o|
    ensures Moved(o, dest, src, n)[i] == if dest <= i < dest + n then o[i - dest + src] else o[i]
  {
  }

  /** memmove inside one buffer: the region arrives as it was, whichever way the two regions overlap. */
  method Memmove(a: array<char>, dest: nat, src: nat, n: nat)
    requires dest + n <= a.Length && src + n <= a.Length
    modifies a
    ensures a[..] == Moved(old(a[..]), dest, src, n)
    ensures forall i :: 0 <= i < a.Length ==> a[i] == if dest <= i < dest + n then old(a[i - dest + src]) else old(a[i])
  {
    ghost var o := a[..];
    assert dest < src ==> Halfway(o, o, dest, src, n, 0, 0);
    assert dest > src ==> Halfway(o, o, dest, src, n, n, n);
    hide Halfway, Moved;
    if dest < src {
      var k := 0;
      while k < n
        invariant k <= n && Halfway(a[..], o, dest, src, n, 0, k)
      {
        OneForward(a[..], o, dest, src, n, k);
        a[dest + k] := a[src + k];
        k := k + 1;
      }
    } else if dest > src {
      var k: nat := n;
      while k > 0
        invariant k <= n && Halfway(a[..], o, dest, src, n, k, n)
      {
        k := k - 1;
        OneBackward(a[..], o, dest, src, n, k);
        a[dest + k] := a[src + k];
      }
    }
    WholeWay(a[..], o, dest, src, n);
    forall i | 0 <= i < a.Length ensures a[i] == if dest <= i < dest + n then o[i - dest + src] else o[i] {
      MovedAt(o, dest, src, n, i);
    }
  }

  // ----------------------------------------------------------------------- trim

  function TrimLeft(s: string): (t: string)
    ensures |t| <= |s| && t == s[|s| - |t|..]
    ensures forall i :: 0 <= i < |s| - |t| ==> s[i] == ' '
    ensures t != "" ==> t[0] != ' '
  {
    if s != "" && s[0] == ' ' then TrimLeft(s[1..]) else s
  }

  function TrimRight(s: string): (t: string)
    ensures t <= s
    ensures forall i :: |t| <= i < |s| ==> s[i] == ' '
    ensures t != "" ==> t[|t| - 1] != ' '
  {
    if s != "" && s[|s| - 1] == ' ' then TrimRight(s[..|s| - 1]) else s
  }

  /** Only spaces. */
  ghost predicate Blank(s: string) { forall i :: 0 <= i < |s| ==> s[i] == ' ' }

  lemma {:induction false} TrimLeftIs(left: string, rest: string)
    requires Blank(left) && (rest != "" ==> rest[0] != ' ')
    ensures TrimLeft(left + rest) == rest
  {
    if left == "" {
      assert left + rest == rest;
    } else {
      assert (left + rest)[1..] == left[1..] + rest;
      TrimLeftIs(left[1..], rest);
    }
  }

  lemma {:induction false} TrimRightIs(rest: string, right: string)
    requires Blank(right) && (rest != "" ==> rest[|rest| - 1] != ' ')
    ensures TrimRight(rest + right) == rest
  {
    if right == "" {
      assert rest + right == rest;
    } else {
      var s := rest + right;
      assert s[..|s| - 1] == rest + right[..|right| - 1];
      TrimRightIs(rest, right[..|right| - 1]);
    }
  }

  /** What trim leaves is the part between the leading and the trailing spaces, and nothing else is. */
  lemma TrimmedIs(left: string, core: string, right: string)
    requires Blank(left) && Blank(right)
    requires core != "" ==> core[0] != ' ' && core[|core| - 1] != ' '
    ensures TrimRight(TrimLeft(left + core + right)) == core
  {
    if core == "" { AllTrimmed(left, core, right); } else { CoreLeft(left, core, right); }
  }

  lemma AllTrimmed(left: string, core: string, right: string)
    requires Blank(left) && Blank(right) && core == ""
    ensures TrimRight(TrimLeft(left + core + right)) == ""
  {
    hide TrimLeft;
    var blanks := left + right;
    assert left + core + right == blanks + "";
    TrimLeftIs(blanks, "");
  }

  lemma CoreLeft(left: string, core: string, right: string)
    requires Blank(left) && Blank(right) && core != "" && core[0] != ' ' && core[|core| - 1] != ' '
    ensures TrimRight(TrimLeft(left + core + right)) == core
  {
    hide TrimLeft, TrimRight, Blank;
    var rest := core + right;
    Reassociate(left, core, right);
    assert rest[0] == core[0];
    TrimLeftIs(left, rest);
    TrimRightIs(core, right);
  }

  lemma Reassociate(a: string, b: string, c: string)
    ensures a + b + c == a + (b + c)
  {
  }

  lemma TrimLeftStep(text: string, k: nat)
    requires k < |text| && text[k] == ' '
    ensures TrimLeft(text[k..]) == TrimLeft(text[k + 1..])
  {
    assert text[k..][1..] == text[k + 1..];
  }

  lemma TrimRightStep(text: string, k: nat, front: string)
    requires k < |text| && front == text[..k + 1] && front[k] == ' '
    ensures TrimRight(text[..k + 1]) == TrimRight(text[..k]) && front[..k] == text[..k]
  {
    assert front[..k] == text[..k];
  }

  lemma CutText(b: seq<char>, text: string, len: nat)
    requires len <= |text| && NUL !in text && len < |b| && b[..len] == text[..len] && b[len] == NUL
    ensures Terminated(b) && Text(b) == text[..len]
  {
    assert NUL !in b[..len];
    TextEnds(b, len);
  }

  lemma MovedText(o: seq<char>, k: nat)
    requires Terminated(o) && k <= |Text(o)|
    ensures var c := Moved(o, 0, k, |Text(o)| - k + 1); Terminated(c) && Text(c) == Text(o)[k..]
  {
    var n := |Text(o)| - k;
    var c := Moved(o, 0, k, n + 1);
    assert c[n] == NUL && c[..n] == Text(o)[k..];
    TextEnds(c, n);
  }

  /** trim. */
  method Trim(s: array<char>)
    requires Terminated(s[..])
    modifies s
    ensures Terminated(s[..]) && Text(s[..]) == TrimRight(TrimLeft(old(Text(s[..]))))
  {
    hide TrimLeft, TrimRight, Moved;
    ghost var text := Text(s[..]);
    var len := Strlen(s);
    var start := SkipBlanks(s);
    MovedText(s[..], start);
    if start > 0 {
      Memmove(s, 0, start, len - start + 1);
    }
    assert Text(s[..]) == text[start..];
    CutBlanks(s);
  }

  /** The first loop of trim. */
  method SkipBlanks(s: array<char>) returns (start: nat)
    requires Terminated(s[..])
    ensures start <= |Text(s[..])| && Text(s[..])[start..] == TrimLeft(Text(s[..]))
  {
    ghost var text := Text(s[..]);
    start := 0;
    while s[start] == ' '
      invariant start <= |text| && TrimLeft(text) == TrimLeft(text[start..])
      decreases |text| - start
    {
      TrimLeftStep(text, start);
      start := start + 1;
    }
  }

  /** The last loop of trim. */
  method CutBlanks(s: array<char>)
    requires Terminated(s[..])
    modifies s
    ensures Terminated(s[..]) && Text(s[..]) == TrimRight(old(Text(s[..])))
  {
    hide TrimRight, Text;
    ghost var rest := Text(s[..]);
    var len: nat := Strlen(s);
    while len > 0 && s[len - 1] == ' '
      invariant len <= |rest| < s.Length && s[..len] == rest[..len] && s[len] == NUL
      invariant TrimRight(rest) == TrimRight(rest[..len])
    {
      len := len - 1;
      TrimRightStep(rest, len, s[..len + 1]);
      s[len] := NUL;
    }
    CutText(s[..], rest, len);
    TrimmedAt(rest, len);
  }

  lemma TrimmedAt(text: string, len: nat)
    requires len <= |text| && (len > 0 ==> text[len - 1] != ' ')
    ensures TrimRight(text[..len]) == text[..len]
  {
  }

  method Strlen(s: array<char>) returns (len: nat)
    requires Terminated(s[..])
    ensures len == |Text(s[..])|
  {
    len := 0;
    while s[len] != NUL
      invariant len <= |Text(s[..])|
      decreases |Text(s[..])| - len
    {
      len := len + 1;
    }
  }
}
