/** The shell's variable table and bounded expansion as user/shell.c has them: fixed buffers changed in place. */
module Shell {
  import opened CStrings
  import opened Options
  import opened Bindings
  import opened Expansion

  class Variable {
    const name: array<char>
    const value: array<char>

    constructor ()
      ensures fresh(name) && fresh(value) && name.Length == NAME_MAX + 1 && value.Length == VALUE_MAX + 1 && name != value
    {
      name, value := new char[NAME_MAX + 1], new char[VALUE_MAX + 1];
    }
  }

  class Environment {
    const vars: seq<Variable>
    var count: nat

    /** The buffers of the table. */
    ghost function Buffers(): set<array<char>> {
      (set i | 0 <= i < |vars| :: vars[i].name) + (set i | 0 <= i < |vars| :: vars[i].value)
    }

    /** Sixteen records with two buffers each, all different. */
    ghost predicate Laid() {
      && |vars| == MAX_VARS
      && (forall i :: 0 <= i < |vars| ==> vars[i].name.Length == NAME_MAX + 1 && vars[i].value.Length == VALUE_MAX + 1)
      && (forall i, j :: 0 <= i < |vars| && 0 <= j < |vars| ==> vars[i].name != vars[j].value)
      && (forall i, j :: 0 <= i < j < |vars| ==> vars[i].name != vars[j].name && vars[i].value != vars[j].value)
    }

    ghost predicate Valid()
      reads this, Buffers()
    {
      && Laid() && count <= MAX_VARS
      && forall i :: 0 <= i < count ==> Terminated(vars[i].name[..]) && Terminated(vars[i].value[..])
    }

    ghost function At(i: nat): Binding
      requires i < |vars|
      reads Buffers()
    {
      Binding(Text(vars[i].name[..]), Text(vars[i].value[..]))
    }

    ghost function View(): (e: seq<Binding>)
      requires count <= |vars|
      reads this, Buffers()
      ensures |e| == count && forall i :: 0 <= i < count ==> e[i] == At(i)
    {
      seq(count, i requires 0 <= i < count && count <= |vars| reads this, Buffers() => At(i))
    }

    constructor ()
      ensures Valid() && View() == [] && fresh(Buffers())
    {
      var vs: seq<Variable> := [];
      for i := 0 to MAX_VARS
        invariant |vs| == i
        invariant forall j :: 0 <= j < i ==> fresh(vs[j].name) && fresh(vs[j].value)
        invariant forall j :: 0 <= j < i ==> vs[j].name.Length == NAME_MAX + 1 && vs[j].value.Length == VALUE_MAX + 1
        invariant forall j, k :: 0 <= j < i && 0 <= k < i ==> vs[j].name != vs[k].value
        invariant forall j, k :: 0 <= j < k < i ==> vs[j].name != vs[k].name && vs[j].value != vs[k].value
      {
        var v := new Variable();
        vs := vs + [v];
      }
      vars, count := vs, 0;
    }

    /** The loop that set_env_var and get_env_var share: the first record with that name. */
    method Search(name: CString) returns (i: nat)
      requires Valid()
      ensures i == Find(View(), name)
    {
      ghost var e := View();
      i := 0;
      while i < count
        invariant i <= count && View() == e
        invariant forall j :: 0 <= j < i ==> e[j].name != name
      {
        assert e[i] == At(i);
        var same := Strcmp(vars[i].name, name);
        if same { break; }
        i := i + 1;
      }
      assert View() == e;
      FindIs(e, name, i);
    }

    /** A known variable gets a new value. */
    method StoreValue(i: nat, value: CString)
      requires Valid() && i < count
      modifies vars[i].value
      ensures Valid() && View() == old(View())[i := old(View())[i].(value := Take(value, VALUE_MAX))]
    {
      ghost var e := View();
      Strncpy(vars[i].value, value, VALUE_MAX);
      forall j | 0 <= j < count && j != i ensures At(j) == e[j] {}
    }

    /** A new variable takes the next record. */
    method AppendVariable(name: CString, value: CString)
      requires Valid() && count < MAX_VARS
      modifies this`count, vars[count].name, vars[count].value
      ensures Valid() && View() == old(View()) + [Binding(Take(name, NAME_MAX), Take(value, VALUE_MAX))]
    {
      ghost var e := View();
      Strncpy(vars[count].name, name, NAME_MAX);
      Strncpy(vars[count].value, value, VALUE_MAX);
      count := count + 1;
      forall j | 0 <= j < count - 1 ensures At(j) == e[j] {}
    }

    /** set_env_var. */
    method SetEnvVar(name: CString, value: CString)
      requires Valid()
      modifies this`count, Buffers()
      ensures Valid() && View() == SetVar(old(View()), name, value)
    {
      var i := Search(name);
      if i < count {
        StoreValue(i, value);
        return;
      }
      if count < MAX_VARS {
        AppendVariable(name, value);
      }
    }

    /** get_env_var: the value's buffer, or null. */
    method GetEnvVar(name: CString) returns (value: array?<char>)
      requires Valid()
      ensures value == null <==> Get(View(), name).None?
      ensures value != null ==> value in Buffers() && Terminated(value[..]) && Text(value[..]) == Get(View(), name).value
      ensures Given(value) == ValueOf(View(), name)
    {
      var i := Search(name);
      value := if i < count then vars[i].value else null;
    }
  }

  // ------------------------------------------------------------ bounded expansion

  /** How many characters fit before the terminator: max_len - 1 in 64 bits, so that 0 stands for no bound. */
  function Limit(maxLen: nat): nat
    requires maxLen < 0x1_0000_0000_0000_0000
  {
    if maxLen == 0 then 0xFFFF_FFFF_FFFF_FFFF else maxLen - 1
  }

  lemma LimitIs(maxLen: nat)
    requires maxLen < 0x1_0000_0000_0000_0000
    ensures Limit(maxLen) == (maxLen - 1) % 0x1_0000_0000_0000_0000
  {
  }

  /** `out` is as much of `whole` as the limit lets through, or `rest` is still to come. */
  ghost predicate Progress(out: string, rest: string, whole: string, limit: nat) {
    && |out| <= limit && out <= whole
    && (|out| < limit ==> out + rest == whole)
  }

  /** Adding one value, cut at the limit. */
  lemma OneMore(out: string, v: string, rest: string, whole: string, limit: nat)
    requires Progress(out, v + rest, whole, limit) && |out| < limit
    ensures Progress(out + Take(v, limit - |out|), rest, whole, limit)
  {
    var w := Take(v, limit - |out|);
    assert out + (v + rest) == out + v + rest;
    assert out + w <= out + v;
  }

  lemma Started(whole: string, limit: nat)
    ensures Progress("", whole, whole, limit)
  {
    assert "" + whole == whole;
  }

  lemma Finished(out: string, rest: string, whole: string, limit: nat)
    requires Progress(out, rest, whole, limit) && (rest == "" || |out| == limit)
    ensures out == Take(whole, limit)
  {
    if |out| < limit { assert out + "" == out; }
  }

  lemma RunNext(s: string, j: nat, p: char -> bool, k: nat)
    requires j <= |s|
    ensures RunOf(s[j..], p, k) == if j < |s| && p(s[j]) && k > 0 then 1 + RunOf(s[j + 1..], p, k - 1) else 0
  {
    assert j < |s| ==> s[j..][1..] == s[j + 1..];
  }

  /** The inner loops: up to `most` characters that satisfy p, from position i. */
  method ScanName(line: CString, i: nat, p: char -> bool) returns (name: CString, j: nat)
    requires i <= |line|
    ensures j == i + RunOf(line[i..], p, NAME_RUN) && j <= |line| && name == line[i..j]
  {
    hide RunOf;
    name, j := "", i;
    while j < |line| && p(line[j]) && |name| < NAME_RUN
      invariant i <= j <= |line| && name == line[i..j] && |name| <= NAME_RUN
      invariant RunOf(line[i..], p, NAME_RUN) == j - i + RunOf(line[j..], p, NAME_RUN - (j - i))
    {
      RunNext(line, j, p, NAME_RUN - (j - i));
      name := name + [line[j]];
      j := j + 1;
    }
    RunNext(line, j, p, NAME_RUN - (j - i));
  }

  /** k characters of v have been written behind the first `len0`. */
  ghost predicate Copied(c: seq<char>, o: seq<char>, len0: nat, v: string, k: nat) {
    && |c| == |o| && k <= |v| && len0 + k <= |o|
    && c[..len0 + k] == o[..len0] + v[..k] && c[len0 + k..] == o[len0 + k..]
  }

  lemma CopiedNext(c: seq<char>, o: seq<char>, len0: nat, v: string, k: nat)
    requires Copied(c, o, len0, v, k) && k < |v| && len0 + k < |o|
    ensures Copied(c[len0 + k := v[k]], o, len0, v, k + 1)
  {
    var d := c[len0 + k := v[k]];
    assert d[..len0 + k + 1] == c[..len0 + k] + [v[k]];
    assert d[len0 + k + 1..] == c[len0 + k..][1..];
  }

  /** The value a lookup handed out. */
  ghost function Given(value: array?<char>): string
    reads value
  {
    if value == null then "" else Text(value[..])
  }

  /** Copying a variable's value, if there is one, until the limit is reached. */
  method CopyValue(value: array?<char>, expanded: array<char>, len0: nat, limit: nat) returns (len: nat)
    requires value != null ==> Terminated(value[..]) && value != expanded
    requires len0 <= limit && len0 + |Take(Given(value), limit - len0)| <= expanded.Length
    modifies expanded
    ensures len == len0 + |Take(Given(value), limit - len0)|
    ensures Copied(expanded[..], old(expanded[..]), len0, Given(value), len - len0)
  {
    len := len0;
    ghost var o := expanded[..];
    ghost var v := Given(value);
    assert Copied(o, o, len0, v, 0);
    hide Copied;
    if value != null {
      var k := 0;
      while value[k] != NUL && len < limit
        invariant k <= |v| && len == len0 + k <= limit && v == Given(value)
        invariant Copied(expanded[..], o, len0, v, k)
        decreases |v| - k
      {
        CopiedNext(expanded[..], o, len0, v, k);
        expanded[len] := value[k];
        len, k := len + 1, k + 1;
      }
    }
  }

  /** One round of the outer loop: the front of the rest of the line has been replaced, cut at the limit. */
  ghost predicate Replaced(c: seq<char>, o: seq<char>, e: seq<Binding>, rest: string, len0: nat, len: nat, used: nat, limit: nat)
    requires rest != "" && len0 <= limit
  {
    && used == Front(e, rest).1
    && len == len0 + |Take(Front(e, rest).0, limit - len0)|
    && Copied(c, o, len0, Front(e, rest).0, len - len0)
  }

  lemma CopiedNone(c: seq<char>, len0: nat)
    requires len0 <= |c|
    ensures Copied(c, c, len0, "", 0)
  {
  }

  lemma FrontBraced(e: seq<Binding>, line: string, i: nat)
    requires i < |line| && Braced(line[i..])
    ensures var j := i + 2 + RunOf(line[i + 2..], NotBrace, NAME_RUN);
      && j <= |line|
      && Front(e, line[i..]) == if CStrings.At(line, j) == '}' then (ValueOf(e, line[i + 2..j]), j + 1 - i) else ("", j - i)
  {
    var s := line[i..];
    var n := RunOf(s[2..], NotBrace, NAME_RUN);
    assert s[2..] == line[i + 2..] && s[2..2 + n] == line[i + 2..i + 2 + n];
    assert 2 + n < |s| ==> s[2 + n] == line[i + 2 + n];
  }

  lemma FrontNamed(e: seq<Binding>, line: string, i: nat)
    requires i < |line| && Named(line[i..])
    ensures var j := i + 1 + RunOf(line[i + 1..], IsWord, NAME_RUN);
      j <= |line| && Front(e, line[i..]) == (ValueOf(e, line[i + 1..j]), j - i)
  {
    var s := line[i..];
    var n := RunOf(s[1..], IsWord, NAME_RUN);
    assert s[1..] == line[i + 1..] && s[1..1 + n] == line[i + 1..i + 1 + n];
  }

  /** The first branch: ${NAME}. */
  method ReplaceBraced(env: Environment, ghost e: seq<Binding>, line: CString, src0: nat, expanded: array<char>, len0: nat, limit: nat) returns (src: nat, len: nat)
    requires env.Valid() && e == env.View() && expanded !in env.Buffers() && src0 < |line| && Braced(line[src0..]) && len0 <= limit
    requires len0 + |Take(Front(e, line[src0..]).0, limit - len0)| <= expanded.Length
    modifies expanded
    ensures src >= src0 && len >= len0
    ensures Replaced(expanded[..], old(expanded[..]), e, line[src0..], len0, len, src - src0, limit)
  {
    hide Front, Copied, ValueOf, Given, Get, RunOf, Text, Find;
    FrontBraced(e, line, src0);
    var name, j := ScanName(line, src0 + 2, NotBrace);
    src, len := j, len0;
    if CStrings.At(line, src) == '}' {
      src := src + 1;
      var value := env.GetEnvVar(name);
      assert Front(e, line[src0..]) == (Given(value), src - src0);
      len := CopyValue(value, expanded, len, limit);
    } else {
      CopiedNone(expanded[..], len0);
    }
  }

  /** The second branch: $NAME. */
  method ReplaceNamed(env: Environment, ghost e: seq<Binding>, line: CString, src0: nat, expanded: array<char>, len0: nat, limit: nat) returns (src: nat, len: nat)
    requires env.Valid() && e == env.View() && expanded !in env.Buffers() && src0 < |line| && Named(line[src0..]) && len0 <= limit
    requires len0 + |Take(Front(e, line[src0..]).0, limit - len0)| <= expanded.Length
    modifies expanded
    ensures src >= src0 && len >= len0
    ensures Replaced(expanded[..], old(expanded[..]), e, line[src0..], len0, len, src - src0, limit)
  {
    hide Front, Copied, ValueOf, Given, Get, RunOf, Text, Find;
    FrontNamed(e, line, src0);
    var name, j := ScanName(line, src0 + 1, IsWord);
    src := j;
    var value := env.GetEnvVar(name);
    assert Front(e, line[src0..]) == (Given(value), src - src0);
    len := CopyValue(value, expanded, len0, limit);
  }

  /** One round keeps the progress made and makes some. */
  lemma RoundDone(c: seq<char>, o: seq<char>, e: seq<Binding>, line: string, src: nat, used: nat, len0: nat, len: nat, limit: nat)
    requires src < |line| && len0 < limit && len0 <= |o|
    requires Replaced(c, o, e, line[src..], len0, len, used, limit)
    requires Progress(o[..len0], Expand(e, line[src..]), Expand(e, line), limit)
    ensures len <= |c| && src < src + used <= |line|
    ensures Progress(c[..len], Expand(e, line[src + used..]), Expand(e, line), limit)
    ensures c[len..] == o[len..]
  {
    hide Expand, Front, Progress;
    var s := line[src..];
    ExpandStep(e, s);
    OneMore(o[..len0], Front(e, s).0, Expand(e, s[used..]), Expand(e, line), limit);
    assert s[used..] == line[src + used..];
  }

  /** What is written never goes beyond the limit or the expansion. */
  lemma Fits(out: string, e: seq<Binding>, s: string, whole: string, limit: nat)
    requires s != "" && Progress(out, Expand(e, s), whole, limit) && |out| < limit
    ensures |out| + |Take(Front(e, s).0, limit - |out|)| <= |Take(whole, limit)|
  {
    ExpandStep(e, s);
  }

  /** One round of the outer loop. */
  method Round(env: Environment, ghost e: seq<Binding>, line: CString, src0: nat, expanded: array<char>, len0: nat, limit: nat) returns (src: nat, len: nat)
    requires env.Valid() && e == env.View() && expanded !in env.Buffers() && src0 < |line| && len0 < limit
    requires len0 + |Take(Front(e, line[src0..]).0, limit - len0)| <= expanded.Length
    modifies expanded
    ensures src >= src0 && len >= len0
    ensures Replaced(expanded[..], old(expanded[..]), e, line[src0..], len0, len, src - src0, limit)
  {
    ghost var s := line[src0..];
    if line[src0] == '$' && CStrings.At(line, src0 + 1) == '{' {
      src, len := ReplaceBraced(env, e, line, src0, expanded, len0, limit);
    } else if line[src0] == '$' && IsLetter(CStrings.At(line, src0 + 1)) {
      src, len := ReplaceNamed(env, e, line, src0, expanded, len0, limit);
    } else {
      assert !Braced(s) && !Named(s);
      expanded[len0] := line[src0];
      src, len := src0 + 1, len0 + 1;
    }
  }

  /** expand_variables: the expansion, cut to what fits, with its terminator; nothing behind it is written. */
  method ExpandVariables(env: Environment, line: CString, expanded: array<char>, maxLen: nat)
    requires env.Valid() && expanded !in env.Buffers() && maxLen < 0x1_0000_0000_0000_0000
    requires |Take(Expand(env.View(), line), Limit(maxLen))| < expanded.Length
    modifies expanded
    ensures env.Valid() && env.View() == old(env.View())
    ensures var out := Take(Expand(env.View(), line), Limit(maxLen));
      && expanded[..|out|] == out && expanded[|out|] == NUL
      && forall i :: |out| < i < expanded.Length ==> expanded[i] == old(expanded[i])
  {
    hide Expand, Front, Progress, Replaced, Copied;
    var limit := Limit(maxLen);
    ghost var e := env.View();
    ghost var whole := Expand(e, line);
    var src, len := 0, 0;
    Started(whole, limit);
    assert line[0..] == line && expanded[..0] == "";
    while src < |line| && len < limit
      invariant src <= |line| && len <= limit && len <= |Take(whole, limit)| && env.Valid() && env.View() == e
      invariant Progress(expanded[..len], Expand(e, line[src..]), whole, limit)
      invariant expanded[len..] == old(expanded[len..])
      decreases |line| - src
    {
      ghost var o, src0, len0 := expanded[..], src, len;
      Fits(o[..len], e, line[src..], whole, limit);
      src, len := Round(env, e, line, src, expanded, len, limit);
      RoundDone(expanded[..], o, e, line, src0, src - src0, len0, len, limit);
      assert o[len..] == o[len0..][len - len0..];
    }
    assert src == |line| ==> line[src..] == "";
    ExpandStep(e, "");
    Finished(expanded[..len], Expand(e, line[src..]), whole, limit);
    expanded[len] := NUL;
  }
}
