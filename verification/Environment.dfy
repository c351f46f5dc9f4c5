/** The shell's variables (user/shell.c): a table of sixteen, as a list of bindings. */
module Bindings {
  import opened CStrings
  import opened Options

  const MAX_VARS: nat := 16
  const NAME_MAX: nat := 31
  const VALUE_MAX: nat := 127
  const NAME_RUN: nat := 31

  datatype Binding = Binding(name: string, value: string)

  /** The first binding of a name, or the length of the list. */
  function Find(e: seq<Binding>, name: string): (i: nat)
    ensures i <= |e| && (i < |e| ==> e[i].name == name)
    ensures forall j :: 0 <= j < i ==> e[j].name != name
  {
    if e == [] || e[0].name == name then 0 else 1 + Find(e[1..], name)
  }

  function Get(e: seq<Binding>, name: string): Option<string> {
    var i := Find(e, name);
    if i < |e| then Some(e[i].value) else None
  }

  /** set_env_var. */
  function SetVar(e: seq<Binding>, name: string, value: string): seq<Binding> {
    var i := Find(e, name);
    if i < |e| then e[i := e[i].(value := Take(value, VALUE_MAX))]
    else if |e| < MAX_VARS then e + [Binding(Take(name, NAME_MAX), Take(value, VALUE_MAX))]
    else e
  }

  lemma FindIs(e: seq<Binding>, name: string, i: nat)
    requires i <= |e| && (i < |e| ==> e[i].name == name) && forall j :: 0 <= j < i ==> e[j].name != name
    ensures Find(e, name) == i
  {
  }

  /** What every later lookup sees. A name of more than 31 characters is not found under itself: each setting
      adds a binding of its first 31, which an older binding of those hides. */
  lemma GetAfterSet(e: seq<Binding>, name: string, value: string, m: string)
    ensures var kept := if |value| <= 127 then value else value[..127];
      Get(SetVar(e, name, value), m) ==
        if Get(e, name).Some? then (if m == name then Some(kept) else Get(e, m))
        else if |e| < 16 && m == (if |name| <= 31 then name else name[..31]) && Get(e, m).None? then Some(kept)
        else Get(e, m)
  {
    var i, k := Find(e, name), Find(e, m);
    var s := SetVar(e, name, value);
    assert Take(name, NAME_MAX) == if |name| <= 31 then name else name[..31];
    assert Take(value, VALUE_MAX) == if |value| <= 127 then value else value[..127];
    if i < |e| {
      forall j | 0 <= j < |e| ensures s[j].name == e[j].name {}
      FindIs(s, m, k);
    } else if |e| < MAX_VARS {
      forall j | 0 <= j < |e| ensures s[j] == e[j] {}
      FindIs(s, m, if k < |e| || m == Take(name, NAME_MAX) then k else k + 1);
    }
  }

  /** A variable just set has its value, cut to 127 characters, exactly if it was there before or there was room
      and its name has at most 31 characters. */
  lemma SetThenGet(e: seq<Binding>, name: string, value: string)
    ensures Get(SetVar(e, name, value), name) == Some(if |value| <= 127 then value else value[..127])
      <==> Get(e, name).Some? || (|e| < 16 && |name| <= 31)
  {
    GetAfterSet(e, name, value, name);
  }

  // ------------------------------------------------------------- a bounded map

  /** What the table means. */
  function AsMap(e: seq<Binding>): (m: map<string, string>)
    ensures forall n :: n in m <==> Get(e, n).Some?
    ensures forall n :: n in m ==> m[n] == Get(e, n).value
  {
    if e == [] then map[] else
      var rest := AsMap(e[1..]);
      rest[e[0].name := e[0].value]
  }

  ghost predicate Distinct(e: seq<Binding>) {
    |e| <= 16 && forall i, j :: 0 <= i < j < |e| ==> e[i].name != e[j].name
  }

  /** A map that takes no more than sixteen names. */
  function Bounded(m: map<string, string>, name: string, value: string): map<string, string> {
    if name in m || |m| < 16 then m[name := if |value| <= 127 then value else value[..127]] else m
  }

  lemma HeadNew(e: seq<Binding>)
    requires Distinct(e) && e != []
    ensures Get(e[1..], e[0].name).None?
  {
    var f := Find(e[1..], e[0].name);
    assert f == |e| - 1;
  }

  lemma {:induction false} Size(e: seq<Binding>)
    requires Distinct(e)
    ensures |AsMap(e)| == |e|
  {
    if e != [] {
      Size(e[1..]);
      var rest := AsMap(e[1..]);
      HeadNew(e);
      assert AsMap(e).Keys == rest.Keys + {e[0].name};
    }
  }

  /** For names of up to 31 characters, setting is setting in the bounded map. */
  lemma SetRefines(e: seq<Binding>, name: string, value: string)
    requires Distinct(e) && |name| <= 31
    ensures Distinct(SetVar(e, name, value))
    ensures AsMap(SetVar(e, name, value)) == Bounded(AsMap(e), name, value)
  {
    hide AsMap, SetVar, Get;
    assert Take(name, NAME_MAX) == name;
    SetDistinct(e, name, value);
    Size(e);
    var s, b := AsMap(SetVar(e, name, value)), Bounded(AsMap(e), name, value);
    forall n ensures (n in s <==> n in b) && (n in s ==> s[n] == b[n]) {
      GetAfterSet(e, name, value, n);
    }
  }

  lemma SetDistinct(e: seq<Binding>, name: string, value: string)
    requires Distinct(e) && |name| <= NAME_MAX
    ensures Distinct(SetVar(e, name, value))
  {
    assert Take(name, NAME_MAX) == name;
  }

  /** The table, and the bounded map, after a list of settings. */
  function SetAll(sets: seq<Binding>): seq<Binding> {
    if sets == [] then []
    else SetVar(SetAll(sets[..|sets| - 1]), sets[|sets| - 1].name, sets[|sets| - 1].value)
  }

  function BoundedAll(sets: seq<Binding>): map<string, string> {
    if sets == [] then map[]
    else Bounded(BoundedAll(sets[..|sets| - 1]), sets[|sets| - 1].name, sets[|sets| - 1].value)
  }

  /** Over every run of settings with names of up to 31 characters, the table is the bounded map. */
  lemma {:induction false} RunRefines(sets: seq<Binding>)
    requires forall b :: b in sets ==> |b.name| <= 31
    ensures Distinct(SetAll(sets)) && AsMap(SetAll(sets)) == BoundedAll(sets)
  {
    if sets != [] {
      var b := sets[|sets| - 1];
      assert b in sets;
      RunRefines(sets[..|sets| - 1]);
      SetRefines(SetAll(sets[..|sets| - 1]), b.name, b.value);
    }
  }
}

/** Replacing variables by their values, without a bound on the result (user/shell.c, expand_variables). */
module Expansion {
  import opened CStrings
  import opened Options
  import opened Bindings

  predicate IsLetter(c: char) { 'A' <= c <= 'Z' || 'a' <= c <= 'z' || c == '_' }
  predicate IsWord(c: char) { IsLetter(c) || '0' <= c <= '9' }
  predicate NotBrace(c: char) { c != '}' }

  /** The characters of a name, and those it begins with. */
  lemma NameCharacters(c: char)
    ensures IsLetter(c) <==> 65 <= c as int <= 90 || 97 <= c as int <= 122 || c as int == 95
    ensures IsWord(c) <==> IsLetter(c) || 48 <= c as int <= 57
  {
  }

  /** How many of the first k characters, from the front, satisfy p. */
  function RunOf(s: string, p: char -> bool, k: nat): (n: nat)
    ensures n <= k && n <= |s| && (forall i :: 0 <= i < n ==> p(s[i])) && (n < k && n < |s| ==> !p(s[n]))
  {
    if k == 0 || s == "" || !p(s[0]) then 0 else 1 + RunOf(s[1..], p, k - 1)
  }

  function ValueOf(e: seq<Binding>, name: string): string {
    match Get(e, name) case None => "" case Some(v) => v
  }

  predicate Braced(s: string) { |s| >= 2 && s[0] == '$' && s[1] == '{' }
  predicate Named(s: string) { |s| >= 2 && s[0] == '$' && IsLetter(s[1]) }

  /** What stands for the front of s, and how many characters of s it stands for. */
  function Front(e: seq<Binding>, s: string): (r: (string, nat))
    requires s != ""
    ensures 0 < r.1 <= |s|
  {
    if Braced(s) then
      var n := RunOf(s[2..], NotBrace, NAME_RUN);
      if 2 + n < |s| && s[2 + n] == '}' then (ValueOf(e, s[2..2 + n]), n + 3) else ("", n + 2)
    else if Named(s) then
      var n := RunOf(s[1..], IsWord, NAME_RUN);
      (ValueOf(e, s[1..1 + n]), n + 1)
    else ([s[0]], 1)
  }

  function Expand(e: seq<Binding>, s: string): string
    decreases |s|
  {
    if s == "" then "" else Front(e, s).0 + Expand(e, s[Front(e, s).1..])
  }

  lemma ExpandStep(e: seq<Binding>, s: string)
    ensures Expand(e, "") == ""
    ensures s != "" ==> Expand(e, s) == Front(e, s).0 + Expand(e, s[Front(e, s).1..])
  {
  }

  // ------------------------------------------------------------ what it means

  /** A command line as its author thinks of it. */
  datatype Piece =
    | Plain(text: string)
    | Brace(name: string)
    | Bare(name: string)
    | Open(name: string)
    | Dollar

  function Written(p: Piece): string {
    match p
    case Plain(t) => t
    case Brace(n) => "${" + n + "}"
    case Bare(n) => "$" + n
    case Open(n) => "${" + n
    case Dollar => "$"
  }

  function Meant(e: seq<Binding>, p: Piece): string {
    match p
    case Plain(t) => t
    case Brace(n) => if Get(e, n).Some? then Get(e, n).value else ""
    case Bare(n) => if Get(e, n).Some? then Get(e, n).value else ""
    case Open(_) => ""
    case Dollar => "$"
  }

  function Line(ps: seq<Piece>): string { if ps == [] then "" else Written(ps[0]) + Line(ps[1..]) }

  function Meaning(e: seq<Binding>, ps: seq<Piece>): string { if ps == [] then "" else Meant(e, ps[0]) + Meaning(e, ps[1..]) }

  /** A piece that the text behind it does not change: no dollar in plain text, names of up to 31 characters,
      no closing brace inside a braced name, a bare name that ends where it should, a braced name left open at
      the end of the line or behind its 31st character, a dollar that starts nothing. */
  ghost predicate Separate(p: Piece, behind: string) {
    match p
    case Plain(t) => '$' !in t
    case Brace(n) => |n| <= 31 && '}' !in n
    case Bare(n) =>
      && 0 < |n| <= 31 && IsLetter(n[0]) && (forall i :: 0 <= i < |n| ==> IsWord(n[i]))
      && (|n| == 31 || behind == "" || !IsWord(behind[0]))
    case Open(n) => |n| <= 31 && '}' !in n && (behind == "" || (|n| == 31 && behind[0] != '}'))
    case Dollar => behind == "" || (behind[0] != '{' && !IsLetter(behind[0]))
  }

  ghost predicate Legible(ps: seq<Piece>) {
    ps == [] || (Separate(ps[0], Line(ps[1..])) && Legible(ps[1..]))
  }

  lemma {:induction false} RunIs(a: string, b: string, p: char -> bool, k: nat)
    requires |a| <= k && (forall i :: 0 <= i < |a| ==> p(a[i])) && (|a| == k || b == "" || !p(b[0]))
    ensures RunOf(a + b, p, k) == |a|
  {
    if a == "" {
      assert a + b == b;
    } else {
      assert (a + b)[1..] == a[1..] + b;
      RunIs(a[1..], b, p, k - 1);
    }
  }

  lemma {:induction false} ExpandPlain(e: seq<Binding>, t: string, behind: string)
    requires '$' !in t
    ensures Expand(e, t + behind) == t + Expand(e, behind)
  {
    if t == "" {
      assert t + behind == behind;
    } else {
      assert t[0] in t;
      assert (t + behind)[1..] == t[1..] + behind;
      ExpandPlain(e, t[1..], behind);
    }
  }

  lemma ExpandBrace(e: seq<Binding>, n: string, behind: string)
    requires |n| <= NAME_RUN && '}' !in n
    ensures Expand(e, "${" + n + "}" + behind) == ValueOf(e, n) + Expand(e, behind)
  {
    hide Expand;
    var s := "${" + n + "}" + behind;
    FrontOfBrace(e, n, behind);
    ExpandStep(e, s);
    assert s[|n| + 3..] == behind;
  }

  lemma FrontOfBrace(e: seq<Binding>, n: string, behind: string)
    requires |n| <= NAME_RUN && '}' !in n
    ensures Front(e, "${" + n + "}" + behind) == (ValueOf(e, n), |n| + 3)
  {
    var s := "${" + n + "}" + behind;
    var after := "}" + behind;
    assert s[2..] == n + after;
    RunIs(n, after, NotBrace, NAME_RUN);
    assert s[2..2 + |n|] == n && s[2 + |n|] == '}';
  }

  lemma ExpandBare(e: seq<Binding>, n: string, behind: string)
    requires Separate(Bare(n), behind)
    ensures Expand(e, "$" + n + behind) == ValueOf(e, n) + Expand(e, behind)
  {
    var s := "$" + n + behind;
    assert s[1..] == n + behind && s[1] == n[0];
    RunIs(n, behind, IsWord, NAME_RUN);
    assert s[1..1 + |n|] == n && s[|n| + 1..] == behind;
  }

  /** A braced name that is not closed within 31 characters vanishes, together with the opening; what is behind
      those 31 is read as ordinary text. */
  lemma ExpandOpen(e: seq<Binding>, n: string, behind: string)
    requires |n| <= 31 && '}' !in n
    requires behind == "" || (|n| == 31 && behind[0] != '}')
    ensures Expand(e, "${" + n + behind) == Expand(e, behind)
  {
    var s := "${" + n + behind;
    assert s[2..] == n + behind;
    RunIs(n, behind, NotBrace, NAME_RUN);
    assert s[|n| + 2..] == behind;
    assert Front(e, s) == ("", |n| + 2) by {
      assert behind != "" ==> s[2 + |n|] == behind[0];
    }
    hide *;
    ExpandStep(e, s);
  }

  lemma ExpandDollar(e: seq<Binding>, behind: string)
    requires Separate(Dollar, behind)
    ensures Expand(e, "$" + behind) == "$" + Expand(e, behind)
  {
    var s := "$" + behind;
    assert s[1..] == behind;
    assert behind != "" ==> s[1] == behind[0];
  }

  /** A legible line is expanded piece by piece, as meant. */
  lemma {:induction false} ExpandLine(e: seq<Binding>, ps: seq<Piece>)
    requires Legible(ps)
    ensures Expand(e, Line(ps)) == Meaning(e, ps)
  {
    hide Expand, Separate, Written, Meant;
    if ps == [] {
      ExpandStep(e, "");
    } else {
      ExpandLine(e, ps[1..]);
      ExpandPiece(e, ps[0], Line(ps[1..]));
    }
  }

  lemma ExpandPiece(e: seq<Binding>, p: Piece, behind: string)
    requires Separate(p, behind)
    ensures Expand(e, Written(p) + behind) == Meant(e, p) + Expand(e, behind)
  {
    hide Expand;
    match p
    case Plain(t) => ExpandPlain(e, t, behind);
    case Brace(n) => ExpandBrace(e, n, behind);
    case Bare(n) => ExpandBare(e, n, behind);
    case Open(n) => ExpandOpen(e, n, behind);
    case Dollar => ExpandDollar(e, behind);
  }

  lemma FrontBrace(s: string) returns (p: Piece, behind: string)
    requires Braced(s)
    ensures s == Written(p) + behind && Separate(p, behind) && |behind| < |s|
  {
    var n := RunOf(s[2..], NotBrace, NAME_RUN);
    var name := s[2..2 + n];
    assert forall i :: 0 <= i < n ==> name[i] == s[2..][i];
    if 2 + n < |s| && s[2 + n] == '}' {
      p, behind := Brace(name), s[3 + n..];
      assert s == "${" + name + "}" + behind;
    } else {
      p, behind := Open(name), s[2 + n..];
      assert s == "${" + name + behind;
    }
  }

  lemma FrontName(s: string) returns (p: Piece, behind: string)
    requires Named(s)
    ensures s == Written(p) + behind && Separate(p, behind) && |behind| < |s|
  {
    var n := RunOf(s[1..], IsWord, NAME_RUN);
    var name := s[1..1 + n];
    assert n > 0 by { assert IsWord(s[1..][0]); }
    assert forall i :: 0 <= i < n ==> name[i] == s[1..][i];
    p, behind := Bare(name), s[1 + n..];
    assert s == "$" + name + behind;
  }

  lemma FrontPiece(s: string) returns (p: Piece, behind: string)
    requires s != ""
    ensures s == Written(p) + behind && Separate(p, behind) && |behind| < |s|
  {
    if Braced(s) {
      p, behind := FrontBrace(s);
    } else if Named(s) {
      p, behind := FrontName(s);
    } else if s[0] == '$' {
      p, behind := Dollar, s[1..];
    } else {
      p, behind := Plain([s[0]]), s[1..];
    }
  }

  /** Every line there is can be read as legible pieces. */
  lemma {:induction false} Reading(s: string) returns (ps: seq<Piece>)
    ensures Legible(ps) && Line(ps) == s
    decreases |s|
  {
    if s == "" {
      ps := [];
    } else {
      var p, behind := FrontPiece(s);
      var rest := Reading(behind);
      ps := [p] + rest;
      assert ps[1..] == rest;
    }
  }
}
