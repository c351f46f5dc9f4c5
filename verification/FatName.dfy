/** Names of the form 8.3: fat_name_from_string (kernel/utils.c), and which names survive being shortened. */
module FatName {
  import opened Options
  import opened FatLayout
  import opened FatDirectory

  /** The loop for the characters before the dot. */
  method FillBase(name: seq<byte>, dot: nat, dest: array<byte>)
    requires dest.Length == 11 && dot <= |name| && forall x :: 0 <= x < 11 ==> dest[x] == 32
    modifies dest
    ensures dest[..8] == Padded(UpperAll(name[..dot]), 8) && dest[8..] == [32, 32, 32]
  {
    hide Padded;
    for i := 0 to if dot < 8 then dot else 8
      invariant forall x :: 0 <= x < 11 ==> dest[x] == if x < i then Upper(name[x]) else 32
    { dest[i] := Upper(name[i]); }
    PaddedIs(UpperAll(name[..dot]), 8, dest[..8]);
  }

  /** The loop for the characters behind it. */
  method FillExtension(ext: seq<byte>, dest: array<byte>)
    requires dest.Length == 11 && dest[8..] == [32, 32, 32]
    modifies dest
    ensures dest[..8] == old(dest[..8]) && dest[8..] == Padded(UpperAll(ext), 3)
  {
    hide Padded;
    ghost var base := dest[..8];
    assert forall x :: 8 <= x < 11 ==> dest[x] == dest[8..][x - 8] == 32;
    for i := 0 to if |ext| < 3 then |ext| else 3
      invariant dest[..8] == base
      invariant forall x :: 8 <= x < 11 ==> dest[x] == if x < 8 + i then Upper(ext[x - 8]) else 32
    { dest[8 + i] := Upper(ext[i]); }
    PaddedIs(UpperAll(ext), 3, dest[8..]);
  }

  /** fat_name_from_string; None stands for a null pointer. */
  method FatNameFromString(src: Option<seq<byte>>, dest: array<byte>)
    requires dest.Length == 11
    modifies dest
    ensures dest[..] == if src.Some? then ShortForm(src.value) else seq(11, _ => 32)
  {
    for i := 0 to 11
      invariant forall x :: 0 <= x < i ==> dest[x] == 32
    { dest[i] := 32; }
    if src.None? { return; }
    var name := src.value;
    var dot := 0;
    while dot < |name| && name[dot] != 46
      invariant dot <= |name| && forall j :: 0 <= j < dot ==> name[j] != 46
    { dot := dot + 1; }
    FillBase(name, dot, dest);
    FillExtension(if dot < |name| then name[dot + 1..] else [], dest);
    assert dest[..] == dest[..8] + dest[8..];
  }

  /** Up to eight characters, then nothing, or a dot and one to three characters; no spaces. */
  ghost predicate EightThree(name: seq<byte>) {
    var dot := DotAt(name);
    && 32 !in name && dot <= 8
    && (dot < |name| ==> 1 <= |name| - dot - 1 <= 3)
  }

  lemma {:induction false} UntilSpaceWhole(u: seq<byte>, blanks: seq<byte>)
    requires blanks != [] ==> blanks[0] == 32
    ensures UntilSpace(u + blanks) <= u && (|UntilSpace(u + blanks)| == |u| <==> 32 !in u)
  {
    if u == [] {
      assert u + blanks == blanks;
    } else {
      assert (u + blanks)[1..] == u[1..] + blanks;
      UntilSpaceWhole(u[1..], blanks);
      assert u == [u[0]] + u[1..];
    }
  }

  /** A part of a name comes back as a prefix of itself: as a whole exactly if it fits and has no space. */
  lemma PartKept(u: seq<byte>, n: nat)
    ensures var k := UntilSpace(Padded(u, n)); k <= u && (|k| == |u| <==> |u| <= n && 32 !in u)
  {
    if |u| >= n {
      UntilSpaceWhole(u[..n], []);
      assert u[..n] + [] == u[..n];
      if |u| == n { assert u[..n] == u; }
    } else {
      UntilSpaceWhole(u, seq(n - |u|, _ => 32));
    }
  }

  lemma UpperSpace(cs: seq<byte>)
    ensures 32 in UpperAll(cs) <==> 32 in cs
  {
    forall i | 0 <= i < |cs| ensures UpperAll(cs)[i] == 32 <==> cs[i] == 32 {}
    if 32 in cs {
      var i :| 0 <= i < |cs| && cs[i] == 32;
      assert UpperAll(cs)[i] == 32;
    }
  }

  lemma NameParts(name: seq<byte>, base: seq<byte>, ext: seq<byte>)
    requires var dot := DotAt(name); base == name[..dot] && ext == if dot < |name| then name[dot + 1..] else []
    ensures UpperAll(name) == UpperAll(base) + if DotAt(name) < |name| then [46] + UpperAll(ext) else []
    ensures 32 in name <==> 32 in base || 32 in ext
  {
    hide UpperAll, DotAt;
    if DotAt(name) < |name| {
      DottedIs(name, DotAt(name));
      DottedUpper(base, ext);
      DottedSpace(base, ext);
    } else {
      assert name == base && UpperAll(base) + [] == UpperAll(base);
    }
  }

  lemma DottedIs(name: seq<byte>, dot: nat)
    requires dot < |name| && name[dot] == 46
    ensures name == name[..dot] + [46] + name[dot + 1..]
  {
  }

  lemma DottedSpace(base: seq<byte>, ext: seq<byte>)
    ensures 32 in base + [46] + ext <==> 32 in base || 32 in ext
  {
  }

  lemma DottedUpper(base: seq<byte>, ext: seq<byte>)
    ensures UpperAll(base + [46] + ext) == UpperAll(base) + ([46] + UpperAll(ext))
  {
    hide UpperAll;
    UpperJoined(base + [46], ext);
    UpperJoined(base, [46]);
    UpperDot();
  }

  lemma UpperDot()
    ensures UpperAll([46]) == [46]
  {
  }

  lemma UpperJoined(a: seq<byte>, b: seq<byte>)
    ensures UpperAll(a + b) == UpperAll(a) + UpperAll(b)
  {
  }

  lemma ShortFormParts(name: seq<byte>, base: seq<byte>, ext: seq<byte>)
    requires var dot := DotAt(name); base == name[..dot] && ext == if dot < |name| then name[dot + 1..] else []
    ensures ShortForm(name)[..8] == Padded(UpperAll(base), 8) && ShortForm(name)[8..] == Padded(UpperAll(ext), 3)
  {
  }

  lemma BlankExtension(e: seq<byte>)
    ensures e == [] ==> Padded(e, 3) == [32, 32, 32]
    ensures Padded(e, 3) == [32, 32, 32] && e != [] ==> e[0] == 32
  {
    assert e != [] ==> Padded(e, 3)[0] == e[0];
  }

  /** A name in capitals is what its short form is listed as exactly if it has the form 8.3. */
  lemma ShortNamesSurvive(s: Slot, name: seq<byte>)
    requires s[..11] == ShortForm(name)
    ensures ShortName(s) == UpperAll(name) <==> EightThree(name)
  {
    hide UntilSpace, Padded, UpperAll, ShortForm, DotAt;
    var dot := DotAt(name);
    var base, ext := name[..dot], if dot < |name| then name[dot + 1..] else [];
    NameParts(name, base, ext);
    ShortFormParts(name, base, ext);
    PartKept(UpperAll(base), 8);
    PartKept(UpperAll(ext), 3);
    UpperSpace(base);
    UpperSpace(ext);
    BlankExtension(UpperAll(ext));
    assert s[..8] == s[..11][..8] && s[8..11] == s[..11][8..];
  }
}
