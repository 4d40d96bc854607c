/** When an old value has swallowed the end of its line, setting it joins the next line to it: exactly
    when that changes another variable. */
module IniJoins {
  import opened Basics
  import opened IniText
  import opened IniSearch
  import opened IniEdits
  import opened IniDeletes

  /** No variable is defined from line `i` up to the next header. */
  predicate BareFrom(ls: seq<string>, i: nat)
    requires i <= |ls|
    decreases |ls| - i
  {
    i == |ls| || IsEntity(ls[i]) || ('=' !in ls[i] && BareFrom(ls, i + 1))
  }

  /** Line `j` could as well be blank: it defines nothing; or it is a header with nothing to hide, which
      means that nothing is defined behind it, nor behind the next header of a group that it opens first. */
  ghost predicate Harmless(ls: seq<string>, j: nat)
    requires j < |ls|
  {
    if !IsEntity(ls[j]) then '=' !in ls[j]
    else
      && BareFrom(ls, j + 1)
      && forall group :: GroupFrom(OpensAll(ls, group), 0) == Some(j + 1) ==>
           var r := GroupFrom(OpensAll(ls, group), j + 1);
           r.Some? ==> BareFrom(ls, r.value)
  }

  /** The name that a line defines. */
  function OwnName(line: string): string {
    line[Skip(line, 0)..Find(line, '=', Skip(line, 0))]
  }

  lemma {:induction false} OwnNameDefined(line: string)
    requires !IsEntity(line) && '=' in line
    ensures '=' !in OwnName(line) && Parse(line, OwnName(line)).Definition?
  {
    var i := Skip(line, 0);
    var q := Find(line, '=', i);
    var j :| 0 <= j < |line| && line[j] == '=';
    assert i <= j;
    assert NameAt(line, i, line[i..q]);
    assert Skip(line, q) == q;
  }

  lemma {:induction false} NotBare(ls: seq<string>, i: nat) returns (t: nat)
    requires i <= |ls| && !BareFrom(ls, i)
    ensures i <= t < |ls| && '=' in ls[t] && forall j :: i <= j <= t ==> !IsEntity(ls[j])
    decreases |ls| - i
  {
    if '=' in ls[i] {
      t := i;
    } else {
      t := NotBare(ls, i + 1);
    }
  }

  lemma {:induction false} BareIsEmpty(ls: seq<string>, i: nat, name: string)
    requires i <= |ls| && BareFrom(ls, i)
    ensures VarFrom(ParseAll(ls, name), i) == None
    decreases |ls| - i
  {
    if i < |ls| {
      ParseAllAt(ls, name, i);
      if !IsEntity(ls[i]) {
        BareIsEmpty(ls, i + 1, name);
      }
    }
  }

  predicate NoEntity(ps: seq<Parsed>, i: nat, t: nat) {
    t <= |ps| && forall j :: i <= j < t ==> !ps[j].Entity?
  }

  lemma {:induction false} VarFromInside(ps: seq<Parsed>, i: nat)
    requires i <= |ps| && VarFrom(ps, i).Some?
    ensures NoEntity(ps, i, VarFrom(ps, i).value + 1)
    decreases |ps| - i
  {
    if !ps[i].Definition? {
      VarFromInside(ps, i + 1);
    }
  }

  lemma {:induction false} NthFromInside(ps: seq<Parsed>, i: nat, n: nat)
    requires i <= |ps| && NthFrom(ps, i, n).Some?
    ensures NoEntity(ps, i, NthFrom(ps, i, n).value + 1)
    decreases n
  {
    VarFromInside(ps, i);
    if n > 0 {
      NthFromInside(ps, VarFrom(ps, i).value + 1, n - 1);
    }
  }

  lemma {:induction false} VarFromReaches(ps: seq<Parsed>, i: nat, t: nat)
    requires i <= t < |ps| && NoEntity(ps, i, t) && ps[t].Definition?
    ensures VarFrom(ps, i).Some? && VarFrom(ps, i).value <= t
    decreases |ps| - i
  {
    if i < t && !ps[i].Definition? {
      VarFromReaches(ps, i + 1, t);
    }
  }

  /** The number of a definition that the search reaches. */
  lemma {:induction false} NumberOf(ps: seq<Parsed>, i: nat, t: nat) returns (d: nat)
    requires i <= t < |ps| && NoEntity(ps, i, t) && ps[t].Definition?
    ensures NthFrom(ps, i, d) == Some(t)
    decreases |ps| - i
  {
    VarFromReaches(ps, i, t);
    var x := VarFrom(ps, i).value;
    if x == t {
      d := 0;
    } else {
      d := NumberOf(ps, x + 1, t);
      d := d + 1;
    }
  }

  lemma {:induction false} NthFromNext(ps: seq<Parsed>, i: nat, n: nat)
    requires i <= |ps| && NthFrom(ps, i, n).Some?
    ensures NthFrom(ps, i, n + 1) == VarFrom(ps, NthFrom(ps, i, n).value + 1)
    decreases n
  {
    if n > 0 {
      NthFromNext(ps, VarFrom(ps, i).value + 1, n - 1);
    }
  }

  /** The last definition that the search reaches, from number `d` on. */
  lemma {:induction false} LastOne(ps: seq<Parsed>, i: nat, d: nat) returns (n: nat)
    requires i <= |ps| && NthFrom(ps, i, d).Some?
    ensures d <= n && NthFrom(ps, i, n).Some? && NthFrom(ps, i, n + 1) == None
    ensures NthFrom(ps, i, n).value >= NthFrom(ps, i, d).value
    decreases |ps| - NthFrom(ps, i, d).value
  {
    NthFromNext(ps, i, d);
    if NthFrom(ps, i, d + 1) == None {
      n := d;
    } else {
      n := LastOne(ps, i, d + 1);
    }
  }

  lemma {:induction false} GroupFromCleared(gs: seq<bool>, j: nat, i: nat)
    requires j < |gs| && i <= |gs|
    ensures GroupFrom(gs[j := false], i) == if GroupFrom(gs, i) == Some(j + 1) then GroupFrom(gs, j + 1) else GroupFrom(gs, i)
    decreases |gs| - i
  {
    if i < |gs| {
      GroupFromCleared(gs, j, i + 1);
    }
  }

  /** What blanking line `j` does to the search. */
  lemma {:induction false} Cleared(ls: seq<string>, j: nat, group: string, name: string)
    requires j < |ls|
    ensures OpensAll(ls[j := "\n"], group) == OpensAll(ls, group)[j := false]
    ensures ParseAll(ls[j := "\n"], name) == ParseAll(ls, name)[j := Other]
  {
    BlankLine(name, group);
    ParseAllChanged(ls, name, j, "\n");
    var before, after := OpensAll(ls, group), OpensAll(ls[j := "\n"], group);
    forall i | 0 <= i < |ls| ensures after[i] == before[j := false][i] {
      OpensAllAt(ls[j := "\n"], group, i);
      OpensAllAt(ls, group, i);
    }
  }

  /** A header with nothing behind it may go. */
  lemma {:induction false} VarFromPast(ps: seq<Parsed>, j: nat, i: nat)
    requires j < |ps| && i <= |ps| && !ps[j].Definition? && (ps[j].Entity? ==> VarFrom(ps, j + 1) == None)
    ensures VarFrom(ps[j := Other], i) == VarFrom(ps, i)
    decreases |ps| - i
  {
    if i < |ps| {
      VarFromPast(ps, j, i + 1);
    }
  }

  lemma {:induction false} NthFromPast(ps: seq<Parsed>, j: nat, i: nat, n: nat)
    requires j < |ps| && i <= |ps| && !ps[j].Definition? && (ps[j].Entity? ==> VarFrom(ps, j + 1) == None)
    ensures NthFrom(ps[j := Other], i, n) == NthFrom(ps, i, n)
    decreases n
  {
    VarFromPast(ps, j, i);
    if VarFrom(ps, i).Some? && n > 0 {
      NthFromPast(ps, j, VarFrom(ps, i).value + 1, n - 1);
    }
  }

  lemma {:induction false} BehindHarmless(ls: seq<string>, j: nat, name: string)
    requires j < |ls| && Harmless(ls, j)
    ensures var ps := ParseAll(ls, name);
            !ps[j].Definition? && (ps[j].Entity? ==> VarFrom(ps, j + 1) == None)
  {
    ParseAllAt(ls, name, j);
    if IsEntity(ls[j]) {
      BareIsEmpty(ls, j + 1, name);
    }
  }

  /** A group that a harmless line opens first holds nothing, with the line or without it. */
  lemma {:induction false} HarmlessGroup(ls: seq<string>, j: nat, group: string, name: string)
    requires j < |ls| && Harmless(ls, j) && GroupFrom(OpensAll(ls, group), 0) == Some(j + 1)
    ensures VarFrom(ParseAll(ls, name), j + 1) == None
    ensures var r := GroupFrom(OpensAll(ls, group), j + 1);
            r.Some? ==> VarFrom(ParseAll(ls, name), r.value) == None
  {
    var gs := OpensAll(ls, group);
    FirstIsThere(gs, 0);
    OpensAllAt(ls, group, j);
    BareIsEmpty(ls, j + 1, name);
    var r := GroupFrom(gs, j + 1);
    if r.Some? {
      BareIsEmpty(ls, r.value, name);
    }
  }

  lemma {:induction false} HarmlessMovesNone(ls: seq<string>, j: nat, group: string, name: string, n: nat)
    requires j < |ls| && Harmless(ls, j)
    ensures Locate(ls[j := "\n"], group, name, n) == Locate(ls, group, name, n)
    ensures Locate(ls, group, name, n) != Some(j)
  {
    var ps, gs := ParseAll(ls, name), OpensAll(ls, group);
    Cleared(ls, j, group, name);
    BehindHarmless(ls, j, name);
    GroupFromCleared(gs, j, 0);
    var r, r' := GroupFrom(gs, 0), GroupFrom(gs[j := false], 0);
    if r'.Some? {
      NthFromPast(ps, j, r'.value, n);
    }
    if r == Some(j + 1) {
      HarmlessGroup(ls, j, group, name);
    }
  }

  /** Blanking a harmless line changes no variable. */
  lemma {:induction false} HarmlessStays(ls: seq<string>, j: nat, group: string, name: string, n: nat)
    requires j < |ls| && Harmless(ls, j)
    ensures Locate(ls[j := "\n"], group, name, n) == Locate(ls, group, name, n)
    ensures Read(ls[j := "\n"], group, name, n) == Read(ls, group, name, n)
  {
    HarmlessMovesNone(ls, j, group, name, n);
    ParseAllChanged(ls, name, j, "\n");
  }

  lemma {:induction false} FirstIsThere(gs: seq<bool>, i: nat)
    requires i <= |gs| && GroupFrom(gs, i).Some?
    ensures gs[GroupFrom(gs, i).value - 1]
    decreases |gs| - i
  {
    if !gs[i] {
      FirstIsThere(gs, i + 1);
    }
  }

  /** Line `j` stands in a section in which a variable was found. */
  predicate InSection(ls: seq<string>, group: string, j: nat)
    requires j < |ls|
  {
    var r := GroupFrom(OpensAll(ls, group), 0);
    r.Some? && r.value <= j && forall x :: r.value <= x < j ==> !IsEntity(ls[x])
  }

  lemma {:induction false} FoundSection(ls: seq<string>, group: string, name: string, n: nat, k: nat)
    requires Locate(ls, group, name, n) == Some(k) && k + 1 < |ls|
    ensures InSection(ls, group, k + 1)
  {
    var ps := ParseAll(ls, name);
    var i := GroupFrom(OpensAll(ls, group), 0).value;
    NthFromInside(ps, i, n);
    forall x | i <= x < k + 1 ensures !IsEntity(ls[x]) {
      ParseAllAt(ls, name, x);
    }
  }

  /** A variable other than those in line `k` that changes when line `j` is blanked. */
  ghost predicate Changed(ls: seq<string>, k: nat, j: nat, group: string, name: string, n: nat)
    requires j < |ls|
  {
    && '=' !in name && Locate(ls, group, name, n) != Some(k) && Locate(ls[j := "\n"], group, name, n) != Some(k)
    && Read(ls[j := "\n"], group, name, n) != Read(ls, group, name, n)
  }

  lemma {:induction false} SectionSame(ls: seq<string>, group: string, name: string, i: nat, t: nat)
    requires i <= t <= |ls| && forall x :: i <= x < t ==> !IsEntity(ls[x])
    ensures NoEntity(ParseAll(ls, name), i, t)
  {
    forall x | i <= x < t ensures !ParseAll(ls, name)[x].Entity? {
      ParseAllAt(ls, name, x);
    }
  }

  /** A definition that goes leaves one definition less in its section. */
  lemma {:induction false} LostDefinition(ls: seq<string>, k: nat, j: nat, group: string) returns (name: string, n: nat)
    requires k < j < |ls| && InSection(ls, group, j) && !IsEntity(ls[j]) && '=' in ls[j]
    ensures Changed(ls, k, j, group, name, n)
  {
    name := OwnName(ls[j]);
    OwnNameDefined(ls[j]);
    var ps := ParseAll(ls, name);
    var i := GroupFrom(OpensAll(ls, group), 0).value;
    SectionSame(ls, group, name, i, j);
    ParseAllAt(ls, name, j);
    var d := NumberOf(ps, i, j);
    n := LastOne(ps, i, d);
    NthFromBlanked(ps, j, i, d, n);
    Cleared(ls, j, group, name);
    GroupFromCleared(OpensAll(ls, group), j, 0);
  }

  lemma {:induction false} NthFromBefore(ps: seq<Parsed>, j: nat, i: nat, n: nat)
    requires i <= j < |ps| && ps[j].Entity? && NthFrom(ps, i, n).Some?
    ensures NthFrom(ps, i, n).value < j && NthFrom(ps[j := Other], i, n) == NthFrom(ps, i, n)
    decreases n
  {
    VarFromBefore(ps, j, i);
    if n > 0 {
      NthFromBefore(ps, j, VarFrom(ps, i).value + 1, n - 1);
    }
  }

  lemma {:induction false} VarFromBefore(ps: seq<Parsed>, j: nat, i: nat)
    requires i <= j < |ps| && ps[j].Entity? && VarFrom(ps, i).Some?
    ensures VarFrom(ps, i).value < j && VarFrom(ps[j := Other], i) == VarFrom(ps, i)
    decreases |ps| - i
  {
    if i < j && !ps[i].Definition? {
      VarFromBefore(ps, j, i + 1);
    }
  }

  /** A header that goes lets its section be read as part of the one before it. */
  lemma {:induction false} GainedDefinition(ls: seq<string>, k: nat, j: nat, group: string) returns (name: string, n: nat)
    requires k < j < |ls| && InSection(ls, group, j) && IsEntity(ls[j]) && !BareFrom(ls, j + 1)
    ensures Changed(ls, k, j, group, name, n)
  {
    var t := NotBare(ls, j + 1);
    name := OwnName(ls[t]);
    OwnNameDefined(ls[t]);
    var ps := ParseAll(ls, name);
    var i := GroupFrom(OpensAll(ls, group), 0).value;
    SectionSame(ls, group, name, i, j);
    SectionSame(ls, group, name, j + 1, t);
    ParseAllAt(ls, name, t);
    ParseAllAt(ls, name, j);
    n := NumberOf(ps[j := Other], i, t);
    if NthFrom(ps, i, n).Some? {
      NthFromBefore(ps, j, i, n);
    }
    Cleared(ls, j, group, name);
    GroupFromCleared(OpensAll(ls, group), j, 0);
  }

  /** A header that goes uncovers a later one of the same group. */
  lemma {:induction false} UncoveredGroup(ls: seq<string>, k: nat, j: nat, group: string, i: nat) returns (name: string)
    requires k < j < |ls| && BareFrom(ls, j + 1) && GroupFrom(OpensAll(ls, group), 0) == Some(j + 1)
    requires GroupFrom(OpensAll(ls, group), j + 1) == Some(i) && !BareFrom(ls, i)
    ensures Changed(ls, k, j, group, name, 0)
  {
    var t := NotBare(ls, i);
    name := OwnName(ls[t]);
    OwnNameDefined(ls[t]);
    var ps := ParseAll(ls, name);
    SectionSame(ls, group, name, i, t);
    ParseAllAt(ls, name, t);
    BareIsEmpty(ls, j + 1, name);
    VarFromReaches(ps[j := Other], i, t);
    Cleared(ls, j, group, name);
    GroupFromCleared(OpensAll(ls, group), j, 0);
  }

  /** Blanking a line that is not harmless changes some variable. */
  lemma {:induction false} HarmShows(ls: seq<string>, k: nat, j: nat, group: string)
    returns (g: string, name: string, n: nat)
    requires k < j < |ls| && InSection(ls, group, j) && !Harmless(ls, j)
    ensures Changed(ls, k, j, g, name, n)
  {
    if !IsEntity(ls[j]) {
      g := group;
      name, n := LostDefinition(ls, k, j, group);
    } else if !BareFrom(ls, j + 1) {
      g := group;
      name, n := GainedDefinition(ls, k, j, group);
    } else {
      g :| GroupFrom(OpensAll(ls, g), 0) == Some(j + 1)
           && GroupFrom(OpensAll(ls, g), j + 1).Some? && !BareFrom(ls, GroupFrom(OpensAll(ls, g), j + 1).value);
      n := 0;
      name := UncoveredGroup(ls, k, j, g, GroupFrom(OpensAll(ls, g), j + 1).value);
    }
  }

  function Shifted(r: Option<nat>, j: nat): Option<nat> {
    if r.Some? && r.value > j then Some(r.value - 1) else r
  }

  lemma {:induction false} VarFromWithout(ps: seq<Parsed>, j: nat, i: nat)
    requires j < |ps| && ps[j] == Other && i <= |ps|
    ensures VarFrom(Without(ps, j), if i > j then i - 1 else i) == Shifted(VarFrom(ps, i), j)
    decreases |ps| - i
  {
    if i < |ps| {
      VarFromWithout(ps, j, i + 1);
    }
  }

  lemma {:induction false} NthFromWithout(ps: seq<Parsed>, j: nat, i: nat, n: nat)
    requires j < |ps| && ps[j] == Other && i <= |ps|
    ensures NthFrom(Without(ps, j), if i > j then i - 1 else i, n) == Shifted(NthFrom(ps, i, n), j)
    decreases n
  {
    VarFromWithout(ps, j, i);
    if VarFrom(ps, i).Some? && n > 0 {
      NthFromWithout(ps, j, VarFrom(ps, i).value + 1, n - 1);
    }
  }

  lemma {:induction false} GroupFromWithout(gs: seq<bool>, j: nat, i: nat)
    requires j < |gs| && !gs[j] && i <= |gs|
    ensures GroupFrom(Without(gs, j), if i > j then i - 1 else i) == Shifted(GroupFrom(gs, i), j)
    decreases |gs| - i
  {
    if i < |gs| {
      GroupFromWithout(gs, j, i + 1);
    }
  }

  lemma {:induction false} SearchWithout(ls: seq<string>, j: nat, group: string, name: string)
    requires j < |ls|
    ensures ParseAll(Without(ls, j), name) == Without(ParseAll(ls, name), j)
    ensures OpensAll(Without(ls, j), group) == Without(OpensAll(ls, group), j)
  {
    var ps, gs := Without(ParseAll(ls, name), j), Without(OpensAll(ls, group), j);
    var rest := Without(ls, j);
    forall i | 0 <= i < |rest| ensures ParseAll(rest, name)[i] == ps[i] && OpensAll(rest, group)[i] == gs[i] {
      ParseAllAt(rest, name, i);
      OpensAllAt(rest, group, i);
      ParseAllAt(ls, name, if i < j then i else i + 1);
      OpensAllAt(ls, group, if i < j then i else i + 1);
    }
  }

  lemma {:induction false} LocateWithout(ls: seq<string>, j: nat, group: string, name: string, n: nat)
    requires j < |ls| && ParseAll(ls, name)[j] == Other && !OpensAll(ls, group)[j]
    ensures Locate(Without(ls, j), group, name, n) == Shifted(Locate(ls, group, name, n), j)
  {
    SearchWithout(ls, j, group, name);
    var gs := OpensAll(ls, group);
    GroupFromWithout(gs, j, 0);
    if GroupFrom(gs, 0).Some? {
      NthFromWithout(ParseAll(ls, name), j, GroupFrom(gs, 0).value, n);
    }
  }

  lemma {:induction false} BlankShows(ls: seq<string>, j: nat, group: string, name: string)
    requires j < |ls| && ls[j] == "\n"
    ensures ParseAll(ls, name)[j] == Other && !OpensAll(ls, group)[j]
  {
    BlankLine(name, group);
    ParseAllAt(ls, name, j);
    OpensAllAt(ls, group, j);
  }

  lemma {:induction false} DefinedWithout(ls: seq<string>, j: nat, name: string, x: nat)
    requires j < |ls| && x < |ls| && x != j
    ensures var y := if x > j then x - 1 else x;
            Without(ls, j)[y] == ls[x] && ParseAll(Without(ls, j), name)[y] == ParseAll(ls, name)[x]
  {
    ParseAllAt(ls, name, x);
    ParseAllAt(Without(ls, j), name, if x > j then x - 1 else x);
  }

  /** A blank line may as well be missing. */
  lemma {:induction false} WithoutBlank(ls: seq<string>, j: nat, group: string, name: string, n: nat)
    requires j < |ls| && ls[j] == "\n"
    ensures Read(Without(ls, j), group, name, n) == Read(ls, group, name, n)
  {
    BlankShows(ls, j, group, name);
    LocateWithout(ls, j, group, name, n);
    var r := Locate(ls, group, name, n);
    if r.Some? {
      DefinedWithout(ls, j, name, r.value);
    }
  }

  lemma {:induction false} FlatFirst(ls: seq<string>, i: nat)
    requires i < |ls|
    ensures Flat(ls[i..]) == ls[i] + Flat(ls[i + 1..])
  {
    assert ls[i..][1..] == ls[i + 1..];
  }

  lemma {:induction false} JoinedFlat(ls: seq<string>, k: nat, b: string)
    requires k + 1 < |ls|
    ensures Flat(ls[k := b]) == Flat(Without(ls[k := b + ls[k + 1]], k + 1))
  {
    var c, front, back := ls[k + 1], Flat(ls[..k]), Flat(ls[k + 2..]);
    var t := Without(ls[k := b + c], k + 1);
    CutAt(ls[k := b], k);
    assert ls[k := b][..k] == ls[..k] && ls[k := b][k + 1..] == ls[k + 1..];
    FlatFirst(ls, k + 1);
    CutAt(t, k);
    assert t[..k] == ls[..k] && t[k + 1..] == ls[k + 2..] && t[k] == b + c;
    assert front + b + (c + back) == front + (b + c) + back;
  }

  /** A line that has lost its end is read together with the next one. */
  lemma {:induction false} JoinedLines(ls: seq<string>, k: nat, b: string)
    requires Good(ls) && k + 1 < |ls| && '\n' !in b && |b| + |ls[k + 1]| <= MAX_LINE
    ensures Lines(Flat(ls[k := b])) == Without(ls[k := b + ls[k + 1]], k + 1)
  {
    JoinedFlat(ls, k, b);
    var t := Without(ls[k := b + ls[k + 1]], k + 1);
    assert Whole(ls[k + 1]) && (k + 1 < |ls| - 1 ==> Ended(ls[k + 1]));
    assert Whole(b + ls[k + 1]);
    forall i | 0 <= i < |t| ensures Whole(t[i]) && (i < |t| - 1 ==> Ended(t[i])) {
      assert t[i] == if i < k then ls[i] else if i == k then b + ls[k + 1] else ls[i + 1];
    }
    LinesOfFlat(t);
  }

  /** The lines stay within the limit. */
  predicate Room(ls: seq<string>, k: nat, q: nat, val: string)
    requires k < |ls| && q < |ls[k]|
  {
    |Edited(ls[k], q, val)| + (if Swallows(ls[k], q) && k + 1 < |ls| then |ls[k + 1]| else 0) <= MAX_LINE
  }

  lemma {:induction false} SameWithout(ls: seq<string>, k: nat, t: string)
    requires k + 1 < |ls|
    ensures Without(ls[k := t], k + 1) == Without(ls[k + 1 := "\n"][k := t], k + 1)
  {
  }

  /** Setting a value that has swallowed the end of its line joins the next line to it. */
  lemma {:induction false} LinesJoined(ls: seq<string>, k: nat, q: nat, val: string)
    requires Good(ls) && k + 1 < |ls| && q < |ls[k]| && ls[k][q] == '='
    requires EndsLine(ls[k]) && Plain(val) && Room(ls, k, q, val) && Swallows(ls[k], q)
    ensures Lines(SetIn(ls, k, q, val)) == Without(ls[k + 1 := "\n"][k := Edited(ls[k], q, val) + ls[k + 1]], k + 1)
    ensures SameUpTo(ls[k], Edited(ls[k], q, val) + ls[k + 1], q)
  {
    var b := Edited(ls[k], q, val);
    assert Whole(ls[k]);
    EditedIsWhole(ls[k], q, val);
    EditedIsSame(ls[k], q, val);
    JoinedLines(ls, k, b);
    SameWithout(ls, k, b + ls[k + 1]);
  }

  /** To the variables in other lines that does what blanking the next line does. */
  lemma {:induction false} SettingBlanksNext(ls: seq<string>, k: nat, q: nat, val: string, group: string, name: string, n: nat)
    requires Good(ls) && k + 1 < |ls| && q < |ls[k]| && ls[k][q] == '=' && !IsEntity(ls[k]) && '=' !in name
    requires EndsLine(ls[k]) && Plain(val) && Swallows(ls[k], q) && Room(ls, k, q, val)
    requires Locate(ls[k + 1 := "\n"], group, name, n) != Some(k)
    ensures Read(Lines(SetIn(ls, k, q, val)), group, name, n) == Read(ls[k + 1 := "\n"], group, name, n)
  {
    var t, blanked := Edited(ls[k], q, val) + ls[k + 1], ls[k + 1 := "\n"];
    LinesJoined(ls, k, q, val);
    WithoutBlank(blanked[k := t], k + 1, group, name, n);
    LineAlike(blanked, k, q, t, group, name, n);
  }

  /** All variables that stand in lines other than `k`, under names without an `=`, have the values
      they had; those that were missing are missing. */
  ghost predicate OthersKept(ls: seq<string>, k: nat, ls': seq<string>) {
    forall group, name, n: nat :: '=' !in name && Locate(ls, group, name, n) != Some(k) ==>
      Read(ls', group, name, n) == Read(ls, group, name, n)
  }

  lemma {:induction false} LineKeeps(ls: seq<string>, k: nat, q: nat, val: string)
    requires Good(ls) && k < |ls| && q < |ls[k]| && ls[k][q] == '=' && !IsEntity(ls[k])
    requires Plain(val) && Settable(ls, k, q, val)
    ensures OthersKept(ls, k, Lines(SetIn(ls, k, q, val)))
  {
    forall group, name, n: nat | '=' !in name && Locate(ls, group, name, n) != Some(k)
      ensures Read(Lines(SetIn(ls, k, q, val)), group, name, n) == Read(ls, group, name, n)
    {
      OthersKeepTheirValues(ls, k, q, val, group, name, n);
    }
  }

  lemma {:induction false} HarmlessKeeps(ls: seq<string>, k: nat, q: nat, val: string)
    requires Good(ls) && k + 1 < |ls| && q < |ls[k]| && ls[k][q] == '=' && !IsEntity(ls[k]) && EndsLine(ls[k])
    requires Plain(val) && Room(ls, k, q, val) && Swallows(ls[k], q) && Harmless(ls, k + 1)
    ensures OthersKept(ls, k, Lines(SetIn(ls, k, q, val)))
  {
    forall group, name, n: nat | '=' !in name && Locate(ls, group, name, n) != Some(k)
      ensures Read(Lines(SetIn(ls, k, q, val)), group, name, n) == Read(ls, group, name, n)
    {
      HarmlessStays(ls, k + 1, group, name, n);
      SettingBlanksNext(ls, k, q, val, group, name, n);
    }
  }

  /** The frame condition, exactly.  Setting a variable leaves all others alone if and only if its old
      value ends inside its line, or no line follows, or the line that follows is harmless. */
  lemma {:induction false} OthersKeptExactly(ls: seq<string>, group: string, name: string, n: nat, k: nat, q: nat, val: string)
    requires Good(ls) && Locate(ls, group, name, n) == Some(k) && q == EqualsAt(ls, k, name)
    requires q < |ls[k]| && (k + 1 < |ls| ==> EndsLine(ls[k])) && Plain(val) && Room(ls, k, q, val)
    ensures OthersKept(ls, k, Lines(SetIn(ls, k, q, val)))
       <==> !Swallows(ls[k], q) || k + 1 == |ls| || Harmless(ls, k + 1)
  {
    FoundLine(ls, k, name);
    if !Swallows(ls[k], q) || k + 1 == |ls| {
      LineKeeps(ls, k, q, val);
    } else if Harmless(ls, k + 1) {
      HarmlessKeeps(ls, k, q, val);
    } else {
      FoundSection(ls, group, name, n, k);
      var g, m, d := HarmShows(ls, k, k + 1, group);
      SettingBlanksNext(ls, k, q, val, g, m, d);
    }
  }

  /** An input: in the three lines below `x` has an unterminated quote; setting it loses `y`. */
  lemma {:induction false} NextVariableIsLost(ls: seq<string>)
    requires ls == ["[g]\n", "x=\"ab\n", "y=1\n"]
    ensures Read(ls, "g", "y", 0) == Some("1")
    ensures Read(Lines(SetIn(ls, 1, 1, "wxyz")), "g", "y", 0) == None
  {
    LinesOfExample(ls);
    SwallowedInExample(ls[1]);
    ReadsOfExample(ls);
    assert Good(ls) && Plain("wxyz");
    SettingBlanksNext(ls, 1, 1, "wxyz", "g", "y", 0);
  }

  lemma {:induction false} ReadsOfExample(ls: seq<string>)
    requires |ls| == 3 && ls[2] == "y=1\n" && OpensAll(ls, "g")[0]
    requires ParseAll(ls, "y")[1] == Other && ParseAll(ls, "y")[2] == Definition(1, 2, 3)
    ensures Read(ls, "g", "y", 0) == Some("1")
    ensures Locate(ls[2 := "\n"], "g", "y", 0) == None
  {
    Cleared(ls, 2, "g", "y");
    var ps := ParseAll(ls, "y");
    assert VarFrom(ps, 2) == Some(2);
    assert VarFrom(ps[2 := Other], 2) == VarFrom(ps[2 := Other], 3) == None;
    assert ls[2][2..3] == "1";
  }

  lemma {:induction false} LinesOfExample(ls: seq<string>)
    requires ls == ["[g]\n", "x=\"ab\n", "y=1\n"]
    ensures OpensAll(ls, "g")[0] && ParseAll(ls, "y")[1] == Other && ParseAll(ls, "y")[2] == Definition(1, 2, 3)
  {
    OpensAllAt(ls, "g", 0);
    ParseAllAt(ls, "y", 1);
    ParseAllAt(ls, "y", 2);
    assert Skip(ls[0], 0) == 0 && Skip(ls[0], 1) == 1 && Skip(ls[0], 2) == 2;
    assert Skip(ls[1], 0) == 0;
    var c := ls[2];
    assert Skip(c, 0) == 0 && Skip(c, 1) == 1 && SkipInline(c, 2) == 2 && FindStop(c, 2) == 3;
    assert TrimBack(c, 2, 3) == 3;
  }

  lemma {:induction false} SwallowedInExample(a: string)
    requires a == "x=\"ab\n"
    ensures ValueStart(a, 1) == 2 && ValueEnd(a, 2) == 6
    ensures Swallows(a, 1) && !IsEntity(a) && |Edited(a, 1, "wxyz")| == 6
  {
    assert Skip(a, 0) == 0;
    assert a[2] == '"' && a[3] == 'a' && a[4] == 'b' && a[5] == '\n';
    assert ValueStart(a, 1) == 2;
    assert Find(a, '"', 3) == 6;
    assert ValueEnd(a, 2) == 6;
  }
}
