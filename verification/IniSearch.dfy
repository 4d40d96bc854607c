/** Searching an INI file for a group and a variable in it, over what its lines are to the search; and
    what becomes of the search when one line changes. */
module IniSearch {
  import opened Basics
  import opened IniText

  /** What every line is to a search for `name`. */
  function ParseAll(ls: seq<string>, name: string): (ps: seq<Parsed>)
    ensures |ps| == |ls|
  {
    if ls == [] then [] else [Parse(ls[0], name)] + ParseAll(ls[1..], name)
  }

  lemma {:induction false} ParseAllAt(ls: seq<string>, name: string, i: nat)
    requires i < |ls|
    ensures ParseAll(ls, name)[i] == Parse(ls[i], name) && ParseAll(ls, name)[i].Fits(|ls[i]|)
  {
    if i > 0 {
      ParseAllAt(ls[1..], name, i - 1);
    }
  }

  lemma {:induction false} ParseAllChanged(ls: seq<string>, name: string, k: nat, b: string)
    requires k < |ls|
    ensures ParseAll(ls[k := b], name) == ParseAll(ls, name)[k := Parse(b, name)]
  {
    var changed := ParseAll(ls[k := b], name);
    forall i | 0 <= i < |ls| ensures changed[i] == ParseAll(ls, name)[k := Parse(b, name)][i] {
      ParseAllAt(ls[k := b], name, i);
      ParseAllAt(ls, name, i);
    }
  }

  /** Which lines open the group. */
  function OpensAll(ls: seq<string>, group: string): (gs: seq<bool>)
    ensures |gs| == |ls|
  {
    if ls == [] then [] else [OpensGroup(ls[0], group)] + OpensAll(ls[1..], group)
  }

  lemma {:induction false} OpensAllAt(ls: seq<string>, group: string, i: nat)
    requires i < |ls|
    ensures OpensAll(ls, group)[i] == OpensGroup(ls[i], group)
  {
    if i > 0 {
      OpensAllAt(ls[1..], group, i - 1);
    }
  }

  lemma {:induction false} OpensAllUnchanged(ls: seq<string>, group: string, k: nat, b: string)
    requires k < |ls| && OpensGroup(ls[k], group) == OpensGroup(b, group)
    ensures OpensAll(ls[k := b], group) == OpensAll(ls, group)
  {
    forall i | 0 <= i < |ls| ensures OpensAll(ls[k := b], group)[i] == OpensAll(ls, group)[i] {
      OpensAllAt(ls[k := b], group, i);
      OpensAllAt(ls, group, i);
    }
  }

  /** The line behind the first one at or behind `i` that opens the group. */
  function GroupFrom(gs: seq<bool>, i: nat): (r: Option<nat>)
    requires i <= |gs|
    ensures r.Some? ==> i < r.value <= |gs|
    decreases |gs| - i
  {
    if i == |gs| then None else if gs[i] then Some(i + 1) else GroupFrom(gs, i + 1)
  }

  /** The first line at or behind `i` that defines the variable, before a group or subgroup opens. */
  function VarFrom(ps: seq<Parsed>, i: nat): (r: Option<nat>)
    requires i <= |ps|
    ensures r.Some? ==> i <= r.value < |ps| && ps[r.value].Definition?
    decreases |ps| - i
  {
    if i == |ps| || ps[i].Entity? then None
    else if ps[i].Definition? then Some(i)
    else VarFrom(ps, i + 1)
  }

  /** The same for the variable's definition number `n`. */
  function NthFrom(ps: seq<Parsed>, i: nat, n: nat): (r: Option<nat>)
    requires i <= |ps|
    ensures r.Some? ==> i <= r.value < |ps| && ps[r.value].Definition?
    decreases |ps| - i
  {
    match VarFrom(ps, i)
    case None => None
    case Some(k) => if n == 0 then Some(k) else NthFrom(ps, k + 1, n - 1)
  }

  /** The line that `findVariable` finds. */
  function Locate(ls: seq<string>, group: string, name: string, n: nat): (r: Option<nat>)
    ensures r.Some? ==> r.value < |ls| && ParseAll(ls, name)[r.value].Definition?
  {
    match GroupFrom(OpensAll(ls, group), 0)
    case None => None
    case Some(i) => NthFrom(ParseAll(ls, name), i, n)
  }

  /** The value that a line defines. */
  function Defined(line: string, p: Parsed): string {
    if p.Definition? && p.Fits(|line|) then line[p.start..p.end] else []
  }

  /** The value that `findVariable` finds. */
  function Read(ls: seq<string>, group: string, name: string, n: nat): Option<string> {
    match Locate(ls, group, name, n)
    case None => None
    case Some(k) => Some(Defined(ls[k], ParseAll(ls, name)[k]))
  }

  predicate SameKind(a: Parsed, b: Parsed) {
    a.Entity? == b.Entity? && a.Definition? == b.Definition?
  }

  lemma {:induction false} VarFromAlike(ps: seq<Parsed>, k: nat, p: Parsed, i: nat)
    requires k < |ps| && SameKind(ps[k], p) && i <= |ps|
    ensures VarFrom(ps[k := p], i) == VarFrom(ps, i)
    decreases |ps| - i
  {
    if i < |ps| {
      VarFromAlike(ps, k, p, i + 1);
    }
  }

  lemma {:induction false} NthFromAlike(ps: seq<Parsed>, k: nat, p: Parsed, i: nat, n: nat)
    requires k < |ps| && SameKind(ps[k], p) && i <= |ps|
    ensures NthFrom(ps[k := p], i, n) == NthFrom(ps, i, n)
    decreases n
  {
    VarFromAlike(ps, k, p, i);
    var r := VarFrom(ps, i);
    if r.Some? && n > 0 {
      NthFromAlike(ps, k, p, r.value + 1, n - 1);
    }
  }

  /** A line that is replaced by one of the same kind moves no variable to another line. */
  lemma {:induction false} LocateAlike(ls: seq<string>, k: nat, b: string, group: string, name: string, n: nat)
    requires k < |ls| && SameKind(Parse(ls[k], name), Parse(b, name))
    requires OpensGroup(ls[k], group) == OpensGroup(b, group)
    ensures Locate(ls[k := b], group, name, n) == Locate(ls, group, name, n)
  {
    ParseAllChanged(ls, name, k, b);
    ParseAllAt(ls, name, k);
    OpensAllUnchanged(ls, group, k, b);
    var r := GroupFrom(OpensAll(ls, group), 0);
    if r.Some? {
      NthFromAlike(ParseAll(ls, name), k, Parse(b, name), r.value, n);
    }
  }
}
