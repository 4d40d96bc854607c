/** What deleting a variable of an INI file does to the definitions of every variable. */
module IniDeletes {
  import opened Basics
  import opened IniText
  import opened IniSearch
  import opened IniEdits

  /** A blanked line defines nothing, so the search goes on behind it. */
  lemma {:induction false} VarFromBlanked(ps: seq<Parsed>, k: nat, i: nat)
    requires i <= |ps| && k < |ps| && !ps[k].Entity?
    ensures var r := VarFrom(ps, i);
            VarFrom(ps[k := Other], i) == if r == Some(k) then VarFrom(ps, k + 1) else r
    decreases |ps| - i
  {
    if i < |ps| {
      VarFromBlanked(ps, k, i + 1);
    }
  }

  lemma {:induction false} NthFromBehind(ps: seq<Parsed>, k: nat, i: nat, n: nat)
    requires k < i <= |ps| && !ps[k].Entity?
    ensures NthFrom(ps[k := Other], i, n) == NthFrom(ps, i, n)
    decreases n
  {
    VarFromBlanked(ps, k, i);
    var r := VarFrom(ps, i);
    if r.Some? && n > 0 {
      NthFromBehind(ps, k, r.value + 1, n - 1);
    }
  }

  /** The number that definition `n` had before definition `d` was deleted. */
  function Before(d: nat, n: nat): nat {
    if n < d then n else n + 1
  }

  lemma {:induction false} FirstBlanked(ps: seq<Parsed>, k: nat, i: nat, n: nat)
    requires i <= |ps| && VarFrom(ps, i) == Some(k)
    ensures NthFrom(ps[k := Other], i, n) == NthFrom(ps, i, n + 1)
  {
    VarFromBlanked(ps, k, i);
    var r := VarFrom(ps, k + 1);
    if r.Some? && n > 0 {
      NthFromBehind(ps, k, r.value + 1, n - 1);
    }
  }

  lemma {:induction false} NthFromBlanked(ps: seq<Parsed>, k: nat, i: nat, d: nat, n: nat)
    requires i <= |ps| && NthFrom(ps, i, d) == Some(k)
    ensures NthFrom(ps[k := Other], i, n) == NthFrom(ps, i, Before(d, n))
    decreases n
  {
    if d == 0 {
      FirstBlanked(ps, k, i, n);
    } else {
      VarFromBlanked(ps, k, i);
      if n > 0 {
        NthFromBlanked(ps, k, VarFrom(ps, i).value + 1, d - 1, n - 1);
      }
    }
  }

  lemma {:induction false} NotTwice(ps: seq<Parsed>, i: nat, d: nat, n: nat)
    requires i <= |ps| && d != n && NthFrom(ps, i, d).Some?
    ensures NthFrom(ps, i, n) != NthFrom(ps, i, d)
    decreases n
  {
    var j := VarFrom(ps, i).value;
    if d > 0 && n > 0 {
      NotTwice(ps, j + 1, d - 1, n - 1);
    }
  }

  /** None of the definitions up to number `n` is in line `k`. */
  predicate Avoids(ps: seq<Parsed>, k: nat, i: nat, n: nat)
    requires i <= |ps|
  {
    NthFrom(ps, i, n) != Some(k) && (n > 0 ==> Avoids(ps, k, i, n - 1))
  }

  lemma {:induction false} AvoidsNext(ps: seq<Parsed>, k: nat, i: nat, j: nat, n: nat)
    requires i <= |ps| && n > 0 && Avoids(ps, k, i, n) && VarFrom(ps, i) == Some(j)
    ensures j != k && Avoids(ps, k, j + 1, n - 1)
    decreases n
  {
    if n > 1 {
      AvoidsNext(ps, k, i, j, n - 1);
    }
  }

  lemma {:induction false} NthFromOther(ps: seq<Parsed>, k: nat, i: nat, n: nat)
    requires i <= |ps| && k < |ps| && !ps[k].Entity? && Avoids(ps, k, i, n)
    ensures NthFrom(ps[k := Other], i, n) == NthFrom(ps, i, n)
    decreases n
  {
    VarFromBlanked(ps, k, i);
    var r := VarFrom(ps, i);
    if r.Some? && n > 0 {
      AvoidsNext(ps, k, i, r.value, n);
      NthFromOther(ps, k, r.value + 1, n - 1);
    }
  }

  lemma {:induction false} BlankLine(name: string, group: string)
    ensures Parse("\n", name) == Other && !OpensGroup("\n", group)
  {
    assert Skip("\n", 1) == 1;
    assert Skip("\n", 0) == 1;
  }

  /** Blanking a line that opens nothing changes no group, and its part in a search to nothing. */
  lemma {:induction false} Blanked(ls: seq<string>, k: nat, group: string, name: string)
    requires k < |ls| && !IsEntity(ls[k])
    ensures OpensAll(ls[k := "\n"], group) == OpensAll(ls, group)
    ensures ParseAll(ls[k := "\n"], name) == ParseAll(ls, name)[k := Other]
    ensures !ParseAll(ls, name)[k].Entity?
  {
    BlankLine(name, group);
    ParseAllChanged(ls, name, k, "\n");
    OpensAllUnchanged(ls, group, k, "\n");
    ParseAllAt(ls, name, k);
  }

  /** Deleting definition number `d` of a variable: the definitions before it stay, those behind it
      move up by one. */
  lemma {:induction false} DeletedMovesUp(ls: seq<string>, k: nat, group: string, name: string, d: nat, n: nat)
    requires Locate(ls, group, name, d) == Some(k)
    ensures Read(ls[k := "\n"], group, name, n) == Read(ls, group, name, Before(d, n))
  {
    FoundLine(ls, k, name);
    Blanked(ls, k, group, name);
    var i := GroupFrom(OpensAll(ls, group), 0).value;
    NthFromBlanked(ParseAll(ls, name), k, i, d, n);
    NotTwice(ParseAll(ls, name), i, d, Before(d, n));
  }

  lemma {:induction false} AvoidsByLocate(ls: seq<string>, k: nat, group: string, name: string, n: nat)
    requires GroupFrom(OpensAll(ls, group), 0).Some?
    requires forall m: nat :: m <= n ==> Locate(ls, group, name, m) != Some(k)
    ensures Avoids(ParseAll(ls, name), k, GroupFrom(OpensAll(ls, group), 0).value, n)
    decreases n
  {
    assert Locate(ls, group, name, n) != Some(k);
    if n > 0 {
      AvoidsByLocate(ls, k, group, name, n - 1);
    }
  }

  /** Every variable that is not defined in the deleted line keeps its value. */
  lemma {:induction false} DeletedLeavesOthers(ls: seq<string>, k: nat, group: string, name: string, n: nat)
    requires k < |ls| && !IsEntity(ls[k])
    requires forall m: nat :: m <= n ==> Locate(ls, group, name, m) != Some(k)
    ensures Read(ls[k := "\n"], group, name, n) == Read(ls, group, name, n)
  {
    Blanked(ls, k, group, name);
    var r := GroupFrom(OpensAll(ls, group), 0);
    if r.Some? {
      AvoidsByLocate(ls, k, group, name, n);
      NthFromOther(ParseAll(ls, name), k, r.value, n);
      assert Locate(ls, group, name, n) != Some(k);
    }
  }

  lemma {:induction false} LineInFile(f: string, ls: seq<string>, k: nat)
    requires f == Flat(ls) && k < |ls|
    ensures StartOf(ls, k) + |ls[k]| <= |f|
    ensures forall i :: 0 <= i < |ls[k]| ==> f[StartOf(ls, k) + i] == ls[k][i]
  {
    CutAt(ls, k);
  }

  /** Behind the last bracket in `a[..v]`, or the start. */
  function BehindBracket(a: string, v: nat): (r: nat)
    requires v <= |a|
    ensures r <= v && (r > 0 ==> a[r - 1] == ']') && forall j :: r <= j < v ==> a[j] != ']'
  {
    if v == 0 || a[v - 1] == ']' then v else BehindBracket(a, v - 1)
  }

  /** What is left of a line when the value at `v` is deleted. */
  function Remnant(a: string, v: nat): string
    requires v <= |a|
  {
    a[..BehindBracket(a, v)] + "\n"
  }

  lemma {:induction false} CutToEnd(f: string, ls: seq<string>, k: nat, r: nat)
    requires f == Flat(ls) && k < |ls| && EndsLine(ls[k]) && r < |ls[k]|
    ensures StartOf(ls, k) + |ls[k]| <= |f|
    ensures f[..StartOf(ls, k) + r] + f[StartOf(ls, k) + |ls[k]| - 1..] == Flat(ls[k := ls[k][..r] + "\n"])
  {
    var a, s := ls[k], StartOf(ls, k);
    var none: string := [];
    LineInFile(f, ls, k);
    SpliceFile(f, ls, k, r, |a| - 1, none);
    assert a[..r] + none + a[|a| - 1..] == a[..r] + "\n";
    assert f[..s + r] + none == f[..s + r];
  }

  /** Cutting line `k` in the file behind its first `r` characters. */
  lemma {:induction false} CutInFile(f: string, ls: seq<string>, k: nat, r: nat)
    requires f == Flat(ls) && Good(ls) && k < |ls| && EndsLine(ls[k]) && r < |ls[k]|
    ensures StartOf(ls, k) + |ls[k]| <= |f|
    ensures Lines(f[..StartOf(ls, k) + r] + f[StartOf(ls, k) + |ls[k]| - 1..]) == ls[k := ls[k][..r] + "\n"]
  {
    CutToEnd(f, ls, k, r);
    assert Whole(ls[k]);
    GoodReplaced(ls, k, ls[k][..r] + "\n");
  }

  /** A line without an `=` that is no header acts as a blank one. */
  lemma {:induction false} ActsBlank(ls: seq<string>, k: nat, t: string, group: string, name: string, n: nat)
    requires k < |ls| && !IsEntity(t) && '=' !in t
    ensures Read(ls[k := t], group, name, n) == Read(ls[k := "\n"], group, name, n)
  {
    BlankLine(name, group);
    ParseAllChanged(ls, name, k, t);
    ParseAllChanged(ls, name, k, "\n");
    var blank := ls[k := "\n"];
    assert blank[k := t] == ls[k := t];
    OpensAllUnchanged(blank, group, k, t);
  }

  lemma {:induction false} NameHasNone(a: string, name: string)
    requires '=' !in name && EqualsOf(a, name).Some?
    ensures forall j :: 0 <= j < EqualsOf(a, name).value ==> a[j] != '='
  {
    var i := Skip(a, 0);
    forall j | 0 <= j < EqualsOf(a, name).value ensures a[j] != '=' {
      if i <= j < i + |name| {
        assert name[j - i] in name;
        assert Lower(name[j - i]) == Lower(a[i + (j - i)]);
      }
    }
  }

  lemma {:induction false} RemnantStart(a: string, r: nat)
    requires 0 < r <= |a| && a[r - 1] == ']' && !IsEntity(a)
    ensures !IsEntity(a[..r] + "\n")
  {
    var t, i := a[..r] + "\n", Skip(a, 0);
    assert i < r;
    assert forall j :: 0 <= j < r ==> t[j] == a[j];
    assert Skip(t, 0) == i;
  }

  /** What is left of the line of a variable whose name has no `=`: nothing that is read. */
  lemma {:induction false} RemnantIsIdle(ls: seq<string>, k: nat, name: string)
    requires k < |ls| && ParseAll(ls, name)[k].Definition? && '=' !in name
    ensures ParseAll(ls, name)[k].start <= |ls[k]|
    ensures !IsEntity(Remnant(ls[k], ParseAll(ls, name)[k].start)) && '=' !in Remnant(ls[k], ParseAll(ls, name)[k].start)
  {
    ParseAllAt(ls, name, k);
    var a, q := ls[k], EqualsOf(ls[k], name).value;
    var v := ParseAll(ls, name)[k].start;
    var r := BehindBracket(a, v);
    NameHasNone(a, name);
    assert r > 0 ==> r - 1 < q;
    if r == 0 {
      assert a[..0] + "\n" == "\n";
      BlankLine(name, name);
      assert Skip("\n", 0) == 1;
    } else {
      RemnantStart(a, r);
    }
  }
}
