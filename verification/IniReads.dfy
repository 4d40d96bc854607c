/** Get after set: when a variable of an INI file reads as the value it was set to, for every old value,
    those with an unterminated quote included. */
module IniReads {
  import opened Basics
  import opened IniText
  import opened IniSearch
  import opened IniEdits
  import opened IniDeletes
  import opened IniJoins

  lemma {:induction false} VarFromUpTo(ps: seq<Parsed>, j: nat, i: nat)
    requires i <= |ps| && j < |ps| && VarFrom(ps, i).Some? && VarFrom(ps, i).value < j
    ensures VarFrom(ps[j := Other], i) == VarFrom(ps, i)
    decreases |ps| - i
  {
    if !ps[i].Definition? {
      VarFromUpTo(ps, j, i + 1);
    }
  }

  lemma {:induction false} NthFromForward(ps: seq<Parsed>, i: nat, n: nat)
    requires i <= |ps| && NthFrom(ps, i, n).Some?
    ensures VarFrom(ps, i).Some? && VarFrom(ps, i).value <= NthFrom(ps, i, n).value
  {
  }

  lemma {:induction false} NthFromUpTo(ps: seq<Parsed>, j: nat, i: nat, n: nat)
    requires i <= |ps| && j < |ps| && NthFrom(ps, i, n).Some? && NthFrom(ps, i, n).value < j
    ensures NthFrom(ps[j := Other], i, n) == NthFrom(ps, i, n)
    decreases n
  {
    NthFromForward(ps, i, n);
    VarFromUpTo(ps, j, i);
    if n > 0 {
      NthFromUpTo(ps, j, VarFrom(ps, i).value + 1, n - 1);
    }
  }

  /** Blanking a later line moves no variable in front of it. */
  lemma {:induction false} LocateUpTo(ls: seq<string>, j: nat, group: string, name: string, n: nat, k: nat)
    requires k < j < |ls| && Locate(ls, group, name, n) == Some(k)
    ensures Locate(ls[j := "\n"], group, name, n) == Some(k)
    ensures ParseAll(ls[j := "\n"], name)[k] == ParseAll(ls, name)[k]
  {
    Cleared(ls, j, group, name);
    GroupFromCleared(OpensAll(ls, group), j, 0);
    NthFromUpTo(ParseAll(ls, name), j, GroupFrom(OpensAll(ls, group), 0).value, n);
  }

  /** What is read when the line of a variable is replaced behind its `=`. */
  lemma {:induction false} ReadsReplaced(ls: seq<string>, group: string, name: string, n: nat, k: nat, q: nat, t: string)
    requires Locate(ls, group, name, n) == Some(k) && q == EqualsAt(ls, k, name) && SameUpTo(ls[k], t, q)
    ensures Read(ls[k := t], group, name, n) == Some(ValueAt(t, q))
  {
    FoundLine(ls, k, name);
    KindShowsEarly(ls[k], t, q, name);
    LineAlike(ls, k, q, t, group, name, n);
    FoundLine(ls[k := t], k, name);
  }

  /** The line that is joined when line `k` is set, if any. */
  function Following(ls: seq<string>, k: nat, q: nat): string
    requires k < |ls| && q < |ls[k]|
  {
    if Swallows(ls[k], q) && k + 1 < |ls| then ls[k + 1] else []
  }

  lemma {:induction false} ReadsJoined(ls: seq<string>, group: string, name: string, n: nat, k: nat, q: nat, val: string)
    requires Good(ls) && Locate(ls, group, name, n) == Some(k) && q == EqualsAt(ls, k, name) && k + 1 < |ls|
    requires q < |ls[k]| && EndsLine(ls[k]) && Plain(val) && Room(ls, k, q, val) && Swallows(ls[k], q)
    ensures Read(Lines(SetIn(ls, k, q, val)), group, name, n) == Some(ValueAt(Edited(ls[k], q, val) + ls[k + 1], q))
  {
    FoundLine(ls, k, name);
    LinesJoined(ls, k, q, val);
    ReadsWithout(ls, group, name, n, k, q, Edited(ls[k], q, val) + ls[k + 1]);
  }

  lemma {:induction false} ReadsWithout(ls: seq<string>, group: string, name: string, n: nat, k: nat, q: nat, t: string)
    requires Locate(ls, group, name, n) == Some(k) && q == EqualsAt(ls, k, name) && k + 1 < |ls|
    requires SameUpTo(ls[k], t, q)
    ensures Read(Without(ls[k + 1 := "\n"][k := t], k + 1), group, name, n) == Some(ValueAt(t, q))
  {
    LocateUpTo(ls, k + 1, group, name, n, k);
    ReadsReplaced(ls[k + 1 := "\n"], group, name, n, k, q, t);
    WithoutBlank(ls[k + 1 := "\n"][k := t], k + 1, group, name, n);
  }

  /** What is found after setting, in every file: in the edited line, or in that and the next one. */
  lemma {:induction false} ReadsText(ls: seq<string>, group: string, name: string, n: nat, k: nat, q: nat, val: string)
    requires Good(ls) && Locate(ls, group, name, n) == Some(k) && q == EqualsAt(ls, k, name)
    requires q < |ls[k]| && (k + 1 < |ls| ==> EndsLine(ls[k])) && Plain(val) && Room(ls, k, q, val)
    ensures Read(Lines(SetIn(ls, k, q, val)), group, name, n)
         == Some(ValueAt(Edited(ls[k], q, val) + Following(ls, k, q), q))
  {
    if Swallows(ls[k], q) && k + 1 < |ls| {
      ReadsJoined(ls, group, name, n, k, q, val);
    } else {
      var b := Edited(ls[k], q, val);
      FoundLine(ls, k, name);
      SetReplacesLine(ls, k, q, val);
      ReadsReplaced(ls, group, name, n, k, q, b);
      assert b + [] == b;
    }
  }

  /** What stands behind the old value in line `k`, and is found behind the new one. */
  function Left(ls: seq<string>, k: nat, q: nat, val: string): string
    requires k < |ls| && q < |ls[k]|
  {
    var v := ValueStart(ls[k], q);
    Behind(ls[k] + Following(ls, k, q), v, ValueEnd(ls[k], v), val)
  }

  lemma {:induction false} StartInside(a: string, q: nat)
    requires q < |a| && a[q] == '=' && EndsLine(a)
    ensures ValueStart(a, q) < |a|
  {
  }

  lemma {:induction false} FoundWithNext(ls: seq<string>, k: nat, q: nat, val: string)
    requires k < |ls| && q < |ls[k]| && ls[k][q] == '=' && (k + 1 < |ls| ==> EndsLine(ls[k])) && Plain(val)
    ensures q < |Edited(ls[k], q, val)|
    ensures ValueAt(Edited(ls[k], q, val) + Following(ls, k, q), q) == val + Left(ls, k, q, val)
  {
    var c := Following(ls, k, q);
    if c != [] {
      StartInside(ls[k], q);
    }
    FoundIs(ls[k], c, q, val);
  }

  lemma {:induction false} FoundAfterSet(ls: seq<string>, group: string, name: string, n: nat, k: nat, q: nat, val: string)
    requires Good(ls) && Locate(ls, group, name, n) == Some(k) && q == EqualsAt(ls, k, name)
    requires q < |ls[k]| && (k + 1 < |ls| ==> EndsLine(ls[k])) && Plain(val) && Room(ls, k, q, val)
    ensures Read(Lines(SetIn(ls, k, q, val)), group, name, n) == Some(val + Left(ls, k, q, val))
  {
    FoundLine(ls, k, name);
    FoundWithNext(ls, k, q, val);
    ReadsText(ls, group, name, n, k, q, val);
  }

  /** The text behind the old value is clean: behind it in its line, or in the next one if the old value
      has swallowed the line end. */
  predicate CleanIn(ls: seq<string>, k: nat, q: nat, val: string)
    requires k < |ls| && q < |ls[k]|
  {
    var v := ValueStart(ls[k], q);
    Clean(ls[k] + Following(ls, k, q), v, ValueEnd(ls[k], v), val)
  }

  /** The three cases of a clean text, in terms of the two lines. */
  lemma {:induction false} CleanCases(ls: seq<string>, k: nat, q: nat, val: string)
    requires Good(ls) && k < |ls| && q < |ls[k]| && EndsLine(ls[k])
    ensures var a := ls[k]; var v := ValueStart(a, q); var e := ValueEnd(a, v);
            CleanIn(ls, k, q, val) <==>
              if !Swallows(a, q) then forall j :: e <= j < FindStop(a, e) ==> IsBlank(a[j])
              else if k + 1 == |ls| then val == [] || |val| >= |a| - v
              else var c := ls[k + 1];
                   (forall j :: 0 <= j < FindStop(c, 0) ==> IsBlank(c[j])) && (FindStop(c, 0) < |c| || val == [])
  {
    var a := ls[k];
    var v := ValueStart(a, q);
    var e := ValueEnd(a, v);
    if !Swallows(a, q) || k + 1 == |ls| {
      assert a + [] == a;
      if !Swallows(a, q) {
        NewlineStops(a, e);
      }
    } else {
      assert Whole(ls[k + 1]);
      BlanksBehind(a, ls[k + 1]);
    }
  }

  lemma {:induction false} BlanksBehind(a: string, c: string)
    ensures FindStop(a + c, |a|) == |a| + FindStop(c, 0)
    ensures (forall j :: |a| <= j < FindStop(a + c, |a|) ==> IsBlank((a + c)[j]))
       <==> (forall j :: 0 <= j < FindStop(c, 0) ==> IsBlank(c[j]))
  {
    var t := a + c;
    assert SameBehind(c, 0, t, |a|);
    FindStopMoves(c, 0, t, |a|);
    if forall j :: |a| <= j < FindStop(t, |a|) ==> IsBlank(t[j]) {
      forall j | 0 <= j < FindStop(c, 0) ensures IsBlank(c[j]) {
        assert t[|a| + j] == c[j];
      }
    }
  }

  /** Get after set, as the search finds it.  For a trimmed value without quotes, `#` and line ends, and
      lines within the limit: the new value is found if and only if the text behind the old one is
      clean. */
  lemma {:induction false} GetAfterSet(ls: seq<string>, group: string, name: string, n: nat, k: nat, q: nat, val: string)
    requires Good(ls) && Locate(ls, group, name, n) == Some(k) && q == EqualsAt(ls, k, name)
    requires q < |ls[k]| && (k + 1 < |ls| ==> EndsLine(ls[k])) && Plain(val) && Room(ls, k, q, val)
    ensures Read(Lines(SetIn(ls, k, q, val)), group, name, n) == Some(val) <==> CleanIn(ls, k, q, val)
  {
    FoundAfterSet(ls, group, name, n, k, q, val);
    LeftIfClean(ls, k, q, val);
    NothingAdded(val, Left(ls, k, q, val));
  }

  lemma {:induction false} LeftIfClean(ls: seq<string>, k: nat, q: nat, val: string)
    requires k < |ls| && q < |ls[k]|
    ensures CleanIn(ls, k, q, val) <==> Left(ls, k, q, val) == []
  {
    var v := ValueStart(ls[k], q);
    CleanIsBare(ls[k] + Following(ls, k, q), v, ValueEnd(ls[k], v), val);
  }

  lemma NothingAdded(val: string, w: string)
    ensures val + w == val <==> w == []
  {
    assert |val + w| == |val| + |w|;
  }

  /** Get after set, as `GetVar` hands it out in a buffer that the value fits: it is the new value if
      and only if what stands behind the old one is nothing, or lost on the way (see `CutsTo`). */
  lemma {:induction false} GetVarAfterSet(ls: seq<string>, group: string, name: string, n: nat, k: nat, q: nat,
                                          val: string, size: nat)
    requires Good(ls) && Locate(ls, group, name, n) == Some(k) && q == EqualsAt(ls, k, name)
    requires q < |ls[k]| && (k + 1 < |ls| ==> EndsLine(ls[k])) && Plain(val) && Room(ls, k, q, val) && |val| < size
    ensures var r := Read(Lines(SetIn(ls, k, q, val)), group, name, n);
            r.Some? && (Unquoted(r.value, size).0 == val <==> CutsTo(val, Left(ls, k, q, val), size))
  {
    FoundAfterSet(ls, group, name, n, k, q, val);
    UnquotedIs(val, Left(ls, k, q, val), size);
  }

  /** So a clean text is enough for every buffer that the value fits. */
  lemma {:induction false} CleanReadsBack(ls: seq<string>, k: nat, q: nat, val: string, size: nat)
    requires k < |ls| && q < |ls[k]| && CleanIn(ls, k, q, val)
    ensures CutsTo(val, Left(ls, k, q, val), size)
  {
    LeftIfClean(ls, k, q, val);
  }

  /** The case the design promises: an old value that is not quoted is always replaced cleanly. */
  lemma {:induction false} GetAfterSetUnquoted(ls: seq<string>, group: string, name: string, n: nat, k: nat, q: nat, val: string)
    requires Good(ls) && Locate(ls, group, name, n) == Some(k) && q == EqualsAt(ls, k, name)
    requires q < |ls[k]| && EndsLine(ls[k]) && Plain(val) && Room(ls, k, q, val)
    requires ValueStart(ls[k], q) < |ls[k]| && !IsQuote(ls[k][ValueStart(ls[k], q)])
    ensures Read(Lines(SetIn(ls, k, q, val)), group, name, n) == Some(val)
  {
    var a := ls[k];
    NewlineStops(a, ValueStart(a, q));
    UnquotedIsClean(a, q, val);
    assert a + [] == a;
    GetAfterSet(ls, group, name, n, k, q, val);
  }

  lemma {:induction false} FoundInExample(ls: seq<string>)
    requires |ls| >= 2 && ls[0] == "[g]\n" && |ls[1]| > 2 && ls[1][0] == 'x' && ls[1][1] == '='
    ensures Locate(ls, "g", "x", 0) == Some(1) && EqualsAt(ls, 1, "x") == 1
  {
    OpensAllAt(ls, "g", 0);
    ParseAllAt(ls, "x", 1);
    assert Skip(ls[0], 0) == 0 && Skip(ls[0], 1) == 1 && Skip(ls[0], 2) == 2;
    assert Skip(ls[1], 0) == 0 && Skip(ls[1], 1) == 1;
  }

  /** What is found in such a file when `x` is set to `wxyz` and the text `w` is left. */
  lemma {:induction false} ReadsInExample(ls: seq<string>, w: string)
    requires Good(ls) && |ls| >= 2 && ls[0] == "[g]\n" && |ls[1]| > 2 && ls[1][0] == 'x' && ls[1][1] == '='
    requires EndsLine(ls[1]) && Room(ls, 1, 1, "wxyz") && Left(ls, 1, 1, "wxyz") == w
    ensures Read(Lines(SetIn(ls, 1, 1, "wxyz")), "g", "x", 0) == Some("wxyz" + w)
  {
    FoundInExample(ls);
    PlainWord();
    FoundAfterSet(ls, "g", "x", 0, 1, 1, "wxyz");
  }

  lemma PlainWord()
    ensures Plain("wxyz")
  {
  }

  /** An input: an old value in quotes with text behind it keeps that text.  The value read is not the one
      set, unless the buffer cuts it there. */
  lemma {:induction false} QuotedTailStays(ls: seq<string>)
    requires ls == ["[g]\n", "x=\"ab\"c\n"]
    ensures Read(Lines(SetIn(ls, 1, 1, "wxyz")), "g", "x", 0) == Some("wxyz" + "c")
    ensures Unquoted("wxyz" + "c", 100).0 != "wxyz" && Unquoted("wxyz" + "c", 5).0 == "wxyz"
  {
    QuotedTail(ls[1]);
    assert ls[1] + [] == ls[1];
    ReadsInExample(ls, "c");
    WordIsCut();
  }

  lemma WordIsCut()
    ensures Unquoted("wxyz" + "c", 100).0 != "wxyz" && Unquoted("wxyz" + "c", 5).0 == "wxyz"
  {
    PlainWord();
    UnquotedIs("wxyz", "c", 100);
    UnquotedIs("wxyz", "c", 5);
  }

  lemma {:induction false} QuotedTail(a: string)
    requires a == "x=\"ab\"c\n"
    ensures ValueStart(a, 1) == 2 && ValueEnd(a, 2) == 6 && Behind(a, 2, 6, "wxyz") == "c"
    ensures |Edited(a, 1, "wxyz")| == 8
  {
    assert a[2] == '"' && a[3] == 'a' && a[4] == 'b' && a[5] == '"' && a[6] == 'c' && a[7] == '\n';
    assert Find(a, '"', 3) == 5;
    assert TrimBack(a, 2, 6) == 6;
    assert FindStop(a, 6) == 7 && TrimBack(a, 6, 7) == 7;
    assert Blanks(0) == [];
    assert a[6..7] == "c";
  }

  /** An input: `x` has an unterminated quote, and reads the next line as part of its new value. */
  lemma {:induction false} NextLineIsRead(ls: seq<string>)
    requires ls == ["[g]\n", "x=\"ab\n", "y=1\n"]
    ensures Read(Lines(SetIn(ls, 1, 1, "wxyz")), "g", "x", 0) == Some("wxyz" + "y=1")
  {
    SwallowedInExample(ls[1]);
    JoinedTail(ls[1] + ls[2]);
    ReadsInExample(ls, "y=1");
  }

  lemma {:induction false} JoinedTail(t: string)
    requires t == "x=\"ab\ny=1\n"
    ensures Behind(t, 2, 6, "wxyz") == "y=1"
  {
    assert t[6] == 'y' && t[7] == '=' && t[8] == '1' && t[9] == '\n';
    assert FindStop(t, 6) == 9 && TrimBack(t, 6, 9) == 9;
    assert Blanks(0) == [];
    assert t[6..9] == "y=1";
  }

  /** An input: in the last line the blanks that pad a shorter value are read with it. */
  lemma {:induction false} PaddingIsRead(ls: seq<string>)
    requires ls == ["[g]\n", "x=\"abcd\n"]
    ensures Read(Lines(SetIn(ls, 1, 1, "wxyz")), "g", "x", 0) == Some("wxyz" + "  ")
  {
    LastLineSwallowed(ls[1]);
    assert ls[1] + [] == ls[1];
    ReadsInExample(ls, "  ");
  }

  lemma {:induction false} LastLineSwallowed(a: string)
    requires a == "x=\"abcd\n"
    ensures ValueStart(a, 1) == 2 && ValueEnd(a, 2) == 8 && Behind(a, 2, 8, "wxyz") == "  "
    ensures |Edited(a, 1, "wxyz")| == 8
  {
    assert a[2] == '"' && a[3] == 'a' && a[4] == 'b' && a[5] == 'c' && a[6] == 'd' && a[7] == '\n';
    assert Find(a, '"', 3) == 8;
    assert FindStop(a, 8) == 8;
    assert Blanks(2) == "  " && a[8..] == [];
  }
}
