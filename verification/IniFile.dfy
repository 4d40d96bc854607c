/** `CIniParser` of AccessNode/Shared/IniParser.cpp at work on a file: finding, reading, replacing and
    deleting a variable, and `fbmove` of AccessNode/Shared/Common.cpp, which closes the gap. */
module IniFile {
  import opened Basics
  import opened IniText
  import opened IniSearch
  import opened IniFormat
  import opened IniEdits
  import opened IniDeletes
  import opened IniJoins
  import opened IniReads

  const CHUNK: nat := 8 * 1024
  const LINE_BUFFER: nat := 256

  lemma {:induction false} FirstAndRest(f: string)
    requires f != []
    ensures Lines(f)[0] == f[..LineLength(f)] && Lines(f)[1..] == Lines(f[LineLength(f)..])
  {
  }

  lemma {:induction false} GoodTail(ls: seq<string>, i: nat)
    requires Good(ls) && i <= |ls|
    ensures Good(ls[i..])
  {
    assert forall j :: 0 <= j < |ls[i..]| ==> ls[i..][j] == ls[j + i];
  }

  lemma {:induction false} FlatIsEmpty(ls: seq<string>)
    requires Good(ls)
    ensures Flat(ls) == [] <==> ls == []
  {
    if ls != [] {
      assert Whole(ls[0]);
    }
  }

  /** The whole file from line `i` on, as lines. */
  lemma {:induction false} LinesFrom(f: string, i: nat)
    requires i <= |Lines(f)|
    ensures StartOf(Lines(f), i) <= |f| && Lines(f[StartOf(Lines(f), i)..]) == Lines(f)[i..]
    ensures StartOf(Lines(f), i) == |f| <==> i == |Lines(f)|
  {
    var ls := Lines(f);
    FlatLines(f);
    LinesAreGood(f);
    GoodTail(ls, i);
    FlatAppend(ls[..i], ls[i..]);
    assert ls == ls[..i] + ls[i..];
    LengthIsFlat(ls[..i]);
    SuffixIs(f, Flat(ls[..i]), Flat(ls[i..]));
    LinesOfFlat(ls[i..]);
    FlatIsEmpty(ls[i..]);
  }

  lemma {:induction false} SuffixIs(f: string, front: string, rest: string)
    requires f == front + rest
    ensures f[|front|..] == rest
  {
  }

  lemma {:induction false} FirstOfRest(f: string, s: nat, g: string, line: string)
    requires s <= |f| && g == f[s..] && g != [] && line == g[..LineLength(g)]
    ensures s + LineLength(f[s..]) <= |f| && f[s..s + LineLength(f[s..])] == line
  {
  }

  /** The line that is read at the start of line `i`. */
  lemma {:induction false} LineAt(f: string, i: nat)
    requires i < |Lines(f)|
    ensures StartOf(Lines(f), i) < |f|
    ensures f[StartOf(Lines(f), i)..StartOf(Lines(f), i) + LineLength(f[StartOf(Lines(f), i)..])] == Lines(f)[i]
    ensures StartOf(Lines(f), i + 1) == StartOf(Lines(f), i) + LineLength(f[StartOf(Lines(f), i)..])
  {
    LinesFrom(f, i);
    StartOfNext(Lines(f), i);
    var g := f[StartOf(Lines(f), i)..];
    FirstAndRest(g);
    assert Lines(f)[i] == Lines(f)[i..][0] == g[..LineLength(g)];
    FirstOfRest(f, StartOf(Lines(f), i), g, Lines(f)[i]);
  }

  method EscapeSpaces(s: string, i: nat) returns (k: nat)
    requires i <= |s|
    ensures k == Skip(s, i)
  {
    k := i;
    while k < |s| && IsSpace(s[k])
      invariant i <= k <= |s| && Skip(s, k) == Skip(s, i)
    {
      k := k + 1;
    }
  }

  method CompareName(s: string, i: nat, name: string) returns (same: bool)
    requires i <= |s|
    ensures same <==> NameAt(s, i, name)
  {
    for j := 0 to |name|
      invariant i + j <= |s| && forall m :: 0 <= m < j ==> Lower(name[m]) == Lower(s[i + m])
    {
      if i + j == |s| || Lower(name[j]) != Lower(s[i + j]) {
        return false;
      }
    }
    same := true;
  }

  method MatchGroup(line: string, group: string) returns (r: bool)
    ensures r <==> OpensGroup(line, group)
  {
    var i := EscapeSpaces(line, 0);
    if i == |line| || line[i] != '[' {
      return false;
    }
    i := EscapeSpaces(line, i + 1);
    var same := CompareName(line, i, group);
    if !same {
      return false;
    }
    i := EscapeSpaces(line, i + |group|);
    r := i < |line| && line[i] == ']';
  }

  /** The trailing white space of `s[lo..hi]` goes. */
  method TrimTrailing(s: string, lo: nat, hi: nat) returns (k: nat)
    requires lo <= hi <= |s|
    ensures k == TrimBack(s, lo, hi)
  {
    k := hi;
    while k > lo && IsSpace(s[k - 1])
      invariant lo <= k <= hi && TrimBack(s, lo, k) == TrimBack(s, lo, hi)
    {
      k := k - 1;
    }
  }

  method FindEnd(line: string, v: nat) returns (e: nat)
    requires v <= |line|
    ensures e == ValueEnd(line, v)
  {
    if v < |line| && (line[v] == '"' || line[v] == '\'') {
      e := v + 1;
      while e < |line| && line[e] != line[v]
        invariant v < e <= |line| && Find(line, line[v], e) == Find(line, line[v], v + 1)
      {
        e := e + 1;
      }
      if e == |line| {
        return;
      }
      e := e + 1;
    } else {
      e := v;
      while e < |line| && !IsStop(line[e])
        invariant v <= e <= |line| && FindStop(line, e) == FindStop(line, v)
      {
        e := e + 1;
      }
      if e == |line| {
        return;
      }
    }
    e := TrimTrailing(line, v, e);
  }

  /** Behind the last newline or bracket in front of `p`, or the start of the file when there is none
      behind `lo`. */
  function BackTo(f: string, lo: nat, p: nat): (r: nat)
    requires lo <= p <= |f|
    ensures r <= p
  {
    if p == lo then 0
    else if f[p - 1] == '\n' || f[p - 1] == ']' then p
    else BackTo(f, lo, p - 1)
  }

  function WindowStart(p: nat): nat {
    if p <= LINE_BUFFER then 0 else p - LINE_BUFFER
  }

  /** The stretch that `DeleteVar` erases for a value at `p`. */
  function EraseRange(f: string, p: nat): (r: (nat, nat))
    requires p <= |f|
    ensures r.0 <= p <= r.1 <= |f|
  {
    var e := Find(f, '\n', p);
    (BackTo(f, WindowStart(p), p), if e < p + LINE_BUFFER then e else Min(p + LINE_BUFFER, |f|))
  }

  /** The file without the stretch that is erased for a value at `p`. */
  function Deleted(f: string, p: nat): string
    requires p <= |f|
  {
    f[..EraseRange(f, p).0] + f[EraseRange(f, p).1..]
  }

  /** The file with the `n` characters at `p` replaced by a value. */
  function Replaced(f: string, p: nat, n: nat, val: string): string
    requires p + n <= |f|
  {
    f[..p] + Padded(val, n) + f[p + n..]
  }

  method EscapeBlanks(s: string, i: nat) returns (k: nat)
    requires i <= |s|
    ensures k == SkipInline(s, i)
  {
    k := i;
    while k < |s| && IsSpace(s[k]) && !IsEol(s[k])
      invariant i <= k <= |s| && SkipInline(s, k) == SkipInline(s, i)
    {
      k := k + 1;
    }
  }

  /** The `=` behind a name that stands at `s`. */
  method FindEquals(line: string, s: nat, name: string) returns (r: Option<nat>)
    requires s == Skip(line, 0)
    ensures r == EqualsOf(line, name)
  {
    var same := CompareName(line, s, name);
    if !same {
      return None;
    }
    var k := EscapeSpaces(line, s + |name|);
    r := if k < |line| && line[k] == '=' then Some(k) else None;
  }

  method ParseLine(line: string, name: string) returns (p: Parsed)
    ensures p == Parse(line, name)
  {
    var s := EscapeSpaces(line, 0);
    if s < |line| && (line[s] == '[' || line[s] == '<') {
      return Entity;
    }
    var q := FindEquals(line, s, name);
    if q == None {
      return Other;
    }
    s := EscapeBlanks(line, q.value + 1);
    var e := FindEnd(line, s);
    p := Definition(q.value, s, e);
  }

  /** Where the value that a line defines stands in the file. */
  function PlaceOf(ls: seq<string>, k: nat, name: string): nat
    requires k < |ls| && ParseAll(ls, name)[k].Definition?
  {
    StartOf(ls, k) + ParseAll(ls, name)[k].start
  }

  lemma {:induction false} NthStep(ps: seq<Parsed>, i: nat, n: nat)
    requires i <= |ps|
    ensures match VarFrom(ps, i)
            case None => NthFrom(ps, i, n) == None
            case Some(k) => NthFrom(ps, i, n) == if n == 0 then Some(k) else NthFrom(ps, k + 1, n - 1)
  {
  }

  lemma {:induction false} SetAtPlace(f: string, ls: seq<string>, k: nat, q: nat, val: string)
    requires f == Flat(ls) && k < |ls| && q < |ls[k]|
    ensures StartOf(ls, k) + ValueEnd(ls[k], ValueStart(ls[k], q)) <= |f|
    ensures Replaced(f, StartOf(ls, k) + ValueStart(ls[k], q),
                     ValueEnd(ls[k], ValueStart(ls[k], q)) - ValueStart(ls[k], q), val)
         == SetIn(ls, k, q, val)
  {
    var a, s := ls[k], StartOf(ls, k);
    var v := ValueStart(a, q);
    var e := ValueEnd(a, v);
    var w := Padded(val, e - v);
    SpliceFile(f, ls, k, v, e, w);
    assert Edited(a, q, val) == a[..v] + w + a[e..];
    assert Replaced(f, s + v, e - v, val) == f[..s + v] + w + f[s + e..];
  }

  /** What the search has found, in terms of its line. */
  lemma {:induction false} FoundPlace(ls: seq<string>, k: nat, name: string)
    requires k < |ls| && ParseAll(ls, name)[k].Definition?
    ensures var q := EqualsAt(ls, k, name);
            && q < |ls[k]|
            && PlaceOf(ls, k, name) == StartOf(ls, k) + ValueStart(ls[k], q)
            && |Defined(ls[k], ParseAll(ls, name)[k])| == ValueEnd(ls[k], ValueStart(ls[k], q)) - ValueStart(ls[k], q)
  {
    ParseAllAt(ls, name, k);
  }

  /** Replacing the value found is editing its line. */
  lemma {:induction false} SetIsSplice(f: string, ls: seq<string>, k: nat, name: string, val: string)
    requires f == Flat(ls) && k < |ls| && ParseAll(ls, name)[k].Definition?
    ensures EqualsAt(ls, k, name) < |ls[k]|
    ensures PlaceOf(ls, k, name) + |Defined(ls[k], ParseAll(ls, name)[k])| <= |f|
    ensures Replaced(f, PlaceOf(ls, k, name), |Defined(ls[k], ParseAll(ls, name)[k])|, val)
         == SetIn(ls, k, EqualsAt(ls, k, name), val)
  {
    FoundPlace(ls, k, name);
    SetAtPlace(f, ls, k, EqualsAt(ls, k, name), val);
  }

  /** `GetVar` after `SetVar`, on the files themselves: a plain value that fits the caller's buffer comes
      back if and only if what stands behind the old one allows it. */
  lemma {:induction false} SetVarThenGetVar(f: string, group: string, name: string, n: nat, k: nat, q: nat, val: string,
                                            size: nat)
    requires Locate(Lines(f), group, name, n) == Some(k) && q == EqualsAt(Lines(f), k, name) && q < |Lines(f)[k]|
    requires (k + 1 < |Lines(f)| ==> EndsLine(Lines(f)[k])) && Plain(val) && Room(Lines(f), k, q, val) && |val| < size
    ensures PlaceOf(Lines(f), k, name) + |Defined(Lines(f)[k], ParseAll(Lines(f), name)[k])| <= |f|
    ensures var f' := Replaced(f, PlaceOf(Lines(f), k, name),
                               |Defined(Lines(f)[k], ParseAll(Lines(f), name)[k])|, val);
            var r := Read(Lines(f'), group, name, n);
            r.Some? && (Unquoted(r.value, size).0 == val <==> CutsTo(val, Left(Lines(f), k, q, val), size))
  {
    FlatLines(f);
    LinesAreGood(f);
    SetIsSplice(f, Lines(f), k, name, val);
    GetVarAfterSet(Lines(f), group, name, n, k, q, val, size);
  }

  lemma {:induction false} NotAtEnd(f: string, ls: seq<string>, k: nat, v: nat)
    requires f == Flat(ls) && f != [] && f[|f| - 1] == '\n' && k < |ls|
    requires 0 < v <= |ls[k]| && ls[k][v - 1] != '\n'
    ensures StartOf(ls, k) + v < |f| && f[StartOf(ls, k) + v - 1] == ls[k][v - 1]
  {
    LineInFile(f, ls, k);
    assert f[StartOf(ls, k) + (v - 1)] == ls[k][v - 1];
  }

  /** In a file that ends with a newline no value stands at its very end, nor behind a newline. */
  lemma {:induction false} PlaceInside(f: string, ls: seq<string>, k: nat, name: string)
    requires f == Flat(ls) && f != [] && f[|f| - 1] == '\n' && k < |ls| && ParseAll(ls, name)[k].Definition?
    ensures 0 < PlaceOf(ls, k, name) < |f|
    ensures f[PlaceOf(ls, k, name) - 1] != '\n' && f[PlaceOf(ls, k, name) - 1] != ']'
  {
    ParseAllAt(ls, name, k);
    StartIsBehindName(ls[k], name);
    NotAtEnd(f, ls, k, ParseAll(ls, name)[k].start);
  }

  lemma {:induction false} FoundInside(f: string, k: nat, name: string)
    requires f != [] && f[|f| - 1] == '\n' && k < |Lines(f)| && ParseAll(Lines(f), name)[k].Definition?
    ensures 0 < PlaceOf(Lines(f), k, name) < |f|
    ensures f[PlaceOf(Lines(f), k, name) - 1] != '\n' && f[PlaceOf(Lines(f), k, name) - 1] != ']'
  {
    FlatLines(f);
    PlaceInside(f, Lines(f), k, name);
  }

  lemma {:induction false} StartIsBehindName(a: string, name: string)
    requires Parse(a, name).Definition?
    ensures 0 < Parse(a, name).start <= |a|
    ensures a[Parse(a, name).start - 1] != '\n' && a[Parse(a, name).start - 1] != ']'
  {
    var q := EqualsOf(a, name).value;
    var v := ValueStart(a, q);
    assert v - 1 == q || IsBlank(a[v - 1]);
  }

  class IniParser {
    var file: string
    var pos: nat
    var line: string
    var valuePos: nat
    var groupStart: nat

    constructor (f: string)
      ensures file == f
    {
      file := f;
      pos, line, valuePos, groupStart := 0, [], 0, 0;
    }

    /** The file position is at the start of line `i`. */
    ghost predicate At(i: nat)
      reads this
    {
      i <= |Lines(file)| && pos == StartOf(Lines(file), i)
    }

    /** `fgets`. */
    method Fgets() returns (ok: bool)
      requires pos <= |file|
      modifies this`pos, this`line
      ensures ok <==> old(pos) < |file|
      ensures ok ==> line == file[old(pos)..old(pos) + LineLength(file[old(pos)..])] && pos == old(pos) + |line|
      ensures !ok ==> pos == old(pos)
    {
      if pos == |file| {
        return false;
      }
      var n := 0;
      ghost var g := file[pos..];
      while pos + n < |file| && n < MAX_LINE && (n == 0 || file[pos + n - 1] != '\n')
        invariant n <= |g| && n <= MAX_LINE && forall i :: 0 <= i < n - 1 ==> g[i] != '\n'
      {
        n := n + 1;
      }
      assert n == LineLength(g);
      line := file[pos..pos + n];
      pos := pos + n;
      ok := true;
    }

    method ReadLine(ghost i: nat) returns (ok: bool)
      requires At(i)
      modifies this`pos, this`line
      ensures ok <==> i < |Lines(file)|
      ensures ok ==> At(i + 1) && line == Lines(file)[i]
    {
      LinesFrom(file, i);
      if pos < |file| {
        LineAt(file, i);
      }
      ok := Fgets();
    }

    /** One turn of the search for a group: the next line, if there is one, and whether it opens it. */
    method NextOpens(group: string, ghost i: nat) returns (r: Option<bool>)
      requires At(i)
      modifies this`pos, this`line
      ensures r == None <==> i == |Lines(file)|
      ensures r.Some? ==> At(i + 1) && r.value == OpensAll(Lines(file), group)[i]
    {
      var ok := ReadLine(i);
      if !ok {
        return None;
      }
      OpensAllAt(Lines(file), group, i);
      var opens := MatchGroup(line, group);
      r := Some(opens);
    }

    /** `FindGroup` for a known name, from the start of the file. */
    method FindGroup(group: string) returns (found: bool)
      modifies this`pos, this`line, this`groupStart
      ensures match GroupFrom(OpensAll(Lines(file), group), 0)
              case None => !found
              case Some(i) => found && At(i) && groupStart == pos
    {
      groupStart := 0;
      pos := 0;
      ghost var gs := OpensAll(Lines(file), group);
      ghost var i: nat := 0;
      assert Lines(file)[..0] == [];
      while true
        invariant At(i) && GroupFrom(gs, i) == GroupFrom(gs, 0)
        decreases |gs| - i
      {
        var opens := NextOpens(group, i);
        if opens == None {
          return false;
        }
        i := i + 1;
        if opens.value {
          groupStart := pos;
          return true;
        }
      }
    }

    /** One turn of the search: the next line, if there is one, and what it is to the search. */
    method NextParsed(name: string, ghost i: nat) returns (p: Option<Parsed>)
      requires At(i)
      modifies this`pos, this`line
      ensures p == None <==> i == |Lines(file)|
      ensures p.Some? ==> At(i + 1) && line == Lines(file)[i] && p.value == ParseAll(Lines(file), name)[i]
      ensures p.Some? ==> p.value.Fits(|line|)
    {
      var ok := ReadLine(i);
      if !ok {
        return None;
      }
      ParseAllAt(Lines(file), name, i);
      var q := ParseLine(line, name);
      p := Some(q);
    }

    /** The last search found its value in line `k`. */
    ghost predicate HasFound(k: nat, name: string, value: Option<string>)
      reads this
    {
      && k < |Lines(file)| && ParseAll(Lines(file), name)[k].Definition?
      && value == Some(Defined(Lines(file)[k], ParseAll(Lines(file), name)[k]))
      && valuePos == PlaceOf(Lines(file), k, name)
    }

    /** The value found in the line just read. */
    method TakeValue(name: string, ghost i: nat, start: nat, end: nat) returns (value: Option<string>)
      requires At(i + 1) && i < |Lines(file)| && line == Lines(file)[i] && valuePos == StartOf(Lines(file), i)
      requires start <= end <= |line| && ParseAll(Lines(file), name)[i].Definition?
      requires ParseAll(Lines(file), name)[i].start == start && ParseAll(Lines(file), name)[i].end == end
      requires ParseAll(Lines(file), name)[i].Fits(|line|)
      modifies this`valuePos
      ensures At(i + 1) && HasFound(i, name, value)
    {
      valuePos := valuePos + start;
      value := Some(line[start..end]);
    }

    /** `findVariable` from the file position on. */
    method FindNext(name: string, ghost i0: nat) returns (value: Option<string>)
      requires At(i0)
      modifies this`pos, this`line, this`valuePos
      ensures match VarFrom(ParseAll(Lines(file), name), i0)
              case None => value == None
              case Some(k) => At(k + 1) && HasFound(k, name, value)
    {
      valuePos := pos;
      ghost var ps := ParseAll(Lines(file), name);
      ghost var i: nat := i0;
      while true
        invariant At(i) && VarFrom(ps, i) == VarFrom(ps, i0) && valuePos == pos
        decreases |ps| - i
      {
        var p := NextParsed(name, i);
        if p == None {
          return None;
        }
        match p.value {
          case Entity =>
            return None;
          case Definition(_, start, end) =>
            assert VarFrom(ps, i0) == Some(i);
            value := TakeValue(name, i, start, end);
            return;
          case Other =>
            valuePos := pos;
        }
        i := i + 1;
      }
    }

    /** Passes over one definition, when there is one. */
    method SkipOne(name: string, ghost i: nat, ghost left: nat) returns (ok: bool, ghost next: nat)
      requires At(i) && left > 0
      modifies this`pos, this`line, this`valuePos
      ensures !ok ==> NthFrom(ParseAll(Lines(file), name), i, left) == None
      ensures ok ==> At(next)
      ensures ok ==> NthFrom(ParseAll(Lines(file), name), next, left - 1) == NthFrom(ParseAll(Lines(file), name), i, left)
    {
      NthStep(ParseAll(Lines(file), name), i, left);
      ghost var found := VarFrom(ParseAll(Lines(file), name), i);
      var v := FindNext(name, i);
      if v == None {
        return false, i;
      }
      return true, found.value + 1;
    }

    /** The search for definition number `n` from the file position on. */
    method FindNth(name: string, n: nat, ghost i0: nat) returns (value: Option<string>)
      requires At(i0)
      modifies this`pos, this`line, this`valuePos
      ensures match NthFrom(ParseAll(Lines(file), name), i0, n)
              case None => value == None
              case Some(k) => HasFound(k, name, value)
    {
      ghost var target := NthFrom(ParseAll(Lines(file), name), i0, n);
      ghost var i: nat := i0;
      var left := n;
      while left > 0
        invariant At(i) && NthFrom(ParseAll(Lines(file), name), i, left) == target
      {
        var ok;
        ok, i := SkipOne(name, i, left);
        if !ok {
          return None;
        }
        left := left - 1;
      }
      NthStep(ParseAll(Lines(file), name), i, 0);
      assert VarFrom(ParseAll(Lines(file), name), i) == target;
      value := FindNext(name, i);
    }

    /** `findVariable` in a group: definition number `n`. */
    method FindVariable(group: string, name: string, n: nat) returns (value: Option<string>)
      modifies this`pos, this`line, this`valuePos, this`groupStart
      ensures match Locate(Lines(file), group, name, n)
              case None => value == None
              case Some(k) => HasFound(k, name, value)
    {
      valuePos := 0;
      var found := FindGroup(group);
      if !found {
        return None;
      }
      value := FindNth(name, n, GroupFrom(OpensAll(Lines(file), group), 0).value);
    }

    /** `GetVar` of a string. */
    method GetVar(group: string, name: string, size: nat, n: nat) returns (code: int, value: string)
      requires size > 0
      modifies this`pos, this`line, this`valuePos, this`groupStart
      ensures match Read(Lines(file), group, name, n)
              case None => code == 0 && value == []
              case Some(v) => (value, code) == Unquoted(v, size)
      ensures code == |value| || code == |value| + 1
      ensures code == 0 <==> match Read(Lines(file), group, name, n)
                             case None => true
                             case Some(v) => v == "\"" || v == "'" || (size == 1 && v != [])
    {
      var v := FindVariable(group, name, n);
      if v == None {
        return 0, [];
      }
      code, value := Unquote(v.value, size);
      CodeIs(v.value, size);
    }

    /** What `GetVar` does with the value found. */
    method Unquote(v: string, size: nat) returns (code: int, value: string)
      requires size > 0
      ensures (value, code) == Unquoted(v, size)
    {
      var s := v;
      if s == [] {
        return 1, [];
      }
      if s[0] == '"' || s[0] == '\'' {
        s := s[1..];
      }
      if |s| >= size {
        s := s[..size - 1];
      }
      code := |s|;
      if s != [] && (s[|s| - 1] == '"' || s[|s| - 1] == '\'') {
        s := s[..|s| - 1];
      }
      value := s;
    }

    /** `replaceValue`: equal lengths are overwritten, a shorter value is padded, a longer one moves the
        rest of the file. */
    method ReplaceValue(old_: string, val: string)
      requires valuePos + |old_| <= |file|
      modifies this`file
      ensures file == Replaced(old(file), valuePos, |old_|, val)
    {
      if |val| == |old_| {
        file := file[..valuePos] + val + file[valuePos + |val|..];
      } else if |val| < |old_| {
        var buffer := val + seq(|old_| - |val|, _ => ' ');
        file := file[..valuePos] + buffer + file[valuePos + |buffer|..];
      } else {
        var backup := file[valuePos + |old_|..];
        file := file[..valuePos] + val;
        file := file + backup;
      }
    }

    /** `SetVar` of an existing variable. */
    method SetVar(group: string, name: string, val: string, n: nat) returns (code: int)
      modifies this
      ensures match Locate(Lines(old(file)), group, name, n)
              case None => code == 0 && file == old(file)
              case Some(k) =>
                var p := PlaceOf(Lines(old(file)), k, name);
                var n := |Defined(Lines(old(file))[k], ParseAll(Lines(old(file)), name)[k])|;
                code == 1 && p + n <= |old(file)| && file == Replaced(old(file), p, n, val)
    {
      var v := FindVariable(group, name, n);
      if v == None {
        return 0;
      }
      ghost var k := Locate(Lines(file), group, name, n).value;
      FlatLines(file);
      SetIsSplice(file, Lines(file), k, name, val);
      ReplaceValue(v.value, val);
      code := 1;
    }

    /** `fbmove` towards the start of the file, up to its end. */
    method MoveToFront(to: nat, from: nat)
      requires to < from < |file|
      modifies this`file, this`pos
      ensures pos == to + |old(file)| - from
      ensures |file| == |old(file)| && file[..pos] == old(file)[..to] + old(file)[from..]
    {
      ghost var f := file;
      var left: nat := |file| - from;
      var w, r := to, from;
      while left > 0
        invariant r - w == from - to && w >= to && r <= |f| && left == |f| - r && |file| == |f|
        invariant forall i :: 0 <= i < to ==> file[i] == f[i]
        invariant forall i :: to <= i < w ==> file[i] == f[i - to + from]
        invariant forall i :: r <= i < |f| ==> file[i] == f[i]
        invariant left < |f| - from ==> pos == w
      {
        var n := Min(CHUNK, left);
        var buffer := file[r..r + n];
        file := file[..w] + buffer + file[w + n..];
        left := left - n;
        r := r + n;
        w := w + n;
        pos := w;
      }
    }

    /** The search back from the value for the end of the line before, or a bracket. */
    method ScanBack(p: nat) returns (lo: nat)
      requires p <= |file|
      modifies this`line
      ensures lo == BackTo(file, WindowStart(p), p)
    {
      var w := WindowStart(p);
      line := file[w..p];
      var it := |line|;
      while it != 0 && (it == |line| || (line[it] != '\n' && line[it] != ']'))
        invariant 0 <= it <= |line| && BackTo(file, w, p) == BackTo(file, w, w + Min(it + 1, |line|))
      {
        it := it - 1;
      }
      lo := if it < |line| && (line[it] == '\n' || line[it] == ']') then w + it + 1 else 0;
    }

    /** The search ahead from the value for the end of its line. */
    method ScanAhead(p: nat) returns (hi: nat)
      requires p < |file| && file[|file| - 1] == '\n'
      modifies this`line
      ensures hi == EraseRange(file, p).1 < |file|
    {
      line := file[p..Min(p + LINE_BUFFER, |file|)];
      var i := 0;
      while i < LINE_BUFFER && line[i] != '\n'
        invariant p + i <= Find(file, '\n', p) && i <= LINE_BUFFER
      {
        i := i + 1;
      }
      hi := p + i;
    }

    /** `DeleteVar` of definition number `n` in the first group of that name. */
    method DeleteVar(group: string, name: string, n: nat) returns (code: int)
      requires file == [] || file[|file| - 1] == '\n'
      modifies this
      ensures code == if GroupFrom(OpensAll(Lines(old(file)), group), 0) == None then 0 else 1
      ensures match Locate(Lines(old(file)), group, name, n)
              case None => file == old(file)
              case Some(k) =>
                var p := PlaceOf(Lines(old(file)), k, name);
                p <= |old(file)| && file == Deleted(old(file), p)
    {
      var found := FindGroup(group);
      if !found {
        return 0;
      }
      code := 1;
      var v := FindVariable(group, name, n);
      if v == None {
        return;
      }
      FoundInside(file, Locate(Lines(file), group, name, n).value, name);
      EraseHere();
    }

    /** The second half of `DeleteVar`: the line of the value found goes. */
    method EraseHere()
      requires 0 < valuePos < |file| && file[|file| - 1] == '\n'
      requires file[valuePos - 1] != '\n' && file[valuePos - 1] != ']'
      modifies this`file, this`pos, this`line
      ensures file == Deleted(old(file), valuePos)
    {
      var lo := ScanBack(valuePos);
      var hi := ScanAhead(valuePos);
      MoveToFront(lo, hi);
      file := file[..pos];
    }
  }

  lemma {:induction false} NewlineBefore(f: string, ls: seq<string>, k: nat)
    requires f == Flat(ls) && k < |ls| && (k > 0 ==> EndsLine(ls[k - 1]))
    ensures StartOf(ls, k) <= |f| && (StartOf(ls, k) > 0 ==> f[StartOf(ls, k) - 1] == '\n')
  {
    LineInFile(f, ls, k);
    if k > 0 {
      LineInFile(f, ls, k - 1);
      StartOfNext(ls, k - 1);
      assert f[StartOf(ls, k - 1) + (|ls[k - 1]| - 1)] == '\n';
    } else {
      assert ls[..0] == [];
    }
  }

  /** A line that `DeleteVar` erases up to its end for a value at `v`, back to a bracket if there is one. */
  predicate Erased(a: string, v: nat) {
    Whole(a) && EndsLine(a) && 0 < v <= |a| && a[v - 1] != '\n'
  }

  lemma {:induction false} LineErased(f: string, ls: seq<string>, k: nat, v: nat)
    requires f == Flat(ls) && k < |ls| && Erased(ls[k], v) && (k > 0 ==> EndsLine(ls[k - 1]))
    ensures StartOf(ls, k) + |ls[k]| <= |f|
    ensures EraseRange(f, StartOf(ls, k) + v).0 == StartOf(ls, k) + BehindBracket(ls[k], v)
    ensures EraseRange(f, StartOf(ls, k) + v).1 == StartOf(ls, k) + |ls[k]| - 1
  {
    LineInFile(f, ls, k);
    NewlineBefore(f, ls, k);
    LineRange(f, StartOf(ls, k), ls[k], v);
  }

  /** A definition whose line ends with a newline, as does the one before it. */
  predicate Erasable(ls: seq<string>, k: nat, name: string) {
    && k < |ls| && ParseAll(ls, name)[k].Definition? && ParseAll(ls, name)[k].Fits(|ls[k]|)
    && EndsLine(ls[k]) && (k > 0 ==> EndsLine(ls[k - 1]))
  }

  lemma {:induction false} DeletedIs(f: string, p: nat, lo: nat, hi: nat)
    requires p <= |f| && EraseRange(f, p).0 == lo && EraseRange(f, p).1 == hi
    ensures lo <= hi <= |f| && Deleted(f, p) == f[..lo] + f[hi..]
  {
  }

  lemma CutLeaves(f: string, ls: seq<string>, k: nat, r: nat, g: string, t: string)
    requires f == Flat(ls) && Good(ls) && k < |ls| && EndsLine(ls[k]) && r < |ls[k]|
    requires StartOf(ls, k) + |ls[k]| <= |f| && g == f[..StartOf(ls, k) + r] + f[StartOf(ls, k) + |ls[k]| - 1..]
    requires t == ls[k][..r] + "\n"
    ensures Lines(g) == ls[k := t]
  {
    CutInFile(f, ls, k, r);
  }

  lemma ErasedLeaves(f: string, ls: seq<string>, k: nat, v: nat, p: nat)
    requires f == Flat(ls) && k < |ls| && Erased(ls[k], v) && (k > 0 ==> EndsLine(ls[k - 1]))
    requires p == StartOf(ls, k) + v
    ensures StartOf(ls, k) + |ls[k]| <= |f| && BehindBracket(ls[k], v) < |ls[k]|
    ensures Deleted(f, p) == f[..StartOf(ls, k) + BehindBracket(ls[k], v)] + f[StartOf(ls, k) + |ls[k]| - 1..]
  {
    LineErased(f, ls, k, v);
    DeletedIs(f, p, StartOf(ls, k) + BehindBracket(ls[k], v), StartOf(ls, k) + |ls[k]| - 1);
  }

  lemma {:induction false} ErasedIsCut(f: string, ls: seq<string>, k: nat, v: nat, p: nat)
    requires f == Flat(ls) && Good(ls) && k < |ls| && Erased(ls[k], v) && (k > 0 ==> EndsLine(ls[k - 1]))
    requires p == StartOf(ls, k) + v
    ensures p <= |f| && Lines(Deleted(f, p)) == ls[k := Remnant(ls[k], v)]
  {
    ErasedLeaves(f, ls, k, v, p);
    CutLeaves(f, ls, k, BehindBracket(ls[k], v), Deleted(f, p), Remnant(ls[k], v));
  }

  /** Deleting such a definition leaves of its line what stands up to the last bracket in front of the
      value, which is a blank line if there is none. */
  lemma {:induction false} DeletingCutsTheLine(f: string, ls: seq<string>, k: nat, name: string)
    requires f == Flat(ls) && Good(ls) && Erasable(ls, k, name)
    ensures PlaceOf(ls, k, name) <= |f|
    ensures Lines(Deleted(f, PlaceOf(ls, k, name))) == ls[k := Remnant(ls[k], ParseAll(ls, name)[k].start)]
  {
    ErasableIsErased(ls, k, name);
    ErasedIsCut(f, ls, k, ParseAll(ls, name)[k].start, PlaceOf(ls, k, name));
  }

  /** So, for a name without an `=`, everything is read as if the line were blank: later definitions of
      the variable move up by one, and all others stay as they are (see `DeletedMovesUp` and
      `DeletedLeavesOthers`). */
  lemma {:induction false} DeletingBlanksTheLine(f: string, ls: seq<string>, k: nat, name: string,
                                                 group: string, other: string, n: nat)
    requires f == Flat(ls) && Good(ls) && Erasable(ls, k, name) && '=' !in name
    ensures PlaceOf(ls, k, name) <= |f|
    ensures Read(Lines(Deleted(f, PlaceOf(ls, k, name))), group, other, n) == Read(ls[k := "\n"], group, other, n)
  {
    DeletingCutsTheLine(f, ls, k, name);
    RemnantIsIdle(ls, k, name);
    ActsBlank(ls, k, Remnant(ls[k], ParseAll(ls, name)[k].start), group, other, n);
  }

  lemma {:induction false} ErasableIsErased(ls: seq<string>, k: nat, name: string)
    requires Good(ls) && Erasable(ls, k, name)
    ensures Erased(ls[k], ParseAll(ls, name)[k].start)
  {
    ParseAllAt(ls, name, k);
    StartIsBehindName(ls[k], name);
  }

  lemma {:induction false} LineRange(f: string, s: nat, a: string, v: nat)
    requires Erased(a, v) && s + |a| <= |f| && forall i :: 0 <= i < |a| ==> f[s + i] == a[i]
    requires s > 0 ==> f[s - 1] == '\n'
    ensures EraseRange(f, s + v).0 == s + BehindBracket(a, v) && EraseRange(f, s + v).1 == s + |a| - 1
  {
    assert v < |a|;
    var r := BehindBracket(a, v);
    assert f[s + (|a| - 1)] == '\n';
    forall i | s <= i < s + |a| - 1 ensures f[i] != '\n' && (s + r <= i < s + v ==> f[i] != ']') {
      assert f[s + (i - s)] == a[i - s];
    }
    assert Find(f, '\n', s + v) == s + |a| - 1;
    assert r > 0 ==> f[s + (r - 1)] == ']';
    BackToLine(f, WindowStart(s + v), s + r, s + v);
  }

  lemma {:induction false} BackToLine(f: string, lo: nat, x: nat, p: nat)
    requires lo <= x <= p <= |f| && (x == 0 || (lo < x && (f[x - 1] == '\n' || f[x - 1] == ']')))
    requires forall i :: x <= i < p ==> f[i] != '\n' && f[i] != ']'
    ensures BackTo(f, lo, p) == x
  {
    if p > x {
      BackToLine(f, lo, x, p - 1);
    }
  }
}
