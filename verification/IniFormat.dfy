/** The format of an INI file, spelled out: which characters are white space, what a header, a definition
    and a value look like, which line a search finds, and what `GetVar` hands out and returns. */
module IniFormat {
  import opened Basics
  import opened IniText
  import opened IniSearch

  /** Tab, newline, vertical tab, form feed, carriage return, and the blank. */
  predicate White(c: char) {
    c as int == 32 || 9 <= c as int <= 13
  }

  predicate AllWhite(s: string, lo: nat, hi: nat)
    requires lo <= hi <= |s|
  {
    forall j :: lo <= j < hi ==> White(s[j])
  }

  /** The same character, or the same letter in the other case. */
  predicate SameLetter(a: char, b: char) {
    || a == b
    || (65 <= a as int <= 90 && b as int == a as int + 32)
    || (65 <= b as int <= 90 && a as int == b as int + 32)
  }

  /** `name` stands at `i`, and nothing but white space before it. */
  predicate NameComesAt(s: string, lo: nat, i: nat, name: string) {
    && lo <= i && i + |name| <= |s| && AllWhite(s, lo, i) && (i < |s| ==> !White(s[i]))
    && forall j :: 0 <= j < |name| ==> SameLetter(name[j], s[i + j])
  }

  lemma SkipIs(s: string, lo: nat, k: nat)
    requires lo <= k <= |s|
    ensures Skip(s, lo) == k <==> AllWhite(s, lo, k) && (k < |s| ==> !White(s[k]))
  {
    var m := Skip(s, lo);
    assert m < |s| ==> !White(s[m]);
    assert k < m ==> White(s[k]);
  }

  lemma NameAtIs(s: string, i: nat, name: string)
    requires i + |name| <= |s|
    ensures NameAt(s, i, name) <==> forall j :: 0 <= j < |name| ==> SameLetter(name[j], s[i + j])
  {
    forall j | 0 <= j < |name| ensures Lower(name[j]) == Lower(s[i + j]) <==> SameLetter(name[j], s[i + j]) {
      LowerIs(name[j], s[i + j]);
    }
  }

  lemma LowerIs(a: char, b: char)
    ensures Lower(a) == Lower(b) <==> SameLetter(a, b)
  {
  }

  /** The first line of a file ends behind the first newline, after 255 characters, or with the file. */
  lemma FirstLineIs(f: string, n: nat)
    requires 0 < n <= |f| && n <= 255 && (forall j :: 0 <= j < n - 1 ==> f[j] != '\n')
    requires f[n - 1] == '\n' || n == 255 || n == |f|
    ensures Lines(f) == [f[..n]] + Lines(f[n..])
  {
    var e := Find(f, '\n', 0);
    assert e >= n - 1 && (f[n - 1] == '\n' ==> e == n - 1);
  }

  /** A header: the first characters that are no white space are a bracket, the group's name and the
      closing bracket. */
  predicate HeaderAt(line: string, group: string, i: nat, j: nat, k: nat) {
    && i < j <= k < |line|
    && AllWhite(line, 0, i) && line[i] == '['
    && NameComesAt(line, i + 1, j, group)
    && j + |group| <= k && AllWhite(line, j + |group|, k) && line[k] == ']'
  }

  lemma HeaderIs(line: string, group: string)
    ensures OpensGroup(line, group) <==> exists i: nat, j: nat, k: nat :: HeaderAt(line, group, i, j, k)
  {
    if OpensGroup(line, group) {
      var i := Skip(line, 0);
      var j := Skip(line, i + 1);
      NameAtIs(line, j, group);
      assert HeaderAt(line, group, i, j, Skip(line, j + |group|));
    }
    forall i: nat, j: nat, k: nat | HeaderAt(line, group, i, j, k) ensures OpensGroup(line, group) {
      HeaderOpens(line, group, i, j, k);
    }
  }

  lemma HeaderOpens(line: string, group: string, i: nat, j: nat, k: nat)
    requires HeaderAt(line, group, i, j, k)
    ensures OpensGroup(line, group)
  {
    SkipIs(line, 0, i);
    SkipIs(line, i + 1, j);
    NameAtIs(line, j, group);
    SkipIs(line, j + |group|, k);
  }

  lemma EntityIs(line: string)
    ensures IsEntity(line) <==>
              exists i :: 0 <= i < |line| && (line[i] == '[' || line[i] == '<') && AllWhite(line, 0, i)
  {
    var m := Skip(line, 0);
    assert AllWhite(line, 0, m);
    forall i | 0 <= i < |line| && (line[i] == '[' || line[i] == '<') && AllWhite(line, 0, i) ensures m == i {
      SkipIs(line, 0, i);
    }
  }

  /** A definition: the first characters that are no white space are the name and, behind it, the `=`. */
  predicate DefinesAt(line: string, name: string, i: nat, q: nat) {
    && NameComesAt(line, 0, i, name)
    && i + |name| <= q < |line| && AllWhite(line, i + |name|, q) && line[q] == '='
  }

  lemma DefinitionIs(line: string, name: string, q: nat)
    ensures EqualsOf(line, name) == Some(q) <==> exists i: nat :: DefinesAt(line, name, i, q)
  {
    if EqualsOf(line, name) == Some(q) {
      var i := Skip(line, 0);
      NameAtIs(line, i, name);
      assert DefinesAt(line, name, i, q);
    }
    forall i: nat | DefinesAt(line, name, i, q) ensures EqualsOf(line, name) == Some(q) {
      SkipIs(line, 0, i);
      NameAtIs(line, i, name);
      SkipIs(line, i + |name|, q);
    }
  }

  /** White space that leads from the `=` to the value: the end of the line is none. */
  predicate Leads(line: string, q: nat, v: nat)
    requires q < v <= |line|
  {
    && (forall j :: q < j < v ==> White(line[j]) && line[j] != '\n' && line[j] != '\r')
    && (v < |line| && White(line[v]) ==> line[v] == '\n' || line[v] == '\r')
  }

  lemma ValueStartIs(line: string, q: nat, v: nat)
    requires q < v <= |line|
    ensures ValueStart(line, q) == v <==> Leads(line, q, v)
  {
    var m := SkipInline(line, q + 1);
    assert m < |line| ==> !IsBlank(line[m]);
    assert v < m ==> IsBlank(line[v]);
  }

  /** A value that begins with a quote mark ends behind the next one of its kind, and at the end of the
      line if there is none. */
  lemma QuotedValue(line: string, v: nat, m: nat)
    requires v < m <= |line| && (line[v] == '"' || line[v] == '\'')
    requires forall j :: v < j < m ==> line[j] != line[v]
    requires m < |line| ==> line[m] == line[v]
    ensures ValueFrom(line, v) == if m < |line| then line[v..m + 1] else line[v..]
  {
    assert Find(line, line[v], v + 1) == m;
  }

  /** Any other value ends before the first line end or `#`, and before the white space in front of it;
      at the end of the line, white space included, if there is none. */
  lemma UnquotedValue(line: string, v: nat, e: nat, st: nat)
    requires v <= e <= st <= |line| && (v < |line| ==> line[v] != '"' && line[v] != '\'')
    requires forall j :: v <= j < st ==> line[j] != '\n' && line[j] != '\r' && line[j] != '#'
    requires st < |line| ==> line[st] == '\n' || line[st] == '\r' || line[st] == '#'
    requires AllWhite(line, e, st) && (e > v ==> !White(line[e - 1]))
    ensures ValueFrom(line, v) == if st < |line| then line[v..e] else line[v..]
  {
    assert FindStop(line, v) == st;
    if st < |line| {
      var b := TrimBack(line, v, st);
      assert b > v ==> !IsSpace(line[b - 1]);
      assert e > v ==> !IsSpace(line[e - 1]);
    }
  }

  /** The text behind an opening quote mark. */
  function Opened(v: string): string {
    if v != [] && (v[0] == '"' || v[0] == '\'') then v[1..] else v
  }

  /** `GetVar` copies the text behind an opening quote mark, as much of it as fits, returns the length of
      that, and then takes a quote mark off its end; for an empty value it returns 1. */
  lemma HandsOut(v: string, size: nat)
    requires size > 0
    ensures v == [] ==> Unquoted(v, size) == ([], 1)
    ensures v != [] ==>
              var n := Min(|Opened(v)|, size - 1);
              && Unquoted(v, size).1 == n
              && Unquoted(v, size).0 == Opened(v)[..if n > 0 && (Opened(v)[n - 1] == '"' || Opened(v)[n - 1] == '\'') then n - 1 else n]
  {
    var t := Opened(v);
    assert |t| < size ==> t[..|t|] == t;
  }

  /** The code in terms of the text handed out: 0 for a lone quote mark and in a buffer that holds no
      character, else the length of the text, and one more exactly if the text copied ended in a quote
      mark or the value is empty. */
  lemma CodeIs(v: string, size: nat)
    requires size > 0
    ensures Unquoted(v, size).1 == 0 <==> v == "\"" || v == "'" || (size == 1 && v != [])
    ensures Unquoted(v, size).1 == |Unquoted(v, size).0|
         || Unquoted(v, size).1 == |Unquoted(v, size).0| + 1
    ensures Unquoted(v, size).1 == |Unquoted(v, size).0| + 1 <==>
              v == [] || (exists c :: (c == '"' || c == '\'') && Unquoted(v, size).0 + [c] <= Opened(v)
                                      && |Unquoted(v, size).0| + 1 == Min(|Opened(v)|, size - 1))
  {
    HandsOut(v, size);
    if v != [] {
      var t, r := Opened(v), Unquoted(v, size);
      var n := Min(|t|, size - 1);
      if r.1 == |r.0| + 1 {
        assert r.0 + [t[n - 1]] == t[..n];
      }
      forall c | (c == '"' || c == '\'') && r.0 + [c] <= t && |r.0| + 1 == n ensures r.1 == |r.0| + 1 {
      }
      assert |v| == 1 && t == [] ==> v == [v[0]];
    }
  }

  lemma PartsAt(line: string, v: nat, t: string, pad: string, stop: char, rest: string)
    requires v <= |line| && line[v..] == t + pad + [stop] + rest
    ensures v + |t| + |pad| < |line| && line[v + |t| + |pad|] == stop
    ensures forall j :: v <= j < v + |t| ==> line[j] == t[j - v]
    ensures forall j :: v + |t| <= j < v + |t| + |pad| ==> line[j] == pad[j - v - |t|]
  {
    var s := line[v..];
    assert |s| == |t| + |pad| + 1 + |rest|;
    assert forall j :: v <= j < |line| ==> line[j] == s[j - v];
  }

  lemma QuotedHandsOut(t: string, c: char, size: nat)
    requires c == '"' || c == '\''
    requires '"' !in t && '\'' !in t && |t| + 1 < size
    ensures Unquoted([c] + t + [c], size) == (t, |t| + 1)
  {
    HandsOut([c] + t + [c], size);
    assert Opened([c] + t + [c]) == t + [c];
    assert (t + [c])[..|t|] == t;
  }

  /** A quoted text without quote marks reads as that text: `name="t"` behind any leading white space,
      whatever follows on the line. */
  lemma QuotedReads(line: string, name: string, i: nat, q: nat, v: nat, t: string, c: char, rest: string, size: nat)
    requires c == '"' || c == '\''
    requires '"' !in t && '\'' !in t && |t| + 1 < size
    requires DefinesAt(line, name, i, q) && !IsEntity(line) && q < v <= |line| && Leads(line, q, v)
    requires line[v..] == [c] + t + [c] + rest
    ensures Parse(line, name).Definition? && Defined(line, Parse(line, name)) == [c] + t + [c]
    ensures Unquoted(Defined(line, Parse(line, name)), size) == (t, |t| + 1)
  {
    DefinitionIs(line, name, q);
    ValueStartIs(line, q, v);
    assert [c] + t + [c] + rest == ([c] + t) + [] + [c] + rest;
    PartsAt(line, v, [c] + t, [], c, rest);
    var m := v + |t| + 1;
    QuotedValue(line, v, m);
    assert line[v..m + 1] == [c] + t + [c];
    QuotedHandsOut(t, c, size);
  }

  /** So does a text without quotes, between white space and a line end or a comment. */
  lemma PlainReads(line: string, name: string, i: nat, q: nat, v: nat, t: string, pad: string, stop: char, rest: string, size: nat)
    requires stop == '\n' || stop == '\r' || stop == '#'
    requires forall j :: 0 <= j < |t| ==> t[j] != '"' && t[j] != '\'' && t[j] != '\n' && t[j] != '\r' && t[j] != '#'
    requires forall j :: 0 <= j < |pad| ==> White(pad[j]) && pad[j] != '\n' && pad[j] != '\r'
    requires t != [] ==> !White(t[|t| - 1])
    requires |t| < size
    requires DefinesAt(line, name, i, q) && !IsEntity(line) && q < v <= |line| && Leads(line, q, v)
    requires line[v..] == t + pad + [stop] + rest
    ensures Parse(line, name).Definition? && Defined(line, Parse(line, name)) == t
    ensures Unquoted(t, size) == (t, if t == [] then 1 else |t|)
  {
    DefinitionIs(line, name, q);
    ValueStartIs(line, q, v);
    var e := v + |t|;
    var st := e + |pad|;
    PartsAt(line, v, t, pad, stop, rest);
    UnquotedValue(line, v, e, st);
    assert line[v..e] == t;
    HandsOut(t, size);
    assert t[..|t|] == t;
  }

  /** How many of the lines define the variable. */
  function Count(ps: seq<Parsed>): nat {
    if ps == [] then 0 else (if ps[0].Definition? then 1 else 0) + Count(ps[1..])
  }

  lemma {:induction false} GroupFromIs(gs: seq<bool>, i: nat, g: nat)
    requires i <= |gs|
    ensures GroupFrom(gs, i) == Some(g + 1) <==> i <= g < |gs| && gs[g] && forall j :: i <= j < g ==> !gs[j]
    decreases |gs| - i
  {
    if i < |gs| {
      GroupFromIs(gs, i + 1, g);
    }
  }

  lemma {:induction false} NthFromNext(ps: seq<Parsed>, i: nat, n: nat)
    requires i < |ps| && !ps[i].Entity?
    ensures NthFrom(ps, i, n) == if !ps[i].Definition? then NthFrom(ps, i + 1, n)
                                 else if n == 0 then Some(i)
                                 else NthFrom(ps, i + 1, n - 1)
  {
  }

  lemma {:induction false} NthFromIs(ps: seq<Parsed>, i: nat, n: nat, k: nat)
    requires i <= |ps|
    ensures NthFrom(ps, i, n) == Some(k) <==>
              i <= k < |ps| && ps[k].Definition? && (forall j :: i <= j < k ==> !ps[j].Entity?) && Count(ps[i..k]) == n
    decreases |ps| - i
  {
    if i < |ps| && !ps[i].Entity? {
      NthFromNext(ps, i, n);
      if i < k <= |ps| {
        assert ps[i..k][1..] == ps[i + 1..k];
      }
      if !ps[i].Definition? {
        NthFromIs(ps, i + 1, n, k);
      } else if n > 0 {
        NthFromIs(ps, i + 1, n - 1, k);
      }
    }
  }

  /** Line `k` is the one that is searched for, in the group that line `g` opens. */
  predicate Found(ls: seq<string>, group: string, name: string, n: nat, g: nat, k: nat) {
    && g < k < |ls|
    && OpensGroup(ls[g], group) && (forall j :: 0 <= j < g ==> !OpensGroup(ls[j], group))
    && (forall j :: g < j <= k ==> !IsEntity(ls[j]))
    && EqualsOf(ls[k], name).Some?
    && Count(ParseAll(ls, name)[g + 1..k]) == n
  }

  lemma FoundIs(ls: seq<string>, group: string, name: string, n: nat, g: nat, k: nat)
    ensures Found(ls, group, name, n, g, k) <==>
              GroupFrom(OpensAll(ls, group), 0) == Some(g + 1) && NthFrom(ParseAll(ls, name), g + 1, n) == Some(k)
  {
    FirstHeaderIs(ls, group, g);
    if g < |ls| {
      InGroupIs(ls, name, n, g + 1, k);
    }
  }

  lemma FirstHeaderIs(ls: seq<string>, group: string, g: nat)
    ensures GroupFrom(OpensAll(ls, group), 0) == Some(g + 1) <==>
              g < |ls| && OpensGroup(ls[g], group) && forall j :: 0 <= j < g ==> !OpensGroup(ls[j], group)
  {
    var gs := OpensAll(ls, group);
    forall j: nat | j < |ls| ensures gs[j] == OpensGroup(ls[j], group) {
      OpensAllAt(ls, group, j);
    }
    GroupFromIs(gs, 0, g);
  }

  lemma InGroupIs(ls: seq<string>, name: string, n: nat, i: nat, k: nat)
    requires i <= |ls|
    ensures NthFrom(ParseAll(ls, name), i, n) == Some(k) <==>
              && i <= k < |ls| && (forall j :: i <= j <= k ==> !IsEntity(ls[j])) && EqualsOf(ls[k], name).Some?
              && Count(ParseAll(ls, name)[i..k]) == n
  {
    var ps := ParseAll(ls, name);
    forall j: nat | j < |ls|
      ensures ps[j].Entity? == IsEntity(ls[j]) && ps[j].Definition? == (!IsEntity(ls[j]) && EqualsOf(ls[j], name).Some?)
    {
      ParseAllAt(ls, name, j);
    }
    NthFromIs(ps, i, n, k);
  }

  /** The search finds the definition with `n` others before it, behind the first header of the group and
      before the next header of any kind; and nothing if there is none. */
  lemma LocateIs(ls: seq<string>, group: string, name: string, n: nat, k: nat)
    ensures Locate(ls, group, name, n) == Some(k) <==> exists g: nat :: Found(ls, group, name, n, g, k)
  {
    var r := GroupFrom(OpensAll(ls, group), 0);
    if r.Some? {
      FoundIs(ls, group, name, n, r.value - 1, k);
    }
    forall g: nat | Found(ls, group, name, n, g, k) ensures r == Some(g + 1) {
      FoundIs(ls, group, name, n, g, k);
    }
  }
}
