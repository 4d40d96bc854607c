/** The text of an INI file as `CIniParser` of AccessNode/Shared/IniParser.cpp reads it: lines as
    `fgets` cuts them, group headers, variables and values. */
module IniText {
  import opened Basics

  const MAX_LINE: nat := 255

  predicate IsSpace(c: char) {
    c == ' ' || '\t' <= c <= '\r'
  }

  predicate IsEol(c: char) {
    c == '\n' || c == '\r'
  }

  predicate IsQuote(c: char) {
    c == '"' || c == '\''
  }

  /** Where the text of an unquoted value stops. */
  predicate IsStop(c: char) {
    IsEol(c) || c == '#'
  }

  /** The first place at or behind `i` that holds no white space. */
  function Skip(s: string, i: nat): (k: nat)
    requires i <= |s|
    ensures i <= k <= |s| && (k < |s| ==> !IsSpace(s[k])) && forall j :: i <= j < k ==> IsSpace(s[j])
    decreases |s| - i
  {
    if i == |s| || !IsSpace(s[i]) then i else Skip(s, i + 1)
  }

  predicate IsBlank(c: char) {
    IsSpace(c) && !IsEol(c)
  }

  /** The same, without crossing the end of the line. */
  function SkipInline(s: string, i: nat): (k: nat)
    requires i <= |s|
    ensures i <= k <= |s| && (k < |s| ==> !IsBlank(s[k])) && forall j :: i <= j < k ==> IsBlank(s[j])
    decreases |s| - i
  {
    if i == |s| || !IsBlank(s[i]) then i else SkipInline(s, i + 1)
  }

  /** The end of `s[lo..hi]` without its trailing white space. */
  function TrimBack(s: string, lo: nat, hi: nat): (k: nat)
    requires lo <= hi <= |s|
    ensures lo <= k <= hi && (k > lo ==> !IsSpace(s[k - 1])) && forall j :: k <= j < hi ==> IsSpace(s[j])
  {
    if hi == lo || !IsSpace(s[hi - 1]) then hi else TrimBack(s, lo, hi - 1)
  }

  function Lower(c: char): char {
    if 'A' <= c <= 'Z' then c + 32 as char else c
  }

  /** `strnicmp` over the length of the name. */
  predicate NameAt(s: string, i: nat, name: string) {
    i + |name| <= |s| && forall j :: 0 <= j < |name| ==> Lower(name[j]) == Lower(s[i + j])
  }

  /** A line that opens a group or a subgroup. */
  predicate IsEntity(line: string) {
    var i := Skip(line, 0);
    i < |line| && (line[i] == '[' || line[i] == '<')
  }

  /** A line of the form `[ group ]`. */
  predicate OpensGroup(line: string, group: string) {
    var i := Skip(line, 0);
    && i < |line| && line[i] == '['
    && var j := Skip(line, i + 1);
       && NameAt(line, j, group)
       && var k := Skip(line, j + |group|);
          k < |line| && line[k] == ']'
  }

  /** The place of the `=` in a line of the form `name = value`. */
  function EqualsOf(line: string, name: string): (r: Option<nat>)
    ensures r.Some? ==> r.value < |line| && line[r.value] == '='
  {
    var i := Skip(line, 0);
    if !NameAt(line, i, name) then None
    else
      var k := Skip(line, i + |name|);
      if k < |line| && line[k] == '=' then Some(k) else None
  }

  /** The first place at or behind `i` where `c` stands. */
  function Find(s: string, c: char, i: nat): (k: nat)
    requires i <= |s|
    ensures i <= k <= |s| && (k < |s| ==> s[k] == c) && forall j :: i <= j < k ==> s[j] != c
    decreases |s| - i
  {
    if i == |s| || s[i] == c then i else Find(s, c, i + 1)
  }

  function FindStop(s: string, i: nat): (k: nat)
    requires i <= |s|
    ensures i <= k <= |s| && (k < |s| ==> IsStop(s[k])) && forall j :: i <= j < k ==> !IsStop(s[j])
    decreases |s| - i
  {
    if i == |s| || IsStop(s[i]) then i else FindStop(s, i + 1)
  }

  /** The end of the value that begins at `v`.  A quote that is not closed takes the rest of the line,
      its end included; so does a value that nothing stops. */
  function ValueEnd(line: string, v: nat): (e: nat)
    requires v <= |line|
    ensures v <= e <= |line|
  {
    if v < |line| && IsQuote(line[v]) then
      var e := Find(line, line[v], v + 1);
      if e == |line| then e else TrimBack(line, v, e + 1)
    else
      var e := FindStop(line, v);
      if e == |line| then e else TrimBack(line, v, e)
  }

  /** Where the value in a line begins whose `=` stands at `q`. */
  function ValueStart(line: string, q: nat): (v: nat)
    requires q < |line|
    ensures q < v <= |line|
  {
    SkipInline(line, q + 1)
  }

  /** The value that begins at `v`. */
  function ValueFrom(line: string, v: nat): string
    requires v <= |line|
  {
    line[v..ValueEnd(line, v)]
  }

  /** The value in a line whose `=` stands at `q`. */
  function ValueAt(line: string, q: nat): string
    requires q < |line|
  {
    ValueFrom(line, ValueStart(line, q))
  }

  /** The text without a quote mark at its end. */
  function Strip(u: string): string {
    if u != [] && IsQuote(u[|u| - 1]) then u[..|u| - 1] else u
  }

  /** The value as `GetVar` hands it out in a buffer of `size` characters: without its quotes, cut to
      fit; and the length it returns. */
  function Unquoted(v: string, size: nat): (string, int)
    requires size > 0
  {
    if v == [] then ([], 1)
    else
      var t := if IsQuote(v[0]) then v[1..] else v;
      var u := if |t| < size then t else t[..size - 1];
      (Strip(u), |u|)
  }

  /** What one line is to a search for a name; a definition has its `=` at `eq` and its value at
      `start..end`. */
  datatype Parsed = Entity | Other | Definition(eq: nat, start: nat, end: nat) {
    predicate Fits(n: nat) {
      Definition? ==> eq < start <= end <= n
    }
  }

  function Parse(line: string, name: string): (p: Parsed)
    ensures p.Fits(|line|) && (p.Definition? ==> line[p.eq] == '=')
  {
    if IsEntity(line) then Entity
    else
      match EqualsOf(line, name)
      case None => Other
      case Some(q) => Definition(q, ValueStart(line, q), ValueEnd(line, ValueStart(line, q)))
  }

  /** The length of the line that `fgets` reads. */
  function LineLength(f: string): (n: nat)
    requires f != []
    ensures 0 < n <= |f| && n <= MAX_LINE
    ensures forall i :: 0 <= i < n - 1 ==> f[i] != '\n'
    ensures n == |f| || n == MAX_LINE || f[n - 1] == '\n'
  {
    var e := Find(f, '\n', 0);
    var n := if e == |f| then e else e + 1;
    if n > MAX_LINE then MAX_LINE else n
  }

  /** The lines of a file, as `fgets` cuts them. */
  function Lines(f: string): (ls: seq<string>)
    decreases |f|
  {
    if f == [] then [] else [f[..LineLength(f)]] + Lines(f[LineLength(f)..])
  }

  function Flat(ls: seq<string>): string {
    if ls == [] then [] else ls[0] + Flat(ls[1..])
  }

  lemma {:induction false} FlatLines(f: string)
    ensures Flat(Lines(f)) == f
    decreases |f|
  {
    if f != [] {
      FlatLines(f[LineLength(f)..]);
      assert f == f[..LineLength(f)] + f[LineLength(f)..];
    }
  }

  lemma {:induction false} FlatAppend(a: seq<string>, b: seq<string>)
    ensures Flat(a + b) == Flat(a) + Flat(b)
  {
    if a == [] {
      assert a + b == b;
    } else {
      FlatAppend(a[1..], b);
      assert (a + b)[1..] == a[1..] + b;
      assert a[0] + (Flat(a[1..]) + Flat(b)) == a[0] + Flat(a[1..]) + Flat(b);
    }
  }

  /** A line that `fgets` reads as one: nothing behind its end, and not too long. */
  predicate Whole(line: string) {
    0 < |line| <= MAX_LINE && forall i :: 0 <= i < |line| - 1 ==> line[i] != '\n'
  }

  predicate EndsLine(a: string) {
    a != [] && a[|a| - 1] == '\n'
  }

  predicate Ended(line: string) {
    line != [] && (line[|line| - 1] == '\n' || |line| == MAX_LINE)
  }

  /** Lines that `fgets` gives back as they are: only the last may want its end. */
  predicate Good(ls: seq<string>) {
    forall i :: 0 <= i < |ls| ==> Whole(ls[i]) && (i < |ls| - 1 ==> Ended(ls[i]))
  }

  lemma {:induction false} FirstLine(line: string, rest: string)
    requires Whole(line) && (rest == [] || Ended(line))
    ensures LineLength(line + rest) == |line|
    ensures (line + rest)[..|line|] == line && (line + rest)[|line|..] == rest
  {
    var f := line + rest;
    var n := LineLength(f);
    assert f[..|line|] == line && f[|line|..] == rest;
    assert forall i :: 0 <= i < |line| ==> f[i] == line[i];
  }

  lemma {:induction false} LinesOfFlat(ls: seq<string>)
    requires Good(ls)
    ensures Lines(Flat(ls)) == ls
  {
    if ls != [] {
      assert Whole(ls[0]);
      assert Good(ls[1..]) by {
        assert forall i :: 0 <= i < |ls[1..]| ==> ls[1..][i] == ls[i + 1];
      }
      LinesOfFlat(ls[1..]);
      if |ls| == 1 {
        assert Flat(ls[1..]) == [];
      } else {
        assert Ended(ls[0]);
      }
      FirstLine(ls[0], Flat(ls[1..]));
    }
  }

  lemma {:induction false} LinesAreGood(f: string)
    ensures Good(Lines(f))
    decreases |f|
  {
    if f != [] {
      var n := LineLength(f);
      LinesAreGood(f[n..]);
      var rest := Lines(f[n..]);
      assert Lines(f) == [f[..n]] + rest;
      assert Whole(f[..n]);
      assert rest != [] ==> Ended(f[..n]);
    }
  }

  /** Two lines with the same text up to an `=` at `q`. */
  predicate SameUpTo(a: string, b: string, q: nat) {
    q < |a| && q < |b| && a[q] == '=' && forall i {:trigger b[i]} :: 0 <= i <= q ==> a[i] == b[i]
  }

  lemma {:induction false} SkipSame(a: string, b: string, q: nat, i: nat)
    requires SameUpTo(a, b, q) && i <= q
    ensures Skip(a, i) == Skip(b, i) <= q
    decreases q - i
  {
    if IsSpace(a[i]) {
      SkipSame(a, b, q, i + 1);
    }
  }

  lemma {:induction false} NameEndsBefore(s: string, i: nat, name: string, q: nat)
    requires i <= q < |s| && s[q] == '=' && '=' !in name && i + |name| > q
    ensures !NameAt(s, i, name)
  {
    assert name[q - i] in name;
    assert Lower(name[q - i]) != Lower(s[i + (q - i)]);
  }

  lemma {:induction false} NameSame(a: string, b: string, q: nat, i: nat, name: string)
    requires SameUpTo(a, b, q) && i + |name| <= q
    ensures NameAt(a, i, name) == NameAt(b, i, name)
  {
  }

  /** What kind of line it is shows before the `=`, unless the name asked for has an `=` itself. */
  lemma {:induction false} KindShowsEarly(a: string, b: string, q: nat, name: string)
    requires SameUpTo(a, b, q) && ('=' !in name || EqualsOf(a, name) == Some(q))
    ensures IsEntity(a) == IsEntity(b)
    ensures EqualsOf(a, name) == EqualsOf(b, name)
    ensures '=' !in name && EqualsOf(a, name).Some? ==> EqualsOf(a, name).value <= q
  {
    SkipSame(a, b, q, 0);
    var i := Skip(a, 0);
    if i + |name| <= q {
      NameSame(a, b, q, i, name);
      SkipSame(a, b, q, i + |name|);
    } else {
      NameEndsBefore(a, i, name, q);
      NameEndsBefore(b, i, name, q);
    }
  }

  lemma {:induction false} GroupShowsEarly(a: string, b: string, q: nat, group: string)
    requires SameUpTo(a, b, q) && !IsEntity(a)
    ensures !OpensGroup(a, group) && !OpensGroup(b, group)
  {
    SkipSame(a, b, q, 0);
  }
}
