/** What setting one value of an INI file does to it and to every other variable. */
module IniEdits {
  import opened Basics
  import opened IniText
  import opened IniSearch

  function Blanks(n: int): (s: string)
    ensures |s| == if n > 0 then n else 0
    ensures forall i :: 0 <= i < |s| ==> s[i] == ' '
  {
    seq(if n > 0 then n else 0, _ => ' ')
  }

  /** The new value, padded to the length of an old one that was longer. */
  function Padded(val: string, n: nat): (w: string)
    ensures |w| >= n && |w| >= |val|
  {
    val + Blanks(n - |val|)
  }

  /** The line `a`, whose `=` stands at `q`, with its value replaced. */
  function Edited(a: string, q: nat, val: string): string
    requires q < |a|
  {
    var v := ValueStart(a, q);
    var e := ValueEnd(a, v);
    a[..v] + Padded(val, e - v) + a[e..]
  }

  /** A value that can be written and read back: trimmed, and free of quotes, `#` and line ends. */
  predicate Plain(val: string) {
    && (forall i :: 0 <= i < |val| ==> !IsQuote(val[i]) && !IsStop(val[i]))
    && (val != [] ==> !IsSpace(val[0]) && !IsSpace(val[|val| - 1]))
  }

  /** The old value takes the rest of its line with it, its end included: a quote that is never closed. */
  predicate Swallows(a: string, q: nat)
    requires q < |a|
  {
    ValueEnd(a, ValueStart(a, q)) == |a|
  }

  /** Behind the old value at `v..e` in the text `t` nothing but white space stands before the line ends
      or a comment begins; where nothing stops the line, nothing stands behind the new value at all. */
  predicate Clean(t: string, v: nat, e: nat, val: string)
    requires v <= e <= |t|
  {
    && (forall j :: e <= j < FindStop(t, e) ==> IsBlank(t[j]))
    && (FindStop(t, e) < |t| || val == [] || (e == |t| && |val| >= e - v))
  }

  /** What a search reads of the text behind `e` as part of a value that ends there, with `pad` in
      between. */
  function Tail(a: string, e: nat, pad: string): string
    requires e <= |a|
  {
    var st := FindStop(a, e);
    if st == |a| then pad + a[e..]
    else if TrimBack(a, e, st) == e then []
    else pad + a[e..TrimBack(a, e, st)]
  }

  /** What stands behind the old value at `v..e` and is read as part of the new one; behind an empty
      value it is read as a value of its own. */
  function Behind(t: string, v: nat, e: nat, val: string): string
    requires v <= e <= |t|
  {
    if val == [] then ValueFrom(t, SkipInline(t, e)) else Tail(t, e, Blanks(e - v - |val|))
  }

  /** How the line `b` is made of the line `a`: up to `v` as before, then the value and blanks up to
      `p`, then what stood from `e` on. */
  predicate Spliced(a: string, e: nat, b: string, v: nat, val: string, p: nat) {
    && v <= e <= |a| && v + |val| <= p && |b| == p + (|a| - e)
    && (forall i {:trigger b[i]} :: 0 <= i < v ==> b[i] == a[i])
    && (forall i :: v <= i < v + |val| ==> b[i] == val[i - v])
    && (forall i :: v + |val| <= i < p ==> b[i] == ' ')
    && (forall i :: p <= i < |b| ==> b[i] == a[i - p + e])
  }

  /** The line `b` is `a` with the text from `v` to `e` replaced by `val` and blanks. */
  predicate Joined(a: string, v: nat, e: nat, b: string, val: string, pad: string) {
    v <= e <= |a| && b == a[..v] + (val + pad) + a[e..] && forall i :: 0 <= i < |pad| ==> pad[i] == ' '
  }

  lemma {:induction false} JoinIsSplice(a: string, v: nat, e: nat, b: string, val: string, pad: string)
    requires Joined(a, v, e, b, val, pad)
    ensures Spliced(a, e, b, v, val, v + |val| + |pad|)
  {
  }

  lemma {:induction false} EditedIsSame(a: string, q: nat, val: string)
    requires q < |a| && a[q] == '='
    ensures SameUpTo(a, Edited(a, q, val), q)
  {
  }

  lemma {:induction false} StopMoves(a: string, e: nat, b: string, v: nat, val: string, p: nat)
    requires Spliced(a, e, b, v, val, p) && Plain(val)
    ensures FindStop(b, v) == p + (FindStop(a, e) - e)
  {
    var st := FindStop(a, e);
    forall i | v <= i < p + (st - e) ensures !IsStop(b[i]) {
      if i < v + |val| {
        assert b[i] == val[i - v];
      } else if i >= p {
        assert b[i] == a[i - p + e];
      }
    }
    assert st < |a| ==> b[p + (st - e)] == a[st];
  }

  /** Where the value ends in a line that was given the value `val`, not empty, at `v`. */
  lemma {:induction false} SplicedEnd(a: string, q: nat, e: nat, b: string, v: nat, val: string, p: nat)
    requires q < |a| && v == ValueStart(a, q) && Spliced(a, e, b, v, val, p) && q < |b|
    requires Plain(val) && val != []
    ensures ValueStart(b, q) == v
    ensures var st := FindStop(a, e);
            ValueEnd(b, v) == if st == |a| then |b|
                              else if TrimBack(a, e, st) == e then v + |val|
                              else p + (TrimBack(a, e, st) - e)
  {
    StopMoves(a, e, b, v, val, p);
    assert b[v] == val[0] && b[v + |val| - 1] == val[|val| - 1];
    var st := FindStop(a, e);
    if st < |a| {
      TrimMoves(a, e, b, v, val, p, st);
    }
  }

  lemma {:induction false} TrimMoves(a: string, e: nat, b: string, v: nat, val: string, p: nat, st: nat)
    requires Spliced(a, e, b, v, val, p) && e <= st <= |a|
    requires val != [] && !IsSpace(b[v + |val| - 1])
    ensures TrimBack(b, v, p + (st - e)) == if TrimBack(a, e, st) == e then v + |val| else p + (TrimBack(a, e, st) - e)
  {
    var k := TrimBack(a, e, st);
    var t := p + (st - e);
    assert forall i :: p + (k - e) <= i < t ==> IsSpace(b[i]);
    var r := TrimBack(b, v, t);
    if k > e {
      assert b[p + (k - e) - 1] == a[k - 1];
    }
  }

  lemma {:induction false} BlanksMove(a: string, q: nat, e: nat, b: string, v: nat, val: string, p: nat)
    requires q < |a| && v == ValueStart(a, q) && Spliced(a, e, b, v, val, p) && q < |b| && |val| == 0
    ensures ValueStart(b, q) == p + (SkipInline(a, e) - e)
  {
    var x := p + (SkipInline(a, e) - e);
    assert forall i :: q + 1 <= i < x ==> IsBlank(b[i]);
    assert x < |b| ==> b[x] == a[SkipInline(a, e)];
  }

  /** The same text stands behind two places. */
  predicate SameBehind(a: string, x: nat, b: string, y: nat) {
    x <= |a| && y <= |b| && |a| - x == |b| - y && forall i :: x <= i < |a| ==> a[i] == b[i - x + y]
  }

  lemma {:induction false} FindMoves(a: string, x: nat, b: string, y: nat, c: char)
    requires SameBehind(a, x, b, y)
    ensures Find(a, c, x) - x == Find(b, c, y) - y
  {
    var m, n := Find(a, c, x), Find(b, c, y);
    assert m < |a| ==> b[m - x + y] == a[m];
    assert n < |b| ==> a[n - y + x] == b[n];
  }

  lemma {:induction false} FindStopMoves(a: string, x: nat, b: string, y: nat)
    requires SameBehind(a, x, b, y)
    ensures FindStop(a, x) - x == FindStop(b, y) - y
  {
    var m, n := FindStop(a, x), FindStop(b, y);
    assert m < |a| ==> b[m - x + y] == a[m];
    assert n < |b| ==> a[n - y + x] == b[n];
  }

  lemma {:induction false} ValueEndMoves(a: string, x: nat, b: string, y: nat)
    requires SameBehind(a, x, b, y)
    ensures ValueEnd(a, x) - x == ValueEnd(b, y) - y
  {
    if x < |a| && IsQuote(a[x]) {
      FindMoves(a, x + 1, b, y + 1, a[x]);
      var m := Find(a, a[x], x + 1);
      if m < |a| {
        TrimSame(a, x, m + 1, b, y, m - x + y + 1);
      }
    } else {
      FindStopMoves(a, x, b, y);
      var m := FindStop(a, x);
      if m < |a| {
        TrimSame(a, x, m, b, y, m - x + y);
      }
    }
  }

  /** So it holds the same value. */
  lemma {:induction false} ValueMoves(a: string, x: nat, b: string, y: nat)
    requires SameBehind(a, x, b, y)
    ensures ValueFrom(a, x) == ValueFrom(b, y)
  {
    ValueEndMoves(a, x, b, y);
    assert a[x..] == b[y..];
    assert a[x..ValueEnd(a, x)] == a[x..][..ValueEnd(a, x) - x];
    assert b[y..ValueEnd(b, y)] == b[y..][..ValueEnd(b, y) - y];
  }

  lemma {:induction false} TrimSame(a: string, x: nat, m: nat, b: string, y: nat, n: nat)
    requires x <= m <= |a| && y <= n <= |b| && m - x == n - y && forall i :: x <= i < m ==> a[i] == b[i - x + y]
    ensures TrimBack(a, x, m) - x == TrimBack(b, y, n) - y
    decreases m
  {
    if m > x {
      assert a[m - 1] == b[m - 1 - x + y] == b[n - 1];
      if IsSpace(a[m - 1]) {
        TrimSame(a, x, m - 1, b, y, n - 1);
      }
    }
  }

  lemma {:induction false} MiddleOf(front: string, mid: string, back: string, m: nat)
    requires m <= |back|
    ensures (front + mid + back)[|front|..|front| + |mid| + m] == mid + back[..m]
  {
  }

  lemma {:induction false} StartOfMiddle(front: string, first: string, more: string)
    ensures (front + first + more)[|front|..|front| + |first|] == first
  {
  }

  /** The text from the new value up to `x`. */
  lemma {:induction false} JoinedText(a: string, v: nat, e: nat, b: string, val: string, pad: string, x: nat)
    requires Joined(a, v, e, b, val, pad) && (x == v + |val| || v + |val| + |pad| <= x <= |b|)
    ensures x == v + |val| ==> b[v..x] == val + []
    ensures x >= v + |val| + |pad| ==> b[v..x] == val + (pad + a[e..e + (x - (v + |val| + |pad|))])
  {
    if x == v + |val| {
      StartOfMiddle(a[..v], val, pad + a[e..]);
      assert b == a[..v] + val + (pad + a[e..]);
      assert val + [] == val;
    }
    if x >= v + |val| + |pad| {
      var m := x - (v + |val| + |pad|);
      MiddleOf(a[..v], val + pad, a[e..], m);
      assert a[e..][..m] == a[e..e + m];
      assert val + pad + a[e..e + m] == val + (pad + a[e..e + m]);
    }
  }

  lemma {:induction false} FoundFull(a: string, q: nat, v: nat, e: nat, b: string, val: string, pad: string)
    requires q < |a| && v == ValueStart(a, q) && Joined(a, v, e, b, val, pad) && q < |b|
    requires Plain(val) && val != []
    ensures ValueAt(b, q) == val + Tail(a, e, pad)
  {
    JoinIsSplice(a, v, e, b, val, pad);
    SplicedEnd(a, q, e, b, v, val, v + |val| + |pad|);
    JoinedText(a, v, e, b, val, pad, ValueEnd(b, v));
  }

  lemma {:induction false} FoundEmpty(a: string, q: nat, v: nat, e: nat, b: string, val: string, pad: string)
    requires q < |a| && v == ValueStart(a, q) && Joined(a, v, e, b, val, pad) && q < |b| && |val| == 0
    ensures ValueAt(b, q) == ValueFrom(a, SkipInline(a, e))
  {
    JoinIsSplice(a, v, e, b, val, pad);
    BlanksMove(a, q, e, b, v, val, v + |pad|);
    ValueMoves(a, SkipInline(a, e), b, ValueStart(b, q));
  }

  lemma {:induction false} FoundBy(a: string, q: nat, v: nat, e: nat, b: string, val: string, pad: string, t: string)
    requires q < |a| && v == ValueStart(a, q) && Joined(a, v, e, b, val, pad) && q < |b| && Plain(val)
    requires t == if val == [] then ValueFrom(a, SkipInline(a, e)) else Tail(a, e, pad)
    ensures ValueAt(b, q) == val + t
  {
    if val == [] {
      FoundEmpty(a, q, v, e, b, val, pad);
      NothingInFront(val, t);
    } else {
      FoundFull(a, q, v, e, b, val, pad);
    }
  }

  lemma NothingInFront(val: string, w: string)
    requires val == []
    ensures val + w == w
  {
  }

  lemma {:induction false} StartStays(a: string, c: string, q: nat)
    requires q < |a| && (c == [] || ValueStart(a, q) < |a|)
    ensures ValueStart(a + c, q) == ValueStart(a, q)
  {
    var v := ValueStart(a, q);
    assert forall j :: 0 <= j < |a| ==> (a + c)[j] == a[j];
    assert v < |a + c| ==> v < |a|;
  }

  lemma {:induction false} JoinedBefore(a: string, c: string, v: nat, e: nat, b: string, val: string, pad: string)
    requires Joined(a, v, e, b, val, pad) && (c == [] || e == |a|)
    ensures Joined(a + c, v, e, b + c, val, pad)
  {
    assert (a + c)[..v] == a[..v];
    assert (a + c)[e..] == a[e..] + c;
  }

  lemma {:induction false} FoundJoined(a: string, c: string, q: nat, v: nat, e: nat, b: string, val: string, pad: string,
                                       w: string)
    requires q < |a| && v == ValueStart(a, q) && Joined(a, v, e, b, val, pad) && q < |b| && Plain(val)
    requires c == [] || (e == |a| && v < |a|)
    requires w == if val == [] then ValueFrom(a + c, SkipInline(a + c, e)) else Tail(a + c, e, pad)
    ensures ValueAt(b + c, q) == val + w
  {
    StartStays(a, c, q);
    JoinedBefore(a, c, v, e, b, val, pad);
    FoundBy(a + c, q, v, e, b + c, val, pad, w);
  }

  /** What is found in an edited line, with the next line `c` joined to it if the old value has swallowed
      the end: the new value and what stands behind the old one. */
  lemma {:induction false} FoundIs(a: string, c: string, q: nat, val: string)
    requires q < |a| && a[q] == '=' && Plain(val)
    requires c == [] || (Swallows(a, q) && ValueStart(a, q) < |a|)
    ensures q < |Edited(a, q, val)|
    ensures ValueAt(Edited(a, q, val) + c, q) == val + Behind(a + c, ValueStart(a, q), ValueEnd(a, ValueStart(a, q)), val)
  {
    var v := ValueStart(a, q);
    var e := ValueEnd(a, v);
    FoundJoined(a, c, q, v, e, Edited(a, q, val), val, Blanks(e - v - |val|), Behind(a + c, v, e, val));
  }

  /** Nothing is read behind the new value exactly if the text behind the old one is clean. */
  lemma {:induction false} CleanIsBare(t: string, v: nat, e: nat, val: string)
    requires v <= e <= |t|
    ensures Clean(t, v, e, val) <==> Behind(t, v, e, val) == []
  {
    var st := FindStop(t, e);
    if val == [] {
      NothingThere(t, e);
    } else if st < |t| {
      assert TrimBack(t, e, st) == e <==> forall j :: e <= j < st ==> IsSpace(t[j]);
    }
  }

  lemma {:induction false} NothingThere(a: string, e: nat)
    requires e <= |a|
    ensures ValueFrom(a, SkipInline(a, e)) == [] <==> forall j :: e <= j < FindStop(a, e) ==> IsBlank(a[j])
  {
    var st, x := FindStop(a, e), SkipInline(a, e);
    assert x <= st;
    if x == st {
      assert FindStop(a, x) == st && (st < |a| ==> TrimBack(a, x, st) == x);
    } else if IsQuote(a[x]) {
      var m := Find(a, a[x], x + 1);
      assert m < |a| ==> !IsSpace(a[m]);
    } else {
      assert FindStop(a, x) == st;
    }
  }

  /** In a buffer of `size` characters: what is found behind the value is nothing, or is cut off, or
      begins with a quote mark that is taken off the end. */
  predicate CutsTo(val: string, w: string, size: nat) {
    var t := if val == [] && w != [] && IsQuote(w[0]) then w[1..] else w;
    t == [] || size == |val| + 1 || (IsQuote(t[0]) && (|t| == 1 || size == |val| + 2))
  }

  lemma {:induction false} UnquotedIs(val: string, w: string, size: nat)
    requires Plain(val) && |val| < size
    ensures Unquoted(val + w, size).0 == val <==> CutsTo(val, w, size)
  {
    var t := if val == [] && w != [] && IsQuote(w[0]) then w[1..] else w;
    if val + w != [] {
      CutValue(val, t, size);
      Stripped(val, w, t);
    }
  }

  lemma {:induction false} Stripped(val: string, w: string, t: string)
    requires Plain(val) && val + w != []
    requires t == if val == [] && w != [] && IsQuote(w[0]) then w[1..] else w
    ensures val + t == if IsQuote((val + w)[0]) then (val + w)[1..] else val + w
  {
    if val == [] {
      assert val + w == w && val + t == t;
    } else {
      assert (val + w)[0] == val[0];
    }
  }

  lemma {:induction false} StripAppended(val: string, x: string)
    requires Plain(val)
    ensures Strip(val + x) == val <==> x == [] || (|x| == 1 && IsQuote(x[0]))
  {
    if x == [] {
      assert val + x == val;
    } else {
      assert (val + x)[|val + x| - 1] == x[|x| - 1];
      assert |x| == 1 ==> (val + x)[..|val + x| - 1] == val;
    }
  }

  /** Cutting `val + t` to the buffer, and a quote mark off its end, leaves `val`. */
  lemma {:induction false} CutValue(val: string, t: string, size: nat)
    requires Plain(val) && |val| < size
    ensures var u := if |val + t| < size then val + t else (val + t)[..size - 1];
            Strip(u) == val <==> t == [] || size == |val| + 1 || (IsQuote(t[0]) && (|t| == 1 || size == |val| + 2))
  {
    if |val + t| < size {
      StripAppended(val, t);
    } else {
      var n := size - 1 - |val|;
      assert (val + t)[..size - 1] == val + t[..n];
      StripAppended(val, t[..n]);
    }
  }

  /** Behind a value that is not quoted and that something stops, the text is always clean. */
  lemma {:induction false} UnquotedIsClean(a: string, q: nat, val: string)
    requires q < |a| && FindStop(a, ValueStart(a, q)) < |a|
    requires !IsQuote(a[ValueStart(a, q)])
    ensures !Swallows(a, q) && Clean(a, ValueStart(a, q), ValueEnd(a, ValueStart(a, q)), val)
  {
    var v := ValueStart(a, q);
    var st := FindStop(a, v);
    var e := ValueEnd(a, v);
    assert e == TrimBack(a, v, st);
    assert FindStop(a, e) == st;
  }

  /** The length of a stretch of lines in the file. */
  function Length(ls: seq<string>): (n: nat)
    ensures ls == [] ==> n == 0
  {
    if ls == [] then 0 else Length(ls[..|ls| - 1]) + |ls[|ls| - 1]|
  }

  /** Where line `k` starts in the file. */
  function StartOf(ls: seq<string>, k: nat): nat
    requires k <= |ls|
  {
    Length(ls[..k])
  }

  lemma {:induction false} StartOfNext(ls: seq<string>, k: nat)
    requires k < |ls|
    ensures StartOf(ls, k + 1) == StartOf(ls, k) + |ls[k]|
  {
    assert ls[..k + 1][..k] == ls[..k];
  }

  lemma {:induction false} LengthIsFlat(ls: seq<string>)
    ensures Length(ls) == |Flat(ls)|
  {
    if ls != [] {
      var n := |ls| - 1;
      LengthIsFlat(ls[..n]);
      FlatAppend(ls[..n], [ls[n]]);
      assert ls == ls[..n] + [ls[n]];
      assert Flat([ls[n]]) == ls[n] + Flat([]);
    }
  }

  lemma {:induction false} CutAt(ls: seq<string>, k: nat)
    requires k < |ls|
    ensures Flat(ls) == Flat(ls[..k]) + ls[k] + Flat(ls[k + 1..])
    ensures |Flat(ls[..k])| == StartOf(ls, k)
  {
    LengthIsFlat(ls[..k]);
    assert ls == ls[..k] + ([ls[k]] + ls[k + 1..]);
    FlatAppend(ls[..k], [ls[k]] + ls[k + 1..]);
    FlatAppend([ls[k]], ls[k + 1..]);
    assert Flat([ls[k]]) == ls[k] + Flat([]);
  }

  lemma {:induction false} SpliceMiddle(front: string, a: string, back: string, lo: nat, hi: nat, w: string)
    requires lo <= hi <= |a|
    ensures var f := front + a + back;
            f[..|front| + lo] + w + f[|front| + hi..] == front + (a[..lo] + w + a[hi..]) + back
  {
    var f := front + a + back;
    assert f[..|front| + lo] == front + a[..lo];
    assert f[|front| + hi..] == a[hi..] + back;
  }

  /** Replacing a stretch of line `k` in the file replaces it in the list of lines. */
  lemma {:induction false} SpliceFile(f: string, ls: seq<string>, k: nat, lo: nat, hi: nat, w: string)
    requires f == Flat(ls) && k < |ls| && lo <= hi <= |ls[k]|
    ensures StartOf(ls, k) + hi <= |f|
    ensures f[..StartOf(ls, k) + lo] + w + f[StartOf(ls, k) + hi..] == Flat(ls[k := ls[k][..lo] + w + ls[k][hi..]])
  {
    var a := ls[k];
    var b := a[..lo] + w + a[hi..];
    var edited := ls[k := b];
    CutAt(ls, k);
    CutAt(edited, k);
    assert edited[..k] == ls[..k] && edited[k + 1..] == ls[k + 1..];
    SpliceMiddle(Flat(ls[..k]), a, Flat(ls[k + 1..]), lo, hi, w);
  }

  lemma {:induction false} GoodReplaced(ls: seq<string>, k: nat, b: string)
    requires Good(ls) && k < |ls| && Whole(b) && (k < |ls| - 1 ==> Ended(b))
    ensures Lines(Flat(ls[k := b])) == ls[k := b]
  {
    assert Good(ls[k := b]);
    LinesOfFlat(ls[k := b]);
  }

  lemma {:induction false} JoinedIsWhole(a: string, v: nat, e: nat, b: string, val: string, pad: string)
    requires Joined(a, v, e, b, val, pad) && Plain(val) && b != [] && |b| <= MAX_LINE
    requires Whole(a) && (v == |a| ==> a[|a| - 1] != '\n')
    ensures Whole(b) && (e < |a| && EndsLine(a) ==> Ended(b)) && (e == |a| ==> '\n' !in b)
  {
    JoinIsSplice(a, v, e, b, val, pad);
    assert e < |a| ==> b[|b| - 1] == a[|a| - 1];
  }

  /** An edited line is still one line, unless its end was swallowed. */
  lemma {:induction false} EditedIsWhole(a: string, q: nat, val: string)
    requires q < |a| && a[q] == '=' && Whole(a) && Plain(val) && |Edited(a, q, val)| <= MAX_LINE
    ensures Whole(Edited(a, q, val))
    ensures if Swallows(a, q) then '\n' !in Edited(a, q, val) else EndsLine(a) ==> Ended(Edited(a, q, val))
  {
    var v := ValueStart(a, q);
    var e := ValueEnd(a, v);
    EditedIsSame(a, q, val);
    JoinedIsWhole(a, v, e, Edited(a, q, val), val, Blanks(e - v - |val|));
  }

  /** What `SetVar` makes of the file when the value stands in line `k` behind the `=` at `q`. */
  function SetIn(ls: seq<string>, k: nat, q: nat, val: string): string
    requires k < |ls| && q < |ls[k]|
  {
    Flat(ls[k := Edited(ls[k], q, val)])
  }

  /** The edited line is within the limit and stays a line of its own. */
  predicate Settable(ls: seq<string>, k: nat, q: nat, val: string)
    requires k < |ls| && q < |ls[k]|
  {
    |Edited(ls[k], q, val)| <= MAX_LINE && (k + 1 < |ls| ==> EndsLine(ls[k]) && !Swallows(ls[k], q))
  }

  lemma {:induction false} SetReplacesLine(ls: seq<string>, k: nat, q: nat, val: string)
    requires Good(ls) && k < |ls| && q < |ls[k]| && ls[k][q] == '='
    requires Plain(val) && Settable(ls, k, q, val)
    ensures Lines(SetIn(ls, k, q, val)) == ls[k := Edited(ls[k], q, val)]
    ensures SameUpTo(ls[k], Edited(ls[k], q, val), q)
  {
    var a := ls[k];
    assert Whole(a);
    EditedIsWhole(a, q, val);
    EditedIsSame(a, q, val);
    GoodReplaced(ls, k, Edited(a, q, val));
  }

  lemma {:induction false} NewlineStops(a: string, e: nat)
    requires e < |a| && a[|a| - 1] == '\n'
    ensures FindStop(a, e) < |a|
  {
  }

  /** Where the `=` of a found variable stands. */
  function EqualsAt(ls: seq<string>, k: nat, name: string): (q: nat)
    requires k < |ls| && ParseAll(ls, name)[k].Definition?
  {
    ParseAll(ls, name)[k].eq
  }

  lemma {:induction false} FoundLine(ls: seq<string>, k: nat, name: string)
    requires k < |ls| && ParseAll(ls, name)[k].Definition?
    ensures var q := EqualsAt(ls, k, name);
            && q < |ls[k]| && EqualsOf(ls[k], name) == Some(q) && ls[k][q] == '=' && !IsEntity(ls[k])
            && Defined(ls[k], ParseAll(ls, name)[k]) == ValueAt(ls[k], q)
  {
    ParseAllAt(ls, name, k);
  }

  lemma {:induction false} KindAlike(a: string, b: string, q: nat, group: string, name: string)
    requires SameUpTo(a, b, q) && !IsEntity(a)
    requires '=' !in name || EqualsOf(a, name).Some? == EqualsOf(b, name).Some?
    ensures SameKind(Parse(a, name), Parse(b, name)) && OpensGroup(a, group) == OpensGroup(b, group)
  {
    KindShowsEarly(a, b, q, if '=' in name then [] else name);
    GroupShowsEarly(a, b, q, group);
  }

  /** A line that is replaced by one with the same text up to an `=` moves no variable, and changes no
      value but its own, for every name without an `=`, and for the others that it defines as before. */
  lemma {:induction false} LineAlike(ls: seq<string>, k: nat, q: nat, b: string, group: string, name: string, n: nat)
    requires k < |ls| && SameUpTo(ls[k], b, q) && !IsEntity(ls[k])
    requires '=' !in name || EqualsOf(ls[k], name).Some? == EqualsOf(b, name).Some?
    ensures Locate(ls[k := b], group, name, n) == Locate(ls, group, name, n)
    ensures Locate(ls, group, name, n) != Some(k) ==> Read(ls[k := b], group, name, n) == Read(ls, group, name, n)
  {
    KindAlike(ls[k], b, q, group, name);
    LocateAlike(ls, k, b, group, name, n);
    ParseAllChanged(ls, name, k, b);
  }

  /** The frame condition: whatever stands in another line keeps its value, missing variables stay
      missing, for every group, name and number; a name with an `=` must not come to fit the line. */
  lemma {:induction false} OthersKeepTheirValues(ls: seq<string>, k: nat, q: nat, val: string, group: string, name: string, n: nat)
    requires Good(ls) && k < |ls| && q < |ls[k]| && ls[k][q] == '=' && !IsEntity(ls[k])
    requires Plain(val) && Settable(ls, k, q, val)
    requires '=' !in name || EqualsOf(ls[k], name).Some? == EqualsOf(Edited(ls[k], q, val), name).Some?
    ensures var ls' := Lines(SetIn(ls, k, q, val));
            && Locate(ls', group, name, n) == Locate(ls, group, name, n)
            && (Locate(ls, group, name, n) != Some(k) ==> Read(ls', group, name, n) == Read(ls, group, name, n))
  {
    SetReplacesLine(ls, k, q, val);
    LineAlike(ls, k, q, Edited(ls[k], q, val), group, name, n);
  }
}
