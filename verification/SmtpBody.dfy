/** Mail bodies as `CSmtpSupport::FormatBody` of AccessNode/Shared/SmtpSupport.cpp prepares them: line
    ends made CRLF and dots stuffed, the transparency of section 4.5.2 of RFC 2821. */
module SmtpBody {
  import opened Basics
  import opened Bytes

  const CR: byte := 13
  const LF: byte := 10
  const DOT: byte := 46
  const CRLF: seq<byte> := [13, 10]
  const END_OF_DATA: seq<byte> := [13, 10, 46, 13, 10]

  predicate IsBreak(b: byte) {
    b == CR || b == LF
  }

  predicate AtBreak(s: seq<byte>) {
    |s| >= 2 && s[0] == CR && s[1] == LF
  }

  /** The length of the line break or character at the front. */
  function Front(s: seq<byte>): (n: nat)
    requires s != []
    ensures 1 <= n <= 2 && n <= |s|
  {
    if AtBreak(s) then 2 else 1
  }

  /** The body with each CR, LF and CRLF made CRLF. */
  function Normalise(s: seq<byte>): seq<byte> {
    if s == [] then []
    else (if IsBreak(s[0]) then CRLF else [s[0]]) + Normalise(s[Front(s)..])
  }

  /** The body with every dot at the start of a line doubled. */
  function Stuff(s: seq<byte>, start: bool): seq<byte> {
    if s == [] then []
    else if AtBreak(s) then CRLF + Stuff(s[2..], true)
    else (if start && s[0] == DOT then [DOT, DOT] else [s[0]]) + Stuff(s[1..], false)
  }

  function Formatted(body: seq<byte>): seq<byte> {
    Stuff(Normalise(body), true)
  }

  function Prepend(front: seq<byte>, r: Option<(seq<byte>, seq<byte>)>): Option<(seq<byte>, seq<byte>)> {
    match r
    case None => None
    case Some(x) => Some((front + x.0, x.1))
  }

  /** A receiver, by the RFC: at the start of a line, a dot alone on it ends the data, and any other dot
      is dropped.  The data, and what follows its end. */
  function Receive(s: seq<byte>, start: bool): Option<(seq<byte>, seq<byte>)> {
    if s == [] then None
    else if start && s[0] == DOT then
      if AtBreak(s[1..]) then Some(([], s[3..])) else Receive(s[1..], false)
    else if AtBreak(s) then Prepend(CRLF, Receive(s[2..], true))
    else Prepend([s[0]], Receive(s[1..], false))
  }

  /** Every CR is followed by LF and every LF follows a CR. */
  predicate Paired(s: seq<byte>) {
    s == [] || (if AtBreak(s) then Paired(s[2..]) else !IsBreak(s[0]) && Paired(s[1..]))
  }

  lemma {:induction false} NormaliseIsPaired(s: seq<byte>)
    ensures Paired(Normalise(s))
  {
    if s != [] {
      NormaliseIsPaired(s[Front(s)..]);
      var rest := Normalise(s[Front(s)..]);
      if IsBreak(s[0]) {
        assert (CRLF + rest)[2..] == rest;
      } else {
        assert ([s[0]] + rest)[1..] == rest;
      }
    }
  }

  lemma ReceiveBreak(t: seq<byte>, start: bool)
    ensures Receive(CRLF + t, start) == Prepend(CRLF, Receive(t, true))
  {
    assert (CRLF + t)[2..] == t && (CRLF + t)[..2] == CRLF;
  }

  lemma ReceiveChar(b: byte, t: seq<byte>, start: bool)
    requires !IsBreak(b) && !(start && b == DOT)
    ensures Receive([b] + t, start) == Prepend([b], Receive(t, false))
  {
    assert ([b] + t)[1..] == t && ([b] + t)[..1] == [b];
  }

  lemma ReceiveDots(t: seq<byte>)
    ensures Receive([DOT, DOT] + t, true) == Prepend([DOT], Receive(t, false))
  {
    assert ([DOT, DOT] + t)[1..] == [DOT] + t;
    assert !AtBreak([DOT] + t);
    ReceiveChar(DOT, t, false);
  }

  lemma ReceiveEnd(rest: seq<byte>)
    ensures Receive(END_OF_DATA + rest, false) == Some((CRLF, rest))
    ensures Receive(END_OF_DATA + rest, true) == Some((CRLF, rest))
  {
    var t := [DOT, CR, LF] + rest;
    assert END_OF_DATA + rest == CRLF + t;
    ReceiveBreak(t, false);
    ReceiveBreak(t, true);
    assert t[3..] == rest && AtBreak(t[1..]);
    assert Receive(t, true) == Some(([], rest));
    assert CRLF + [] == CRLF;
  }

  /** The stuffed text followed by the terminator is received as the text before stuffing, and what
      follows the terminator is left alone: the terminator is the first end of data. */
  lemma {:induction false} StuffedIsReceived(s: seq<byte>, start: bool, rest: seq<byte>)
    requires Paired(s)
    ensures Receive(Stuff(s, start) + (END_OF_DATA + rest), start) == Some((s + CRLF, rest))
  {
    var end := END_OF_DATA + rest;
    if s == [] {
      ReceiveEnd(rest);
      assert [] + end == end && s + CRLF == CRLF;
    } else if AtBreak(s) {
      StuffedIsReceived(s[2..], true, rest);
      Assoc(CRLF, Stuff(s[2..], true), end);
      ReceiveBreak(Stuff(s[2..], true) + end, start);
      assert s == CRLF + s[2..];
      Assoc(CRLF, s[2..], CRLF);
    } else {
      StuffedIsReceived(s[1..], false, rest);
      var front := if start && s[0] == DOT then [DOT, DOT] else [s[0]];
      Assoc(front, Stuff(s[1..], false), end);
      if start && s[0] == DOT {
        ReceiveDots(Stuff(s[1..], false) + end);
      } else {
        ReceiveChar(s[0], Stuff(s[1..], false) + end, start);
      }
      assert s == [s[0]] + s[1..];
      Assoc([s[0]], s[1..], CRLF);
    }
  }

  /** The output has every CR paired with an LF, too. */
  lemma {:induction false} StuffIsPaired(s: seq<byte>, start: bool)
    requires Paired(s)
    ensures Paired(Stuff(s, start))
  {
    if s != [] {
      if AtBreak(s) {
        StuffIsPaired(s[2..], true);
        assert (CRLF + Stuff(s[2..], true))[2..] == Stuff(s[2..], true);
      } else {
        var t := Stuff(s[1..], false);
        StuffIsPaired(s[1..], false);
        assert ([s[0]] + t)[1..] == t;
        assert ([DOT, DOT] + t)[1..] == [DOT] + t && ([DOT] + t)[1..] == t;
      }
    }
  }

  /** The theorem: whatever the body, the receiver gets it with its line ends normalised and a last line
      end added, and then exactly what was sent behind the terminator. */
  lemma BodyIsTransparent(body: seq<byte>, rest: seq<byte>)
    ensures Receive(Formatted(body) + (END_OF_DATA + rest), true) == Some((Normalise(body) + CRLF, rest))
  {
    NormaliseIsPaired(body);
    StuffedIsReceived(Normalise(body), true, rest);
  }

  /** A line, without its end. */
  predicate Line(l: seq<byte>) {
    13 !in l && 10 !in l
  }

  /** A line break: CRLF, LF, or a CR that is not part of a CRLF. */
  predicate Break(b: seq<byte>, rest: seq<byte>) {
    b == [13, 10] || b == [10] || (b == [13] && !(rest != [] && rest[0] == 10))
  }

  /** A line as it is sent. */
  function Dotted(l: seq<byte>): seq<byte> {
    if l != [] && l[0] == 46 then [46] + l else l
  }

  /** Normalising keeps every line and makes every line break one CRLF. */
  lemma {:induction false} NormaliseLine(l: seq<byte>, b: seq<byte>, rest: seq<byte>)
    requires Line(l)
    ensures Normalise(l) == l
    ensures Break(b, rest) ==> Normalise(l + (b + rest)) == l + ([13, 10] + Normalise(rest))
  {
    if l == [] {
      assert l + (b + rest) == b + rest && l + ([13, 10] + Normalise(rest)) == [13, 10] + Normalise(rest);
      NormaliseBreak(b, rest);
    } else {
      var c, t := l[0], l[1..];
      assert l == [c] + t;
      NormaliseLine(t, b, rest);
      NormaliseChar(c, t);
      NormaliseChar(c, t + (b + rest));
      Assoc([c], t, b + rest);
      Assoc([c], t, [13, 10] + Normalise(rest));
    }
  }

  lemma NormaliseChar(c: byte, t: seq<byte>)
    requires c != 13 && c != 10
    ensures Normalise([c] + t) == [c] + Normalise(t)
  {
    assert ([c] + t)[1..] == t;
  }

  lemma NormaliseBreak(b: seq<byte>, rest: seq<byte>)
    ensures Break(b, rest) ==> Normalise(b + rest) == [13, 10] + Normalise(rest)
  {
    if Break(b, rest) {
      assert (b + rest)[|b|..] == rest && (b + rest)[0] == b[0];
      assert |b + rest| >= 2 && |b| == 1 ==> (b + rest)[1] == rest[0];
    }
  }

  lemma StuffChar(c: byte, t: seq<byte>, start: bool)
    requires c != 13
    ensures Stuff([c] + t, start) == (if start && c == 46 then [46, 46] else [c]) + Stuff(t, false)
  {
    assert ([c] + t)[1..] == t;
  }

  lemma StuffBreak(t: seq<byte>, start: bool)
    ensures Stuff([13, 10] + t, start) == [13, 10] + Stuff(t, true)
  {
    assert ([13, 10] + t)[2..] == t;
  }

  /** Inside a line nothing is doubled. */
  lemma {:induction false} StuffInside(l: seq<byte>, rest: seq<byte>)
    requires Line(l)
    ensures Stuff(l, false) == l
    ensures Stuff(l + ([13, 10] + rest), false) == l + ([13, 10] + Stuff(rest, true))
  {
    if l == [] {
      StuffBreak(rest, false);
      assert l + ([13, 10] + rest) == [13, 10] + rest;
    } else {
      var c, t := l[0], l[1..];
      assert l == [c] + t;
      StuffInside(t, rest);
      StuffChar(c, t, false);
      StuffChar(c, t + ([13, 10] + rest), false);
      Assoc([c], t, [13, 10] + rest);
      Assoc([c], t, [13, 10] + Stuff(rest, true));
    }
  }

  lemma DottedIs(c: byte, t: seq<byte>)
    ensures Dotted([c] + t) == (if c == 46 then [46, 46] else [c]) + t
  {
  }

  lemma StuffFirst(c: byte, t: seq<byte>, end: seq<byte>, end': seq<byte>)
    requires c != 13 && Stuff(t, false) == t && Stuff(t + end, false) == t + end'
    ensures Stuff([c] + t, true) == Dotted([c] + t)
    ensures Stuff([c] + t + end, true) == Dotted([c] + t) + end'
  {
    DottedIs(c, t);
    StuffChar(c, t, true);
    StuffChar(c, t + end, true);
    Assoc([c], t, end);
    Assoc(if c == 46 then [46, 46] else [c], t, end');
  }

  /** Stuffing a line: a dot at its start is doubled, the rest stays. */
  lemma StuffLine(l: seq<byte>, rest: seq<byte>)
    requires Line(l)
    ensures Stuff(l, true) == Dotted(l)
    ensures Stuff(l + ([13, 10] + rest), true) == Dotted(l) + ([13, 10] + Stuff(rest, true))
  {
    if l == [] {
      StuffBreak(rest, true);
      assert l + ([13, 10] + rest) == [13, 10] + rest;
    } else {
      StuffInside(l[1..], rest);
      StuffFirst(l[0], l[1..], [13, 10] + rest, [13, 10] + Stuff(rest, true));
      assert l == [l[0]] + l[1..];
    }
  }

  /** What is sent, line by line: every line stands as it is, with a dot at its start doubled, and every
      line break is a CRLF; the last line has none. */
  lemma FormattedLine(l: seq<byte>, b: seq<byte>, rest: seq<byte>)
    requires Line(l)
    ensures Formatted(l) == Dotted(l)
    ensures Break(b, rest) ==> Formatted(l + (b + rest)) == Dotted(l) + ([13, 10] + Formatted(rest))
  {
    NormaliseLine(l, b, rest);
    StuffLine(l, Normalise(rest));
  }

  /** What one turn of the loop writes for the line break or character at the front. */
  function Emit(t: seq<byte>): (e: seq<byte>)
    requires t != []
    ensures 1 <= |e| <= 3
  {
    if !IsBreak(t[0]) then [t[0]]
    else CRLF + (if Front(t) < |t| && t[Front(t)] == DOT then [DOT] else [])
  }

  /** The output that is still to come, inside a line. */
  function Rest(t: seq<byte>): seq<byte> {
    Stuff(Normalise(t), false)
  }

  lemma DotAtStart(t: seq<byte>)
    ensures Stuff(Normalise(t), true) == (if t != [] && t[0] == DOT then [DOT] else []) + Rest(t)
  {
    if t != [] {
      var more := Normalise(t[Front(t)..]);
      if IsBreak(t[0]) {
        assert (CRLF + more)[2..] == more;
      } else {
        assert ([t[0]] + more)[1..] == more && !AtBreak([t[0]] + more);
      }
    }
  }

  lemma EmitFront(t: seq<byte>)
    requires t != []
    ensures Rest(t) == Emit(t) + Rest(t[Front(t)..])
  {
    var t' := t[Front(t)..];
    var more := Normalise(t');
    if IsBreak(t[0]) {
      assert AtBreak(CRLF + more) && (CRLF + more)[2..] == more;
      DotAtStart(t');
      assert Rest(t) == CRLF + Stuff(more, true);
      Assoc(CRLF, if t' != [] && t'[0] == DOT then [DOT] else [], Rest(t'));
    } else {
      assert !AtBreak([t[0]] + more) && ([t[0]] + more)[1..] == more;
    }
  }

  /** The output for the last line break or character. */
  function LastSize(t: seq<byte>): nat
    requires t != []
  {
    if IsBreak(t[|t| - 1]) then 2 else 1
  }

  lemma {:induction false} RestCoversLast(t: seq<byte>)
    requires t != []
    ensures |Rest(t)| >= LastSize(t)
    decreases |t|
  {
    EmitFront(t);
    var t' := t[Front(t)..];
    if t' != [] {
      RestCoversLast(t');
    }
  }

  lemma {:induction false} RestIsShort(t: seq<byte>)
    ensures |Rest(t)| <= 2 * |t| - (if t != [] && t[0] == DOT then 1 else 0)
    decreases |t|
  {
    if t != [] {
      EmitFront(t);
      RestIsShort(t[Front(t)..]);
    }
  }

  /** When the output buffer suffices. */
  predicate Fits(body: seq<byte>, max: int) {
    max >= 3 && (body == [] || body == [DOT] || |Formatted(body)| - LastSize(body) <= max - 5)
  }

  /** In numbers: a body that ends in a character may be formatted to four bytes less than the buffer has, one
      that ends in a line break to three. */
  lemma FitsMeans(body: seq<byte>, max: int)
    requires body != [] && body != [46] && max >= 3
    ensures Fits(body, max) <==>
              |Formatted(body)| + (if body[|body| - 1] == 13 || body[|body| - 1] == 10 then 3 else 4) <= max
    ensures !Fits(body, 2) && Fits([], max) && Fits([46], max)
  {
  }

  /** The output is at most twice as long as the body. */
  lemma TwiceSuffices(body: seq<byte>, max: int)
    requires 2 * |body| + 5 <= max
    ensures |Formatted(body)| <= 2 * |body| && Fits(body, max)
  {
    DotAtStart(body);
    RestIsShort(body);
  }

  /** The character at `i` of a terminated string. */
  function CharAt(s: seq<byte>, i: nat): byte {
    if i < |s| then s[i] else 0
  }

  lemma NextOutput(total: seq<byte>, d: nat, t: seq<byte>)
    requires t != [] && d <= |total| && total[d..] == Rest(t)
    ensures d + |Emit(t)| <= |total| && total[d + |Emit(t)|..] == Rest(t[Front(t)..])
    ensures forall k :: d <= k < d + |Emit(t)| ==> total[k] == Emit(t)[k - d]
    ensures |total| >= d + LastSize(t)
    ensures Front(t) == |t| ==> |total| == d + LastSize(t) == d + |Emit(t)|
  {
    EmitFront(t);
    RestCoversLast(t);
    assert forall k :: d <= k < d + |Emit(t)| ==> total[k] == total[d..][k - d];
    assert total[d + |Emit(t)|..] == total[d..][|Emit(t)|..];
    assert |total| == d + |total[d..]|;
  }

  /** One turn of the loop of `FormatBody`. */
  method PutFront(body: seq<byte>, o: nat, out: array<byte>, d: nat) returns (o': nat, d': nat)
    requires o < |body| && d + 3 <= out.Length
    modifies out
    ensures o' == o + Front(body[o..]) && d' == d + |Emit(body[o..])|
    ensures out[..d'] == old(out[..d]) + Emit(body[o..])
  {
    o', d' := o, d;
    if body[o] != LF && body[o] != CR {
      out[d] := body[o];
      return o + 1, d + 1;
    }
    if body[o] == LF {
      out[d'], out[d' + 1] := CR, LF;
      d' := d' + 2;
    } else if CharAt(body, o + 1) != LF {
      out[d'], out[d' + 1] := CR, LF;
      d' := d' + 2;
    } else {
      out[d'], out[d' + 1] := CR, LF;
      d' := d' + 2;
      o' := o' + 1;
    }
    if CharAt(body, o' + 1) == DOT {
      out[d'] := DOT;
      d' := d' + 1;
    }
    o' := o' + 1;
  }

  /** The same, seen in the output `total`. */
  method Turn(body: seq<byte>, o: nat, out: array<byte>, d: nat, ghost total: seq<byte>) returns (o': nat, d': nat)
    requires o < |body| && d + 3 <= out.Length && d <= |total|
    requires total[d..] == Rest(body[o..]) && out[..d] == total[..d]
    modifies out
    ensures o < o' <= |body| && d' <= d + 3 && d' <= |total|
    ensures total[d'..] == Rest(body[o'..]) && out[..d'] == total[..d']
    ensures o' == |body| ==> |total| - LastSize(body) == d
  {
    BehindFront(body, total, o, d, o + Front(body[o..]), d + |Emit(body[o..])|);
    o', d' := PutFront(body, o, out, d);
  }

  lemma StartsWithDot(body: seq<byte>, total: seq<byte>)
    requires body != [] && body[0] == DOT && total == Formatted(body)
    ensures |total| >= 2 && total[0] == DOT && total[1] == DOT && total[2..] == Rest(body[1..])
  {
    DotAtStart(body);
    EmitFront(body);
    assert total == [DOT, DOT] + Rest(body[1..]);
  }

  lemma StartsWithout(body: seq<byte>, total: seq<byte>)
    requires (body != [] ==> body[0] != DOT) && total == Formatted(body)
    ensures total[0..] == Rest(body[0..])
  {
    DotAtStart(body);
    assert body[0..] == body && total[0..] == total;
    assert [] + Rest(body) == Rest(body);
  }

  lemma DropMore(s: seq<byte>, i: nat, n: nat)
    requires i + n <= |s|
    ensures s[i..][n..] == s[i + n..]
  {
  }

  /** Where the loop stands behind the next line break or character. */
  lemma BehindFront(body: seq<byte>, total: seq<byte>, o: nat, d: nat, o': nat, d': nat)
    requires o < |body| && d <= |total| && total[d..] == Rest(body[o..])
    requires o' == o + Front(body[o..]) && d' == d + |Emit(body[o..])|
    ensures o' <= |body| && d' <= |total| && total[d'..] == Rest(body[o'..])
    ensures total[..d'] == total[..d] + Emit(body[o..])
    ensures o' == |body| ==> |total| == d + LastSize(body) == d'
  {
    NextOutput(total, d, body[o..]);
    DropMore(body, o, Front(body[o..]));
    assert LastSize(body[o..]) == LastSize(body);
    assert total[..d'] == total[..d] + Emit(body[o..]);
  }

  /** The loop gives up, with more than the last character still to come: the body does not fit. */
  lemma Overflows(body: seq<byte>, o: nat, total: seq<byte>, d: nat, max: int)
    requires o < |body| && (body[0] == DOT ==> o > 0) && total == Formatted(body)
    requires d <= |total| && total[d..] == Rest(body[o..]) && d > max - 5
    ensures !Fits(body, max)
  {
    RestCoversLast(body[o..]);
    assert |total| == d + |total[d..]|;
    assert LastSize(body[o..]) == LastSize(body);
  }

  /** `FormatBody` of a terminated string: the length of the output, or -1. */
  method FormatBody(out: array<byte>, body: seq<byte>, max: int) returns (n: int)
    requires 0 < out.Length && max <= out.Length && forall i :: 0 <= i < |body| ==> body[i] != 0
    modifies out
    ensures n == if Fits(body, max) then |Formatted(body)| else -1
    ensures n >= 0 ==> n < max && out[..n] == Formatted(body) && out[n] == 0
  {
    if max < 3 {
      out[0] := 0;
      return -1;
    }
    ghost var total := Formatted(body);
    var o: nat, d: nat := 0, 0;
    if CharAt(body, 0) == DOT {
      StartsWithDot(body, total);
      out[0], out[1] := DOT, DOT;
      d := 2;
      o := 1;
    } else {
      StartsWithout(body, total);
    }
    var room := max - 5;
    ghost var first := o;
    assert o < |body| && body[0] == DOT ==> o > 0;
    while o < |body|
      invariant first <= o <= |body| && d <= |total| && d < max
      invariant total[d..] == Rest(body[o..])
      invariant out[..d] == total[..d]
      invariant first < o == |body| ==> |total| - LastSize(body) <= max - 5
    {
      if d > room {
        Overflows(body, o, total, d, max);
        out[d] := 0;
        return -1;
      }
      o, d := Turn(body, o, out, d, total);
    }
    assert |total| == d + |total[d..]|;
    out[d] := 0;
    n := d;
  }

  /** What is handed to the server for a body: it always fits, and ends with the terminator. */
  method PrepareData(body: seq<byte>) returns (data: array<byte>, len: nat)
    requires forall i :: 0 <= i < |body| ==> body[i] != 0
    ensures fresh(data) && len <= data.Length && data[..len] == Formatted(body) + END_OF_DATA
  {
    data := new byte[3 * |body| + 1024];
    TwiceSuffices(body, data.Length);
    var n := FormatBody(data, body, data.Length);
    Put(data, n, END_OF_DATA);
    len := n + |END_OF_DATA|;
  }
}
