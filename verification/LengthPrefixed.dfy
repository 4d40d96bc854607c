/** Command streams: every command stands behind its length as a 16-bit number in network order. */
module LengthPrefixed {
  import opened Basics
  import opened Bytes

  function Prefixed(body: seq<byte>): seq<byte> {
    Be16(|body| % 0x10000) + body
  }

  function Stream(bodies: seq<seq<byte>>): seq<byte> {
    if bodies == [] then [] else Prefixed(bodies[0]) + Stream(bodies[1..])
  }

  lemma {:induction false} StreamAppend(a: seq<seq<byte>>, b: seq<seq<byte>>)
    ensures Stream(a + b) == Stream(a) + Stream(b)
  {
    if a == [] {
      assert a + b == b;
    } else {
      StreamAppend(a[1..], b);
      assert (a + b)[1..] == a[1..] + b;
      Assoc(Prefixed(a[0]), Stream(a[1..]), Stream(b));
    }
  }

  /** Cuts a stream into commands by its length prefixes. */
  function Split(s: seq<byte>): Option<seq<seq<byte>>>
    decreases |s|
  {
    if s == [] then Some([])
    else if |s| < 2 || |s| < 2 + FromBe16(s[..2]) then None
    else
      var n := FromBe16(s[..2]);
      match Split(s[2 + n..])
      case None => None
      case Some(bodies) => Some([s[2..2 + n]] + bodies)
  }

  lemma SplitFirst(body: seq<byte>, rest: seq<byte>)
    requires |body| < 0x10000
    ensures Split(Prefixed(body) + rest) ==
            (match Split(rest) case None => None case Some(bodies) => Some([body] + bodies))
  {
    var s := Prefixed(body) + rest;
    Be16RoundTrip(|body|);
    assert s[..2] == Be16(|body|);
    assert s[2..2 + |body|] == body;
    assert s[2 + |body|..] == rest;
  }

  predicate AllShort(bodies: seq<seq<byte>>) {
    forall i :: 0 <= i < |bodies| ==> |bodies[i]| < 0x10000
  }

  /** Splitting by the length prefixes recovers exactly the commands. */
  lemma {:induction false} SplitStream(bodies: seq<seq<byte>>)
    requires AllShort(bodies)
    ensures Split(Stream(bodies)) == Some(bodies)
  {
    if bodies != [] {
      SplitStream(bodies[1..]);
      SplitFirst(bodies[0], Stream(bodies[1..]));
      assert [bodies[0]] + bodies[1..] == bodies;
    }
  }
}
