/** The chained hash table `CHashTable` of AccessNode/Shared/HashTable.h: an array of singly linked
    buckets, edited through head and link pointers, refining a finite map.  The hash is any function
    of the key. */
module HashTables {
  import opened Basics

  /** All buckets one after the other. */
  ghost function Flatten<X>(ss: seq<seq<X>>): seq<X> {
    if ss == [] then [] else ss[0] + Flatten(ss[1..])
  }

  lemma {:induction false} FlattenSplit<X>(ss: seq<seq<X>>, b: nat)
    requires b <= |ss|
    ensures Flatten(ss) == Flatten(ss[..b]) + Flatten(ss[b..])
    decreases b
  {
    if b == 0 {
      assert ss[0..] == ss;
    } else {
      FlattenSplit(ss[1..], b - 1);
      assert ss[..b][1..] == ss[1..][..b - 1] && ss[1..][b - 1..] == ss[b..];
      assert Flatten(ss[..b]) == ss[0] + Flatten(ss[1..][..b - 1]);
    }
  }

  /** Which bucket, and which place in it, index `i` of the flattened sequence comes from. */
  lemma {:induction false} Locate<X>(ss: seq<seq<X>>, i: nat) returns (b: nat, j: nat)
    requires i < |Flatten(ss)|
    ensures b < |ss| && j < |ss[b]| && Flatten(ss)[i] == ss[b][j] && i == |Flatten(ss[..b])| + j
    decreases |ss|
  {
    if i < |ss[0]| {
      b, j := 0, i;
    } else {
      var b', j' := Locate(ss[1..], i - |ss[0]|);
      b, j := b' + 1, j';
      assert ss[..b][1..] == ss[1..][..b'];
      assert Flatten(ss[..b]) == ss[0] + Flatten(ss[1..][..b']);
    }
  }

  lemma PlaceOf<X>(ss: seq<seq<X>>, b: nat, j: nat)
    requires b < |ss| && j < |ss[b]|
    ensures |Flatten(ss[..b])| + j < |Flatten(ss)| && Flatten(ss)[|Flatten(ss[..b])| + j] == ss[b][j]
  {
    FlattenSplit(ss, b);
  }

  lemma {:induction false} FlattenEmpty<X>(ss: seq<seq<X>>)
    requires forall b :: 0 <= b < |ss| ==> ss[b] == []
    ensures Flatten(ss) == []
  {
    if ss != [] {
      FlattenEmpty(ss[1..]);
    }
  }

  /** The bucket that key `k` belongs to in a table of `n` buckets. */
  function Slot<K>(hash: K -> nat, n: nat, k: K): (b: nat)
    requires n > 0
    ensures b < n
  {
    hash(k) % n
  }

  /** Key `k` sits at place `i` of its bucket. */
  ghost predicate Holds<K, V>(es: seq<seq<(K, V)>>, b: nat, i: nat, k: K) {
    b < |es| && i < |es[b]| && es[b][i].0 == k
  }

  /** Every bucket holds only entries of `m` whose keys hash to it, no key occurs twice, and every
      key of `m` is there. */
  ghost predicate Refines<K(!new), V>(es: seq<seq<(K, V)>>, hash: K -> nat, m: map<K, V>) {
    && |es| > 0
    && (forall b, i :: 0 <= b < |es| && 0 <= i < |es[b]| ==>
          var e := es[b][i]; Slot(hash, |es|, e.0) == b && e.0 in m && m[e.0] == e.1)
    && (forall b, i, j :: 0 <= b < |es| && 0 <= i < j < |es[b]| ==> es[b][i].0 != es[b][j].0)
    && (forall k :: k in m ==> exists i: nat :: Holds(es, Slot(hash, |es|, k), i, k))
  }

  lemma SetNew<K(!new), V>(es: seq<seq<(K, V)>>, hash: K -> nat, m: map<K, V>, key: K, value: V)
    requires Refines(es, hash, m) && key !in m
    ensures var b := Slot(hash, |es|, key);
            Refines(es[b := [(key, value)] + es[b]], hash, m[key := value])
  {
    var b := Slot(hash, |es|, key);
    var es' := es[b := [(key, value)] + es[b]];
    forall k | k in m[key := value]
      ensures exists i: nat :: Holds(es', Slot(hash, |es|, k), i, k)
    {
      if k == key {
        assert Holds(es', b, 0, k);
      } else {
        var i: nat :| Holds(es, Slot(hash, |es|, k), i, k);
        assert Holds(es', Slot(hash, |es|, k), if Slot(hash, |es|, k) == b then i + 1 else i, k);
      }
    }
  }

  lemma SetOld<K(!new), V>(es: seq<seq<(K, V)>>, hash: K -> nat, m: map<K, V>, b: nat, i: nat, value: V)
    requires Refines(es, hash, m) && b < |es| && i < |es[b]|
    ensures var key := es[b][i].0;
            Refines(es[b := es[b][i := (key, value)]], hash, m[key := value])
  {
    var key := es[b][i].0;
    var es' := es[b := es[b][i := (key, value)]];
    forall k | k in m[key := value]
      ensures exists i: nat :: Holds(es', Slot(hash, |es|, k), i, k)
    {
      var j: nat :| Holds(es, Slot(hash, |es|, k), j, k);
      assert Holds(es', Slot(hash, |es|, k), j, k);
    }
  }

  lemma Removed<K(!new), V>(es: seq<seq<(K, V)>>, hash: K -> nat, m: map<K, V>, b: nat, i: nat)
    requires Refines(es, hash, m) && b < |es| && i < |es[b]|
    ensures Refines(es[b := Without(es[b], i)], hash, m - {es[b][i].0})
  {
    var key := es[b][i].0;
    var es' := es[b := Without(es[b], i)];
    forall k | k in m - {key}
      ensures exists i: nat :: Holds(es', Slot(hash, |es|, k), i, k)
    {
      var j: nat :| Holds(es, Slot(hash, |es|, k), j, k);
      assert Holds(es', Slot(hash, |es|, k), if Slot(hash, |es|, k) == b && j > i then j - 1 else j, k);
    }
  }

  /** Read bucket by bucket, the entries list every key of the map exactly once. */
  lemma EveryKeyOnce<K(!new), V>(es: seq<seq<(K, V)>>, hash: K -> nat, m: map<K, V>)
    requires Refines(es, hash, m)
    ensures forall i :: 0 <= i < |Flatten(es)| ==> Flatten(es)[i].0 in m
    ensures forall k :: k in m ==> exists i :: 0 <= i < |Flatten(es)| && Flatten(es)[i].0 == k
    ensures forall i, j :: 0 <= i < j < |Flatten(es)| ==> Flatten(es)[i].0 != Flatten(es)[j].0
  {
    forall i | 0 <= i < |Flatten(es)|
      ensures Flatten(es)[i].0 in m
    {
      var b, j := Locate(es, i);
    }
    forall k | k in m
      ensures exists i :: 0 <= i < |Flatten(es)| && Flatten(es)[i].0 == k
    {
      var j: nat :| Holds(es, Slot(hash, |es|, k), j, k);
      PlaceOf(es, Slot(hash, |es|, k), j);
    }
    forall i, j | 0 <= i < j < |Flatten(es)|
      ensures Flatten(es)[i].0 != Flatten(es)[j].0
    {
      var b, p := Locate(es, i);
      var c, q := Locate(es, j);
      if b == c {
        assert p < q;
        assert es[b][p].0 != es[b][q].0;
      } else {
        assert Slot(hash, |es|, es[b][p].0) == b && Slot(hash, |es|, es[c][q].0) == c;
      }
    }
  }

  class HashElem<K, V> {
    const key: K
    var value: V
    var next: HashElem?<K, V>

    constructor (k: K, v: V)
      ensures key == k && value == v
    {
      key, value := k, v;
      next := null;
    }
  }

  /** A bucket: the nodes `chain`, linked from `head`, carry the entries `es`. */
  ghost predicate Bucket<K, V>(head: HashElem?<K, V>, chain: seq<HashElem<K, V>>, es: seq<(K, V)>)
    reads chain
  {
    && |chain| == |es|
    && head == (if chain == [] then null else chain[0])
    && (forall i {:trigger chain[i].next} :: 0 <= i < |chain| ==>
          chain[i].next == if i + 1 < |chain| then chain[i + 1] else null)
    && (forall i {:trigger chain[i]} {:trigger es[i]} :: 0 <= i < |chain| ==>
          es[i] == (chain[i].key, chain[i].value))
  }

  ghost predicate Within<X>(s: seq<X>, repr: set<X>) {
    forall i :: 0 <= i < |s| ==> s[i] in repr
  }

  lemma BucketPush<K, V>(node: HashElem<K, V>, chain: seq<HashElem<K, V>>, es: seq<(K, V)>)
    requires Bucket(node.next, chain, es)
    ensures Bucket(node, [node] + chain, [(node.key, node.value)] + es)
  {
    var chain', es' := [node] + chain, [(node.key, node.value)] + es;
    forall i | 0 <= i < |chain'|
      ensures chain'[i].next == if i + 1 < |chain'| then chain'[i + 1] else null
      ensures es'[i] == (chain'[i].key, chain'[i].value)
    {
      if i > 0 {
        assert chain'[i] == chain[i - 1] && es'[i] == es[i - 1];
      }
    }
  }

  class HashTable<K(==, !new), V> {
    const hash: K -> nat
    const table: array<HashElem?<K, V>>
    ghost var Chains: seq<seq<HashElem<K, V>>>  // the nodes of each bucket, in link order
    ghost var Entries: seq<seq<(K, V)>>         // what those nodes carry
    ghost var Repr: set<HashElem<K, V>>
    ghost var M: map<K, V>                      // the finite map this table stands for

    /** Every table slot links the nodes of its bucket. */
    ghost predicate Shape()
      reads this, table, Repr
    {
      && |Chains| == |Entries| == table.Length
      && (forall b :: 0 <= b < |Chains| ==> Within(Chains[b], Repr))
      && (forall b :: 0 <= b < |Chains| ==> Bucket(table[b], Chains[b], Entries[b]))
    }

    ghost predicate Valid()
      reads this, table, Repr
    {
      Shape() && Refines(Entries, hash, M)
    }

    constructor (size: nat, hash: K -> nat)
      requires size > 0
      ensures Valid() && fresh(table) && Repr == {} && M == map[] && this.hash == hash
    {
      this.hash := hash;
      table := new HashElem?<K, V>[size](_ => null);
      Chains, Entries, Repr, M := seq(size, _ => []), seq(size, _ => []), {}, map[];
    }

    method FindKey(key: K) returns (elem: HashElem?<K, V>, ghost i: nat)
      requires Valid()
      ensures elem == null <==> key !in M
      ensures var b := Slot(hash, table.Length, key);
              elem != null ==> i < |Chains[b]| && Chains[b][i] == elem && Entries[b][i] == (key, M[key])
    {
      var b := Slot(hash, table.Length, key);
      ghost var chain, es := Chains[b], Entries[b];
      elem := table[b];
      i := 0;
      while elem != null && elem.key != key
        invariant Bucket(table[b], chain, es)
        invariant i <= |chain| && elem == (if i < |chain| then chain[i] else null)
        invariant forall j :: 0 <= j < i ==> es[j].0 != key
        decreases |chain| - i
      {
        assert chain[i] == elem;
        elem := elem.next;
        i := i + 1;
      }
      if elem == null {
        assert forall j: nat :: !Holds(Entries, b, j, key);
      }
    }

    method Get(key: K) returns (r: Option<V>)
      requires Valid()
      ensures r == if key in M then Some(M[key]) else None
    {
      var elem, i := FindKey(key);
      if elem != null {
        ghost var b := Slot(hash, table.Length, key);
        assert Bucket(table[b], Chains[b], Entries[b]);
        return Some(elem.value);
      }
      return None;
    }

    /** Nodes of different buckets, and different nodes of one bucket, are different objects. */
    lemma NodesAreDistinct(b: nat, i: nat, c: nat, j: nat)
      requires Valid() && b < |Chains| && i < |Chains[b]| && c < |Chains| && j < |Chains[c]|
      requires Chains[b][i] == Chains[c][j]
      ensures b == c && i == j
    {
      assert Bucket(table[b], Chains[b], Entries[b]) && Bucket(table[c], Chains[c], Entries[c]);
      assert Entries[b][i].0 == Entries[c][j].0;
      assert Slot(hash, table.Length, Entries[b][i].0) == b && Slot(hash, table.Length, Entries[c][j].0) == c;
    }

    lemma OnlyPlace(b: nat, i: nat)
      requires Valid() && b < |Chains| && i < |Chains[b]|
      ensures forall c, j :: 0 <= c < |Chains| && 0 <= j < |Chains[c]| && Chains[c][j] == Chains[b][i] ==>
                               c == b && j == i
    {
      forall c, j | 0 <= c < |Chains| && 0 <= j < |Chains[c]| && Chains[c][j] == Chains[b][i]
        ensures c == b && j == i
      {
        NodesAreDistinct(b, i, c, j);
      }
    }

    /** Overwrites the value of a key that is there; otherwise pushes a node at the bucket's head. */
    method Set(key: K, value: V)
      requires Valid()
      modifies this, table, Repr
      ensures Valid() && fresh(Repr - old(Repr))
      ensures M == old(M)[key := value]
    {
      var elem, i := FindKey(key);
      if elem != null {
        ghost var b := Slot(hash, table.Length, key);
        assert Bucket(table[b], Chains[b], Entries[b]);
        Overwrite(elem, b, i, value);
      } else {
        PushFront(key, value);
      }
    }

    method Overwrite(elem: HashElem<K, V>, ghost b: nat, ghost i: nat, value: V)
      requires Valid() && b < |Chains| && i < |Chains[b]| == |Entries[b]| && Chains[b][i] == elem
      requires Entries[b][i].0 == elem.key
      modifies this`Entries, this`M, elem`value
      ensures Valid() && M == old(M)[elem.key := value]
    {
      SetOld(Entries, hash, M, b, i, value);
      OnlyPlace(b, i);
      M := M[elem.key := value];
      Rewrite(elem, b, i, value);
    }

    method Rewrite(elem: HashElem<K, V>, ghost b: nat, ghost i: nat, value: V)
      requires Shape() && b < |Chains| && i < |Chains[b]| == |Entries[b]| && Chains[b][i] == elem
      requires forall c, j :: 0 <= c < |Chains| && 0 <= j < |Chains[c]| && Chains[c][j] == elem ==> c == b && j == i
      modifies this`Entries, elem`value
      ensures Shape() && Entries == old(Entries)[b := old(Entries)[b][i := (elem.key, value)]]
    {
      assert Bucket(table[b], Chains[b], Entries[b]);
      elem.value := value;
      Entries := Entries[b := Entries[b][i := (elem.key, value)]];
      assert Bucket(table[b], Chains[b], Entries[b]);
      forall c | 0 <= c < |Chains| && c != b
        ensures Bucket(table[c], Chains[c], Entries[c])
      {
        assert old(Bucket(table[c], Chains[c], Entries[c]));
      }
    }

    method PushFront(key: K, value: V)
      requires Valid() && key !in M
      modifies this`Chains, this`Entries, this`Repr, this`M, table
      ensures Valid() && fresh(Repr - old(Repr))
      ensures M == old(M)[key := value]
    {
      SetNew(Entries, hash, M, key, value);
      Push(key, value);
      M := M[key := value];
    }

    method Push(key: K, value: V)
      requires Shape() && table.Length > 0
      modifies this`Chains, this`Entries, this`Repr, table
      ensures Shape() && fresh(Repr - old(Repr))
      ensures var b := Slot(hash, table.Length, key);
              Entries == old(Entries)[b := [(key, value)] + old(Entries)[b]]
    {
      var tmp := new HashElem(key, value);
      var b := Slot(hash, table.Length, key);
      ghost var chain, es := Chains[b], Entries[b];
      assert Bucket(table[b], chain, es) && Within(chain, Repr);
      tmp.next := table[b];
      table[b] := tmp;
      BucketPush(tmp, chain, es);
      Chains := Chains[b := [tmp] + chain];
      Entries := Entries[b := [(key, value)] + es];
      Repr := Repr + {tmp};
      assert Within(Chains[b], Repr);
      forall c | 0 <= c < |Chains| && c != b
        ensures Bucket(table[c], Chains[c], Entries[c]) && Within(Chains[c], Repr)
      {
        assert old(Bucket(table[c], Chains[c], Entries[c]) && Within(Chains[c], Repr));
      }
    }

    /** Unlinks the node with the given key, from its table slot or from its predecessor. */
    method Remove(key: K)
      requires Valid()
      modifies this, table, Repr
      ensures Valid() && Repr == old(Repr)
      ensures M == old(M) - {key}
    {
      var b := Slot(hash, table.Length, key);
      ghost var chain, es := Chains[b], Entries[b];
      var prev: HashElem?<K, V> := null;
      var it := table[b];
      ghost var i := 0;
      while it != null && it.key != key
        invariant Bucket(table[b], chain, es)
        invariant i <= |chain| && it == (if i < |chain| then chain[i] else null)
        invariant prev == (if i == 0 then null else chain[i - 1])
        invariant forall j :: 0 <= j < i ==> es[j].0 != key
        decreases |chain| - i
      {
        assert chain[i] == it;
        prev := it;
        it := it.next;
        i := i + 1;
      }
      if it == null {
        assert forall j: nat :: !Holds(Entries, b, j, key);
        assert M == M - {key};
        return;
      }
      RemoveNode(prev, it, b, i);
    }

    method RemoveNode(prev: HashElem?<K, V>, it: HashElem<K, V>, b: nat, ghost i: nat)
      requires Valid() && b < |Chains| && i < |Chains[b]| == |Entries[b]| && Chains[b][i] == it
      requires prev == if i == 0 then null else Chains[b][i - 1]
      modifies this, table, Repr
      ensures Valid() && Repr == old(Repr) && M == old(M) - {old(Entries)[b][i].0}
    {
      ghost var key := Entries[b][i].0;
      Removed(Entries, hash, M, b, i);
      ghost var preds := if prev == null then {} else {prev};
      if prev != null {
        OnlyPlace(b, i - 1);
        assert Within(Chains[b], Repr);
      }
      Unlink(prev, it, b, i, preds);
      M := M - {key};
    }

    method Unlink(prev: HashElem?<K, V>, it: HashElem<K, V>, b: nat, ghost i: nat, ghost preds: set<HashElem<K, V>>)
      requires Shape() && b < |Chains| && i < |Chains[b]| == |Entries[b]| && Chains[b][i] == it
      requires prev == if i == 0 then null else Chains[b][i - 1]
      requires forall c, j :: 0 <= c < |Chains| && 0 <= j < |Chains[c]| && Chains[c][j] in preds ==> c == b && j == i - 1
      requires preds == if prev == null then {} else {prev}
      modifies this`Chains, this`Entries, table, preds
      ensures Shape() && Entries == old(Entries)[b := Without(old(Entries)[b], i)]
    {
      ghost var chains, entries := Chains, Entries;
      Chains := chains[b := Without(chains[b], i)];
      Entries := entries[b := Without(entries[b], i)];
      Relink(prev, it, b, i, preds, chains, entries);
    }

    /** The pointer update of `Unlink`: bucket `b` loses its node `i`, the others stay as they are. */
    method Relink(prev: HashElem?<K, V>, it: HashElem<K, V>, b: nat, ghost i: nat,
                  ghost preds: set<HashElem<K, V>>, ghost chains: seq<seq<HashElem<K, V>>>,
                  ghost entries: seq<seq<(K, V)>>)
      requires b < |chains| == |entries| == table.Length
      requires forall c :: 0 <= c < |chains| ==> Bucket(table[c], chains[c], entries[c])
      requires i < |chains[b]| == |entries[b]| && chains[b][i] == it
      requires prev == if i == 0 then null else chains[b][i - 1]
      requires forall c, j :: 0 <= c < |chains| && 0 <= j < |chains[c]| && chains[c][j] in preds ==> c == b && j == i - 1
      requires preds == if prev == null then {} else {prev}
      modifies table, preds
      ensures var chains' := chains[b := Without(chains[b], i)];
              var entries' := entries[b := Without(entries[b], i)];
              forall c :: 0 <= c < |chains| ==> Bucket(table[c], chains'[c], entries'[c])
    {
      ghost var chain, es := chains[b], entries[b];
      ghost var chain', es' := Without(chain, i), Without(es, i);
      assert Bucket(table[b], chain, es);
      if prev == null {
        table[b] := it.next;
      } else {
        prev.next := it.next;
      }
      forall j | 0 <= j < |chain'|
        ensures chain'[j].next == if j + 1 < |chain'| then chain'[j + 1] else null
        ensures es'[j] == (chain'[j].key, chain'[j].value)
      {
        assert chain'[j] == chain[if j < i then j else j + 1] && es'[j] == es[if j < i then j else j + 1];
      }
      assert Bucket(table[b], chain', es');
      forall c | 0 <= c < |chains| && c != b
        ensures Bucket(table[c], chains[c], entries[c])
      {
        assert old(Bucket(table[c], chains[c], entries[c]));
      }
    }

    /** The order in which a walk visits the nodes. */
    ghost function Order(): seq<HashElem<K, V>>
      reads this
    {
      Flatten(Chains)
    }

    /** The first node in bucket `from` or behind it. */
    method FirstFrom(from: nat) returns (pos: HashElem?<K, V>)
      requires Valid() && from <= table.Length
      ensures var rest := Flatten(Chains[from..]);
              pos == if rest == [] then null else rest[0]
    {
      for b := from to table.Length
        invariant forall c :: from <= c < b ==> Chains[c] == []
      {
        assert Bucket(table[b], Chains[b], Entries[b]);
        if table[b] != null {
          SkipEmpty(Chains, from, b);
          return table[b];
        }
      }
      FlattenEmpty(Chains[from..]);
      return null;
    }

    method GetFirstPos() returns (pos: HashElem?<K, V>)
      requires Valid()
      ensures pos == if Order() == [] then null else Order()[0]
    {
      pos := FirstFrom(0);
      assert Chains[0..] == Chains;
    }

    /** The cursor is the node itself; from it alone the walk finds the node that comes next. */
    method GetNext(pos: HashElem<K, V>, ghost i: nat) returns (next: HashElem?<K, V>)
      requires Valid() && i < |Order()| && Order()[i] == pos
      ensures next == if i + 1 < |Order()| then Order()[i + 1] else null
    {
      ghost var b, j := Locate(Chains, i);
      assert Bucket(table[b], Chains[b], Entries[b]);
      assert Slot(hash, table.Length, Entries[b][j].0) == b;
      FlattenSplit(Chains, b);
      assert Chains[b..][1..] == Chains[b + 1..];
      if pos.next != null {
        return pos.next;
      }
      next := FirstFrom(Slot(hash, table.Length, pos.key) + 1);
    }

    /** The walk the two cursor operations are made for: it ends, and meets every key of an
        unchanged table exactly once. */
    method Walk() returns (keys: seq<K>)
      requires Valid()
      ensures |keys| == |Order()| && forall k :: k in keys <==> k in M
      ensures forall i, j :: 0 <= i < j < |keys| ==> keys[i] != keys[j]
    {
      keys := [];
      var pos := GetFirstPos();
      while pos != null
        invariant |keys| <= |Order()|
        invariant forall i :: 0 <= i < |keys| ==> keys[i] == Order()[i].key
        invariant pos == if |keys| < |Order()| then Order()[|keys|] else null
        decreases |Order()| - |keys|
      {
        var key := pos.key;
        pos := GetNext(pos, |keys|);
        keys := keys + [key];
      }
      OrderIsTheMap(keys);
    }

    /** The keys in walking order are the keys of the map, each once. */
    lemma OrderIsTheMap(keys: seq<K>)
      requires Valid() && |keys| == |Order()|
      requires forall i :: 0 <= i < |keys| ==> keys[i] == Order()[i].key
      ensures forall k :: k in keys <==> k in M
      ensures forall i, j :: 0 <= i < j < |keys| ==> keys[i] != keys[j]
    {
      SameShape();
      EveryKeyOnce(Entries, hash, M);
      forall k
        ensures k in keys <==> k in M
      {
        if k in M {
          var i :| 0 <= i < |Flatten(Entries)| && Flatten(Entries)[i].0 == k;
          assert keys[i] == k;
        }
      }
    }

    /** The nodes in walking order carry the entries in bucket order. */
    lemma SameShape()
      requires Valid()
      ensures |Order()| == |Flatten(Entries)|
      ensures forall i :: 0 <= i < |Order()| ==> Order()[i].key == Flatten(Entries)[i].0
    {
      forall b | 0 <= b < |Chains|
        ensures |Chains[b]| == |Entries[b]|
        ensures forall i :: 0 <= i < |Chains[b]| ==> Chains[b][i].key == Entries[b][i].0
      {
        assert Bucket(table[b], Chains[b], Entries[b]);
      }
      FlattenTogether(Chains, Entries);
    }
  }

  lemma {:induction false} FlattenTogether<K, V>(chains: seq<seq<HashElem<K, V>>>, es: seq<seq<(K, V)>>)
    requires |chains| == |es|
    requires forall b :: 0 <= b < |chains| ==> |chains[b]| == |es[b]|
    requires forall b, i :: 0 <= b < |chains| && 0 <= i < |chains[b]| ==> chains[b][i].key == es[b][i].0
    ensures |Flatten(chains)| == |Flatten(es)|
    ensures forall i :: 0 <= i < |Flatten(chains)| ==> Flatten(chains)[i].key == Flatten(es)[i].0
  {
    if chains != [] {
      FlattenTogether(chains[1..], es[1..]);
    }
  }

  /** Empty buckets do not show in the flattened sequence. */
  lemma SkipEmpty<X>(ss: seq<seq<X>>, from: nat, b: nat)
    requires from <= b < |ss| && ss[b] != []
    requires forall c :: from <= c < b ==> ss[c] == []
    ensures Flatten(ss[from..]) != [] && Flatten(ss[from..])[0] == ss[b][0]
  {
    FlattenEmpty(ss[from..b]);
    FlattenSplit(ss[from..], b - from);
    assert ss[from..][..b - from] == ss[from..b] && ss[from..][b - from..] == ss[b..];
  }
}
