/**
 * The object tree `parseYaml` builds: string leaves and nested mappings.
 * A JavaScript object is modelled as an association list in property order;
 * assigning an existing property keeps its position, a new property goes last.
 */
module YamlTree {
  import opened Wrappers

  datatype Node = Scalar(text: string) | Mapping(entries: seq<Entry>)
  datatype Entry = Entry(key: string, value: Node)

  predicate UniqueKeys(es: seq<Entry>) {
    forall i, j :: 0 <= i < j < |es| ==> es[i].key != es[j].key
  }

  /** Every mapping in the tree has each key at most once, as a JavaScript object does. */
  predicate Unique(n: Node) {
    match n
    case Scalar(_) => true
    case Mapping(es) => UniqueKeys(es) && forall i :: 0 <= i < |es| ==> Unique(es[i].value)
  }

  /** Position of the entry for `k`, if any. */
  function Find(es: seq<Entry>, k: string): (r: Option<nat>)
    ensures r.None? <==> forall i :: 0 <= i < |es| ==> es[i].key != k
    ensures r.Some? ==> r.value < |es| && es[r.value].key == k
    ensures r.Some? ==> forall i :: 0 <= i < r.value ==> es[i].key != k
  {
    if es == [] then None
    else if es[0].key == k then Some(0)
    else match Find(es[1..], k)
      case None => None
      case Some(i) => Some(i + 1)
  }

  /** `obj[k]` for an own property. */
  function Get(es: seq<Entry>, k: string): Option<Node>
  {
    match Find(es, k)
    case None => None
    case Some(i) => Some(es[i].value)
  }

  /** `obj[k] = v`: overwrite in place when the key exists, otherwise append. */
  function Put(es: seq<Entry>, k: string, v: Node): (r: seq<Entry>)
    ensures Get(r, k) == Some(v)
    ensures forall k' :: k' != k ==> Get(r, k') == Get(es, k')
    ensures Find(es, k).Some? ==> |r| == |es| && forall i :: 0 <= i < |es| ==> r[i].key == es[i].key
    ensures Find(es, k).None? ==> r == es + [Entry(k, v)]
    ensures UniqueKeys(es) ==> UniqueKeys(r)
  {
    match Find(es, k)
    case Some(i) =>
      PutExisting(es, i, k, v);
      es[i := Entry(k, v)]
    case None =>
      PutNew(es, k, v);
      es + [Entry(k, v)]
  }

  lemma PutExisting(es: seq<Entry>, i: nat, k: string, v: Node)
    requires Find(es, k) == Some(i)
    ensures var r := es[i := Entry(k, v)];
      && Find(r, k) == Some(i)
      && (forall k' :: Find(r, k') == Find(es, k'))
      && (forall j :: 0 <= j < |es| ==> r[j].key == es[j].key)
  {
    var r := es[i := Entry(k, v)];
    assert forall j :: 0 <= j < |es| ==> r[j].key == es[j].key;
    forall k' ensures Find(r, k') == Find(es, k') {
      FindSameKeys(es, r, k');
    }
  }

  lemma PutNew(es: seq<Entry>, k: string, v: Node)
    requires Find(es, k).None?
    ensures var r := es + [Entry(k, v)];
      && Find(r, k) == Some(|es|)
      && (forall k' :: k' != k ==> Find(r, k') == Find(es, k'))
      && (UniqueKeys(es) ==> UniqueKeys(r))
  {
    var r := es + [Entry(k, v)];
    FindAppend(es, Entry(k, v), k);
    forall k' | k' != k ensures Find(r, k') == Find(es, k') {
      FindAppend(es, Entry(k, v), k');
    }
    if UniqueKeys(es) {
      assert forall j :: 0 <= j < |es| ==> r[j] == es[j];
    }
  }

  lemma {:induction false} FindAppend(es: seq<Entry>, e: Entry, k: string)
    ensures Find(es + [e], k) ==
      if Find(es, k).Some? then Find(es, k) else if e.key == k then Some(|es|) else None
  {
    if es != [] {
      assert (es + [e])[1..] == es[1..] + [e];
      FindAppend(es[1..], e, k);
    }
  }

  lemma FindSameKeys(es: seq<Entry>, r: seq<Entry>, k: string)
    requires |es| == |r| && forall i :: 0 <= i < |es| ==> es[i].key == r[i].key
    ensures Find(es, k) == Find(r, k)
  {
    var a, b := Find(es, k), Find(r, k);
    if a.Some? && b.Some? {
      assert !(a.value < b.value) && !(b.value < a.value);
    }
  }

  /** The node reached by following `path` from `n`: `n[p0][p1]...`. */
  function Lookup(n: Node, path: seq<string>): Option<Node>
    decreases |path|
  {
    if path == [] then Some(n)
    else match n
      case Scalar(_) => None
      case Mapping(es) =>
        match Get(es, path[0])
        case None => None
        case Some(c) => Lookup(c, path[1..])
  }

  predicate IsMapAt(n: Node, path: seq<string>) {
    Lookup(n, path).Some? && Lookup(n, path).value.Mapping?
  }

  /** `Lookup(n, path)[k] = v`, written into the tree. */
  function SetAt(n: Node, path: seq<string>, k: string, v: Node): Node
    decreases |path|
  {
    match n
    case Scalar(_) => n
    case Mapping(es) =>
      if path == [] then Mapping(Put(es, k, v))
      else match Get(es, path[0])
        case None => n
        case Some(c) => Mapping(Put(es, path[0], SetAt(c, path[1..], k, v)))
  }

  /** Looking up a concatenated path is looking up in two stages. */
  lemma {:induction false} LookupAppend(n: Node, p: seq<string>, q: seq<string>)
    requires Lookup(n, p).Some?
    ensures Lookup(n, p + q) == Lookup(Lookup(n, p).value, q)
    decreases |p|
  {
    if p != [] {
      assert (p + q)[0] == p[0] && (p + q)[1..] == p[1..] + q;
      var c := Get(n.entries, p[0]).value;
      LookupAppend(c, p[1..], q);
    } else {
      assert p + q == q;
    }
  }

  /** Every ancestor of a mapping is a mapping. */
  lemma {:induction false} PrefixIsMap(n: Node, p: seq<string>, j: nat)
    requires IsMapAt(n, p) && j <= |p|
    ensures IsMapAt(n, p[..j])
    decreases |p|
  {
    if j > 0 {
      var c := Get(n.entries, p[0]).value;
      PrefixIsMap(c, p[1..], j - 1);
      assert p[1..][..j - 1] == p[..j][1..];
    }
  }

  /** Writing `k` into the mapping at `p` leaves a mapping at `p` whose entries are updated by Put. */
  lemma {:induction false} SetAtStores(n: Node, p: seq<string>, k: string, v: Node)
    requires IsMapAt(n, p)
    ensures Lookup(SetAt(n, p, k, v), p) == Some(Mapping(Put(Lookup(n, p).value.entries, k, v)))
    decreases |p|
  {
    if p != [] {
      var c := Get(n.entries, p[0]).value;
      SetAtStores(c, p[1..], k, v);
    }
  }

  /** After the write, `p + [k]` leads to `v` and every prefix of `p` is still a mapping. */
  lemma SetAtFound(n: Node, p: seq<string>, k: string, v: Node)
    requires IsMapAt(n, p)
    ensures Lookup(SetAt(n, p, k, v), p + [k]) == Some(v)
    ensures forall j :: 0 <= j <= |p| ==> IsMapAt(SetAt(n, p, k, v), p[..j])
  {
    var m := SetAt(n, p, k, v);
    SetAtStores(n, p, k, v);
    LookupAppend(m, p, [k]);
    forall j | 0 <= j <= |p| ensures IsMapAt(m, p[..j]) {
      PrefixIsMap(m, p, j);
    }
  }

  predicate IsPrefix(q: seq<string>, p: seq<string>) {
    |q| <= |p| && q == p[..|q|]
  }

  /** Two paths with the same first key: one is a prefix of the other iff their tails are. */
  lemma PrefixTail(q: seq<string>, p: seq<string>)
    requires q != [] && p != [] && q[0] == p[0]
    ensures IsPrefix(q, p) <==> IsPrefix(q[1..], p[1..])
  {
    if IsPrefix(q, p) {
      assert q[1..] == p[..|q|][1..];
    }
    if IsPrefix(q[1..], p[1..]) {
      assert q == [q[0]] + q[1..];
      assert p[..|q|] == [p[0]] + p[1..][..|q| - 1];
    }
  }

  /** Nothing outside the written mapping changes: a path that is neither an ancestor of
      the written mapping nor runs through the written key leads where it did before. */
  lemma {:induction false} SetAtFrame(n: Node, p: seq<string>, k: string, v: Node, q: seq<string>)
    requires IsMapAt(n, p)
    requires !IsPrefix(q, p) && !IsPrefix(p + [k], q)
    ensures Lookup(SetAt(n, p, k, v), q) == Lookup(n, q)
    decreases |p|
  {
    var es := n.entries;
    assert q != [];
    if p == [] {
      assert q[0] != k by {
        assert q[..1] == [q[0]];
      }
    } else if q[0] != p[0] {
    } else {
      var c := Get(es, p[0]).value;
      PrefixTail(q, p);
      PrefixTail(p + [k], q);
      assert (p + [k])[1..] == p[1..] + [k];
      SetAtFrame(c, p[1..], k, v, q[1..]);
    }
  }

  /** The writes `parseYaml` performs keep keys unique in every mapping. */
  lemma {:induction false} SetAtUnique(n: Node, p: seq<string>, k: string, v: Node)
    requires Unique(n) && Unique(v)
    ensures Unique(SetAt(n, p, k, v))
    decreases |p|
  {
    match n
    case Scalar(_) =>
    case Mapping(es) =>
      if p == [] {
        PutUnique(es, k, v);
      } else if Get(es, p[0]).Some? {
        var c := Get(es, p[0]).value;
        assert Unique(c) by {
          var i := Find(es, p[0]).value;
          assert c == es[i].value;
        }
        SetAtUnique(c, p[1..], k, v);
        PutUnique(es, p[0], SetAt(c, p[1..], k, v));
      }
  }

  lemma PutUnique(es: seq<Entry>, k: string, v: Node)
    requires UniqueKeys(es) && (forall i :: 0 <= i < |es| ==> Unique(es[i].value)) && Unique(v)
    ensures Unique(Mapping(Put(es, k, v)))
  {
    var r := Put(es, k, v);
    forall i | 0 <= i < |r| ensures Unique(r[i].value) {
      if Find(es, k).Some? {
        var j := Find(es, k).value;
        if i != j {
          assert r[i] == es[i];
        }
      } else if i < |es| {
        assert r[i] == es[i];
      }
    }
  }
}
