/**
 * `getAllKeyPaths` (check-i18n.js): the dot-joined paths of a parsed tree's leaves.
 * A leaf is a string value or an empty mapping; a non-empty mapping is descended into.
 *
 * `KeyPaths` is the function itself. `Leaves` is an independent description of the same
 * walk as sequences of keys, and `IsLeafPath` says what a leaf is in terms of `Lookup`;
 * the lemmas connect the three.
 */
module KeyPaths {
  import opened Wrappers
  import opened Text
  import opened YamlTree

  /** `prefix ? prefix + '.' + key : key`: the empty prefix is falsy, so it adds no dot. */
  function FullPath(prefix: string, key: string): string {
    if prefix == "" then key else prefix + "." + key
  }

  /** A value the walk descends into: `typeof v === 'object'` with at least one key. */
  predicate Descends(v: Node) {
    v.Mapping? && v.entries != []
  }

  /** `getAllKeyPaths(obj, prefix)` on the entries of `obj`, in property order. Every
      entry contributes at least one path. */
  function KeyPaths(es: seq<Entry>, prefix: string): (r: seq<string>)
    ensures |r| >= |es|
    decreases es
  {
    if es == [] then []
    else
      var full := FullPath(prefix, es[0].key);
      (if Descends(es[0].value) then KeyPaths(es[0].value.entries, full) else [full])
        + KeyPaths(es[1..], prefix)
  }

  /** `getAllKeyPaths(parseYaml(...))`: the walk from the root with the default prefix. */
  function AllKeyPaths(root: Node): seq<string> {
    match root
    case Scalar(_) => []
    case Mapping(es) => KeyPaths(es, "")
  }

  // ---------------------------------------------------------------------------
  // The same walk on key sequences

  function Prepend(k: string, paths: seq<seq<string>>): (r: seq<seq<string>>)
    ensures |r| == |paths| && forall i :: 0 <= i < |r| ==> r[i] == [k] + paths[i]
  {
    seq(|paths|, i requires 0 <= i < |paths| => [k] + paths[i])
  }

  /** The key sequence of every leaf, in the order the walk visits them. */
  function Leaves(es: seq<Entry>): seq<seq<string>>
    decreases es
  {
    if es == [] then []
    else
      (if Descends(es[0].value) then Prepend(es[0].key, Leaves(es[0].value.entries)) else [[es[0].key]])
        + Leaves(es[1..])
  }

  /** How a key sequence is written under `prefix`. */
  function Render(prefix: string, keys: seq<string>): string
    decreases |keys|
  {
    if keys == [] then prefix else Render(FullPath(prefix, keys[0]), keys[1..])
  }

  /** A leaf: a string value or an empty mapping, at least one key below the root. */
  predicate IsLeafPath(n: Node, keys: seq<string>) {
    && |keys| >= 1
    && Lookup(n, keys).Some?
    && !Descends(Lookup(n, keys).value)
  }

  /** `KeyPaths` writes out `Leaves`, one path per leaf and in the same order. */
  lemma {:induction false} KeyPathsRenderLeaves(es: seq<Entry>, prefix: string)
    ensures |KeyPaths(es, prefix)| == |Leaves(es)|
    ensures forall i :: 0 <= i < |Leaves(es)| ==> KeyPaths(es, prefix)[i] == Render(prefix, Leaves(es)[i])
    decreases es
  {
    if es != [] {
      var e := es[0];
      var full := FullPath(prefix, e.key);
      KeyPathsRenderLeaves(es[1..], prefix);
      var head := if Descends(e.value) then KeyPaths(e.value.entries, full) else [full];
      var heads := if Descends(e.value) then Prepend(e.key, Leaves(e.value.entries)) else [[e.key]];
      if Descends(e.value) {
        KeyPathsRenderLeaves(e.value.entries, full);
        forall i | 0 <= i < |heads| ensures head[i] == Render(prefix, heads[i]) {
          assert heads[i][1..] == Leaves(e.value.entries)[i];
        }
      } else {
        assert Render(prefix, [e.key]) == Render(full, []);
      }
      ConcatPointwise(head, KeyPaths(es[1..], prefix), heads, Leaves(es[1..]), prefix);
    }
  }

  lemma ConcatPointwise(a: seq<string>, b: seq<string>, xs: seq<seq<string>>, ys: seq<seq<string>>, prefix: string)
    requires |a| == |xs| && forall i :: 0 <= i < |a| ==> a[i] == Render(prefix, xs[i])
    requires |b| == |ys| && forall i :: 0 <= i < |b| ==> b[i] == Render(prefix, ys[i])
    ensures |a + b| == |xs + ys|
    ensures forall i :: 0 <= i < |a + b| ==> (a + b)[i] == Render(prefix, (xs + ys)[i])
  {
  }

  /** Every leaf key sequence is non-empty and starts with one of the mapping's keys. */
  lemma {:induction false} LeafHeads(es: seq<Entry>)
    ensures forall p :: p in Leaves(es) ==> |p| >= 1 && exists j :: 0 <= j < |es| && es[j].key == p[0]
    decreases es
  {
    if es != [] {
      LeafHeads(es[1..]);
      if Descends(es[0].value) {
        LeafHeads(es[0].value.entries);
      }
      forall p | p in Leaves(es[1..]) ensures exists j :: 0 <= j < |es| && es[j].key == p[0] {
        var j :| 0 <= j < |es[1..]| && es[1..][j].key == p[0];
        assert es[j + 1].key == p[0];
      }
    }
  }

  /** Uniqueness of keys makes `Leaves` exactly the leaf paths: the walk emits a path for
      every string leaf and every empty mapping, and for nothing else. */
  lemma {:induction false} LeavesExact(es: seq<Entry>, keys: seq<string>)
    requires Unique(Mapping(es))
    ensures keys in Leaves(es) <==> IsLeafPath(Mapping(es), keys)
    decreases es
  {
    if es == [] {
    } else if |keys| == 0 {
      LeafHeads(es);
    } else {
      var e := es[0];
      var rest := es[1..];
      assert Unique(Mapping(rest)) by {
        forall i, j | 0 <= i < j < |rest| ensures rest[i].key != rest[j].key {
          assert rest[i] == es[i + 1] && rest[j] == es[j + 1];
        }
        forall i | 0 <= i < |rest| ensures Unique(rest[i].value) {
          assert rest[i] == es[i + 1];
        }
      }
      assert Unique(e.value) by {
        assert e == es[0];
      }
      var heads := if Descends(e.value) then Prepend(e.key, Leaves(e.value.entries)) else [[e.key]];
      assert Leaves(es) == heads + Leaves(rest);
      if keys[0] == e.key {
        assert Lookup(Mapping(es), keys) == Lookup(e.value, keys[1..]);
        LeafHeads(rest);
        assert keys !in Leaves(rest) by {
          forall j | 0 <= j < |rest| ensures rest[j].key != keys[0] {
            assert rest[j] == es[j + 1];
          }
        }
        HeadLeaves(e, keys);
      } else {
        GetSkipsFirst(es, keys[0]);
        assert Lookup(Mapping(es), keys) == Lookup(Mapping(rest), keys);
        assert keys !in heads;
        LeavesExact(rest, keys);
      }
    }
  }

  /** The leaves contributed by one entry are the leaf paths through its key. */
  lemma HeadLeaves(e: Entry, keys: seq<string>)
    requires Unique(e.value) && |keys| >= 1 && keys[0] == e.key
    ensures var heads := if Descends(e.value) then Prepend(e.key, Leaves(e.value.entries)) else [[e.key]];
      keys in heads <==> IsLeafPath(e.value, keys[1..]) || (|keys| == 1 && !Descends(e.value))
    decreases e.value, 1
  {
    if Descends(e.value) {
      var inner := Leaves(e.value.entries);
      if |keys| == 1 {
        LeafHeads(e.value.entries);
        assert forall i :: 0 <= i < |inner| ==> |Prepend(e.key, inner)[i]| >= 2;
      } else {
        LeavesExact(e.value.entries, keys[1..]);
        if keys[1..] in inner {
          var i :| 0 <= i < |inner| && inner[i] == keys[1..];
          assert Prepend(e.key, inner)[i] == keys;
        }
        if keys in Prepend(e.key, inner) {
          var i :| 0 <= i < |inner| && Prepend(e.key, inner)[i] == keys;
          assert inner[i] == keys[1..];
        }
      }
    } else if |keys| > 1 {
      assert keys !in [[e.key]] by {
        assert |keys| != |[e.key]|;
      }
      var tail := keys[1..];
      assert tail != [];
      match e.value
      case Scalar(_) =>
        assert Lookup(e.value, tail).None?;
      case Mapping(es) =>
        assert es == [];
        assert Get(es, tail[0]).None?;
        assert Lookup(e.value, tail).None?;
    } else {
      assert keys == [e.key];
    }
  }

  lemma GetSkipsFirst(es: seq<Entry>, k: string)
    requires es != [] && es[0].key != k
    ensures Get(es, k) == Get(es[1..], k)
  {
  }

  /** Under a non-empty prefix every path starts with the prefix and a dot. */
  lemma {:induction false} KeyPathsUnderPrefix(es: seq<Entry>, prefix: string)
    requires prefix != ""
    ensures forall i :: 0 <= i < |KeyPaths(es, prefix)| ==> StartsWith(KeyPaths(es, prefix)[i], prefix + ".")
    decreases es
  {
    if es != [] {
      var full := FullPath(prefix, es[0].key);
      assert StartsWith(full, prefix + ".") by {
        assert full == prefix + "." + es[0].key;
      }
      KeyPathsUnderPrefix(es[1..], prefix);
      if Descends(es[0].value) {
        KeyPathsUnderPrefix(es[0].value.entries, full);
        var inner := KeyPaths(es[0].value.entries, full);
        forall i | 0 <= i < |inner| ensures StartsWith(inner[i], prefix + ".") {
          StartsWithTrans(inner[i], full, prefix + ".");
        }
      }
    }
  }

  lemma StartsWithTrans(s: string, t: string, p: string)
    requires StartsWith(s, t + ".") && StartsWith(t, p)
    ensures StartsWith(s, p)
  {
    assert s[..|p|] == s[..|t| + 1][..|p|];
  }

  /** A string leaf directly under the root is reported by its bare key. */
  lemma RootLeafIsBareKey(k: string, v: string, rest: seq<Entry>)
    ensures KeyPaths([Entry(k, Scalar(v))] + rest, "")[0] == k
  {
    assert ([Entry(k, Scalar(v))] + rest)[1..] == rest;
  }
}
