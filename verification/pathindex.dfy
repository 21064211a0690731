/**
 * The path-key index (`fillItemsHash`): every leaf keyed by the dotted names of its ancestor
 * groups, root included, followed by its own name. The index is a hash table filled in
 * order: a new key is appended, a repeated key keeps its place and takes the later leaf.
 */
module PathIndex {
  import opened Common
  import opened Tree

  datatype Entry = Entry(key: string, leaf: Node)

  /** The name a group contributes to keys: its own name, after its parent's when there is one. */
  function GroupKey(prefix: string, g: Node): (r: string)
    ensures prefix == "" ==> r == g.name
    ensures prefix != "" ==> r == prefix + "." + g.name
  {
    if prefix != "" then prefix + "." + g.name else g.name
  }

  /** The entries for the leaves among `items`, in order, each keyed `name.<leaf name>`. */
  function LeafEntries(name: string, items: seq<Node>): (r: seq<Entry>)
    ensures |r| <= |items|
  {
    if items == [] then []
    else
      var l := items[|items| - 1];
      LeafEntries(name, items[..|items| - 1]) + (if l.Leaf? then [Entry(name + "." + l.name, l)] else [])
  }

  /** The entries are exactly the direct leaf children, each keyed by the group's name and its own. */
  lemma {:induction false} LeafEntriesSpec(name: string, items: seq<Node>)
    ensures forall e :: e in LeafEntries(name, items) ==>
      e.leaf.Leaf? && e.leaf in items && e.key == name + "." + e.leaf.name
    ensures forall l :: l in items && l.Leaf? ==> Entry(name + "." + l.name, l) in LeafEntries(name, items)
  {
    if items != [] {
      LeafEntriesSpec(name, items[..|items| - 1]);
      assert forall x :: x in items <==> x in items[..|items| - 1] || x == items[|items| - 1];
    }
  }

  /** The entries `fillItemsHash(prefix, g)` writes, in write order: direct leaves first, then each child group. */
  function Paths(prefix: string, g: Node): (r: seq<Entry>)
    requires g.Group?
    decreases g, 1
  {
    var name := GroupKey(prefix, g);
    LeafEntries(name, g.items) + GroupPaths(name, g, |g.items|)
  }

  /** The entries written for the child groups among the first `k` children of `g`. */
  function GroupPaths(name: string, g: Node, k: nat): (r: seq<Entry>)
    requires g.Group? && k <= |g.items|
    decreases g, 0, k
  {
    if k == 0 then []
    else GroupPaths(name, g, k - 1) + (if g.items[k - 1].Group? then Paths(name, g.items[k - 1]) else [])
  }

  /** The entries of each child group are among its parent's entries, keyed under the parent's name. */
  lemma {:induction false} ChildPathsIncluded(name: string, g: Node, k: nat)
    requires g.Group? && k <= |g.items|
    ensures forall i, e :: 0 <= i < k && g.items[i].Group? && e in Paths(name, g.items[i]) ==> e in GroupPaths(name, g, k)
  {
    if k > 0 {
      ChildPathsIncluded(name, g, k - 1);
    }
  }

  /** Each entry written for the child groups comes from one of them. */
  lemma {:induction false} GroupPathsFrom(name: string, g: Node, k: nat)
    requires g.Group? && k <= |g.items|
    ensures forall e :: e in GroupPaths(name, g, k) ==>
      exists i :: 0 <= i < k && g.items[i].Group? && e in Paths(name, g.items[i])
  {
    if k > 0 {
      GroupPathsFrom(name, g, k - 1);
    }
  }

  /** The index entries of a tree are exactly its leaves: each entry holds one, and each leaf has an entry. */
  lemma PathsCoverLeaves(prefix: string, g: Node)
    requires g.Group?
    ensures forall e :: e in Paths(prefix, g) ==> e.leaf in Leaves(g)
    ensures forall l :: l in Leaves(g) ==> exists e :: e in Paths(prefix, g) && e.leaf == l
  {
    PathsSound(prefix, g);
    PathsComplete(prefix, g);
  }

  /** Each entry written for a tree holds one of its leaves. */
  lemma {:induction false} PathsSound(prefix: string, g: Node)
    requires g.Group?
    ensures forall e :: e in Paths(prefix, g) ==> e.leaf in Leaves(g)
    decreases g, 1
  {
    var name := GroupKey(prefix, g);
    GroupPathsSound(name, g, |g.items|);
    LeafEntriesSpec(name, g.items);
    forall e | e in LeafEntries(name, g.items) ensures e.leaf in Leaves(g) {
      var i :| 0 <= i < |g.items| && g.items[i] == e.leaf;
      LeafInLeavesOf(g, i, |g.items|);
    }
  }

  lemma {:induction false} LeafInLeavesOf(g: Node, i: nat, k: nat)
    requires g.Group? && i < k <= |g.items| && g.items[i].Leaf?
    ensures g.items[i] in LeavesOf(g, k)
    decreases k
  {
    if i < k - 1 {
      LeafInLeavesOf(g, i, k - 1);
    } else {
      assert Leaves(g.items[i]) == [g.items[i]];
    }
  }

  lemma {:induction false} GroupPathsSound(name: string, g: Node, k: nat)
    requires g.Group? && k <= |g.items|
    ensures forall e :: e in GroupPaths(name, g, k) ==> e.leaf in LeavesOf(g, k)
    decreases g, 0, k
  {
    if k > 0 {
      GroupPathsSound(name, g, k - 1);
      var c := g.items[k - 1];
      if c.Group? {
        ChildSmaller(g, k - 1);
        PathsSound(name, c);
        assert GroupPaths(name, g, k) == GroupPaths(name, g, k - 1) + Paths(name, c);
      }
      assert LeavesOf(g, k) == LeavesOf(g, k - 1) + Leaves(c);
    }
  }

  /** Each leaf of a tree is held by an entry written for it. */
  lemma {:induction false} PathsComplete(prefix: string, g: Node)
    requires g.Group?
    ensures forall l :: l in Leaves(g) ==> exists e :: e in Paths(prefix, g) && e.leaf == l
    decreases g, 1
  {
    GroupPathsComplete(GroupKey(prefix, g), g, |g.items|);
  }

  lemma {:induction false} GroupPathsComplete(name: string, g: Node, k: nat)
    requires g.Group? && k <= |g.items|
    ensures forall l :: l in LeavesOf(g, k) ==>
      (exists e :: e in LeafEntries(name, g.items) + GroupPaths(name, g, k) && e.leaf == l)
    decreases g, 0, k
  {
    if k > 0 {
      GroupPathsComplete(name, g, k - 1);
      var c := g.items[k - 1];
      LeafEntriesSpec(name, g.items);
      var prev := GroupPaths(name, g, k - 1);
      var r := GroupPaths(name, g, k);
      if c.Group? {
        ChildSmaller(g, k - 1);
        PathsComplete(name, c);
      }
      forall l | l in LeavesOf(g, k)
        ensures exists e :: e in LeafEntries(name, g.items) + r && e.leaf == l
      {
        if l in LeavesOf(g, k - 1) {
          var e :| e in LeafEntries(name, g.items) + prev && e.leaf == l;
          assert e in LeafEntries(name, g.items) + r;
        } else {
          assert l in Leaves(c);
          if c.Leaf? {
            assert l == c;
            assert Entry(name + "." + c.name, c) in LeafEntries(name, g.items);
          } else {
            var e :| e in Paths(name, c) && e.leaf == l;
            assert e in r;
          }
        }
      }
    }
  }

  // ---------------------------------------------------------------------------------------
  // The hash table

  function KeysOf(idx: seq<Entry>): (r: seq<string>)
    ensures |r| == |idx| && forall i :: 0 <= i < |idx| ==> r[i] == idx[i].key
  {
    if idx == [] then [] else [idx[0].key] + KeysOf(idx[1..])
  }

  ghost predicate UniqueKeys(idx: seq<Entry>)
  {
    forall i, j :: 0 <= i < j < |idx| ==> idx[i].key != idx[j].key
  }

  /** `itemsHash[key]`: the leaf held under `k`, if any. */
  function Lookup(idx: seq<Entry>, k: string): Option<Node>
  {
    if idx == [] then None else if idx[0].key == k then Some(idx[0].leaf) else Lookup(idx[1..], k)
  }

  /** Every entry of `idx` is found, with its own leaf, under its own key in `into`. */
  ghost predicate FindsAll(into: seq<Entry>, idx: seq<Entry>)
  {
    forall i :: 0 <= i < |idx| ==> Lookup(into, idx[i].key) == Some(idx[i].leaf)
  }

  lemma LookupInIndex(idx: seq<Entry>, k: string)
    ensures Lookup(idx, k).Some? ==> Entry(k, Lookup(idx, k).value) in idx
  {
    if idx != [] && idx[0].key != k {
      LookupInIndex(idx[1..], k);
    }
  }

  /** In a table with unique keys, each entry is found under its own key. */
  lemma {:induction false} LookupUnique(idx: seq<Entry>, i: nat)
    requires UniqueKeys(idx) && i < |idx|
    ensures Lookup(idx, idx[i].key) == Some(idx[i].leaf)
  {
    if i > 0 {
      assert idx[0].key != idx[i].key;
      assert idx[1..][i - 1] == idx[i];
      LookupUnique(idx[1..], i - 1);
    }
  }

  /** `itemsHash[e.key] = e.leaf`: a known key keeps its place and takes the new leaf; a new key is appended. */
  function Put(idx: seq<Entry>, e: Entry): (r: seq<Entry>)
    ensures |r| == |idx| || r == idx + [e]
  {
    if idx == [] then [e]
    else if idx[0].key == e.key then [e] + idx[1..]
    else [idx[0]] + Put(idx[1..], e)
  }

  /** A table with unique keys finds each of its own entries. */
  lemma FindsAllSelf(idx: seq<Entry>)
    requires UniqueKeys(idx)
    ensures FindsAll(idx, idx)
  {
    forall i | 0 <= i < |idx| ensures Lookup(idx, idx[i].key) == Some(idx[i].leaf) {
      LookupUnique(idx, i);
    }
  }

  /** Put writes the one key it is given and leaves every other key as it was. */
  lemma {:induction false} PutLookup(idx: seq<Entry>, e: Entry, k: string)
    ensures Lookup(Put(idx, e), k) == if k == e.key then Some(e.leaf) else Lookup(idx, k)
  {
    if idx != [] && idx[0].key != e.key {
      PutLookup(idx[1..], e, k);
      assert Put(idx, e)[1..] == Put(idx[1..], e);
    }
  }

  /** Put keeps the order of the keys: a known key keeps its place, a new one goes last. */
  lemma {:induction false} PutKeys(idx: seq<Entry>, e: Entry)
    ensures e.key in KeysOf(idx) ==> KeysOf(Put(idx, e)) == KeysOf(idx)
    ensures e.key !in KeysOf(idx) ==> Put(idx, e) == idx + [e]
  {
    if idx != [] && idx[0].key != e.key {
      PutKeys(idx[1..], e);
      assert e.key !in KeysOf(idx) ==> idx == [idx[0]] + idx[1..];
      assert forall x :: x in KeysOf(idx[1..]) ==> x in KeysOf(idx);
    }
  }

  /** Put adds no entry but the one it is given. */
  lemma {:induction false} PutMembers(idx: seq<Entry>, e: Entry)
    ensures forall x :: x in Put(idx, e) ==> x in idx || x == e
  {
    if idx != [] && idx[0].key != e.key {
      PutMembers(idx[1..], e);
      assert Put(idx, e) == [idx[0]] + Put(idx[1..], e);
    }
  }

  /** Put keeps the keys of a table unique. */
  lemma {:induction false} PutUnique(idx: seq<Entry>, e: Entry)
    requires UniqueKeys(idx)
    ensures UniqueKeys(Put(idx, e))
  {
    if idx != [] && idx[0].key != e.key {
      PutUnique(idx[1..], e);
      PutMembers(idx[1..], e);
      var r := Put(idx, e);
      assert r == [idx[0]] + Put(idx[1..], e);
      forall i, j | 0 <= i < j < |r| ensures r[i].key != r[j].key {
        if i == 0 {
          assert r[j] in Put(idx[1..], e);
          if r[j] in idx[1..] {
            var m :| 0 <= m < |idx[1..]| && idx[1..][m] == r[j];
            assert idx[m + 1] == r[j];
          }
        }
      }
    } else if idx != [] {
      var r := Put(idx, e);
      forall i, j | 0 <= i < j < |r| ensures r[i].key != r[j].key {
        if i == 0 {
          assert r[i].key == idx[0].key && r[j] == idx[j];
        } else {
          assert r[i] == idx[i] && r[j] == idx[j];
        }
      }
    }
  }

  /** Writing the entries `es` in order. */
  function PutAll(idx: seq<Entry>, es: seq<Entry>): (r: seq<Entry>)
    ensures |idx| <= |r| <= |idx| + |es|
  {
    if es == [] then idx else Put(PutAll(idx, es[..|es| - 1]), es[|es| - 1])
  }

  /** Writing a sequence of entries adds nothing but those entries and keeps keys unique. */
  lemma {:induction false} PutAllSpec(idx: seq<Entry>, es: seq<Entry>)
    ensures forall x :: x in PutAll(idx, es) ==> x in idx || x in es
    ensures UniqueKeys(idx) ==> UniqueKeys(PutAll(idx, es))
  {
    if es != [] {
      PutAllSpec(idx, es[..|es| - 1]);
      PutMembers(PutAll(idx, es[..|es| - 1]), es[|es| - 1]);
      if UniqueKeys(idx) {
        PutUnique(PutAll(idx, es[..|es| - 1]), es[|es| - 1]);
      }
      assert forall x :: x in es[..|es| - 1] ==> x in es;
    }
  }

  /** The leaf of the last entry of `es` with key `k`. */
  function LastWith(es: seq<Entry>, k: string): (r: Option<Node>)
    ensures r.Some? ==> Entry(k, r.value) in es
  {
    if es == [] then None
    else if es[|es| - 1].key == k then Some(es[|es| - 1].leaf)
    else
      var r := LastWith(es[..|es| - 1], k);
      assert r.Some? ==> Entry(k, r.value) in es[..|es| - 1];
      r
  }

  /** Later writes win: after writing `es`, a key holds the last leaf written under it. */
  lemma {:induction false} LookupPutAll(idx: seq<Entry>, es: seq<Entry>, k: string)
    ensures Lookup(PutAll(idx, es), k) == if LastWith(es, k).Some? then LastWith(es, k) else Lookup(idx, k)
  {
    if es != [] {
      LookupPutAll(idx, es[..|es| - 1], k);
      PutLookup(PutAll(idx, es[..|es| - 1]), es[|es| - 1], k);
    }
  }

  lemma {:induction false} PutAllAppend(idx: seq<Entry>, a: seq<Entry>, b: seq<Entry>)
    ensures PutAll(idx, a + b) == PutAll(PutAll(idx, a), b)
  {
    if b == [] {
      assert a + b == a;
    } else {
      assert (a + b)[..|a + b| - 1] == a + b[..|b| - 1];
      PutAllAppend(idx, a, b[..|b| - 1]);
    }
  }

  /** The index export and import both use: the entries of the whole tree written into an empty table. */
  function BuildIndex(root: Node): (r: seq<Entry>)
    requires root.Group?
    ensures UniqueKeys(r)
    ensures forall e :: e in r ==> e.leaf.Leaf? && e.leaf in Leaves(root)
  {
    PathsCoverLeaves("", root);
    PutAllSpec([], Paths("", root));
    PutAll([], Paths("", root))
  }

  lemma LeafLoopStep(idx: seq<Entry>, name: string, items: seq<Node>, i: nat)
    requires i < |items|
    ensures PutAll(idx, LeafEntries(name, items[..i + 1])) == (
      if items[i].Leaf? then Put(PutAll(idx, LeafEntries(name, items[..i])), Entry(name + "." + items[i].name, items[i]))
      else PutAll(idx, LeafEntries(name, items[..i])))
  {
    assert items[..i + 1][..i] == items[..i];
    var prev := LeafEntries(name, items[..i]);
    if items[i].Leaf? {
      var e := Entry(name + "." + items[i].name, items[i]);
      assert LeafEntries(name, items[..i + 1]) == prev + [e];
      assert (prev + [e])[..|prev + [e]| - 1] == prev;
    } else {
      assert LeafEntries(name, items[..i + 1]) == prev;
    }
  }

  lemma GroupLoopStep(idx: seq<Entry>, leaves: seq<Entry>, name: string, g: Node, i: nat)
    requires g.Group? && i < |g.items|
    ensures g.items[i].Group? ==> (PutAll(idx, leaves + GroupPaths(name, g, i + 1)) ==
      PutAll(PutAll(idx, leaves + GroupPaths(name, g, i)), Paths(name, g.items[i])))
    ensures g.items[i].Leaf? ==> GroupPaths(name, g, i + 1) == GroupPaths(name, g, i)
  {
    if g.items[i].Group? {
      PutAllAppend(idx, leaves + GroupPaths(name, g, i), Paths(name, g.items[i]));
      assert leaves + GroupPaths(name, g, i) + Paths(name, g.items[i]) == leaves + GroupPaths(name, g, i + 1);
    }
  }

  /** The first loop of `fillItemsHash`: each direct leaf written under `name.<leaf name>`. */
  method PutLeafItems(name: string, items: seq<Node>, idx: seq<Entry>) returns (r: seq<Entry>)
    ensures r == PutAll(idx, LeafEntries(name, items))
  {
    r := idx;
    var i := 0;
    while i < |items|
      invariant 0 <= i <= |items|
      invariant r == PutAll(idx, LeafEntries(name, items[..i]))
    {
      var item := items[i];
      LeafLoopStep(idx, name, items, i);
      if item.Leaf? {
        r := Put(r, Entry(name + "." + item.name, item));
      }
      i := i + 1;
    }
    assert items[..|items|] == items;
  }

  /** `fillItemsHash(parentName, group, itemsHash)`. */
  method FillItemsHash(parentName: string, g: Node, idx: seq<Entry>) returns (r: seq<Entry>)
    requires g.Group?
    ensures r == PutAll(idx, Paths(parentName, g))
    decreases g
  {
    var name := if parentName != "" then parentName + "." + g.name else g.name;
    r := PutLeafItems(name, g.items, idx);
    ghost var leaves := LeafEntries(name, g.items);
    assert leaves + GroupPaths(name, g, 0) == leaves;
    var i := 0;
    while i < |g.items|
      invariant 0 <= i <= |g.items|
      invariant r == PutAll(idx, leaves + GroupPaths(name, g, i))
    {
      var item := g.items[i];
      GroupLoopStep(idx, leaves, name, g, i);
      if item.Group? {
        ChildSmaller(g, i);
        r := FillItemsHash(name, item, r);
      }
      i := i + 1;
    }
  }
}
