/** The hash table of the page cache: an array of chains that refines a finite map. */
module HashList {
  import opened Bits
  import opened Sequences

  datatype Page = Page(data: seq<Byte>, dirty: bool)

  /** A chain node; a pointer to a page is a pointer into its node. */
  class Node {
    const key: nat
    var value: Page

    constructor (key: nat, value: Page)
      ensures this.key == key && this.value == value
    {
      this.key, this.value := key, value;
    }
  }

  type Table = seq<seq<Node>>

  function Hash(key: nat, n: nat): (b: nat)
    requires n > 0
    ensures b < n
  {
    key % n
  }

  /** The position of a key in a chain, its length if there is none. */
  function Position(chain: seq<Node>, key: nat): (i: nat)
    ensures i <= |chain| && (i < |chain| ==> chain[i].key == key) && forall j :: 0 <= j < i ==> chain[j].key != key
  {
    if chain == [] || chain[0].key == key then 0 else 1 + Position(chain[1..], key)
  }

  // ------------------------------------------------------------------------ refinement

  /** The chain holds the nodes of the map whose keys hash to it, each once. */
  ghost predicate ChainOk(chain: seq<Node>, b: nat, n: nat, view: map<nat, Node>)
    requires n > 0
  {
    && (forall i :: 0 <= i < |chain| ==>
          chain[i].key in view && view[chain[i].key] == chain[i] && Hash(chain[i].key, n) == b)
    && (forall i, j :: 0 <= i < j < |chain| ==> chain[i].key != chain[j].key)
  }

  /** The table holds the map: every node in its chain, and no other. */
  ghost predicate Holds(t: Table, view: map<nat, Node>) {
    && |t| > 0
    && (forall b :: 0 <= b < |t| ==> ChainOk(t[b], b, |t|, view))
    && (forall key :: key in view ==> view[key].key == key && view[key] in t[Hash(key, |t|)])
  }

  /** Searching one chain is looking a key up in the map. */
  lemma FindMeans(t: Table, view: map<nat, Node>, key: nat)
    requires Holds(t, view)
    ensures
      var chain := t[Hash(key, |t|)];
      var i := Position(chain, key);
      (i < |chain| <==> key in view) && (i < |chain| ==> chain[i] == view[key])
  {
    var chain := t[Hash(key, |t|)];
    assert ChainOk(chain, Hash(key, |t|), |t|, view);
    if key in view {
      var j :| 0 <= j < |chain| && chain[j] == view[key];
    }
  }

  lemma OtherChain(t: Table, view: map<nat, Node>, view': map<nat, Node>, key: nat, b: nat)
    requires Holds(t, view) && b < |t| && b != Hash(key, |t|)
    requires forall k :: k != key ==> (k in view <==> k in view') && (k in view ==> view'[k] == view[k])
    ensures ChainOk(t[b], b, |t|, view')
  {
    assert ChainOk(t[b], b, |t|, view);
  }

  /** Replacing one chain, for a map that differs at one key of that chain. */
  lemma ReplaceChain(t: Table, view: map<nat, Node>, key: nat, chain: seq<Node>, view': map<nat, Node>)
    requires Holds(t, view) && ChainOk(chain, Hash(key, |t|), |t|, view')
    requires forall k :: k != key ==> (k in view <==> k in view') && (k in view ==> view'[k] == view[k])
    requires key in view' ==> view'[key].key == key
    requires forall k :: k in view' && Hash(k, |t|) == Hash(key, |t|) ==> view'[k] in chain
    ensures Holds(t[Hash(key, |t|) := chain], view')
  {
    var n := |t|;
    var t' := t[Hash(key, n) := chain];
    forall c | 0 <= c < n ensures ChainOk(t'[c], c, n, view') {
      if c != Hash(key, n) { OtherChain(t, view, view', key, c); }
    }
  }

  lemma Pushed(t: Table, view: map<nat, Node>, node: Node)
    requires Holds(t, view) && node.key !in view
    ensures var b := Hash(node.key, |t|); Holds(t[b := [node] + t[b]], view[node.key := node])
  {
    var b := Hash(node.key, |t|);
    assert ChainOk(t[b], b, |t|, view);
    assert ([node] + t[b])[0] == node;
    ReplaceChain(t, view, node.key, [node] + t[b], view[node.key := node]);
  }

  lemma RemoveChain(chain: seq<Node>, b: nat, n: nat, view: map<nat, Node>, key: nat, i: nat)
    requires n > 0 && ChainOk(chain, b, n, view) && i < |chain| && chain[i].key == key
    ensures ChainOk(RemoveAt(chain, i), b, n, view - {key})
  {
  }

  lemma RemoveMember(chain: seq<Node>, i: nat, node: Node)
    requires i < |chain| && node in chain && node != chain[i]
    ensures node in RemoveAt(chain, i)
  {
    var j :| 0 <= j < |chain| && chain[j] == node;
    assert RemoveAt(chain, i)[if j < i then j else j - 1] == node;
  }

  lemma Dropped(t: Table, view: map<nat, Node>, key: nat, i: nat)
    requires Holds(t, view) && key in view
    requires var chain := t[Hash(key, |t|)]; i == Position(chain, key) && i < |chain|
    ensures var b := Hash(key, |t|); Holds(t[b := RemoveAt(t[b], i)], view - {key})
  {
    var b := Hash(key, |t|);
    var chain := t[b];
    assert ChainOk(chain, b, |t|, view);
    RemoveChain(chain, b, |t|, view, key, i);
    forall k | k in view - {key} && Hash(k, |t|) == b ensures view[k] in RemoveAt(chain, i) {
      RemoveMember(chain, i, view[k]);
    }
    ReplaceChain(t, view, key, RemoveAt(chain, i), view - {key});
  }

  // ------------------------------------------------------------------------- the table

  class HashList {
    const buckets: array<seq<Node>>
    var size: nat
    ghost var view: map<nat, Node>

    ghost predicate Valid()
      reads this, buckets
    {
      Holds(buckets[..], view) && size == |view|
    }

    constructor (bucketCount: nat)
      requires bucketCount > 0
      ensures Valid() && view == map[] && fresh(buckets) && buckets.Length == bucketCount
    {
      buckets := new seq<Node>[bucketCount](i => []);
      size, view := 0, map[];
    }

    /** The walk along a chain. */
    method Search(key: nat) returns (b: nat, i: nat)
      requires buckets.Length > 0
      ensures b == Hash(key, buckets.Length) && i == Position(buckets[b], key)
    {
      b := Hash(key, buckets.Length);
      var chain := buckets[b];
      i := 0;
      while i < |chain| && chain[i].key != key
        invariant 0 <= i <= |chain| && forall j :: 0 <= j < i ==> chain[j].key != key
        decreases |chain| - i
      {
        i := i + 1;
      }
    }

    /** find: null when there is no node for the key. */
    method Find(key: nat) returns (node: Node?)
      requires Valid()
      ensures node == if key in view then view[key] else null
    {
      FindMeans(buckets[..], view, key);
      var b, i := Search(key);
      node := if i < |buckets[b]| then buckets[b][i] else null;
    }

    /** The node of a key, if there is one. */
    ghost function NodeOf(key: nat): set<Node>
      reads this
    {
      if key in view then {view[key]} else {}
    }

    /** insert: a known key keeps its node, whose page is overwritten; a new key gets a new
        node. No other node moves or changes. */
    method Insert(key: nat, value: Page) returns (node: Node)
      requires Valid()
      modifies this, buckets, NodeOf(key)
      ensures Valid() && view == old(view)[key := node] && node.key == key && node.value == value
      ensures if key in old(view) then node == old(view)[key] else fresh(node)
    {
      FindMeans(buckets[..], view, key);
      var b, i := Search(key);
      if i < |buckets[b]| {
        node := buckets[b][i];
        node.value := value;
        assert view[key := node] == view;
      } else {
        node := new Node(key, value);
        Pushed(buckets[..], view, node);
        buckets[b] := [node] + buckets[b];
        assert buckets[..] == old(buckets[..])[b := buckets[b]];
        size, view := size + 1, view[key := node];
      }
    }

    method Erase(key: nat) returns (ok: bool)
      requires Valid()
      modifies this, buckets
      ensures Valid() && view == old(view) - {key} && (ok <==> key in old(view))
    {
      FindMeans(buckets[..], view, key);
      var b, i := Search(key);
      var chain := buckets[b];
      if i == |chain| {
        assert view - {key} == view;
        return false;
      }
      Dropped(buckets[..], view, key, i);
      buckets[b] := RemoveAt(chain, i);
      assert buckets[..] == old(buckets[..])[b := buckets[b]];
      SizeWithout(view, key);
      size, view := size - 1, view - {key};
      ok := true;
    }

    method Clear()
      requires Valid()
      modifies this, buckets
      ensures Valid() && view == map[]
    {
      var i := 0;
      while i < buckets.Length
        invariant 0 <= i <= buckets.Length && forall j :: 0 <= j < i ==> buckets[j] == []
        modifies buckets
      {
        buckets[i] := [];
        i := i + 1;
      }
      size, view := 0, map[];
    }
  }

  lemma SizeWithout(view: map<nat, Node>, key: nat)
    requires key in view
    ensures |view - {key}| == |view| - 1
  {
    assert (view - {key}).Keys == view.Keys - {key};
  }
}
