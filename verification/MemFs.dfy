/** The in-memory file tree: paths, lookup, mkdir, unlink and rmdir. */
module MemFs {
  import opened Sequences

  /** Inodes are named by nonzero numbers; 0 is the null pointer. */
  datatype Inode = Inode(name: string, directory: bool, parent: nat, kids: seq<nat>)

  type Nodes = map<nat, Inode>

  datatype Tree = Tree(root: nat, nodes: Nodes)

  const NAME_MAX: nat := 254
  /** Size of the name buffers of find_inode and mkdir. */
  const BUFFER: nat := 256

  // --------------------------------------------------------------------------- paths

  /** The length of the first component. */
  function Span(p: string): (n: nat)
    ensures n <= |p| && '/' !in p[..n] && (n < |p| ==> p[n] == '/')
  {
    if p == "" || p[0] == '/' then 0 else 1 + Span(p[1..])
  }

  /** The nonempty components of a path. */
  function Components(p: string): (cs: seq<string>)
    ensures forall c :: c in cs ==> c != "" && '/' !in c
    decreases |p|
  {
    if p == "" then []
    else if p[0] == '/' then Components(p[1..])
    else [p[..Span(p)]] + Components(p[Span(p)..])
  }

  lemma {:induction false} SpanOf(a: string, b: string)
    requires '/' !in a && (b == "" || b[0] == '/')
    ensures Span(a + b) == |a|
    decreases |a|
  {
    if a == "" {
      assert a + b == b;
    } else {
      assert (a + b)[1..] == a[1..] + b;
      assert a[0] != '/';
      SpanOf(a[1..], b);
    }
  }

  lemma OneComponent(name: string)
    requires name != "" && '/' !in name
    ensures Components(name) == [name]
  {
    SpanOf(name, "");
    assert name + "" == name && name[0] != '/';
    assert name[..|name|] == name && name[|name|..] == "";
  }

  /** Joining two paths with a slash joins their components. Together with OneComponent and
      the empty path this says what the components of every path are. */
  lemma {:induction false} ComponentsJoin(p: string, q: string)
    ensures Components(p + "/" + q) == Components(p) + Components(q)
    decreases |p|
  {
    var joined := p + "/" + q;
    if p == "" {
      assert joined[1..] == q;
    } else if p[0] == '/' {
      assert joined[1..] == p[1..] + "/" + q;
      ComponentsJoin(p[1..], q);
    } else {
      var n := Span(p);
      var first, rest := p[..n], p[n..];
      assert joined == first + (rest + "/" + q);
      SpanOf(first, rest + "/" + q);
      assert joined[..n] == first && joined[n..] == rest + "/" + q;
      ComponentsJoin(rest, q);
    }
  }

  /** A path with a last component has that one after those of the part before. */
  lemma LastComponent(parent: string, name: string)
    requires name != "" && '/' !in name
    ensures Components(parent + "/" + name) == Components(parent) + [name]
  {
    ComponentsJoin(parent, name);
    OneComponent(name);
  }

  // -------------------------------------------------------------------------- lookup

  /** The first child of that name, or 0. */
  function FindChild(nodes: Nodes, kids: seq<nat>, name: string): (k: nat)
    ensures k != 0 ==> k in kids && k in nodes && nodes[k].name == name
  {
    if kids == [] then 0
    else if kids[0] in nodes && nodes[kids[0]].name == name then kids[0]
    else FindChild(nodes, kids[1..], name)
  }

  function Child(t: Tree, at: nat, name: string): nat {
    if at in t.nodes then FindChild(t.nodes, t.nodes[at].kids, name) else 0
  }

  /** The inode at the end of a list of components, or 0. */
  function Lookup(t: Tree, cs: seq<string>): nat {
    if cs == [] then t.root else Child(t, Lookup(t, cs[..|cs| - 1]), cs[|cs| - 1])
  }

  /** Looking up from an inode on. */
  function Walk(t: Tree, at: nat, cs: seq<string>): nat
    decreases |cs|
  {
    if cs == [] then at else Walk(t, Child(t, at, cs[0]), cs[1..])
  }

  lemma {:induction false} LookupThenWalk(t: Tree, cs: seq<string>, rest: seq<string>)
    ensures Walk(t, Lookup(t, cs), rest) == Lookup(t, cs + rest)
    decreases |rest|
  {
    if rest == [] {
      assert cs + rest == cs;
    } else {
      LookupThenWalk(t, cs + [rest[0]], rest[1..]);
      assert (cs + [rest[0]])[..|cs|] == cs;
      assert cs + rest == (cs + [rest[0]]) + rest[1..];
    }
  }

  // --------------------------------------------------------------------- well-formed

  predicate ValidName(name: string) {
    |name| <= NAME_MAX
  }

  predicate NamesDiffer(nodes: Nodes, kids: seq<nat>)
    requires forall k :: k in kids ==> k in nodes
  {
    forall i, j :: 0 <= i < j < |kids| ==> nodes[kids[i]].name != nodes[kids[j]].name
  }

  /** The children of one inode. */
  predicate KidsOk(t: Tree, id: nat)
    requires id in t.nodes
  {
    var kids := t.nodes[id].kids;
    && (forall k :: k in kids ==> k in t.nodes && k != t.root && t.nodes[k].parent == id)
    && NamesDiffer(t.nodes, kids)
    && (!t.nodes[id].directory ==> kids == [])
  }

  /** An inode below the root is a child of its parent. */
  predicate ParentOk(t: Tree, id: nat)
    requires id in t.nodes
  {
    var n := t.nodes[id];
    ValidName(n.name) && n.parent in t.nodes && id in t.nodes[n.parent].kids
  }

  predicate WellFormed(t: Tree) {
    && t.root in t.nodes && t.nodes[t.root].directory && t.nodes[t.root].parent == 0
    && 0 !in t.nodes
    && (forall id :: id in t.nodes ==> KidsOk(t, id))
    && (forall id :: id in t.nodes && id != t.root ==> ParentOk(t, id))
  }

  /** What a search relies on: children exist, and no name is longer than an inode holds. */
  predicate Searchable(t: Tree) {
    && 0 !in t.nodes && t.root in t.nodes
    && forall id, k :: id in t.nodes && k in t.nodes[id].kids ==> k in t.nodes && ValidName(t.nodes[k].name)
  }

  lemma {:induction false} FindsChild(nodes: Nodes, kids: seq<nat>, k: nat)
    requires (forall x :: x in kids ==> x in nodes) && NamesDiffer(nodes, kids) && k in kids && 0 !in nodes
    ensures FindChild(nodes, kids, nodes[k].name) == k
  {
    if kids[0] != k {
      var i :| 0 <= i < |kids| && kids[i] == k;
      assert nodes[kids[0]].name != nodes[kids[i]].name;
      FindsChild(nodes, kids[1..], k);
    }
  }

  lemma {:induction false} LookupIn(t: Tree, cs: seq<string>)
    requires WellFormed(t)
    ensures Lookup(t, cs) != 0 ==> Lookup(t, cs) in t.nodes
    ensures cs != [] && Lookup(t, cs) != 0 ==>
      var id := Lookup(t, cs);
      && id != t.root && t.nodes[id].name == cs[|cs| - 1]
      && t.nodes[id].parent == Lookup(t, cs[..|cs| - 1]) != 0
  {
  }

  /** Every inode has one path at most. */
  lemma {:induction false} PathUnique(t: Tree, cs: seq<string>, ds: seq<string>)
    requires WellFormed(t) && Lookup(t, cs) == Lookup(t, ds) != 0
    ensures cs == ds
    decreases |cs|
  {
    LookupIn(t, cs);
    LookupIn(t, ds);
    if cs != [] && ds != [] {
      PathUnique(t, cs[..|cs| - 1], ds[..|ds| - 1]);
      assert cs == cs[..|cs| - 1] + [cs[|cs| - 1]];
      assert ds == ds[..|ds| - 1] + [ds[|ds| - 1]];
    }
  }

  // ------------------------------------------------------------------- adding a directory

  function WithKids(nodes: Nodes, id: nat, kids: seq<nat>): Nodes
    requires id in nodes
  {
    nodes[id := nodes[id].(kids := kids)]
  }

  /** mkdir's new inode, in front of the children of its parent. */
  function Added(t: Tree, parent: nat, id: nat, name: string): Tree
    requires parent in t.nodes
  {
    var n := WithKids(t.nodes, parent, [id] + t.nodes[parent].kids);
    t.(nodes := n[id := Inode(name, true, parent, [])])
  }

  predicate CanAdd(t: Tree, parent: nat, id: nat, name: string) {
    && parent in t.nodes && t.nodes[parent].directory
    && id != 0 && id !in t.nodes
    && ValidName(name) && Child(t, parent, name) == 0
  }

  /** Lookup among children whose names did not change. */
  lemma {:induction false} FindSame(nodes: Nodes, nodes': Nodes, kids: seq<nat>, name: string)
    requires forall k :: k in kids ==> k in nodes && k in nodes' && nodes'[k].name == nodes[k].name
    ensures FindChild(nodes', kids, name) == FindChild(nodes, kids, name)
  {
    if kids != [] {
      FindSame(nodes, nodes', kids[1..], name);
    }
  }

  lemma AddedChild(t: Tree, parent: nat, id: nat, name: string, at: nat, c: string)
    requires WellFormed(t) && CanAdd(t, parent, id, name) && at in t.nodes
    ensures Child(Added(t, parent, id, name), at, c) == if at == parent && c == name then id else Child(t, at, c)
  {
    var t', kids := Added(t, parent, id, name), t.nodes[at].kids;
    FindSame(t.nodes, t'.nodes, kids, c);
    if at == parent {
      assert t'.nodes[at].kids == [id] + kids && ([id] + kids)[1..] == kids;
    }
  }

  lemma Init(cs: seq<string>, path: seq<string>)
    requires cs != []
    ensures cs == cs[..|cs| - 1] + [cs[|cs| - 1]]
    ensures path <= cs <==> path == cs || path <= cs[..|cs| - 1]
  {
  }

  lemma Last(path: seq<string>, name: string, init: seq<string>, c: string)
    ensures init + [c] == path + [name] <==> init == path && c == name
  {
    assert (init + [c])[..|init|] == init && (init + [c])[|init|] == c;
    assert (path + [name])[..|path|] == path && (path + [name])[|path|] == name;
  }

  lemma AddedStep(t: Tree, path: seq<string>, id: nat, name: string, init: seq<string>, c: string)
    requires WellFormed(t) && CanAdd(t, Lookup(t, path), id, name) && init != path + [name]
    ensures Child(Added(t, Lookup(t, path), id, name), Lookup(t, init), c)
         == if init == path && c == name then id else Child(t, Lookup(t, init), c)
  {
    var parent, p := Lookup(t, path), Lookup(t, init);
    LookupIn(t, init);
    if p != 0 {
      AddedChild(t, parent, id, name, p, c);
      if p == parent { PathUnique(t, init, path); }
    }
  }

  /** Adding a directory gives its own path a meaning and changes no other. */
  lemma {:induction false} AddedLookup(t: Tree, path: seq<string>, id: nat, name: string, cs: seq<string>)
    requires WellFormed(t) && CanAdd(t, Lookup(t, path), id, name)
    ensures Lookup(Added(t, Lookup(t, path), id, name), cs) == if cs == path + [name] then id else Lookup(t, cs)
    decreases |cs|
  {
    if cs != [] {
      var init, c := cs[..|cs| - 1], cs[|cs| - 1];
      Init(cs, path);
      Last(path, name, init, c);
      AddedLookup(t, path, id, name, init);
      if init == path + [name] {
        assert init[..|path|] == path && Lookup(t, init) == 0;
      } else {
        AddedStep(t, path, id, name, init, c);
      }
    }
  }

  lemma AddedKids(t: Tree, parent: nat, id: nat, name: string, x: nat)
    requires CanAdd(t, parent, id, name) && x in t.nodes && KidsOk(t, x) && 0 !in t.nodes && id != t.root
    ensures KidsOk(Added(t, parent, id, name), x)
  {
    var kids := t.nodes[x].kids;
    if x == parent {
      forall k | k in kids ensures t.nodes[k].name != name {
        FindsChild(t.nodes, kids, k);
      }
    }
  }

  lemma AddedWellFormed(t: Tree, parent: nat, id: nat, name: string)
    requires WellFormed(t) && CanAdd(t, parent, id, name)
    ensures WellFormed(Added(t, parent, id, name))
  {
    var t' := Added(t, parent, id, name);
    forall x | x in t'.nodes ensures KidsOk(t', x) {
      if x != id { AddedKids(t, parent, id, name, x); }
    }
    forall x | x in t'.nodes && x != t'.root ensures ParentOk(t', x) {
      if x != id {
        assert ParentOk(t, x);
      } else {
        assert t'.nodes[parent].kids[0] == id;
      }
    }
  }

  // ------------------------------------------------------------------- removing an inode

  /** unlink and rmdir: the inode leaves its parent's list and is freed. */
  function Removed(t: Tree, id: nat): Tree
    requires id in t.nodes && t.nodes[id].parent in t.nodes && id in t.nodes[t.nodes[id].parent].kids
  {
    var parent := t.nodes[id].parent;
    t.(nodes := WithKids(t.nodes, parent, Unlinked(t.nodes[parent].kids, id)) - {id})
  }

  predicate CanRemove(t: Tree, id: nat) {
    id in t.nodes && id != t.root && t.nodes[id].kids == []
  }

  lemma WithoutMembers(nodes: Nodes, kids: seq<nat>, id: nat)
    requires id in kids && (forall k :: k in kids ==> k in nodes) && NamesDiffer(nodes, kids)
    ensures forall k :: k in Unlinked(kids, id) <==> k in kids && k != id
    ensures NamesDiffer(nodes, Unlinked(kids, id))
  {
    var i, rest := IndexOf(kids, id), Unlinked(kids, id);
    assert forall j :: 0 <= j < |rest| ==> rest[j] == if j < i then kids[j] else kids[j + 1];
    forall k | k in kids && k != id ensures k in rest {
      var j :| 0 <= j < |kids| && kids[j] == k;
      assert rest[if j < i then j else j - 1] == k;
    }
  }

  lemma {:induction false} FindWithout(nodes: Nodes, kids: seq<nat>, id: nat, name: string)
    requires id in kids && (forall k :: k in kids ==> k in nodes) && NamesDiffer(nodes, kids) && 0 !in nodes
    ensures FindChild(nodes, Unlinked(kids, id), name) ==
            if name == nodes[id].name then 0 else FindChild(nodes, kids, name)
  {
    var rest := Unlinked(kids, id);
    WithoutMembers(nodes, kids, id);
    var k := FindChild(nodes, rest, name);
    if name == nodes[id].name {
      if k != 0 {
        FindsChild(nodes, kids, k);
        FindsChild(nodes, kids, id);
        assert false;
      }
    } else {
      var k0 := FindChild(nodes, kids, name);
      if k != 0 { FindsChild(nodes, kids, k); }
      if k0 != 0 { FindsChild(nodes, rest, k0); }
    }
  }

  lemma RemovedChild(t: Tree, id: nat, at: nat, c: string)
    requires WellFormed(t) && CanRemove(t, id) && ParentOk(t, id) && at in t.nodes && at != id
    ensures Child(Removed(t, id), at, c)
         == if at == t.nodes[id].parent && c == t.nodes[id].name then 0 else Child(t, at, c)
  {
    var t', parent, kids := Removed(t, id), t.nodes[id].parent, t.nodes[at].kids;
    assert KidsOk(t, at);
    if at == parent {
      WithoutMembers(t.nodes, kids, id);
      FindWithout(t.nodes, kids, id, c);
      FindSame(t.nodes, t'.nodes, Unlinked(kids, id), c);
    } else {
      assert id !in kids;
      FindSame(t.nodes, t'.nodes, kids, c);
    }
  }

  /** Removing an inode takes the meaning of its own path, and changes no path that is not
      at or below it. */
  lemma {:induction false} RemovedLookup(t: Tree, path: seq<string>, cs: seq<string>)
    requires WellFormed(t) && CanRemove(t, Lookup(t, path)) && ParentOk(t, Lookup(t, path))
    ensures Lookup(Removed(t, Lookup(t, path)), cs) == if path <= cs then 0 else Lookup(t, cs)
    decreases |cs|
  {
    var id := Lookup(t, path);
    LookupIn(t, path);
    if cs == [] {
      assert path != [];
    } else {
      var init, c := cs[..|cs| - 1], cs[|cs| - 1];
      Init(cs, path);
      RemovedLookup(t, path, init);
      LookupIn(t, init);
      if !(path <= init) {
        RemovedStep(t, path, init, c);
      } else {
        assert 0 !in Removed(t, id).nodes;
      }
    }
  }

  lemma RemovedStep(t: Tree, path: seq<string>, init: seq<string>, c: string)
    requires WellFormed(t) && CanRemove(t, Lookup(t, path)) && ParentOk(t, Lookup(t, path)) && !(path <= init)
    ensures Child(Removed(t, Lookup(t, path)), Lookup(t, init), c)
         == if init + [c] == path then 0 else Child(t, Lookup(t, init), c)
  {
    var id, p := Lookup(t, path), Lookup(t, init);
    LookupIn(t, path);
    LookupIn(t, init);
    if p != 0 {
      if p == id { PathUnique(t, init, path); }
      Init(path, path);
      if p == t.nodes[id].parent { PathUnique(t, init, path[..|path| - 1]); }
      RemovedChild(t, id, p, c);
      assert (init + [c])[..|init|] == init;
    }
  }

  lemma NamesSame(nodes: Nodes, nodes': Nodes, kids: seq<nat>)
    requires forall k :: k in kids ==> k in nodes && k in nodes' && nodes'[k].name == nodes[k].name
    requires NamesDiffer(nodes, kids)
    ensures NamesDiffer(nodes', kids)
  {
  }

  lemma RemovedKids(t: Tree, id: nat, x: nat)
    requires id in t.nodes && ParentOk(t, id) && x in t.nodes && x != id && KidsOk(t, x)
    ensures KidsOk(Removed(t, id), x)
  {
    var t', kids := Removed(t, id), t.nodes[x].kids;
    if x == t.nodes[id].parent {
      WithoutMembers(t.nodes, kids, id);
      NamesSame(t.nodes, t'.nodes, Unlinked(kids, id));
    } else {
      assert id !in kids;
      NamesSame(t.nodes, t'.nodes, kids);
    }
  }

  lemma RemovedWellFormed(t: Tree, id: nat)
    requires WellFormed(t) && CanRemove(t, id)
    ensures ParentOk(t, id) && WellFormed(Removed(t, id))
  {
    var t', parent := Removed(t, id), t.nodes[id].parent;
    assert KidsOk(t, parent);
    assert id != parent by { assert t.nodes[id].kids == []; }
    WithoutMembers(t.nodes, t.nodes[parent].kids, id);
    forall x | x in t'.nodes ensures KidsOk(t', x) {
      RemovedKids(t, id, x);
    }
    forall x | x in t'.nodes && x != t'.root ensures ParentOk(t', x) {
      assert ParentOk(t, x);
    }
  }

  lemma AddedRemoved(t: Tree, parent: nat, id: nat, name: string)
    requires parent in t.nodes && id !in t.nodes
    ensures
      var t' := Added(t, parent, id, name);
      id in t'.nodes && id in t'.nodes[parent].kids && Removed(t', id) == t
  {
    var t', kids := Added(t, parent, id, name), t.nodes[parent].kids;
    assert t'.nodes[parent].kids == [id] + kids;
    assert IndexOf([id] + kids, id) == 0;
    assert Unlinked([id] + kids, id) == kids;
    assert Removed(t', id).nodes == t.nodes;
  }

  /** A directory made and removed again leaves the very same tree. */
  lemma AddThenRemove(t: Tree, parent: nat, id: nat, name: string)
    requires WellFormed(t) && CanAdd(t, parent, id, name)
    ensures
      var t' := Added(t, parent, id, name);
      WellFormed(t') && CanRemove(t', id) && ParentOk(t', id) && Removed(t', id) == t
  {
    AddedWellFormed(t, parent, id, name);
    AddedRemoved(t, parent, id, name);
  }

  // ---------------------------------------------------------------------- reachability

  ghost predicate Reachable(t: Tree, id: nat) {
    exists cs :: Lookup(t, cs) == id
  }

  /** Every inode has a path. */
  ghost predicate Rooted(t: Tree) {
    forall id :: id in t.nodes ==> Reachable(t, id)
  }

  lemma AddedRooted(t: Tree, path: seq<string>, id: nat, name: string)
    requires WellFormed(t) && Rooted(t) && CanAdd(t, Lookup(t, path), id, name)
    ensures Rooted(Added(t, Lookup(t, path), id, name))
  {
    var t' := Added(t, Lookup(t, path), id, name);
    assert (path + [name])[..|path|] == path;
    forall x | x in t'.nodes ensures Reachable(t', x) {
      if x == id {
        AddedLookup(t, path, id, name, path + [name]);
        assert Lookup(t', path + [name]) == x;
      } else {
        assert Reachable(t, x);
        var cs :| Lookup(t, cs) == x;
        AddedLookup(t, path, id, name, cs);
        assert Lookup(t', cs) == x;
      }
    }
  }

  lemma {:induction false} BelowLeaf(t: Tree, path: seq<string>, cs: seq<string>)
    requires WellFormed(t) && Lookup(t, path) in t.nodes && t.nodes[Lookup(t, path)].kids == []
    requires path <= cs && cs != path
    ensures Lookup(t, cs) == 0
    decreases |cs|
  {
    var init := cs[..|cs| - 1];
    if init != path { BelowLeaf(t, path, init); }
  }

  lemma RemovedRooted(t: Tree, path: seq<string>)
    requires WellFormed(t) && Rooted(t) && CanRemove(t, Lookup(t, path)) && ParentOk(t, Lookup(t, path))
    ensures Rooted(Removed(t, Lookup(t, path)))
  {
    var id := Lookup(t, path);
    var t' := Removed(t, id);
    forall x | x in t'.nodes ensures Reachable(t', x) {
      assert Reachable(t, x);
      var cs :| Lookup(t, cs) == x;
      RemovedLookup(t, path, cs);
      if path <= cs && cs != path { BelowLeaf(t, path, cs); }
      assert Lookup(t', cs) == x;
    }
  }

  // ---------------------------------------------------------------------- file system

  lemma {:induction false} LongName(nodes: Nodes, kids: seq<nat>, name: string)
    requires forall k :: k in kids && k in nodes ==> |nodes[k].name| < |name|
    ensures FindChild(nodes, kids, name) == 0
  {
    if kids != [] { LongName(nodes, kids[1..], name); }
  }

  lemma {:induction false} WalkNull(t: Tree, cs: seq<string>)
    requires Searchable(t)
    ensures Walk(t, 0, cs) == 0
  {
    if cs != [] { WalkNull(t, cs[1..]); }
  }

  lemma ChildIn(t: Tree, at: nat, name: string)
    requires Searchable(t) && at in t.nodes
    ensures Child(t, at, name) != 0 ==> Child(t, at, name) in t.nodes
    ensures |name| > NAME_MAX ==> Child(t, at, name) == 0
  {
    if |name| > NAME_MAX {
      forall k | k in t.nodes[at].kids ensures |t.nodes[k].name| < |name| {
        assert ValidName(t.nodes[k].name);
      }
      LongName(t.nodes, t.nodes[at].kids, name);
    }
  }

  method SkipSlashes(path: string, from: nat) returns (p: nat)
    requires from <= |path|
    ensures from <= p <= |path| && (p < |path| ==> path[p] != '/')
    ensures Components(path[p..]) == Components(path[from..])
  {
    p := from;
    while p < |path| && path[p] == '/'
      invariant from <= p <= |path| && Components(path[p..]) == Components(path[from..])
    {
      assert path[p..][1..] == path[p + 1..];
      p := p + 1;
    }
  }

  /** One turn of find_inode: down one component, or nowhere. */
  lemma WalkStep(t: Tree, at: nat, path: string, p: nat, len: nat)
    requires Searchable(t) && at in t.nodes && p < |path| && path[p] != '/' && len == Span(path[p..])
    ensures 0 < len <= |path| - p
    ensures
      var k := Child(t, at, path[p..p + len]);
      && Walk(t, at, Components(path[p..])) == Walk(t, k, Components(path[p + len..]))
      && (k == 0 ==> Walk(t, k, Components(path[p + len..])) == 0)
      && (k != 0 ==> k in t.nodes) && (len > NAME_MAX ==> k == 0)
  {
    var s := path[p..];
    assert s[..len] == path[p..p + len] && s[len..] == path[p + len..];
    assert Components(s) == [s[..len]] + Components(s[len..]);
    assert ([s[..len]] + Components(s[len..]))[1..] == Components(s[len..]);
    ChildIn(t, at, s[..len]);
    WalkNull(t, Components(s[len..]));
  }

  /** Only the path of the new directory has changed its meaning. */
  ghost predicate OnlyAdded(t: Tree, t': Tree, path: seq<string>, id: nat) {
    forall cs :: Lookup(t', cs) == if cs == path then id else Lookup(t, cs)
  }

  /** Only paths at or below the removed one have changed their meaning, to nothing. */
  ghost predicate OnlyRemoved(t: Tree, t': Tree, path: seq<string>) {
    forall cs :: Lookup(t', cs) == if path <= cs then 0 else Lookup(t, cs)
  }

  lemma AddedKeeps(t: Tree, dir: seq<string>, id: nat, name: string)
    requires WellFormed(t) && Rooted(t) && CanAdd(t, Lookup(t, dir), id, name)
    ensures
      var t' := Added(t, Lookup(t, dir), id, name);
      WellFormed(t') && Rooted(t') && OnlyAdded(t, t', dir + [name], id)
  {
    AddedWellFormed(t, Lookup(t, dir), id, name);
    AddedRooted(t, dir, id, name);
    forall cs
      ensures Lookup(Added(t, Lookup(t, dir), id, name), cs) == if cs == dir + [name] then id else Lookup(t, cs)
    {
      AddedLookup(t, dir, id, name, cs);
    }
  }

  lemma RemovedKeeps(t: Tree, path: seq<string>)
    requires WellFormed(t) && Rooted(t) && CanRemove(t, Lookup(t, path))
    ensures ParentOk(t, Lookup(t, path))
    ensures
      var t' := Removed(t, Lookup(t, path));
      WellFormed(t') && Rooted(t') && OnlyRemoved(t, t', path)
  {
    RemovedWellFormed(t, Lookup(t, path));
    RemovedRooted(t, path);
    forall cs ensures Lookup(Removed(t, Lookup(t, path)), cs) == if path <= cs then 0 else Lookup(t, cs) {
      RemovedLookup(t, path, cs);
    }
  }

  class MemFS {
    var tree: Tree

    constructor (root: nat)
      requires root != 0
      ensures WellFormed(tree) && Rooted(tree) && tree == Tree(root, map[root := Inode("", true, 0, [])])
    {
      tree := Tree(root, map[root := Inode("", true, 0, [])]);
      new;
      assert Lookup(tree, []) == root;
    }

    /** The search of one directory. */
    method SearchKids(at: nat, name: string) returns (found: nat)
      requires Searchable(tree) && at in tree.nodes
      ensures found == Child(tree, at, name)
    {
      var kids := tree.nodes[at].kids;
      var i := 0;
      while i < |kids|
        invariant 0 <= i <= |kids| && FindChild(tree.nodes, kids[i..], name) == Child(tree, at, name)
      {
        assert kids[i] in kids && kids[i..][1..] == kids[i + 1..];
        if tree.nodes[kids[i]].name == name { return kids[i]; }
        i := i + 1;
      }
      return 0;
    }

    /** One turn of find_inode: down one component, or 0. */
    method Down(at: nat, path: string, p: nat) returns (found: nat, q: nat)
      requires Searchable(tree) && at in tree.nodes && p < |path| && path[p] != '/'
      ensures p < q <= |path|
      ensures found == 0 ==> Walk(tree, at, Components(path[p..])) == 0
      ensures found != 0 ==>
        found in tree.nodes && Walk(tree, at, Components(path[p..])) == Walk(tree, found, Components(path[q..]))
    {
      var len := Span(path[p..]);
      WalkStep(tree, at, path, p, len);
      q := p + len;
      if len >= BUFFER { return 0, q; }
      found := SearchKids(at, path[p..q]);
    }

    method WalkPath(path: string) returns (id: nat)
      requires Searchable(tree)
      ensures id == Walk(tree, tree.root, Components(path))
    {
      var p := 0;
      assert path[0..] == path;
      id := tree.root;
      while p < |path|
        invariant 0 <= p <= |path| && id in tree.nodes
        invariant Walk(tree, id, Components(path[p..])) == Walk(tree, tree.root, Components(path))
        decreases |path| - p
      {
        var q := SkipSlashes(path, p);
        if q < |path| {
          id, q := Down(id, path, q);
          if id == 0 { return; }
        }
        p := q;
      }
      assert Components(path[p..]) == [];
    }

    /** find_inode: what is found depends on the nonempty components only. */
    method FindInode(path: string) returns (id: nat)
      requires Searchable(tree)
      ensures id == Lookup(tree, Components(path))
    {
      LookupThenWalk(tree, [], Components(path));
      assert [] + Components(path) == Components(path);
      if path == "" { return tree.root; }
      id := WalkPath(path);
    }

    method MakeChild(parent: nat, id: nat, name: string, ghost dir: seq<string>)
      requires WellFormed(tree) && Rooted(tree) && Lookup(tree, dir) == parent && CanAdd(tree, parent, id, name)
      modifies this
      ensures WellFormed(tree) && Rooted(tree) && OnlyAdded(old(tree), tree, dir + [name], id)
      ensures CanRemove(tree, id) && tree.nodes[id].directory
      ensures ParentOk(tree, id) && Removed(tree, id) == old(tree)
    {
      AddedKeeps(tree, dir, id, name);
      AddThenRemove(tree, parent, id, name);
      tree := Added(tree, parent, id, name);
    }

    /** mkdir, its checks: where the new directory goes. */
    method MkdirTarget(path: string) returns (ok: bool, parent: nat, name: string)
      requires WellFormed(tree)
      ensures ok <==> CanMkdir(tree, path)
      ensures ok ==> parent == Lookup(tree, Components(path[..LastSlash(path)])) && name == path[LastSlash(path) + 1..]
    {
      if '/' !in path { return false, 0, ""; }
      var last := FindLastSlash(path);
      if last >= BUFFER { return false, 0, ""; }
      parent := FindInode(path[..last]);
      name := path[last + 1..];
      LookupIn(tree, Components(path[..last]));
      if parent == 0 { return false, parent, name; }
      if !tree.nodes[parent].directory { return false, parent, name; }
      if name == "" { return false, parent, name; }
      var found := SearchKids(parent, name);
      ok := found == 0;
    }

    /** mkdir. The new inode is numbered by the allocator. */
    method Mkdir(path: string, id: nat) returns (ok: bool)
      requires WellFormed(tree) && Rooted(tree) && id != 0 && id !in tree.nodes
      requires '/' in path ==> |path| - LastSlash(path) - 1 <= NAME_MAX
      modifies this
      ensures WellFormed(tree) && Rooted(tree)
      ensures ok <==> CanMkdir(old(tree), path)
      ensures !ok ==> tree == old(tree)
      ensures ok ==> OnlyAdded(old(tree), tree, Components(path), id)
      ensures ok ==> CanRemove(tree, id) && tree.nodes[id].directory
      ensures ok ==> ParentOk(tree, id) && Removed(tree, id) == old(tree)
    {
      var parent, name;
      ok, parent, name := MkdirTarget(path);
      if ok {
        SplitAtSlash(path, LastSlash(path));
        LastComponent(path[..LastSlash(path)], name);
        MakeChild(parent, id, name, Components(path[..LastSlash(path)]));
      }
    }

    /** Take an inode without children out of its parent's list. */
    method Remove(id: nat)
      requires CanRemove(tree, id) && ParentOk(tree, id)
      modifies this
      ensures tree == Removed(old(tree), id)
    {
      var parent := tree.nodes[id].parent;
      var kids := tree.nodes[parent].kids;
      var i := 0;
      while kids[i] != id
        invariant 0 <= i < |kids| && id !in kids[..i]
        decreases |kids| - i
      {
        i := i + 1;
      }
      assert IndexOf(kids, id) == i;
      tree := tree.(nodes := WithKids(tree.nodes, parent, RemoveAt(kids, i)) - {id});
    }

    method Unlink(path: string) returns (ok: bool)
      requires WellFormed(tree) && Rooted(tree)
      modifies this
      ensures WellFormed(tree) && Rooted(tree)
      ensures ok <==>
        var id := Lookup(old(tree), Components(path));
        id in old(tree).nodes && !old(tree).nodes[id].directory
      ensures !ok ==> tree == old(tree)
      ensures ok ==> OnlyRemoved(old(tree), tree, Components(path))
    {
      if path == "" { return false; }
      LookupIn(tree, Components(path));
      var file := FindInode(path);
      if file == 0 { return false; }
      if tree.nodes[file].directory { return false; }
      assert KidsOk(tree, file);
      RemovedKeeps(tree, Components(path));
      Remove(file);
      ok := true;
    }

    method Rmdir(path: string) returns (ok: bool)
      requires WellFormed(tree) && Rooted(tree)
      modifies this
      ensures WellFormed(tree) && Rooted(tree)
      ensures ok <==>
        var id := Lookup(old(tree), Components(path));
        CanRemove(old(tree), id) && old(tree).nodes[id].directory
      ensures !ok ==> tree == old(tree)
      ensures ok ==>
        var id := Lookup(old(tree), Components(path));
        ParentOk(old(tree), id) && tree == Removed(old(tree), id)
      ensures ok ==> OnlyRemoved(old(tree), tree, Components(path))
    {
      if path == "" || path == "/" { return false; }
      LookupIn(tree, Components(path));
      var dir := FindInode(path);
      if dir == 0 { return false; }
      if !tree.nodes[dir].directory { return false; }
      if tree.nodes[dir].kids != [] { return false; }
      if tree.nodes[dir].parent == 0 { return false; }
      RemovedKeeps(tree, Components(path));
      Remove(dir);
      ok := true;
    }
  }

  function LastSlash(path: string): (i: nat)
    requires '/' in path
    ensures i < |path| && path[i] == '/' && forall k :: i < k < |path| ==> path[k] != '/'
  {
    if path[|path| - 1] == '/' then |path| - 1 else LastSlash(path[..|path| - 1])
  }

  lemma SplitAtSlash(path: string, i: nat)
    requires i < |path| && path[i] == '/'
    ensures path == path[..i] + "/" + path[i + 1..]
  {
  }

  method FindLastSlash(path: string) returns (i: nat)
    requires '/' in path
    ensures i == LastSlash(path)
  {
    i := |path| - 1;
    while path[i] != '/'
      invariant 0 <= i < |path| && forall k :: i < k < |path| ==> path[k] != '/'
      decreases i
    {
      i := i - 1;
    }
  }

  /** When mkdir succeeds. */
  predicate CanMkdir(t: Tree, path: string) {
    && '/' in path && LastSlash(path) < BUFFER
    && var parent, name := Lookup(t, Components(path[..LastSlash(path)])), path[LastSlash(path) + 1..];
       && parent in t.nodes && t.nodes[parent].directory
       && name != "" && Child(t, parent, name) == 0
  }
}
