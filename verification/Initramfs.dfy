/** From an archive in memory to lookups: which entry of an initramfs a path finds. */
module Initramfs {
  import opened Bits
  import opened Sequences
  import Cpio
  import opened MemFs

  const SLASH: Byte := 47

  /** A name as find_inode sees it. */
  function Text(name: seq<Byte>): (s: string)
    ensures |s| == |name| && forall i :: 0 <= i < |name| ==> s[i] == name[i] as char
  {
    seq(|name|, i requires 0 <= i < |name| => name[i] as char)
  }

  lemma TextInjective(a: seq<Byte>, b: seq<Byte>)
    ensures Text(a) == Text(b) <==> a == b
  {
    if Text(a) == Text(b) {
      assert |a| == |b|;
      forall i | 0 <= i < |a| ensures a[i] == b[i] {
        assert Text(a)[i] == Text(b)[i];
      }
    }
  }

  lemma SlashInText(name: seq<Byte>)
    ensures '/' in Text(name) <==> SLASH in name
  {
    if SLASH in name {
      var i :| 0 <= i < |name| && name[i] == SLASH;
      assert Text(name)[i] == '/';
    }
    if '/' in Text(name) {
      var i :| 0 <= i < |name| && Text(name)[i] == '/';
      assert name[i] as char == '/';
    }
  }

  // ------------------------------------------------------------------ the loaded tree

  /** The tail of load_initramfs: the new inode goes in front of the root's children. */
  function Hang(t: Tree, id: nat, node: Cpio.Node): Tree
    requires t.root in t.nodes
  {
    var n := WithKids(t.nodes, t.root, [id] + t.nodes[t.root].kids);
    t.(nodes := n[id := Inode(Text(node.name), node.directory, t.root, [])])
  }

  /** The inodes hung under an empty root; the newest is the first of the lists. */
  function Loaded(root: nat, ids: seq<nat>, kids: seq<Cpio.Node>): (t: Tree)
    requires |ids| == |kids| && root !in ids
    ensures t.root == root && root in t.nodes
  {
    if ids == [] then Tree(root, map[root := Inode("", true, 0, [])])
    else Hang(Loaded(root, ids[1..], kids[1..]), ids[0], kids[0])
  }

  /** The numbers that the allocator gives to root and inodes. */
  predicate Numbered(root: nat, ids: seq<nat>) {
    root != 0 && root !in ids && 0 !in ids && NoRepeats(ids)
  }

  ghost predicate IsLoaded(t: Tree, root: nat, ids: seq<nat>, kids: seq<Cpio.Node>)
    requires |ids| == |kids|
  {
    && t.root == root && root in t.nodes && t.nodes[root] == Inode("", true, 0, ids)
    && (forall id :: id in t.nodes <==> id == root || id in ids)
    && forall i :: 0 <= i < |ids| ==>
         ids[i] in t.nodes && t.nodes[ids[i]] == Inode(Text(kids[i].name), kids[i].directory, root, [])
  }

  lemma {:induction false} LoadedIs(root: nat, ids: seq<nat>, kids: seq<Cpio.Node>)
    requires |ids| == |kids| && Numbered(root, ids)
    ensures IsLoaded(Loaded(root, ids, kids), root, ids, kids)
  {
    if ids != [] {
      LoadedIs(root, ids[1..], kids[1..]);
      HangIs(Loaded(root, ids[1..], kids[1..]), root, ids, kids);
    }
  }

  lemma HangIs(t: Tree, root: nat, ids: seq<nat>, kids: seq<Cpio.Node>)
    requires 0 < |ids| == |kids| && Numbered(root, ids) && IsLoaded(t, root, ids[1..], kids[1..])
    ensures IsLoaded(Hang(t, ids[0], kids[0]), root, ids, kids)
  {
    var t', rest := Hang(t, ids[0], kids[0]), ids[1..];
    assert [ids[0]] + rest == ids;
    assert forall id :: id in ids <==> id == ids[0] || id in rest;
    forall i | 0 <= i < |ids|
      ensures ids[i] in t'.nodes && t'.nodes[ids[i]] == Inode(Text(kids[i].name), kids[i].directory, root, [])
    {
      if i > 0 { assert ids[i] == rest[i - 1] && kids[i] == kids[1..][i - 1]; }
    }
  }

  /** Names as create_inode leaves them. */
  predicate NamesFit(kids: seq<Cpio.Node>) {
    forall i :: 0 <= i < |kids| ==> |kids[i].name| <= NAME_MAX
  }

  lemma LoadedSearchable(t: Tree, root: nat, ids: seq<nat>, kids: seq<Cpio.Node>)
    requires |ids| == |kids| && Numbered(root, ids) && IsLoaded(t, root, ids, kids) && NamesFit(kids)
    ensures Searchable(t)
  {
    forall k | k in ids ensures k in t.nodes && ValidName(t.nodes[k].name) && t.nodes[k].kids == [] {
      var i :| 0 <= i < |ids| && ids[i] == k;
    }
  }

  /** No two inodes have one name. */
  predicate NamesApart(kids: seq<Cpio.Node>) {
    forall i, j :: 0 <= i < j < |kids| ==> kids[i].name != kids[j].name
  }

  lemma SameNames(t: Tree, root: nat, ids: seq<nat>, kids: seq<Cpio.Node>)
    requires |ids| == |kids| && IsLoaded(t, root, ids, kids) && forall i :: 0 <= i < |ids| ==> ids[i] in t.nodes
    ensures NamesDiffer(t.nodes, ids) <==> NamesApart(kids)
  {
    forall i, j | 0 <= i < j < |ids|
      ensures t.nodes[ids[i]].name != t.nodes[ids[j]].name <==> kids[i].name != kids[j].name
    {
      TextInjective(kids[i].name, kids[j].name);
    }
  }

  lemma LoadedInOrder(t: Tree, root: nat, ids: seq<nat>, kids: seq<Cpio.Node>)
    requires |ids| == |kids| && Numbered(root, ids) && NamesFit(kids) && IsLoaded(t, root, ids, kids)
    requires NamesDiffer(t.nodes, ids)
    ensures WellFormed(t)
  {
    forall id | id in t.nodes && id != root ensures KidsOk(t, id) && ParentOk(t, id) {
      var i :| 0 <= i < |ids| && ids[i] == id;
    }
  }

  /** Loading leaves a tree in which every operation of the file system keeps its promises
      exactly when no name is used twice. */
  lemma LoadedWellFormedIff(root: nat, ids: seq<nat>, kids: seq<Cpio.Node>)
    requires |ids| == |kids| && Numbered(root, ids) && NamesFit(kids)
    ensures WellFormed(Loaded(root, ids, kids)) <==> NamesApart(kids)
  {
    var t := Loaded(root, ids, kids);
    LoadedIs(root, ids, kids);
    SameNames(t, root, ids, kids);
    if NamesApart(kids) { LoadedInOrder(t, root, ids, kids); } else { assert !KidsOk(t, root); }
  }

  // --------------------------------------------------------------------------- lookup

  /** The first child of that name from the i-th on. */
  function FirstNamed(kids: seq<Cpio.Node>, i: nat, name: seq<Byte>): (j: nat)
    requires i <= |kids|
    ensures i <= j <= |kids| && (j < |kids| ==> kids[j].name == name) && forall h :: i <= h < j ==> kids[h].name != name
    decreases |kids| - i
  {
    if i == |kids| || kids[i].name == name then i else FirstNamed(kids, i + 1, name)
  }

  lemma {:induction false} FindFrom(t: Tree, root: nat, ids: seq<nat>, kids: seq<Cpio.Node>, i: nat, name: seq<Byte>)
    requires |ids| == |kids| && Numbered(root, ids) && IsLoaded(t, root, ids, kids) && i <= |ids|
    ensures var j := FirstNamed(kids, i, name);
            FindChild(t.nodes, ids[i..], Text(name)) == if j < |ids| then ids[j] else 0
    decreases |ids| - i
  {
    if i < |ids| {
      var rest := ids[i..];
      assert rest[1..] == ids[i + 1..] && rest[0] == ids[i];
      TextInjective(kids[i].name, name);
      assert t.nodes[ids[i]].name == Text(kids[i].name);
      FindFrom(t, root, ids, kids, i + 1, name);
    }
  }

  /** A component finds the newest entry of that name. */
  lemma FoundChild(t: Tree, root: nat, ids: seq<nat>, kids: seq<Cpio.Node>, i: nat)
    requires |ids| == |kids| && Numbered(root, ids) && IsLoaded(t, root, ids, kids) && i < |ids|
    ensures Child(t, root, Text(kids[i].name)) == ids[i] <==> NoneBefore(kids, i, kids[i].name)
  {
    FindFrom(t, root, ids, kids, 0, kids[i].name);
    assert ids[0..] == ids;
    var j := FirstNamed(kids, 0, kids[i].name);
    assert j <= i;
  }

  lemma OneComponent(name: string)
    requires name != "" && '/' !in name
    ensures Components(name) == [name]
  {
    SpanOf(name, "");
    assert name + "" == name && name[..|name|] == name && name[|name|..] == "";
  }

  /** The root's children have none themselves, so two components lead nowhere, and one
      finds an inode of that very name. */
  lemma LookupLoaded(t: Tree, root: nat, ids: seq<nat>, kids: seq<Cpio.Node>, cs: seq<string>)
    requires |ids| == |kids| && Numbered(root, ids) && IsLoaded(t, root, ids, kids)
    ensures cs == [] ==> Lookup(t, cs) == root
    ensures |cs| == 1 ==> Lookup(t, cs) == Child(t, root, cs[0])
    ensures |cs| >= 2 ==> Lookup(t, cs) == 0
  {
    if |cs| == 1 {
      assert cs[..0] == [];
    } else if |cs| >= 2 {
      var init := cs[..|cs| - 1];
      LookupBelow(t, root, ids, kids, init);
    }
  }

  lemma {:induction false} LookupBelow(t: Tree, root: nat, ids: seq<nat>, kids: seq<Cpio.Node>, cs: seq<string>)
    requires |ids| == |kids| && Numbered(root, ids) && IsLoaded(t, root, ids, kids) && cs != []
    ensures Lookup(t, cs) == 0 || (Lookup(t, cs) in ids && t.nodes[Lookup(t, cs)].kids == [])
  {
    var init := cs[..|cs| - 1];
    if init != [] { LookupBelow(t, root, ids, kids, init); }
    forall k | k in ids ensures k in t.nodes && t.nodes[k].kids == [] {
      var i :| 0 <= i < |ids| && ids[i] == k;
    }
  }

  ghost predicate NoneBefore(kids: seq<Cpio.Node>, i: nat, name: seq<Byte>)
    requires i <= |kids|
  {
    forall j :: 0 <= j < i ==> kids[j].name != name
  }

  /** The name of a child finds it exactly when it is not empty, has no slash and is not
      used by a child in front. */
  lemma FoundIff(t: Tree, root: nat, ids: seq<nat>, kids: seq<Cpio.Node>, i: nat, name: seq<Byte>)
    requires |ids| == |kids| && Numbered(root, ids) && IsLoaded(t, root, ids, kids) && i < |ids| && kids[i].name == name
    ensures Lookup(t, Components(Text(name))) == ids[i] <==> name != [] && SLASH !in name && NoneBefore(kids, i, name)
  {
    var text := Text(name);
    var cs := Components(text);
    SlashInText(name);
    LookupLoaded(t, root, ids, kids, cs);
    if text != "" && '/' !in text {
      OneComponent(text);
      FoundChild(t, root, ids, kids, i);
    } else if |cs| == 1 {
      assert cs[0] != text;
      assert t.nodes[ids[i]].name == text;
    }
  }

  // ------------------------------------------------------------------- the whole way

  lemma {:induction false} NodesAt(entries: seq<Cpio.Entry>, m: nat)
    requires m < |entries|
    ensures |Cpio.Nodes(entries)| == |entries|
    ensures Cpio.Nodes(entries)[|entries| - 1 - m] == Cpio.NodeOf(entries[m])
  {
    if |entries| > 1 { NodesAt(entries[1..], if m > 0 then m - 1 else 0); }
  }

  lemma {:induction false} ValidAt(entries: seq<Cpio.Entry>, m: nat)
    requires Cpio.AllValid(entries) && m < |entries|
    ensures Cpio.ValidEntry(entries[m])
  {
    if m > 0 { ValidAt(entries[1..], m - 1); }
  }

  /** The children are the entries, the last one first. */
  ghost predicate Reversed(entries: seq<Cpio.Entry>, kids: seq<Cpio.Node>) {
    |kids| == |entries| && forall i :: 0 <= i < |kids| ==> kids[i].name == entries[|entries| - 1 - i].name
  }

  lemma NodesReversed(entries: seq<Cpio.Entry>)
    requires Cpio.AllValid(entries)
    ensures Reversed(entries, Cpio.Nodes(entries)) && NamesFit(Cpio.Nodes(entries))
  {
    var n, kids := |entries|, Cpio.Nodes(entries);
    if n > 0 { NodesAt(entries, 0); }
    forall i | 0 <= i < |kids| ensures kids[i].name == entries[n - 1 - i].name && |kids[i].name| <= NAME_MAX {
      NodesAt(entries, n - 1 - i);
      ValidAt(entries, n - 1 - i);
    }
  }

  ghost predicate NoneLater(entries: seq<Cpio.Entry>, m: nat) {
    m < |entries| && forall j :: m < j < |entries| ==> entries[j].name != entries[m].name
  }

  /** Children in front are later entries. */
  lemma LaterEntries(entries: seq<Cpio.Entry>, kids: seq<Cpio.Node>, m: nat)
    requires Reversed(entries, kids) && m < |entries|
    ensures NoneBefore(kids, |kids| - 1 - m, entries[m].name) <==> NoneLater(entries, m)
  {
    var n := |entries|;
    if NoneBefore(kids, n - 1 - m, entries[m].name) {
      forall j | m < j < n ensures entries[j].name != entries[m].name {
        assert kids[n - 1 - j].name == entries[j].name;
      }
    }
  }

  lemma EntryFoundIff(entries: seq<Cpio.Entry>, kids: seq<Cpio.Node>, t: Tree, root: nat, ids: seq<nat>, m: nat)
    requires Reversed(entries, kids) && |ids| == |kids| && Numbered(root, ids) && IsLoaded(t, root, ids, kids)
    requires m < |entries|
    ensures Lookup(t, Components(Text(entries[m].name))) == ids[|entries| - 1 - m] <==>
            entries[m].name != [] && SLASH !in entries[m].name && NoneLater(entries, m)
  {
    var name, i := entries[m].name, |kids| - 1 - m;
    var found := Lookup(t, Components(Text(name)));
    assert NoneBefore(kids, i, name) <==> NoneLater(entries, m) by { LaterEntries(entries, kids, m); }
    assert found == ids[i] <==> name != [] && SLASH !in name && NoneBefore(kids, i, name) by {
      FoundIff(t, root, ids, kids, i, name);
    }
  }

  /** After load_initramfs of an archive on an empty root, find_inode of an entry's name
      returns that entry if and only if the name is nonempty and without a slash, and no
      later entry has the same name. */
  lemma LoadedIsFoundIff(entries: seq<Cpio.Entry>, last: Cpio.Meta, upper: bool, mem: Cpio.Memory, data: nat, end: nat,
                         w: Cpio.Walk, root: nat, ids: seq<nat>, m: nat)
    requires data % 4 == 0 && Cpio.Holds(mem, data, Cpio.Archive(entries, last, upper))
    requires data + |Cpio.Archive(entries, last, upper)| <= end < WORD && Cpio.AllValid(entries)
    requires w == Cpio.Turns(mem, end, Cpio.Walk(data, [], false), |entries| + 1)
    requires Numbered(root, ids) && |ids| == |entries| && m < |entries|
    ensures w.done && |w.kids| == |ids| && Searchable(Loaded(root, ids, w.kids))
    ensures Lookup(Loaded(root, ids, w.kids), Components(Text(entries[m].name))) == ids[|entries| - 1 - m] <==>
            entries[m].name != [] && SLASH !in entries[m].name && NoneLater(entries, m)
  {
    Cpio.LoaderInverts(entries, last, upper, mem, data, end, []);
    assert w.kids == Cpio.Nodes(entries);
    NodesReversed(entries);
    var t := Loaded(root, ids, w.kids);
    LoadedIs(root, ids, w.kids);
    LoadedSearchable(t, root, ids, w.kids);
    EntryFoundIff(entries, w.kids, t, root, ids, m);
  }
}
