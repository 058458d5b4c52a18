/** The red-black tree of virtual memory areas: parent-pointer nodes relinked and
    recoloured in place. */
module VirtualMemoryTree {
  import opened RedBlack

  class VmArea {
    var color: Color
    var parent: VmArea?
    var left: VmArea?
    var right: VmArea?
  }

  type VmTree = Tree<VmArea>
  type VmCtx = Ctx<VmArea>

  /** The fields of one node. */
  datatype Links = Links(parent: VmArea?, left: VmArea?, right: VmArea?, color: Color)

  function TopOf(t: VmTree): VmArea? {
    if t.Leaf? then null else t.area
  }

  function ParentOf(c: VmCtx): VmArea? {
    if c.Top? then null else c.area
  }

  /** The fields the nodes of t must have when the root's parent is p. */
  ghost function LinksOf(t: VmTree, p: VmArea?): (m: map<VmArea, Links>)
    ensures m.Keys == Areas(t)
  {
    match t
    case Leaf => map[]
    case Node(l, a, col, r) => (LinksOf(l, a) + LinksOf(r, a))[a := Links(p, TopOf(l), TopOf(r), col)]
  }

  /** The fields the nodes of c must have when n hangs in its hole. */
  ghost function CtxLinks(c: VmCtx, n: VmArea?): (m: map<VmArea, Links>)
    ensures m.Keys == CtxAreas(c)
  {
    match c
    case Top => map[]
    case InLeft(a, col, r, up) =>
      (LinksOf(r, a) + CtxLinks(up, a))[a := Links(ParentOf(up), n, TopOf(r), col)]
    case InRight(l, a, col, up) =>
      (LinksOf(l, a) + CtxLinks(up, a))[a := Links(ParentOf(up), TopOf(l), n, col)]
  }

  ghost function TreeLinks(t: VmTree): map<VmArea, Links> {
    LinksOf(t, null)
  }

  // ------------------------------------------------------------ links at a position

  lemma Regroup<K, V>(x: map<K, V>, y: map<K, V>, z: map<K, V>, k: K, v: V)
    requires x.Keys !! y.Keys && x.Keys !! z.Keys && y.Keys !! z.Keys
    requires k !in x && k !in y && k !in z
    ensures x + (y + z)[k := v] == (z + x)[k := v] + y
    ensures x + (z + y)[k := v] == (z + x)[k := v] + y
  {
  }

  lemma {:induction false} PlugLinks(c: VmCtx, t: VmTree)
    requires Distinct(Plug(c, t))
    ensures TreeLinks(Plug(c, t)) == CtxLinks(c, TopOf(t)) + LinksOf(t, ParentOf(c))
    decreases c
  {
    PlugAreas(c, t);
    match c
    case Top =>
    case InLeft(a, col, r, up) =>
      PlugLinks(up, Node(t, a, col, r));
      Regroup(CtxLinks(up, a), LinksOf(t, a), LinksOf(r, a), a, Links(ParentOf(up), TopOf(t), TopOf(r), col));
    case InRight(l, a, col, up) =>
      PlugLinks(up, Node(l, a, col, t));
      Regroup(CtxLinks(up, a), LinksOf(t, a), LinksOf(l, a), a, Links(ParentOf(up), TopOf(l), TopOf(t), col));
  }

  lemma AtFocus(c: VmCtx, t: VmTree)
    requires Distinct(Plug(c, t)) && t.Node?
    ensures t.area in TreeLinks(Plug(c, t))
    ensures TreeLinks(Plug(c, t))[t.area] == Links(ParentOf(c), TopOf(t.left), TopOf(t.right), t.color)
  {
    PlugLinks(c, t);
  }

  /** Changing one node's colour changes that field only. */
  lemma Recolor(c: VmCtx, t: VmTree, col: Color)
    requires Distinct(Plug(c, t)) && t.Node?
    ensures Distinct(Plug(c, t.(color := col)))
    ensures t.area in TreeLinks(Plug(c, t))
    ensures var m := TreeLinks(Plug(c, t));
            TreeLinks(Plug(c, t.(color := col))) == m[t.area := m[t.area].(color := col)]
  {
    PlugAreas(c, t);
    PlugAreas(c, t.(color := col));
    PlugLinks(c, t);
    PlugLinks(c, t.(color := col));
  }

  ghost function Paint(m: map<VmArea, Links>, n: VmArea, col: Color): map<VmArea, Links> {
    if n in m then m[n := m[n].(color := col)] else m
  }

  lemma RecolorTop(c: VmCtx, t: VmTree, col: Color)
    requires Distinct(Plug(c, t)) && t.Node?
    ensures var after := Plug(c, t.(color := col));
            && Distinct(after) && Areas(after) == Areas(Plug(c, t)) && TopOf(after) == TopOf(Plug(c, t))
            && TreeLinks(after) == Paint(TreeLinks(Plug(c, t)), t.area, col)
  {
    Recolor(c, t, col);
    PlugTop(c, t, t.(color := col));
    PlugAreas(c, t);
    PlugAreas(c, t.(color := col));
  }

  /** Parent black, grandparent red. */
  lemma PaintedPair(c: VmCtx, s: VmTree)
    requires Distinct(Plug(c, s)) && !c.Top? && !c.up.Top?
    ensures var after := Plug(c.up.up, Hang(WithColor(c.up, Red), Blackened(Hang(c, s))));
            && Distinct(after) && Areas(after) == Areas(Plug(c, s)) && TopOf(after) == TopOf(Plug(c, s))
            && TreeLinks(after) == Paint(Paint(TreeLinks(Plug(c, s)), c.area, Black), c.up.area, Red)
  {
    RecolorTop(c.up, Hang(c, s), Black);
    RecolorTop(c.up.up, Hang(c.up, Blackened(Hang(c, s))), Red);
  }

  /** Parent and uncle black, grandparent red. */
  lemma PaintedTriple(c: VmCtx, s: VmTree)
    requires Distinct(Plug(c, s)) && !c.Top? && !c.up.Top? && Uncle(c.up).Node?
    ensures var after := Plug(c.up.up, Pushed(c, s));
            && Distinct(after) && Areas(after) == Areas(Plug(c, s)) && TopOf(after) == TopOf(Plug(c, s))
            && TreeLinks(after) == Paint(Paint(Paint(TreeLinks(Plug(c, s)), c.area, Black), Uncle(c.up).area, Black),
                c.up.area, Red)
  {
    var g, p := c.up, Blackened(Hang(c, s));
    RecolorTop(g, Hang(c, s), Black);
    var u := if g.InLeft? then InRight(p, g.area, g.color, g.up) else InLeft(g.area, g.color, p, g.up);
    RecolorTop(u, Uncle(g), Black);
    RecolorTop(g.up, Hang(u, Blackened(Uncle(g))), Red);
  }

  /** The two shapes of a rotated edge between x and y. */
  function RightHeavy(a: VmTree, x: VmArea, cx: Color, b: VmTree, y: VmArea, cy: Color, d: VmTree): VmTree {
    Node(a, x, cx, Node(b, y, cy, d))
  }

  function LeftHeavy(a: VmTree, x: VmArea, cx: Color, b: VmTree, y: VmArea, cy: Color, d: VmTree): VmTree {
    Node(Node(a, x, cx, b), y, cy, d)
  }

  lemma EdgeDistinct(c: VmCtx, a: VmTree, x: VmArea, cx: Color, b: VmTree, y: VmArea, cy: Color, d: VmTree)
    ensures Distinct(Plug(c, RightHeavy(a, x, cx, b, y, cy, d))) <==>
        Distinct(Plug(c, LeftHeavy(a, x, cx, b, y, cy, d)))
  {
    var r, l := RightHeavy(a, x, cx, b, y, cy, d), LeftHeavy(a, x, cx, b, y, cy, d);
    PlugAreas(c, r);
    PlugAreas(c, l);
    var yn, xn := Node(b, y, cy, d), Node(a, x, cx, b);
    assert Areas(yn) == Areas(b) + {y} + Areas(d) && Areas(xn) == Areas(a) + {x} + Areas(b);
    assert Areas(r) == Areas(l);
    assert Distinct(yn) <==> Distinct(b) && Distinct(d) && y !in Areas(b) && y !in Areas(d) && Areas(b) !! Areas(d);
    assert Distinct(xn) <==> Distinct(a) && Distinct(b) && x !in Areas(a) && x !in Areas(b) && Areas(a) !! Areas(b);
  }

  /** Away from the two nodes and the parent, only the parent link of the middle
      subtree differs between the two shapes. */
  ghost predicate DiffersBelow(mr: map<VmArea, Links>, ml: map<VmArea, Links>, c: VmCtx, x: VmArea, b: VmTree,
      y: VmArea) {
    && mr.Keys == ml.Keys
    && (forall n :: n in mr && n != x && n != y && n != TopOf(b) && n != ParentOf(c) ==> mr[n] == ml[n])
    && (b.Node? ==> && b.area in mr && b.area != x && b.area != y && b.area != ParentOf(c)
                    && mr[b.area].parent == y && ml[b.area] == mr[b.area].(parent := x))
  }

  /** At the parent, only the child link differs. */
  ghost predicate DiffersAbove(mr: map<VmArea, Links>, ml: map<VmArea, Links>, c: VmCtx, x: VmArea, y: VmArea) {
    !c.Top? ==>
      && c.area in mr && c.area in ml && c.area != x && c.area != y
      && (c.InLeft? ==> mr[c.area].left == x && ml[c.area] == mr[c.area].(left := y))
      && (c.InRight? ==> mr[c.area].right == x && mr[c.area].left != x && mr[c.area].left != y
                         && ml[c.area] == mr[c.area].(right := y))
  }

  lemma CtxHole(c: VmCtx, x: VmArea, y: VmArea)
    requires CtxDistinct(c) && !c.Top?
    ensures var (mx, my) := (CtxLinks(c, x), CtxLinks(c, y));
            && mx.Keys == my.Keys == CtxAreas(c) && c.area in mx
            && (forall n :: n in mx && n != c.area ==> my[n] == mx[n])
            && (c.InLeft? ==> mx[c.area].left == x && my[c.area] == mx[c.area].(left := y))
            && (c.InRight? ==> mx[c.area].right == x && my[c.area] == mx[c.area].(right := y))
            && (c.InRight? && mx[c.area].left != null ==> mx[c.area].left in CtxAreas(c))
  {
  }

  lemma EdgeMaps<K, V>(a: map<K, V>, b: map<K, V>, b': map<K, V>, d: map<K, V>, x: K, y: K, vx: V, vy: V, wx: V, wy: V)
    requires a.Keys !! b.Keys && a.Keys !! d.Keys && b.Keys !! d.Keys && b.Keys == b'.Keys
    requires x != y && x !in a && x !in b && x !in d && y !in a && y !in b && y !in d
    ensures var (mr, ml) := ((a + (b + d)[y := vy])[x := vx], ((a + b')[x := wx] + d)[y := wy]);
            && mr.Keys == ml.Keys == a.Keys + b.Keys + d.Keys + {x, y}
            && mr[x] == vx && mr[y] == vy && ml[x] == wx && ml[y] == wy
            && (forall n :: n in b ==> mr[n] == b[n] && ml[n] == b'[n])
            && (forall n :: n in mr && n !in b && n != x && n != y ==> mr[n] == ml[n])
  {
  }

  lemma MiddleLinks(b: VmTree, p: VmArea?, q: VmArea?)
    requires Distinct(b)
    ensures forall n :: n in LinksOf(b, p) && n != TopOf(b) ==> LinksOf(b, p)[n] == LinksOf(b, q)[n]
    ensures b.Node? ==>
      LinksOf(b, p)[b.area].parent == p && LinksOf(b, q)[b.area] == LinksOf(b, p)[b.area].(parent := q)
  {
  }

  lemma EdgeParts(a: VmTree, x: VmArea, cx: Color, b: VmTree, y: VmArea, cy: Color, d: VmTree)
    requires Distinct(RightHeavy(a, x, cx, b, y, cy, d))
    ensures Distinct(b) && x != y
    ensures Areas(a) !! Areas(b) && Areas(a) !! Areas(d) && Areas(b) !! Areas(d)
    ensures x !in Areas(a) && x !in Areas(b) && x !in Areas(d)
    ensures y !in Areas(a) && y !in Areas(b) && y !in Areas(d)
    ensures Areas(RightHeavy(a, x, cx, b, y, cy, d)) == Areas(a) + Areas(b) + Areas(d) + {x, y}
  {
    assert Areas(Node(b, y, cy, d)) == Areas(b) + {y} + Areas(d);
    assert Distinct(Node(b, y, cy, d));
  }

  lemma RightHeavyLinks(p: VmArea?, a: VmTree, x: VmArea, cx: Color, b: VmTree, y: VmArea, cy: Color, d: VmTree)
    ensures LinksOf(RightHeavy(a, x, cx, b, y, cy, d), p)
         == (LinksOf(a, x) + (LinksOf(b, y) + LinksOf(d, y))[y := Links(x, TopOf(b), TopOf(d), cy)])[x := Links(p,
             TopOf(a), y, cx)]
  {
    var yn := Node(b, y, cy, d);
    assert LinksOf(yn, x) == (LinksOf(b, y) + LinksOf(d, y))[y := Links(x, TopOf(b), TopOf(d), cy)];
  }

  lemma LeftHeavyLinks(p: VmArea?, a: VmTree, x: VmArea, cx: Color, b: VmTree, y: VmArea, cy: Color, d: VmTree)
    ensures LinksOf(LeftHeavy(a, x, cx, b, y, cy, d), p)
         == ((LinksOf(a, x) + LinksOf(b, x))[x := Links(y, TopOf(a), TopOf(b), cx)] + LinksOf(d, y))[y := Links(p, x,
             TopOf(d), cy)]
  {
    var xn := Node(a, x, cx, b);
    assert LinksOf(xn, y) == (LinksOf(a, x) + LinksOf(b, x))[x := Links(y, TopOf(a), TopOf(b), cx)];
  }

  lemma EdgeInside(p: VmArea?, a: VmTree, x: VmArea, cx: Color, b: VmTree, y: VmArea, cy: Color, d: VmTree)
    requires Distinct(RightHeavy(a, x, cx, b, y, cy, d))
    ensures var mr := LinksOf(RightHeavy(a, x, cx, b, y, cy, d), p);
            var ml := LinksOf(LeftHeavy(a, x, cx, b, y, cy, d), p);
            && mr.Keys == ml.Keys == Areas(a) + Areas(b) + Areas(d) + {x, y}
            && mr[x] == Links(p, TopOf(a), y, cx) && mr[y] == Links(x, TopOf(b), TopOf(d), cy)
            && ml[x] == Links(y, TopOf(a), TopOf(b), cx) && ml[y] == Links(p, x, TopOf(d), cy)
            && (forall n :: n in LinksOf(b, y) ==> mr[n] == LinksOf(b, y)[n] && ml[n] == LinksOf(b, x)[n])
            && (forall n :: n in mr && n !in LinksOf(b, y) && n != x && n != y ==> mr[n] == ml[n])
  {
    EdgeParts(a, x, cx, b, y, cy, d);
    RightHeavyLinks(p, a, x, cx, b, y, cy, d);
    LeftHeavyLinks(p, a, x, cx, b, y, cy, d);
    EdgeMaps(LinksOf(a, x), LinksOf(b, y), LinksOf(b, x), LinksOf(d, y), x, y,
             Links(p, TopOf(a), y, cx), Links(x, TopOf(b), TopOf(d), cy),
             Links(y, TopOf(a), TopOf(b), cx), Links(p, x, TopOf(d), cy));
  }

  /** The links of either shape are those of the context and those inside. */
  lemma EdgeSplit(c: VmCtx, a: VmTree, x: VmArea, cx: Color, b: VmTree, y: VmArea, cy: Color, d: VmTree)
    requires Distinct(Plug(c, RightHeavy(a, x, cx, b, y, cy, d)))
    ensures var (r, l, p) := (RightHeavy(a, x, cx, b, y, cy, d), LeftHeavy(a, x, cx, b, y, cy, d), ParentOf(c));
            && TreeLinks(Plug(c, r)) == CtxLinks(c, x) + LinksOf(r, p)
            && TreeLinks(Plug(c, l)) == CtxLinks(c, y) + LinksOf(l, p)
            && Distinct(r) && CtxDistinct(c) && Areas(r) !! CtxAreas(c) && Areas(l) == Areas(r)
            && x in Areas(r) && y in Areas(r)
  {
    var r, l := RightHeavy(a, x, cx, b, y, cy, d), LeftHeavy(a, x, cx, b, y, cy, d);
    EdgeDistinct(c, a, x, cx, b, y, cy, d);
    PlugLinks(c, r);
    PlugLinks(c, l);
    PlugAreas(c, r);
    EdgeInside(ParentOf(c), a, x, cx, b, y, cy, d);
  }

  /** Two maps that differ at the hole, the two ends and the top of the middle tree. */
  lemma MergeBelow(cr: map<VmArea, Links>, cl: map<VmArea, Links>, ir: map<VmArea, Links>, il: map<VmArea, Links>,
                   br: map<VmArea, Links>, bl: map<VmArea, Links>, hole: VmArea?, x: VmArea, y: VmArea, top: VmArea?)
    requires cr.Keys == cl.Keys && ir.Keys == il.Keys && cr.Keys !! ir.Keys
    requires forall n :: n in cr && n != hole ==> cl[n] == cr[n]
    requires forall n :: n in br ==> n in ir && n in bl && ir[n] == br[n] && il[n] == bl[n]
    requires forall n :: n in br && n != top ==> br[n] == bl[n]
    requires forall n :: n in ir && n !in br && n != x && n != y ==> ir[n] == il[n]
    ensures (cr + ir).Keys == (cl + il).Keys
    ensures forall n :: n in cr + ir && n != x && n != y && n != top && n != hole ==> (cr + ir)[n] == (cl + il)[n]
  {
  }

  lemma EdgeBelow(c: VmCtx, a: VmTree, x: VmArea, cx: Color, b: VmTree, y: VmArea, cy: Color, d: VmTree)
    requires Distinct(Plug(c, RightHeavy(a, x, cx, b, y, cy, d)))
    ensures DiffersBelow(TreeLinks(Plug(c, RightHeavy(a, x, cx, b, y, cy, d))),
                         TreeLinks(Plug(c, LeftHeavy(a, x, cx, b, y, cy, d))), c, x, b, y)
  {
    var p := ParentOf(c);
    var ir, il := LinksOf(RightHeavy(a, x, cx, b, y, cy, d), p), LinksOf(LeftHeavy(a, x, cx, b, y, cy, d), p);
    EdgeSplit(c, a, x, cx, b, y, cy, d);
    EdgeInside(p, a, x, cx, b, y, cy, d);
    EdgeParts(a, x, cx, b, y, cy, d);
    MiddleLinks(b, y, x);
    if !c.Top? { CtxHole(c, x, y); }
    MergeBelow(CtxLinks(c, x), CtxLinks(c, y), ir, il, LinksOf(b, y), LinksOf(b, x), p, x, y, TopOf(b));
  }

  lemma EdgeAbove(c: VmCtx, a: VmTree, x: VmArea, cx: Color, b: VmTree, y: VmArea, cy: Color, d: VmTree)
    requires Distinct(Plug(c, RightHeavy(a, x, cx, b, y, cy, d)))
    ensures DiffersAbove(TreeLinks(Plug(c, RightHeavy(a, x, cx, b, y, cy, d))),
                         TreeLinks(Plug(c, LeftHeavy(a, x, cx, b, y, cy, d))), c, x, y)
  {
    EdgeSplit(c, a, x, cx, b, y, cy, d);
    if !c.Top? { CtxHole(c, x, y); }
  }

  lemma EdgeEnds(c: VmCtx, a: VmTree, x: VmArea, cx: Color, b: VmTree, y: VmArea, cy: Color, d: VmTree)
    requires Distinct(Plug(c, RightHeavy(a, x, cx, b, y, cy, d)))
    ensures var mr := TreeLinks(Plug(c, RightHeavy(a, x, cx, b, y, cy, d)));
            var ml := TreeLinks(Plug(c, LeftHeavy(a, x, cx, b, y, cy, d)));
            && x in mr && y in mr && x in ml && y in ml && x != y
            && mr[x] == Links(ParentOf(c), TopOf(a), y, cx) && mr[y] == Links(x, TopOf(b), TopOf(d), cy)
            && ml[x] == Links(y, TopOf(a), TopOf(b), cx) && ml[y] == Links(ParentOf(c), x, TopOf(d), cy)
  {
    EdgeDistinct(c, a, x, cx, b, y, cy, d);
    PlugAreas(c, RightHeavy(a, x, cx, b, y, cy, d));
    AtFocus(c, RightHeavy(a, x, cx, b, y, cy, d));
    AtFocus(InRight(a, x, cx, c), Node(b, y, cy, d));
    AtFocus(c, LeftHeavy(a, x, cx, b, y, cy, d));
    AtFocus(InLeft(y, cy, d, c), Node(a, x, cx, b));
  }

  /** mr are the links before and ml those after rotating the edge from x down to y. */
  ghost predicate EdgeMoves(mr: map<VmArea, Links>, ml: map<VmArea, Links>, c: VmCtx, x: VmArea, b: VmTree, y: VmArea) {
    && DiffersBelow(mr, ml, c, x, b, y) && DiffersAbove(mr, ml, c, x, y)
    && x in mr && y in mr && x != y
    && mr[x].parent == ParentOf(c) && mr[x].right == y && mr[y].parent == x && mr[y].left == TopOf(b)
    && ml[x] == mr[x].(parent := y, right := TopOf(b)) && ml[y] == mr[y].(parent := ParentOf(c), left := x)
  }

  lemma EdgeFacts(c: VmCtx, a: VmTree, x: VmArea, cx: Color, b: VmTree, y: VmArea, cy: Color, d: VmTree)
    requires Distinct(Plug(c, RightHeavy(a, x, cx, b, y, cy, d))) || Distinct(Plug(c, LeftHeavy(a, x, cx, b, y, cy, d)))
    ensures var (tr, tl) := (Plug(c, RightHeavy(a, x, cx, b, y, cy, d)), Plug(c, LeftHeavy(a, x, cx, b, y, cy, d)));
            && Distinct(tr) && Distinct(tl) && Areas(tr) == Areas(tl)
            && EdgeMoves(TreeLinks(tr), TreeLinks(tl), c, x, b, y)
            && (if c.Top? then TopOf(tr) == x && TopOf(tl) == y else TopOf(tr) == TopOf(tl))
  {
    EdgeDistinct(c, a, x, cx, b, y, cy, d);
    EdgeBelow(c, a, x, cx, b, y, cy, d);
    EdgeAbove(c, a, x, cx, b, y, cy, d);
    EdgeEnds(c, a, x, cx, b, y, cy, d);
    PlugTop(c, RightHeavy(a, x, cx, b, y, cy, d), LeftHeavy(a, x, cx, b, y, cy, d));
  }

  lemma {:induction false} PlugTop(c: VmCtx, t: VmTree, t': VmTree)
    ensures !c.Top? ==> TopOf(Plug(c, t)) == TopOf(Plug(c, t'))
    decreases c
  {
    match c
    case Top =>
    case InLeft(a, col, r, up) => PlugTop(up, Node(t, a, col, r), Node(t', a, col, r));
    case InRight(l, a, col, up) => PlugTop(up, Node(l, a, col, t), Node(l, a, col, t'));
  }

  lemma {:induction false} TopFromContext(c: VmCtx, s: VmTree)
    requires s.Node? && Distinct(Plug(c, s))
    ensures TopOf(Plug(c, s)) == s.area <==> c.Top?
    decreases c
  {
    PlugAreas(c, s);
    if !c.Top? {
      TopInContext(c, s);
    }
  }

  lemma {:induction false} TopInContext(c: VmCtx, s: VmTree)
    requires !c.Top?
    ensures TopOf(Plug(c, s)) in CtxAreas(c)
    decreases c
  {
    if !c.up.Top? { TopInContext(c.up, Hang(c, s)); }
  }

  ghost predicate HasLinks(n: VmArea, k: Links)
    reads n
  {
    n.parent == k.parent && n.left == k.left && n.right == k.right && n.color == k.color
  }

  ghost predicate Holds(m: map<VmArea, Links>)
    reads m.Keys
  {
    forall n :: n in m ==> HasLinks(n, m[n])
  }

  lemma SubtreesHold(t: VmTree, p: VmArea?)
    requires t.Node? && Distinct(t) && Holds(LinksOf(t, p))
    ensures Holds(LinksOf(t.left, t.area)) && Holds(LinksOf(t.right, t.area))
    ensures HasLinks(t.area, Links(p, TopOf(t.left), TopOf(t.right), t.color))
  {
    var m := LinksOf(t, p);
    assert forall n :: n in LinksOf(t.left, t.area) ==> n in m && m[n] == LinksOf(t.left, t.area)[n];
    assert forall n :: n in LinksOf(t.right, t.area) ==> n in m && m[n] == LinksOf(t.right, t.area)[n];
    assert HasLinks(t.area, m[t.area]);
  }

  /** The nodes in memory form one tree only. */
  lemma {:induction false} TreeFromMemory(t: VmTree, t': VmTree, p: VmArea?)
    requires Distinct(t) && Distinct(t') && TopOf(t) == TopOf(t')
    requires Holds(LinksOf(t, p)) && Holds(LinksOf(t', p))
    ensures t == t'
    decreases t
  {
    if t.Node? {
      SubtreesHold(t, p);
      SubtreesHold(t', p);
      TreeFromMemory(t.left, t'.left, t.area);
      TreeFromMemory(t.right, t'.right, t.area);
    }
  }

  class VirtualMemoryTree {
    var root: VmArea?

    /** The nodes in memory, all of them, form the tree t. */
    ghost predicate Matches(t: VmTree)
      reads this, Areas(t)
    {
      Distinct(t) && root == TopOf(t) && Holds(TreeLinks(t))
    }

    method LeftRotate(x: VmArea, ghost c: VmCtx, ghost t: VmTree)
      requires Matches(Plug(c, t)) && t.Node? && t.right.Node? && t.area == x
      modifies this, Areas(Plug(c, t))
      ensures Matches(Plug(c, RotateLeft(t))) && Areas(Plug(c, RotateLeft(t))) == Areas(Plug(c, t))
      ensures InOrder(Plug(c, RotateLeft(t))) == InOrder(Plug(c, t))
    {
      ghost var y, mr, ml := t.right.area, TreeLinks(Plug(c, t)), TreeLinks(Plug(c, RotateLeft(t)));
      EdgeFacts(c, t.left, x, t.color, t.right.left, y, t.right.color, t.right.right);
      RotateInOrder(t);
      PlugInOrder(c, t, RotateLeft(t));
      RelinkLeft(x, y, mr, ml, c, t.right.left);
    }

    /** The pointer moves of a left rotation at x, whose right child is y'. */
    method RelinkLeft(x: VmArea, ghost y': VmArea, ghost mr: map<VmArea, Links>, ghost ml: map<VmArea, Links>,
        ghost c: VmCtx, ghost b: VmTree)
      requires EdgeMoves(mr, ml, c, x, b, y') && (c.Top? ==> root == x)
      requires Holds(mr)
      modifies this, mr.Keys
      ensures root == if c.Top? then y' else old(root)
      ensures Holds(ml)
    {
      var y := x.right;
      x.right := y.left;
      if y.left != null {
        y.left.parent := x;
      }
      y.parent := x.parent;
      if x.parent == null {
        root := y;
      } else if x == x.parent.left {
        x.parent.left := y;
      } else {
        x.parent.right := y;
      }
      y.left := x;
      x.parent := y;
    }

    method RightRotate(y: VmArea, ghost c: VmCtx, ghost t: VmTree)
      requires Matches(Plug(c, t)) && t.Node? && t.left.Node? && t.area == y
      modifies this, Areas(Plug(c, t))
      ensures Matches(Plug(c, RotateRight(t))) && Areas(Plug(c, RotateRight(t))) == Areas(Plug(c, t))
      ensures InOrder(Plug(c, RotateRight(t))) == InOrder(Plug(c, t))
    {
      ghost var x, ml, mr := t.left.area, TreeLinks(Plug(c, t)), TreeLinks(Plug(c, RotateRight(t)));
      EdgeFacts(c, t.left.left, x, t.left.color, t.left.right, y, t.color, t.right);
      RotateInOrder(t);
      PlugInOrder(c, t, RotateRight(t));
      RelinkRight(y, x, ml, mr, c, t.left.right);
    }

    /** The pointer moves of a right rotation at y, whose left child is x'. */
    method RelinkRight(y: VmArea, ghost x': VmArea, ghost ml: map<VmArea, Links>, ghost mr: map<VmArea, Links>,
        ghost c: VmCtx, ghost b: VmTree)
      requires EdgeMoves(mr, ml, c, x', b, y) && (c.Top? ==> root == y)
      requires Holds(ml)
      modifies this, ml.Keys
      ensures root == if c.Top? then x' else old(root)
      ensures Holds(mr)
    {
      var x := y.left;
      y.left := x.right;
      if x.right != null {
        x.right.parent := y;
      }
      x.parent := y.parent;
      if y.parent == null {
        root := x;
      } else if y == y.parent.left {
        y.parent.left := x;
      } else {
        y.parent.right := x;
      }
      x.right := y;
      y.parent := x;
    }

    method SetColor(n: VmArea, col: Color, ghost c: VmCtx, ghost t: VmTree)
      requires Matches(Plug(c, t)) && t.Node? && t.area == n
      modifies n
      ensures Matches(Plug(c, t.(color := col))) && Areas(Plug(c, t.(color := col))) == Areas(Plug(c, t))
      ensures InOrder(Plug(c, t.(color := col))) == InOrder(Plug(c, t))
    {
      Recolor(c, t, col);
      PlugInOrder(c, t, t.(color := col));
      PlugTop(c, t, t.(color := col));
      assert TreeLinks(Plug(c, t.(color := col))).Keys == TreeLinks(Plug(c, t)).Keys;
      n.color := col;
    }

    /** The fields of the node in focus. */
    lemma Reads(c: VmCtx, t: VmTree)
      requires Matches(Plug(c, t)) && t.Node?
      ensures t.area in Areas(Plug(c, t))
      ensures HasLinks(t.area, Links(ParentOf(c), TopOf(t.left), TopOf(t.right), t.color))
    {
      AtFocus(c, t);
    }

    // ------------------------------------------------------------------- insertion

    /** What a round of insert_fixup sees and keeps: the tree is s inside c, z is the
        root of s, and only the edge into z may be red-red. */
    ghost predicate InsertState(z: VmArea, c: VmCtx, s: VmTree, h: int, total: int)
      reads this, Areas(Plug(c, s))
    {
      Matches(Plug(c, s)) && s.Node? && s.area == z && InsertInv(c, s, h, total)
    }

    ghost predicate SameTree(c: VmCtx, s: VmTree, c': VmCtx, s': VmTree) {
      Areas(Plug(c', s')) == Areas(Plug(c, s)) && InOrder(Plug(c', s')) == InOrder(Plug(c, s))
    }

    /** z, its parent and its grandparent as pointers. */
    lemma ReadsThree(c: VmCtx, s: VmTree)
      requires Matches(Plug(c, s)) && s.Node? && !c.Top? && !c.up.Top?
      ensures s.area.parent == c.area && c.area.parent == c.up.area
      ensures c.area in Areas(Plug(c, s)) && c.up.area in Areas(Plug(c, s))
      ensures c.InLeft? <==> s.area == c.area.left
      ensures c.InRight? <==> s.area == c.area.right
      ensures c.up.InLeft? <==> c.area == c.up.area.left
      ensures TopOf(Uncle(c.up)) == if c.up.InLeft? then c.up.area.right else c.up.area.left
    {
      Reads(c, s);
      Reads(c.up, Hang(c, s));
      Reads(c.up.up, Hang(c.up, Hang(c, s)));
      PlugAreas(c, s);
      PlugAreas(c.up, Hang(c, s));
    }

    lemma ReadsUncle(c: VmCtx, s: VmTree)
      requires Matches(Plug(c, s)) && !c.Top? && !c.up.Top? && Uncle(c.up).Node?
      ensures Uncle(c.up).area.color == Uncle(c.up).color && Uncle(c.up).area in Areas(Plug(c, s))
    {
      var g, p := c.up, Hang(c, s);
      var u := if g.InLeft? then InRight(p, g.area, g.color, g.up) else InLeft(g.area, g.color, p, g.up);
      assert Plug(u, Uncle(g)) == Plug(c, s);
      Reads(u, Uncle(g));
    }

    /** One colour write. */
    method PaintOne(n: VmArea, col: Color, ghost m: map<VmArea, Links>)
      requires Holds(m) && n in m
      modifies n`color
      ensures Holds(Paint(m, n, col))
    {
      n.color := col;
    }

    method PaintPair(z: VmArea, ghost m: map<VmArea, Links>)
      requires Holds(m) && z.parent != null && z.parent in m && z.parent.parent != null && z.parent.parent in m
      modifies z.parent`color, z.parent.parent`color
      ensures Holds(Paint(Paint(m, z.parent, Black), z.parent.parent, Red))
    {
      PaintOne(z.parent, Black, m);
      PaintOne(z.parent.parent, Red, Paint(m, z.parent, Black));
    }

    method PaintTriple(z: VmArea, y: VmArea, ghost m: map<VmArea, Links>)
      requires Holds(m) && z.parent != null && z.parent in m && z.parent.parent != null && z.parent.parent in m
          && y in m
      modifies z.parent`color, z.parent.parent`color, y`color
      ensures Holds(Paint(Paint(Paint(m, z.parent, Black), y, Black), z.parent.parent, Red))
    {
      PaintOne(z.parent, Black, m);
      PaintOne(y, Black, Paint(m, z.parent, Black));
      PaintOne(z.parent.parent, Red, Paint(Paint(m, z.parent, Black), y, Black));
    }

    /** The recolouring of a round whose uncle y is red. */
    method PushUp(z: VmArea, y: VmArea, ghost c: VmCtx, ghost s: VmTree, ghost h: int, ghost total: int)
      returns (up: VmArea)
      requires InsertState(z, c, s, h, total) && ParentRed(c)
      requires !c.up.Top? && IsRed(Uncle(c.up)) && y == Uncle(c.up).area
      modifies Areas(Plug(c, s))
      ensures InsertState(up, c.up.up, Pushed(c, s), h + 1, total)
      ensures SameTree(c, s, c.up.up, Pushed(c, s))
    {
      ReadsThree(c, s);
      ReadsUncle(c, s);
      PaintedTriple(c, s);
      PushedKeeps(c, s, h, total);
      PaintTriple(z, y, TreeLinks(Plug(c, s)));
      up := z.parent.parent;
    }

    /** The last rotation of a round on the left, z being a left child. */
    method RotateOuterLeft(z: VmArea, ghost c: VmCtx, ghost s: VmTree, ghost h: int, ghost total: int)
      requires InsertState(z, c, s, h, total) && ParentRed(c)
      requires c.InLeft? && c.up.InLeft? && !IsRed(c.up.right)
      modifies this, Areas(Plug(c, s))
      ensures InsertState(z, Outer(c), s, h, total) && SameTree(c, s, Outer(c), s)
    {
      ReadsThree(c, s);
      PaintedPair(c, s);
      OuterKeeps(c, s, h, total);
      ghost var gt := Node(Node(s, c.area, Black, c.right), c.up.area, Red, c.up.right);
      PlugInOrder(c.up.up, Hang(c.up, Hang(c, s)), gt);
      PaintPair(z, TreeLinks(Plug(c, s)));
      RightRotate(z.parent.parent, c.up.up, gt);
    }

    /** The last rotation of a round on the right, z being a right child. */
    method RotateOuterRight(z: VmArea, ghost c: VmCtx, ghost s: VmTree, ghost h: int, ghost total: int)
      requires InsertState(z, c, s, h, total) && ParentRed(c)
      requires c.InRight? && c.up.InRight? && !IsRed(c.up.left)
      modifies this, Areas(Plug(c, s))
      ensures InsertState(z, Outer(c), s, h, total) && SameTree(c, s, Outer(c), s)
    {
      ReadsThree(c, s);
      PaintedPair(c, s);
      OuterKeeps(c, s, h, total);
      ghost var gt := Node(c.up.left, c.up.area, Red, Node(c.left, c.area, Black, s));
      PlugInOrder(c.up.up, Hang(c.up, Hang(c, s)), gt);
      PaintPair(z, TreeLinks(Plug(c, s)));
      LeftRotate(z.parent.parent, c.up.up, gt);
    }

    /** A round whose parent is a left child. */
    method InsertRoundLeft(z: VmArea, ghost c: VmCtx, ghost s: VmTree, ghost h: int, ghost total: int)
      returns (z': VmArea, ghost c': VmCtx, ghost s': VmTree, ghost h': int)
      requires InsertState(z, c, s, h, total) && ParentRed(c) && c.up.InLeft?
      modifies this, Areas(Plug(c, s))
      ensures InsertState(z', c', s', h', total) && SameTree(c, s, c', s')
      ensures ParentRed(c') ==> Depth(c') < Depth(c)
    {
      ReadsThree(c, s);
      if Uncle(c.up).Node? { ReadsUncle(c, s); }
      z', c', s', h' := z, c, s, h;
      var y := z.parent.parent.right;
      if y != null && y.color == Red {
        z' := PushUp(z, y, c, s, h, total);
        c', s', h' := c.up.up, Pushed(c, s), h + 1;
      } else {
        if z == z.parent.right {
          z' := z.parent;
          InnerKeeps(c, s, h, total);
          LeftRotate(z', c.up, Hang(c, s));
          c', s' := InLeft(z, Red, s.right, c.up), Node(c.left, c.area, Red, s.left);
        }
        RotateOuterLeft(z', c', s', h, total);
        c' := Outer(c');
      }
    }

    /** A round whose parent is a right child. */
    method InsertRoundRight(z: VmArea, ghost c: VmCtx, ghost s: VmTree, ghost h: int, ghost total: int)
      returns (z': VmArea, ghost c': VmCtx, ghost s': VmTree, ghost h': int)
      requires InsertState(z, c, s, h, total) && ParentRed(c) && c.up.InRight?
      modifies this, Areas(Plug(c, s))
      ensures InsertState(z', c', s', h', total) && SameTree(c, s, c', s')
      ensures ParentRed(c') ==> Depth(c') < Depth(c)
    {
      ReadsThree(c, s);
      if Uncle(c.up).Node? { ReadsUncle(c, s); }
      z', c', s', h' := z, c, s, h;
      var y := z.parent.parent.left;
      if y != null && y.color == Red {
        z' := PushUp(z, y, c, s, h, total);
        c', s', h' := c.up.up, Pushed(c, s), h + 1;
      } else {
        if z == z.parent.left {
          z' := z.parent;
          InnerKeeps(c, s, h, total);
          RightRotate(z', c.up, Hang(c, s));
          c', s' := InRight(s.left, z, Red, c.up), Node(s.right, c.area, Red, c.right);
        }
        RotateOuterRight(z', c', s', h, total);
        c' := Outer(c');
      }
    }

    lemma LoopReads(c: VmCtx, s: VmTree)
      requires Matches(Plug(c, s)) && s.Node?
      ensures s.area.parent == ParentOf(c) && s.area.color == s.color
      ensures !c.Top? ==> c.area.color == c.color
      ensures root == s.area <==> c.Top?
    {
      Reads(c, s);
      if !c.Top? { Reads(c.up, Hang(c, s)); }
      TopFromContext(c, s);
    }

    /** The closing step of insert_fixup: a black root. */
    method BlackenRoot(ghost t: VmTree)
      requires Matches(t) && t.Node?
      modifies Areas(t)
      ensures Matches(Blackened(t))
    {
      RecolorTop(Top, t, Black);
      PaintOne(root, Black, TreeLinks(t));
    }

    /** insert_fixup, from a tree whose only defect is the red node z. */
    method InsertFixup(z: VmArea, ghost t: VmTree) returns (ghost t': VmTree)
      requires Matches(t) && z in Areas(t) && z.color == Red && InsertDefect(t, z)
      modifies this, Areas(t)
      ensures Matches(t') && IsRedBlack(t') && InOrder(t') == InOrder(t)
    {
      ghost var total :| BlackHeight(t, total);
      ghost var c, s := Find(Top, t, z);
      LoopReads(c, s);
      ghost var h := StartInsert(c, s, total);
      var x := z;
      while x.parent != null && x.parent.color == Red
        invariant InsertState(x, c, s, h, total) && SameTree(Top, t, c, s)
        decreases if ParentRed(c) then 1 + Depth(c) else 0
      {
        LoopReads(c, s);
        ReadsThree(c, s);
        if x.parent == x.parent.parent.left {
          x, c, s, h := InsertRoundLeft(x, c, s, h, total);
        } else {
          x, c, s, h := InsertRoundRight(x, c, s, h, total);
        }
      }
      LoopReads(c, s);
      InsertDone(c, s, h, total);
      BlackenRoot(Plug(c, s));
      t' := Blackened(Plug(c, s));
    }

    // --------------------------------------------------------------------- deletion

    /** What a round of delete_fixup sees and keeps: x is the root of s, whose paths
        are one black short. */
    ghost predicate DeleteState(x: VmArea, c: VmCtx, s: VmTree, h: int, total: int)
      reads this, Areas(Plug(c, s))
    {
      Matches(Plug(c, s)) && s.Node? && s.area == x && DeleteInv(c, s, h, total)
    }

    method PaintSibling(w: VmArea, col: Color, ghost c: VmCtx, ghost s: VmTree)
      requires Matches(Plug(c, s)) && !c.Top? && Uncle(c).Node? && w == Uncle(c).area
      modifies w
      ensures var c' := WithUncle(c, Uncle(c).(color := col));
              Matches(Plug(c', s)) && SameTree(c, s, c', s)
    {
      SetColor(w, col, Beside(c, s), Uncle(c));
    }

    method PaintParent(p: VmArea, col: Color, ghost c: VmCtx, ghost s: VmTree)
      requires Matches(Plug(c, s)) && !c.Top? && p == c.area
      modifies p
      ensures Matches(Plug(WithColor(c, col), s)) && SameTree(c, s, WithColor(c, col), s)
    {
      SetColor(p, col, c.up, Hang(c, s));
    }

    /** The pointers around x: its parent, its sibling and the sibling's children. */
    lemma ReadsSibling(c: VmCtx, s: VmTree)
      requires Matches(Plug(c, s)) && s.Node? && !c.Top? && Uncle(c).Node?
      ensures s.area.parent == c.area && c.area.color == c.color && c.area in Areas(Plug(c, s))
      ensures c.InLeft? <==> s.area == c.area.left
      ensures Uncle(c).area == (if c.InLeft? then c.area.right else c.area.left) && Uncle(c).area in Areas(Plug(c, s))
      ensures Uncle(c).area != c.area && Uncle(c).area != s.area
      ensures var w := Uncle(c);
              w.area.color == w.color && w.area.left == TopOf(w.left) && w.area.right == TopOf(w.right)
    {
      Reads(c, s);
      Reads(c.up, Hang(c, s));
      Reads(Beside(c, s), Uncle(c));
      PlugAreas(c, s);
      PlugAreas(Beside(c, s), Uncle(c));
    }

    /** The colours of the sibling's children. */
    lemma ReadsNephews(c: VmCtx, s: VmTree)
      requires Matches(Plug(c, s)) && !c.Top? && Uncle(c).Node?
      ensures Uncle(c).left.Node? ==> Uncle(c).left.area.color == Uncle(c).left.color
      ensures Uncle(c).right.Node? ==> Uncle(c).right.area.color == Uncle(c).right.color
    {
      var w, at := Uncle(c), Beside(c, s);
      if w.left.Node? { Reads(InLeft(w.area, w.color, w.right, at), w.left); }
      if w.right.Node? { Reads(InRight(w.left, w.area, w.color, at), w.right); }
    }

    method RedSiblingLeft(x: VmArea, ghost c: VmCtx, ghost s: VmTree, ghost h: int, ghost total: int)
      returns (ghost c': VmCtx)
      requires DeleteState(x, c, s, h, total) && c.InLeft? && !IsRed(s) && IsRed(c.right)
      modifies this, Areas(Plug(c, s))
      ensures DeleteState(x, c', s, h, total) && SameTree(c, s, c', s)
      ensures c' == InLeft(c.area, Red, c.right.left, InLeft(c.right.area, Black, c.right.right, c.up))
    {
      RedSiblingKeeps(c, s, h, total);
      ReadsSibling(c, s);
      var w := x.parent.right;
      PaintSibling(w, Black, c, s);
      ghost var c1 := WithUncle(c, Uncle(c).(color := Black));
      ReadsSibling(c1, s);
      PaintParent(x.parent, Red, c1, s);
      ghost var c2 := WithColor(c1, Red);
      ReadsSibling(c2, s);
      LeftRotate(x.parent, c.up, Hang(c2, s));
      c' := InLeft(c.area, Red, c.right.left, InLeft(c.right.area, Black, c.right.right, c.up));
    }

    method RedSiblingRight(x: VmArea, ghost c: VmCtx, ghost s: VmTree, ghost h: int, ghost total: int)
      returns (ghost c': VmCtx)
      requires DeleteState(x, c, s, h, total) && c.InRight? && !IsRed(s) && IsRed(c.left)
      modifies this, Areas(Plug(c, s))
      ensures DeleteState(x, c', s, h, total) && SameTree(c, s, c', s)
      ensures c' == InRight(c.left.right, c.area, Red, InRight(c.left.left, c.left.area, Black, c.up))
    {
      RedSiblingKeeps(c, s, h, total);
      ReadsSibling(c, s);
      var w := x.parent.left;
      PaintSibling(w, Black, c, s);
      ghost var c1 := WithUncle(c, Uncle(c).(color := Black));
      ReadsSibling(c1, s);
      PaintParent(x.parent, Red, c1, s);
      ghost var c2 := WithColor(c1, Red);
      ReadsSibling(c2, s);
      RightRotate(x.parent, c.up, Hang(c2, s));
      c' := InRight(c.left.right, c.area, Red, InRight(c.left.left, c.left.area, Black, c.up));
    }

    method BlackenRight(w: VmArea, ghost c: VmCtx, ghost t: VmTree)
      requires Matches(Plug(c, t)) && t.Node? && t.area == w
      modifies Areas(Plug(c, t))
      ensures Matches(Plug(c, t.(right := Blackened(t.right)))) && SameTree(c, t, c, t.(right := Blackened(t.right)))
    {
      Reads(c, t);
      if w.right != null {
        Reads(InRight(t.left, w, t.color, c), t.right);
        SetColor(w.right, Black, InRight(t.left, w, t.color, c), t.right);
      }
    }

    method BlackenLeft(w: VmArea, ghost c: VmCtx, ghost t: VmTree)
      requires Matches(Plug(c, t)) && t.Node? && t.area == w
      modifies Areas(Plug(c, t))
      ensures Matches(Plug(c, t.(left := Blackened(t.left)))) && SameTree(c, t, c, t.(left := Blackened(t.left)))
    {
      Reads(c, t);
      if w.left != null {
        Reads(InLeft(w, t.color, t.right, c), t.left);
        SetColor(w.left, Black, InLeft(w, t.color, t.right, c), t.left);
      }
    }

    /** The near child of the sibling w is red, the far one is not. */
    method NearRedLeft(x: VmArea, w: VmArea, ghost c: VmCtx, ghost s: VmTree, ghost h: int, ghost total: int)
      returns (ghost c': VmCtx)
      requires DeleteState(x, c, s, h, total) && c.InLeft? && !IsRed(s) && c.right.Node? && w == c.right.area
      requires !IsRed(c.right) && IsRed(c.right.left) && !IsRed(c.right.right)
      modifies this, Areas(Plug(c, s))
      ensures DeleteState(x, c', s, h, total) && SameTree(c, s, c', s)
      ensures c'.InLeft? && c'.right.Node? && !IsRed(c'.right) && IsRed(c'.right.right)
    {
      NearChildKeeps(c, s, h, total);
      ReadsSibling(c, s);
      ghost var wt, at := c.right, Beside(c, s);
      BlackenLeft(w, at, wt);
      ghost var w1 := Node(Blackened(wt.left), w, wt.color, wt.right);
      SetColor(w, Red, at, w1);
      RightRotate(w, at, w1.(color := Red));
      c' := WithUncle(c, RotateRight(w1.(color := Red)));
    }

    method NearRedRight(x: VmArea, w: VmArea, ghost c: VmCtx, ghost s: VmTree, ghost h: int, ghost total: int)
      returns (ghost c': VmCtx)
      requires DeleteState(x, c, s, h, total) && c.InRight? && !IsRed(s) && c.left.Node? && w == c.left.area
      requires !IsRed(c.left) && IsRed(c.left.right) && !IsRed(c.left.left)
      modifies this, Areas(Plug(c, s))
      ensures DeleteState(x, c', s, h, total) && SameTree(c, s, c', s)
      ensures c'.InRight? && c'.left.Node? && !IsRed(c'.left) && IsRed(c'.left.left)
    {
      NearChildKeeps(c, s, h, total);
      ReadsSibling(c, s);
      ghost var wt, at := c.left, Beside(c, s);
      BlackenRight(w, at, wt);
      ghost var w1 := Node(wt.left, w, wt.color, Blackened(wt.right));
      SetColor(w, Red, at, w1);
      LeftRotate(w, at, w1.(color := Red));
      c' := WithUncle(c, RotateLeft(w1.(color := Red)));
    }

    /** The far child of the sibling w is red: the last rotation. */
    method FarRedLeft(x: VmArea, w: VmArea, ghost c: VmCtx, ghost s: VmTree, ghost h: int, ghost total: int)
      requires DeleteState(x, c, s, h, total) && c.InLeft? && !IsRed(s) && c.right.Node? && w == c.right.area
      requires !IsRed(c.right) && IsRed(c.right.right)
      modifies this, Areas(Plug(c, s))
      ensures Matches(Plug(c.up, Repaired(c, s))) && SameTree(c, s, c.up, Repaired(c, s))
    {
      ReadsSibling(c, s);
      ghost var wt := c.right;
      PaintSibling(w, x.parent.color, c, s);
      ghost var c1 := WithUncle(c, wt.(color := c.color));
      ReadsSibling(c1, s);
      PaintParent(x.parent, Black, c1, s);
      ghost var c2 := WithColor(c1, Black);
      ReadsSibling(c2, s);
      BlackenRight(w, Beside(c2, s), wt.(color := c.color));
      ghost var c3 := WithUncle(c2, Node(wt.left, w, c.color, Blackened(wt.right)));
      ReadsSibling(c3, s);
      LeftRotate(x.parent, c.up, Hang(c3, s));
    }

    method FarRedRight(x: VmArea, w: VmArea, ghost c: VmCtx, ghost s: VmTree, ghost h: int, ghost total: int)
      requires DeleteState(x, c, s, h, total) && c.InRight? && !IsRed(s) && c.left.Node? && w == c.left.area
      requires !IsRed(c.left) && IsRed(c.left.left)
      modifies this, Areas(Plug(c, s))
      ensures Matches(Plug(c.up, Repaired(c, s))) && SameTree(c, s, c.up, Repaired(c, s))
    {
      ReadsSibling(c, s);
      ghost var wt := c.left;
      PaintSibling(w, x.parent.color, c, s);
      ghost var c1 := WithUncle(c, wt.(color := c.color));
      ReadsSibling(c1, s);
      PaintParent(x.parent, Black, c1, s);
      ghost var c2 := WithColor(c1, Black);
      ReadsSibling(c2, s);
      BlackenLeft(w, Beside(c2, s), wt.(color := c.color));
      ghost var c3 := WithUncle(c2, Node(Blackened(wt.left), w, c.color, wt.right));
      ReadsSibling(c3, s);
      RightRotate(x.parent, c.up, Hang(c3, s));
    }

    /** The rest of a round at a left child x, its sibling w being black. */
    method BlackSiblingLeft(x: VmArea, w0: VmArea, ghost c: VmCtx, ghost s: VmTree, ghost h: int, ghost total: int)
      returns (x': VmArea, ghost c': VmCtx, ghost s': VmTree, ghost h': int, ghost total': int)
      requires DeleteState(x, c, s, h, total) && c.InLeft? && !IsRed(s)
      requires Uncle(c).Node? && !IsRed(Uncle(c)) && w0 == Uncle(c).area
      modifies this, Areas(Plug(c, s))
      ensures DeleteState(x', c', s', h', total') && SameTree(c, s, c', s')
      ensures (c' == c.up && s'.color == c.color) || c'.Top?
    {
      var w := w0;
      c', s', h', total' := c, s, h, total;
      ReadsSibling(c, s);
      ReadsNephews(c, s);
      if (w.left == null || w.left.color == Black) && (w.right == null || w.right.color == Black) {
        BlackSiblingKeeps(c, s, h, total);
        PaintSibling(w, Red, c, s);
        x' := x.parent;
        h' := if c.color.Black? then h + 1 else h;
        s' := Hang(WithUncle(c, Uncle(c).(color := Red)), s);
        c' := c.up;
      } else {
        if w.right == null || w.right.color == Black {
          c' := NearRedLeft(x, w, c, s, h, total);
          ReadsSibling(c', s);
          w := x.parent.right;
        }
        RepairedKeeps(c', s, h, total);
        FarRedLeft(x, w, c', s, h, total);
        s' := Plug(c'.up, Repaired(c', s));
        c', h', total' := Top, total, total + 1;
        x' := root;
      }
    }

    /** A round of delete_fixup at a left child x. */
    method DeleteRoundLeft(x: VmArea, ghost c: VmCtx, ghost s: VmTree, ghost h: int, ghost total: int)
      returns (x': VmArea, ghost c': VmCtx, ghost s': VmTree, ghost h': int, ghost total': int)
      requires DeleteState(x, c, s, h, total) && c.InLeft? && !IsRed(s)
      modifies this, Areas(Plug(c, s))
      ensures DeleteState(x', c', s', h', total') && SameTree(c, s, c', s')
      ensures !c'.Top? && !IsRed(s') ==> Depth(c') < Depth(c)
    {
      c' := c;
      SiblingOfShort(c, s, h, total);
      ReadsSibling(c, s);
      var w := x.parent.right;
      if w.color == Red {
        c' := RedSiblingLeft(x, c, s, h, total);
        ReadsSibling(c', s);
        w := x.parent.right;
      }
      SiblingOfShort(c', s, h, total);
      x', c', s', h', total' := BlackSiblingLeft(x, w, c', s, h, total);
    }

    /** The rest of a round at a right child x, its sibling w being black. */
    method BlackSiblingRight(x: VmArea, w0: VmArea, ghost c: VmCtx, ghost s: VmTree, ghost h: int, ghost total: int)
      returns (x': VmArea, ghost c': VmCtx, ghost s': VmTree, ghost h': int, ghost total': int)
      requires DeleteState(x, c, s, h, total) && c.InRight? && !IsRed(s)
      requires Uncle(c).Node? && !IsRed(Uncle(c)) && w0 == Uncle(c).area
      modifies this, Areas(Plug(c, s))
      ensures DeleteState(x', c', s', h', total') && SameTree(c, s, c', s')
      ensures (c' == c.up && s'.color == c.color) || c'.Top?
    {
      var w := w0;
      c', s', h', total' := c, s, h, total;
      ReadsSibling(c, s);
      ReadsNephews(c, s);
      if (w.right == null || w.right.color == Black) && (w.left == null || w.left.color == Black) {
        BlackSiblingKeeps(c, s, h, total);
        PaintSibling(w, Red, c, s);
        x' := x.parent;
        h' := if c.color.Black? then h + 1 else h;
        s' := Hang(WithUncle(c, Uncle(c).(color := Red)), s);
        c' := c.up;
      } else {
        if w.left == null || w.left.color == Black {
          c' := NearRedRight(x, w, c, s, h, total);
          ReadsSibling(c', s);
          w := x.parent.left;
        }
        RepairedKeeps(c', s, h, total);
        FarRedRight(x, w, c', s, h, total);
        s' := Plug(c'.up, Repaired(c', s));
        c', h', total' := Top, total, total + 1;
        x' := root;
      }
    }

    /** A round of delete_fixup at a right child x. */
    method DeleteRoundRight(x: VmArea, ghost c: VmCtx, ghost s: VmTree, ghost h: int, ghost total: int)
      returns (x': VmArea, ghost c': VmCtx, ghost s': VmTree, ghost h': int, ghost total': int)
      requires DeleteState(x, c, s, h, total) && c.InRight? && !IsRed(s)
      modifies this, Areas(Plug(c, s))
      ensures DeleteState(x', c', s', h', total') && SameTree(c, s, c', s')
      ensures !c'.Top? && !IsRed(s') ==> Depth(c') < Depth(c)
    {
      c' := c;
      SiblingOfShort(c, s, h, total);
      ReadsSibling(c, s);
      var w := x.parent.left;
      if w.color == Red {
        c' := RedSiblingRight(x, c, s, h, total);
        ReadsSibling(c', s);
        w := x.parent.left;
      }
      SiblingOfShort(c', s, h, total);
      x', c', s', h', total' := BlackSiblingRight(x, w, c', s, h, total);
    }

    /** delete_fixup, from a tree whose only defect is the short subtree of x. */
    method DeleteFixup(x: VmArea, ghost t: VmTree) returns (ghost t': VmTree)
      requires Matches(t) && x in Areas(t) && DeleteDefect(t, x)
      modifies this, Areas(t)
      ensures Matches(t') && IsRedBlack(t') && InOrder(t') == InOrder(t)
    {
      ghost var total :| ShortAt(t, x, total);
      ghost var c, s := Find(Top, t, x);
      ghost var h := StartDelete(c, s, total);
      var n := x;
      LoopReads(c, s);
      while n != root && n.color == Black
        invariant DeleteState(n, c, s, h, total) && SameTree(Top, t, c, s)
        decreases if c.Top? || IsRed(s) then 0 else 1 + Depth(c)
      {
        LoopReads(c, s);
        SiblingOfShort(c, s, h, total);
        ReadsSibling(c, s);
        if n == n.parent.left {
          n, c, s, h, total := DeleteRoundLeft(n, c, s, h, total);
        } else {
          n, c, s, h, total := DeleteRoundRight(n, c, s, h, total);
        }
      }
      LoopReads(c, s);
      DeleteDone(c, s, h, total);
      Reads(c, s);
      SetColor(n, Black, c, s);
      t' := Plug(c, Blackened(s));
    }
  }
}
