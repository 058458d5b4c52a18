/** Red-black trees as values, together with the position of one node in them: a
    subtree and its context. The pointer code of VirtualMemoryTree is proved
    against these. */
module RedBlack {

  datatype Color = Red | Black

  datatype Tree<A> = Leaf | Node(left: Tree<A>, area: A, color: Color, right: Tree<A>)

  /** Everything above and beside a subtree. */
  datatype Ctx<A> =
    | Top
    | InLeft(area: A, color: Color, right: Tree<A>, up: Ctx<A>)
    | InRight(left: Tree<A>, area: A, color: Color, up: Ctx<A>)

  function Plug<A>(c: Ctx<A>, t: Tree<A>): Tree<A>
    decreases c
  {
    match c
    case Top => t
    case InLeft(a, col, r, up) => Plug(up, Node(t, a, col, r))
    case InRight(l, a, col, up) => Plug(up, Node(l, a, col, t))
  }

  function InOrder<A>(t: Tree<A>): seq<A> {
    match t
    case Leaf => []
    case Node(l, a, _, r) => InOrder(l) + [a] + InOrder(r)
  }

  ghost function Areas<A>(t: Tree<A>): set<A> {
    match t
    case Leaf => {}
    case Node(l, a, _, r) => Areas(l) + {a} + Areas(r)
  }

  ghost function CtxAreas<A>(c: Ctx<A>): set<A> {
    match c
    case Top => {}
    case InLeft(a, _, r, up) => {a} + Areas(r) + CtxAreas(up)
    case InRight(l, a, _, up) => {a} + Areas(l) + CtxAreas(up)
  }

  /** No area occurs twice. */
  ghost predicate Distinct<A>(t: Tree<A>) {
    match t
    case Leaf => true
    case Node(l, a, _, r) =>
      Distinct(l) && Distinct(r) && a !in Areas(l) && a !in Areas(r) && Areas(l) !! Areas(r)
  }

  ghost predicate CtxDistinct<A>(c: Ctx<A>) {
    match c
    case Top => true
    case InLeft(a, _, r, up) =>
      Distinct(r) && CtxDistinct(up) && a !in Areas(r) && a !in CtxAreas(up) && Areas(r) !! CtxAreas(up)
    case InRight(l, a, _, up) =>
      Distinct(l) && CtxDistinct(up) && a !in Areas(l) && a !in CtxAreas(up) && Areas(l) !! CtxAreas(up)
  }

  // ---------------------------------------------------------------- red-black trees

  predicate IsRed<A>(t: Tree<A>) {
    t.Node? && t.color.Red?
  }

  predicate NoRedRed<A>(t: Tree<A>) {
    match t
    case Leaf => true
    case Node(l, _, col, r) =>
      NoRedRed(l) && NoRedRed(r) && (col.Red? ==> !IsRed(l) && !IsRed(r))
  }

  /** Every path from the root down passes h black nodes. */
  predicate BlackHeight<A>(t: Tree<A>, h: int) {
    match t
    case Leaf => h == 0
    case Node(l, _, col, r) =>
      var below := if col.Black? then h - 1 else h;
      BlackHeight(l, below) && BlackHeight(r, below)
  }

  ghost predicate IsRedBlack<A>(t: Tree<A>) {
    !IsRed(t) && NoRedRed(t) && exists h :: BlackHeight(t, h)
  }

  // ---------------------------------------------------------------------- rotations

  function RotateLeft<A>(t: Tree<A>): Tree<A>
    requires t.Node? && t.right.Node?
  {
    var y := t.right;
    Node(Node(t.left, t.area, t.color, y.left), y.area, y.color, y.right)
  }

  function RotateRight<A>(t: Tree<A>): Tree<A>
    requires t.Node? && t.left.Node?
  {
    var x := t.left;
    Node(x.left, x.area, x.color, Node(x.right, t.area, t.color, t.right))
  }

  // --------------------------------------------------- one position in a whole tree

  function Depth<A>(c: Ctx<A>): nat {
    if c.Top? then 0 else 1 + Depth(c.up)
  }

  predicate ParentRed<A>(c: Ctx<A>) {
    !c.Top? && c.color.Red?
  }

  /** No red node of the context has a red child, the hole left aside. */
  predicate CtxNoRedRed<A>(c: Ctx<A>) {
    match c
    case Top => true
    case InLeft(_, col, r, up) => NoRedRed(r) && CtxNoRedRed(up) && (col.Red? ==> !IsRed(r) && !ParentRed(up))
    case InRight(l, _, col, up) => NoRedRed(l) && CtxNoRedRed(up) && (col.Red? ==> !IsRed(l) && !ParentRed(up))
  }

  /** A subtree of black height h in the hole gives the whole tree height total. */
  predicate CtxHeight<A>(c: Ctx<A>, h: int, total: int)
    decreases c
  {
    match c
    case Top => h == total
    case InLeft(_, col, r, up) => BlackHeight(r, h) && CtxHeight(up, if col.Black? then h + 1 else h, total)
    case InRight(l, _, col, up) => BlackHeight(l, h) && CtxHeight(up, if col.Black? then h + 1 else h, total)
  }

  predicate RootBlack<A>(c: Ctx<A>) {
    c.Top? || (if c.up.Top? then c.color.Black? else RootBlack(c.up))
  }

  lemma {:induction false} PlugNoRedRed<A>(c: Ctx<A>, t: Tree<A>)
    requires CtxNoRedRed(c) && NoRedRed(t) && (ParentRed(c) ==> !IsRed(t))
    ensures NoRedRed(Plug(c, t))
    decreases c
  {
    match c
    case Top =>
    case InLeft(a, col, r, up) => PlugNoRedRed(up, Node(t, a, col, r));
    case InRight(l, a, col, up) => PlugNoRedRed(up, Node(l, a, col, t));
  }

  lemma {:induction false} PlugHeight<A>(c: Ctx<A>, t: Tree<A>, h: int, total: int)
    requires BlackHeight(t, h) && CtxHeight(c, h, total)
    ensures BlackHeight(Plug(c, t), total)
    decreases c
  {
    match c
    case Top =>
    case InLeft(a, col, r, up) => PlugHeight(up, Node(t, a, col, r), if col.Black? then h + 1 else h, total);
    case InRight(l, a, col, up) => PlugHeight(up, Node(l, a, col, t), if col.Black? then h + 1 else h, total);
  }

  lemma {:induction false} PlugInOrder<A>(c: Ctx<A>, t: Tree<A>, t': Tree<A>)
    requires InOrder(t) == InOrder(t')
    ensures InOrder(Plug(c, t)) == InOrder(Plug(c, t'))
    decreases c
  {
    match c
    case Top =>
    case InLeft(a, col, r, up) => PlugInOrder(up, Node(t, a, col, r), Node(t', a, col, r));
    case InRight(l, a, col, up) => PlugInOrder(up, Node(l, a, col, t), Node(l, a, col, t'));
  }

  lemma RotateInOrder<A>(t: Tree<A>)
    ensures t.Node? && t.right.Node? ==> InOrder(RotateLeft(t)) == InOrder(t)
    ensures t.Node? && t.left.Node? ==> InOrder(RotateRight(t)) == InOrder(t)
  {
  }

  lemma {:induction false} PlugRoot<A>(c: Ctx<A>, t: Tree<A>)
    requires RootBlack(c) && (c.Top? ==> !IsRed(t))
    ensures !IsRed(Plug(c, t))
    decreases c
  {
    match c
    case Top =>
    case InLeft(a, col, r, up) => PlugRoot(up, Node(t, a, col, r));
    case InRight(l, a, col, up) => PlugRoot(up, Node(l, a, col, t));
  }

  lemma {:induction false} Find<A>(c0: Ctx<A>, t: Tree<A>, a: A) returns (c: Ctx<A>, s: Tree<A>)
    requires a in Areas(t)
    ensures Plug(c, s) == Plug(c0, t) && s.Node? && s.area == a
    decreases t
  {
    if t.area == a {
      c, s := c0, t;
    } else if a in Areas(t.left) {
      c, s := Find(InLeft(t.area, t.color, t.right, c0), t.left, a);
    } else {
      c, s := Find(InRight(t.left, t.area, t.color, c0), t.right, a);
    }
  }

  lemma {:induction false} PlugAreas<A>(c: Ctx<A>, t: Tree<A>)
    ensures Areas(Plug(c, t)) == CtxAreas(c) + Areas(t)
    ensures Distinct(Plug(c, t)) <==> Distinct(t) && CtxDistinct(c) && Areas(t) !! CtxAreas(c)
    decreases c
  {
    match c
    case Top =>
    case InLeft(a, col, r, up) => PlugAreas(up, Node(t, a, col, r));
    case InRight(l, a, col, up) => PlugAreas(up, Node(l, a, col, t));
  }

  // ------------------------------------------------------------------ the two defects

  /** The only red node with a red parent, if any, is z. */
  predicate RedRedOnlyAt<A(==)>(t: Tree<A>, z: A) {
    match t
    case Leaf => true
    case Node(l, _, col, r) =>
      && RedRedOnlyAt(l, z) && RedRedOnlyAt(r, z)
      && (col.Red? ==> (IsRed(l) ==> l.area == z) && (IsRed(r) ==> r.area == z))
  }

  /** A red-black tree but for the red node z, which may be the root or have a red parent. */
  ghost predicate InsertDefect<A>(t: Tree<A>, z: A) {
    RedRedOnlyAt(t, z) && (IsRed(t) ==> t.area == z) && exists h :: BlackHeight(t, h)
  }

  /** Every path passes h black nodes, those through x one fewer. */
  predicate ShortAt<A(==)>(t: Tree<A>, x: A, h: int) {
    match t
    case Leaf => h == 0
    case Node(l, a, col, r) =>
      var below := if col.Black? then h - 1 else h;
      if a == x then BlackHeight(t, h - 1) else ShortAt(l, x, below) && ShortAt(r, x, below)
  }

  /** A red-black tree but for x: its subtree is one black short, and x itself may
      be a red root or a red child of a red node. */
  ghost predicate DeleteDefect<A>(t: Tree<A>, x: A) {
    RedRedOnlyAt(t, x) && (IsRed(t) ==> t.area == x) && exists h :: ShortAt(t, x, h)
  }

  lemma {:induction false} NoDefectWithout<A>(t: Tree<A>, z: A, h: int)
    requires z !in Areas(t)
    ensures RedRedOnlyAt(t, z) ==> NoRedRed(t)
    ensures ShortAt(t, z, h) ==> BlackHeight(t, h)
    decreases t
  {
    if t.Node? {
      var below := if t.color.Black? then h - 1 else h;
      NoDefectWithout(t.left, z, below);
      NoDefectWithout(t.right, z, below);
      assert t.left.Node? ==> t.left.area in Areas(t.left);
      assert t.right.Node? ==> t.right.area in Areas(t.right);
    }
  }

  /** Seen from z, the rest of the tree has no red-red edge. */
  lemma {:induction false} RedRedAround<A>(c: Ctx<A>, s: Tree<A>, z: A)
    requires s.Node? && Distinct(Plug(c, s)) && RedRedOnlyAt(Plug(c, s), z)
    requires z in Areas(s) && z !in CtxAreas(c)
    ensures RedRedOnlyAt(s, z) && CtxNoRedRed(c) && (ParentRed(c) && IsRed(s) ==> s.area == z)
    decreases c
  {
    match c
    case Top =>
    case InLeft(a, col, r, up) =>
      RedRedAround(up, Node(s, a, col, r), z);
      NoDefectWithout(r, z, 0);
      assert r.Node? ==> r.area in Areas(r);
    case InRight(l, a, col, up) =>
      RedRedAround(up, Node(l, a, col, s), z);
      NoDefectWithout(l, z, 0);
      assert l.Node? ==> l.area in Areas(l);
  }

  lemma {:induction false} HeightAround<A>(c: Ctx<A>, s: Tree<A>, total: int) returns (h: int)
    requires BlackHeight(Plug(c, s), total)
    ensures BlackHeight(s, h) && CtxHeight(c, h, total)
    decreases c
  {
    match c
    case Top => h := total;
    case InLeft(a, col, r, up) =>
      var above := HeightAround(up, Node(s, a, col, r), total);
      h := if col.Black? then above - 1 else above;
    case InRight(l, a, col, up) =>
      var above := HeightAround(up, Node(l, a, col, s), total);
      h := if col.Black? then above - 1 else above;
  }

  lemma {:induction false} ShortAround<A>(c: Ctx<A>, s: Tree<A>, x: A, total: int) returns (h: int)
    requires ShortAt(Plug(c, s), x, total) && x !in CtxAreas(c)
    ensures ShortAt(s, x, h) && CtxHeight(c, h, total)
    decreases c
  {
    match c
    case Top => h := total;
    case InLeft(a, col, r, up) =>
      var above := ShortAround(up, Node(s, a, col, r), x, total);
      h := if col.Black? then above - 1 else above;
      NoDefectWithout(r, x, h);
    case InRight(l, a, col, up) =>
      var above := ShortAround(up, Node(l, a, col, s), x, total);
      h := if col.Black? then above - 1 else above;
      NoDefectWithout(l, x, h);
  }

  lemma {:induction false} RootBlackAround<A>(c: Ctx<A>, s: Tree<A>, z: A)
    requires s.Node? && z !in CtxAreas(c) && (IsRed(Plug(c, s)) ==> Plug(c, s).area == z)
    ensures RootBlack(c)
    decreases c
  {
    match c
    case Top =>
    case InLeft(a, col, r, up) => RootBlackAround(up, Node(s, a, col, r), z);
    case InRight(l, a, col, up) => RootBlackAround(up, Node(l, a, col, s), z);
  }

  // ------------------------------------------------------------- the loop invariants

  /** The subtree of the node just above the hole. */
  function Hang<A>(c: Ctx<A>, t: Tree<A>): (r: Tree<A>)
    requires !c.Top?
    ensures r.Node? && r.area == c.area && r.color == c.color
  {
    match c
    case InLeft(a, col, r, _) => Node(t, a, col, r)
    case InRight(l, a, col, _) => Node(l, a, col, t)
  }

  /** Before each round of insert_fixup: s is red and fine in itself, the rest of the
      tree is fine, and at most the edge into s is red-red. */
  predicate InsertInv<A>(c: Ctx<A>, s: Tree<A>, h: int, total: int) {
    && IsRed(s) && NoRedRed(s) && BlackHeight(s, h)
    && CtxNoRedRed(c) && CtxHeight(c, h, total) && RootBlack(c)
  }

  /** Before each round of delete_fixup: s, once black, is fine in itself but one
      black short; the rest of the tree is fine. */
  predicate DeleteInv<A>(c: Ctx<A>, s: Tree<A>, h: int, total: int) {
    && s.Node? && NoRedRed(Blackened(s)) && BlackHeight(s, h)
    && CtxNoRedRed(c) && CtxHeight(c, h + 1, total) && RootBlack(c)
  }

  // --------------------------------------------------------------- insertion rounds

  /** A red uncle: parent and uncle turn black, the grandparent red. */
  function Pushed<A>(c: Ctx<A>, s: Tree<A>): Tree<A>
    requires !c.Top? && !c.up.Top?
  {
    var p := Blackened(Hang(c, s));
    match c.up
    case InLeft(g, _, uncle, _) => Node(p, g, Red, Blackened(uncle))
    case InRight(uncle, g, _, _) => Node(Blackened(uncle), g, Red, p)
  }

  function Blackened<A>(t: Tree<A>): Tree<A> {
    if t.Leaf? then t else t.(color := Black)
  }

  function Uncle<A>(c: Ctx<A>): Tree<A>
    requires !c.Top?
  {
    match c
    case InLeft(_, _, r, _) => r
    case InRight(l, _, _, _) => l
  }

  lemma PushedKeeps<A>(c: Ctx<A>, s: Tree<A>, h: int, total: int)
    requires InsertInv(c, s, h, total) && ParentRed(c) && IsRed(Uncle(c.up))
    ensures InsertInv(c.up.up, Pushed(c, s), h + 1, total)
    ensures InOrder(Plug(c.up.up, Pushed(c, s))) == InOrder(Plug(c, s))
  {
    var p, u := Blackened(Hang(c, s)), Blackened(Uncle(c.up));
    assert RootBlack(c.up);
    assert CtxNoRedRed(c.up) && CtxHeight(c.up, h, total) && c.up.color.Black?;
    assert NoRedRed(p) && BlackHeight(p, h + 1);
    assert NoRedRed(u) && BlackHeight(u, h + 1);
    PlugInOrder(c.up.up, Hang(c.up, Hang(c, s)), Pushed(c, s));
  }

  /** A black uncle, z on the inner side: the rotation at the parent turns z's
      parent into an outer red child of z. */
  lemma InnerKeeps<A>(c: Ctx<A>, s: Tree<A>, h: int, total: int)
    requires InsertInv(c, s, h, total) && ParentRed(c)
    ensures c.InRight? && c.up.InLeft? ==>
      InsertInv(InLeft(s.area, Red, s.right, c.up), Node(c.left, c.area, Red, s.left), h, total)
    ensures c.InLeft? && c.up.InRight? ==>
      InsertInv(InRight(s.left, s.area, Red, c.up), Node(s.right, c.area, Red, c.right), h, total)
  {
  }

  /** The context of z after the final rotation, z being the outer child. */
  function Outer<A>(c: Ctx<A>): Ctx<A>
    requires (c.InLeft? && c.up.InLeft?) || (c.InRight? && c.up.InRight?)
  {
    var g := c.up;
    if c.InLeft? then InLeft(c.area, Black, Node(c.right, g.area, Red, g.right), g.up)
    else InRight(Node(g.left, g.area, Red, c.left), c.area, Black, g.up)
  }

  lemma OuterKeeps<A>(c: Ctx<A>, s: Tree<A>, h: int, total: int)
    requires InsertInv(c, s, h, total) && ParentRed(c) && !c.up.Top? && !IsRed(Uncle(c.up))
    requires c.InLeft? == c.up.InLeft?
    ensures InsertInv(Outer(c), s, h, total) && !ParentRed(Outer(c))
  {
    assert CtxNoRedRed(c.up) && CtxHeight(c.up, h, total) && c.up.color.Black? && RootBlack(c.up);
  }

  lemma InsertDone<A>(c: Ctx<A>, s: Tree<A>, h: int, total: int)
    requires InsertInv(c, s, h, total) && !ParentRed(c)
    ensures Plug(c, s).Node? && IsRedBlack(Blackened(Plug(c, s)))
    ensures InOrder(Blackened(Plug(c, s))) == InOrder(Plug(c, s))
  {
    PlugNoRedRed(c, s);
    PlugHeight(c, s, h, total);
    PlugIsNode(c, s);
    var t := Plug(c, s);
    assert BlackHeight(Blackened(t), if t.color.Black? then total else total + 1);
  }

  lemma {:induction false} PlugIsNode<A>(c: Ctx<A>, s: Tree<A>)
    requires s.Node?
    ensures Plug(c, s).Node?
    decreases c
  {
    if !c.Top? { PlugIsNode(c.up, Hang(c, s)); }
  }

  lemma StartInsert<A>(c: Ctx<A>, s: Tree<A>, total: int) returns (h: int)
    requires IsRed(s) && Distinct(Plug(c, s)) && BlackHeight(Plug(c, s), total)
    requires RedRedOnlyAt(Plug(c, s), s.area) && (IsRed(Plug(c, s)) ==> Plug(c, s).area == s.area)
    ensures InsertInv(c, s, h, total)
  {
    PlugAreas(c, s);
    h := HeightAround(c, s, total);
    RedRedAround(c, s, s.area);
    RootBlackAround(c, s, s.area);
    NoDefectWithout(s.left, s.area, 0);
    NoDefectWithout(s.right, s.area, 0);
    assert s.left.Node? ==> s.left.area in Areas(s.left);
    assert s.right.Node? ==> s.right.area in Areas(s.right);
  }

  // ---------------------------------------------------------------- deletion rounds

  /** The context with another sibling beside the hole. */
  function WithUncle<A>(c: Ctx<A>, t: Tree<A>): Ctx<A>
    requires !c.Top?
  {
    match c
    case InLeft(a, col, _, up) => InLeft(a, col, t, up)
    case InRight(_, a, col, up) => InRight(t, a, col, up)
  }

  /** The context with another colour for the parent. */
  function WithColor<A>(c: Ctx<A>, col: Color): Ctx<A>
    requires !c.Top?
  {
    match c
    case InLeft(a, _, r, up) => InLeft(a, col, r, up)
    case InRight(l, a, _, up) => InRight(l, a, col, up)
  }

  /** The context of the sibling. */
  function Beside<A>(c: Ctx<A>, s: Tree<A>): Ctx<A>
    requires !c.Top?
  {
    match c
    case InLeft(a, col, _, up) => InRight(s, a, col, up)
    case InRight(_, a, col, up) => InLeft(a, col, s, up)
  }

  lemma StartDelete<A>(c: Ctx<A>, s: Tree<A>, total: int) returns (h: int)
    requires s.Node? && Distinct(Plug(c, s)) && ShortAt(Plug(c, s), s.area, total)
    requires RedRedOnlyAt(Plug(c, s), s.area) && (IsRed(Plug(c, s)) ==> Plug(c, s).area == s.area)
    ensures DeleteInv(c, s, h, total)
  {
    PlugAreas(c, s);
    var above := ShortAround(c, s, s.area, total);
    h := above - 1;
    RedRedAround(c, s, s.area);
    RootBlackAround(c, s, s.area);
    NoDefectWithout(s.left, s.area, 0);
    NoDefectWithout(s.right, s.area, 0);
  }

  lemma {:induction false} HeightIsNat<A>(t: Tree<A>, h: int)
    requires BlackHeight(t, h)
    ensures h >= 0
    decreases t
  {
    if t.Node? { HeightIsNat(t.left, if t.color.Black? then h - 1 else h); }
  }

  /** The sibling of a short black subtree is not empty, and a red one has black
      children. */
  lemma SiblingOfShort<A>(c: Ctx<A>, s: Tree<A>, h: int, total: int)
    requires DeleteInv(c, s, h, total) && !c.Top? && !IsRed(s)
    ensures var w := Uncle(c);
            && w.Node? && BlackHeight(w, h + 1) && NoRedRed(w)
            && (IsRed(w) ==> c.color.Black? && w.left.Node? && w.right.Node? && !IsRed(w.left) && !IsRed(w.right))
  {
    HeightIsNat(s.left, h - 1);
    var w := Uncle(c);
    assert IsRed(w) ==> BlackHeight(w.left, h + 1) && BlackHeight(w.right, h + 1);
  }

  /** Red sibling: after the rotation the sibling is black and the parent red. */
  lemma RedSiblingKeeps<A>(c: Ctx<A>, s: Tree<A>, h: int, total: int)
    requires DeleteInv(c, s, h, total) && !c.Top? && !IsRed(s) && IsRed(Uncle(c))
    ensures c.InLeft? ==>
      DeleteInv(InLeft(c.area, Red, c.right.left, InLeft(c.right.area, Black, c.right.right, c.up)), s, h, total)
    ensures c.InRight? ==>
      DeleteInv(InRight(c.left.right, c.area, Red, InRight(c.left.left, c.left.area, Black, c.up)), s, h, total)
  {
    SiblingOfShort(c, s, h, total);
  }

  /** Black sibling with no red child: the sibling turns red, the shortage moves up. */
  lemma BlackSiblingKeeps<A>(c: Ctx<A>, s: Tree<A>, h: int, total: int)
    requires DeleteInv(c, s, h, total) && !c.Top? && !IsRed(s)
    requires Uncle(c).Node? && !IsRed(Uncle(c)) && !IsRed(Uncle(c).left) && !IsRed(Uncle(c).right)
    ensures DeleteInv(c.up, Hang(WithUncle(c, Uncle(c).(color := Red)), s), if c.color.Black? then h + 1 else h, total)
  {
  }

  /** Rotating a red near child above its black parent w. */
  lemma NearChildRises<A>(w: Tree<A>, h: int)
    requires w.Node? && w.color.Black? && NoRedRed(w) && BlackHeight(w, h + 1)
    ensures IsRed(w.left) && !IsRed(w.right) ==>
      var r := RotateRight(Node(Blackened(w.left), w.area, Red, w.right));
      NoRedRed(r) && BlackHeight(r, h + 1) && !IsRed(r)
    ensures IsRed(w.right) && !IsRed(w.left) ==>
      var r := RotateLeft(Node(w.left, w.area, Red, Blackened(w.right)));
      NoRedRed(r) && BlackHeight(r, h + 1) && !IsRed(r)
  {
    assert NoRedRed(w.left) && NoRedRed(w.right) && BlackHeight(w.left, h) && BlackHeight(w.right, h);
    if IsRed(w.left) && !IsRed(w.right) {
      assert NoRedRed(Node(w.left.right, w.area, Red, w.right))
          && BlackHeight(Node(w.left.right, w.area, Red, w.right), h);
    }
    if IsRed(w.right) && !IsRed(w.left) {
      assert NoRedRed(Node(w.left, w.area, Red, w.right.left))
          && BlackHeight(Node(w.left, w.area, Red, w.right.left), h);
    }
  }

  /** Black sibling whose far child is not red: the near child takes its place. */
  lemma NearChildKeeps<A>(c: Ctx<A>, s: Tree<A>, h: int, total: int)
    requires DeleteInv(c, s, h, total) && !c.Top? && !IsRed(s) && Uncle(c).Node? && !IsRed(Uncle(c))
    ensures c.InLeft? && IsRed(c.right.left) && !IsRed(c.right.right) ==>
      DeleteInv(WithUncle(c, RotateRight(Node(Blackened(c.right.left), c.right.area, Red, c.right.right))), s, h, total)
    ensures c.InRight? && IsRed(c.left.right) && !IsRed(c.left.left) ==>
      DeleteInv(WithUncle(c, RotateLeft(Node(c.left.left, c.left.area, Red, Blackened(c.left.right)))), s, h, total)
  {
    NearChildRises(Uncle(c), h);
  }

  /** The subtree at the parent after the last rotation. */
  function Repaired<A>(c: Ctx<A>, s: Tree<A>): Tree<A>
    requires !c.Top? && Uncle(c).Node?
  {
    match c
    case InLeft(a, col, w, _) => Node(Node(s, a, Black, w.left), w.area, col, Blackened(w.right))
    case InRight(w, a, col, _) => Node(Blackened(w.left), w.area, col, Node(w.right, a, Black, s))
  }

  /** Black sibling with a red far child: the shortage is gone. */
  lemma RepairedKeeps<A>(c: Ctx<A>, s: Tree<A>, h: int, total: int)
    requires DeleteInv(c, s, h, total) && !c.Top? && !IsRed(s) && Uncle(c).Node? && !IsRed(Uncle(c))
    requires if c.InLeft? then IsRed(c.right.right) else IsRed(c.left.left)
    ensures DeleteInv(Top, Plug(c.up, Repaired(c, s)), total, total + 1)
  {
    var t, w := Repaired(c, s), Uncle(c);
    assert NoRedRed(w.left) && NoRedRed(w.right) && BlackHeight(w.left, h) && BlackHeight(w.right, h);
    var near := if c.InLeft? then t.left else t.right;
    assert NoRedRed(near) && BlackHeight(near, h + 1);
    assert NoRedRed(t) && BlackHeight(t, if c.color.Black? then h + 2 else h + 1);
    PlugNoRedRed(c.up, t);
    PlugHeight(c.up, t, if c.color.Black? then h + 2 else h + 1, total);
    PlugIsNode(c.up, t);
  }

  lemma DeleteDone<A>(c: Ctx<A>, s: Tree<A>, h: int, total: int)
    requires DeleteInv(c, s, h, total) && (c.Top? || IsRed(s))
    ensures IsRedBlack(Plug(c, Blackened(s))) && InOrder(Plug(c, Blackened(s))) == InOrder(Plug(c, s))
  {
    var t := Blackened(s);
    PlugNoRedRed(c, t);
    PlugRoot(c, t);
    PlugInOrder(c, t, s);
    if IsRed(s) { PlugHeight(c, t, h + 1, total); }
  }
}
