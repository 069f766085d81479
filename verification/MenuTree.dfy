/**
 * The menu tree: `next`, `list` and `parent` pointers. A node with its first child and its next sibling is a binary
 * tree, whose preorder is the order in which entries are shown and written.
 */
module MenuTree {

  class Menu {
    var next: Menu?
    var list: Menu?
    var parent: Menu?
    /** There is a symbol. */
    const hasSymbol: bool
    /** There is a prompt with a text. */
    const hasPrompt: bool

    constructor (sym: bool, prompt: bool)
    {
      next, list, parent := null, null, null;
      hasSymbol, hasPrompt := sym, prompt;
    }
  }

  datatype Tree = Nil | Node(m: Menu, list: Tree, next: Tree)

  function Root(t: Tree): Menu? {
    if t.Nil? then null else t.m
  }

  function Nodes(t: Tree): set<Menu> {
    if t.Nil? then {} else {t.m} + Nodes(t.list) + Nodes(t.next)
  }

  function Preorder(t: Tree): seq<Menu> {
    if t.Nil? then [] else [t.m] + Preorder(t.list) + Preorder(t.next)
  }

  function Size(t: Tree): nat {
    if t.Nil? then 0 else 1 + Size(t.list) + Size(t.next)
  }

  /** Every node occurs once. */
  predicate Separate(t: Tree) {
    t.Node? ==>
      && t.m !in Nodes(t.list) && t.m !in Nodes(t.next) && Nodes(t.list) !! Nodes(t.next)
      && Separate(t.list) && Separate(t.next)
  }

  /** The heap holds `t`, a list of siblings below `p`: every node's parent is the node whose list holds it. */
  ghost predicate Rep(t: Tree, p: Menu?)
    reads Nodes(t)
    decreases t
  {
    t.Node? ==>
      && t.m.list == Root(t.list) && t.m.next == Root(t.next) && t.m.parent == p
      && Rep(t.list, t.m) && Rep(t.next, p)
  }

  /** In the whole list, and below it, entries without a prompt have no submenu. */
  predicate Flat(t: Tree) {
    t.Node? ==> (t.m.hasPrompt || t.list.Nil?) && Flat(t.list) && Flat(t.next)
  }

  /** The lists below the entries of a list are flat. */
  predicate FlatBelow(t: Tree) {
    t.Node? ==> Flat(t.list) && FlatBelow(t.next)
  }

  // ----- the part of a sibling list already dealt with -----

  datatype Item = Item(m: Menu, sub: Tree)

  /** The items followed by the siblings in `r`. */
  function Append(ps: seq<Item>, r: Tree): Tree {
    if ps == [] then r else Node(ps[0].m, ps[0].sub, Append(ps[1..], r))
  }

  function ItemNodes(ps: seq<Item>): set<Menu> {
    if ps == [] then {} else {ps[0].m} + Nodes(ps[0].sub) + ItemNodes(ps[1..])
  }

  /** The items are linked in order, the last one to `after`, all below `p`. */
  ghost predicate RepItems(ps: seq<Item>, p: Menu?, after: Menu?)
    reads ItemNodes(ps)
    decreases |ps|
  {
    ps != [] ==>
      && ps[0].m.list == Root(ps[0].sub) && ps[0].m.parent == p && Rep(ps[0].sub, ps[0].m)
      && ps[0].m.next == (if |ps| == 1 then after else ps[1].m)
      && RepItems(ps[1..], p, after)
  }

  lemma {:induction false} AppendNodes(ps: seq<Item>, r: Tree)
    ensures Nodes(Append(ps, r)) == ItemNodes(ps) + Nodes(r)
    ensures Size(Append(ps, r)) >= Size(r) + |ps|
    decreases |ps|
  {
    if ps != [] {
      AppendNodes(ps[1..], r);
    }
  }

  lemma {:induction false} AppendSnoc(ps: seq<Item>, x: Item, r: Tree)
    ensures Append(ps + [x], r) == Append(ps, Node(x.m, x.sub, r))
    ensures ItemNodes(ps + [x]) == ItemNodes(ps) + {x.m} + Nodes(x.sub)
    decreases |ps|
  {
    if ps != [] {
      assert (ps + [x])[1..] == ps[1..] + [x];
      AppendSnoc(ps[1..], x, r);
    }
  }

  lemma {:induction false} AppendPreorder(ps: seq<Item>, r: Tree, s: Tree)
    requires Preorder(r) == Preorder(s)
    ensures Preorder(Append(ps, r)) == Preorder(Append(ps, s))
    decreases |ps|
  {
    if ps != [] {
      AppendPreorder(ps[1..], r, s);
    }
  }

  lemma {:induction false} AppendSeparate(ps: seq<Item>, r: Tree)
    requires Separate(Append(ps, r))
    ensures ItemNodes(ps) !! Nodes(r) && Separate(r)
    decreases |ps|
  {
    if ps != [] {
      AppendSeparate(ps[1..], r);
      AppendNodes(ps[1..], r);
    }
  }

  /** Replacing the rest of a list by one with the same nodes. */
  lemma {:induction false} ReplaceSeparate(ps: seq<Item>, r: Tree, s: Tree)
    requires Separate(Append(ps, r)) && Separate(s) && Nodes(s) == Nodes(r)
    ensures Separate(Append(ps, s))
    decreases |ps|
  {
    if ps != [] {
      ReplaceSeparate(ps[1..], r, s);
      AppendNodes(ps[1..], r);
      AppendNodes(ps[1..], s);
    }
  }

  /** Items followed by a represented list make a represented list. */
  lemma {:induction false} RepAppend(ps: seq<Item>, r: Tree, p: Menu?)
    requires RepItems(ps, p, Root(r)) && Rep(r, p)
    ensures Rep(Append(ps, r), p)
    decreases |ps|
  {
    if ps != [] {
      RepAppend(ps[1..], r, p);
      if |ps| > 1 {
        assert Root(Append(ps[1..], r)) == ps[1].m;
      }
    }
  }

  lemma {:induction false} RepSnoc(ps: seq<Item>, x: Item, p: Menu?, after: Menu?)
    requires RepItems(ps, p, x.m)
    requires x.m.list == Root(x.sub) && x.m.parent == p && Rep(x.sub, x.m) && x.m.next == after
    ensures RepItems(ps + [x], p, after)
    decreases |ps|
  {
    var xs := ps + [x];
    if ps == [] {
      assert xs[1..] == [];
    } else {
      assert xs[1..] == ps[1..] + [x];
      RepSnoc(ps[1..], x, p, after);
    }
  }

  predicate FlatItems(ps: seq<Item>) {
    forall i :: 0 <= i < |ps| ==> Flat(ps[i].sub)
  }

  lemma {:induction false} FlatBelowAppend(ps: seq<Item>, r: Tree)
    requires FlatItems(ps) && FlatBelow(r)
    ensures FlatBelow(Append(ps, r))
    decreases |ps|
  {
    if ps != [] {
      FlatBelowAppend(ps[1..], r);
    }
  }

  /** `s` is what remains of the list `t` after some of its first entries. */
  predicate Suffix(s: Tree, t: Tree) {
    s == t || (t.Node? && Suffix(s, t.next))
  }

  lemma {:induction false} SuffixTrans(s: Tree, t: Tree, u: Tree)
    requires Suffix(s, t) && Suffix(t, u)
    ensures Suffix(s, u)
    decreases u
  {
    if t != u {
      SuffixTrans(s, t, u.next);
    }
  }

  lemma {:induction false} RepSplit(ps: seq<Item>, x: Item, p: Menu?, after: Menu?)
    requires RepItems(ps + [x], p, after)
    ensures RepItems(ps, p, x.m)
    ensures x.m.list == Root(x.sub) && x.m.parent == p && Rep(x.sub, x.m) && x.m.next == after
    decreases |ps|
  {
    var xs := ps + [x];
    if ps == [] {
      assert xs[0] == x;
    } else {
      assert xs[1..] == ps[1..] + [x];
      RepSplit(ps[1..], x, p, after);
    }
  }

  lemma {:induction false} SizeIsLength(t: Tree)
    ensures |Preorder(t)| == Size(t)
  {
    if t.Node? {
      SizeIsLength(t.list);
      SizeIsLength(t.next);
    }
  }

  /** The same entries in the same order, each once. */
  predicate SameOrder(t: Tree, u: Tree) {
    Preorder(u) == Preorder(t) && Nodes(u) == Nodes(t) && Separate(u)
  }

  /** What `menu_finalize` makes of an entry and its following siblings. */
  predicate Finalized(t: Tree, u: Tree) {
    && t.Node? && u.Node? && u.m == t.m && SameOrder(t, u)
    && Flat(u.list) && Suffix(u.next, t.next)
  }

  /** The answers of the test whether the second entry belongs into an automatic submenu of the first. */
  type Test = (Menu, Menu) -> bool

  /** `menu_finalize` on trees: `t` is an entry with its following siblings. */
  function Fin(belongs: Test, t: Tree): (u: Tree)
    requires t.Node?
    ensures u.Node? && u.m == t.m && Size(u) == Size(t)
    decreases Size(t), 1
  {
    if t.list.Node? then
      Node(t.m, Flattened(FinList(belongs, t.list)), t.next)
    else if t.m.hasSymbol then
      var cut := Absorbed(belongs, t.m, t.next);
      Node(t.m, Flattened(cut.0), cut.1)
    else
      t
  }

  /** The entries of a list in turn, each of which may take in some of those after it. */
  function FinList(belongs: Test, l: Tree): (u: Tree)
    ensures Size(u) == Size(l)
    decreases Size(l), 2
  {
    if l.Nil? then Nil
    else
      var v := Fin(belongs, l);
      Node(v.m, v.list, FinList(belongs, v.next))
  }

  /** The automatic submenu of `parent`, and the siblings that are left. */
  function Absorbed(belongs: Test, parent: Menu, l: Tree): (cut: (Tree, Tree))
    ensures Size(cut.0) + Size(cut.1) == Size(l)
    decreases Size(l), 2
  {
    if l.Nil? || !belongs(parent, l.m) then (Nil, l)
    else
      var v := Fin(belongs, l);
      var cut := Absorbed(belongs, parent, v.next);
      (Node(v.m, v.list, cut.0), cut.1)
  }

  /** The automatic submenu ends only where the test fails. */
  lemma {:induction false} AbsorbedMaximal(belongs: Test, parent: Menu, l: Tree)
    ensures var cut := Absorbed(belongs, parent, l);
            && (forall i :: 0 <= i < |Items(cut.0)| ==> belongs(parent, Items(cut.0)[i].m))
            && (cut.1.Node? ==> !belongs(parent, cut.1.m))
            && (cut.0.Nil? <==> l.Nil? || !belongs(parent, l.m))
    decreases Size(l)
  {
    if l.Node? && belongs(parent, l.m) {
      AbsorbedMaximal(belongs, parent, Fin(belongs, l).next);
    }
  }

  // ----- what the result is, without saying how it is found -----

  /** The entries that have a list. */
  function Listed(t: Tree): set<Menu> {
    if t.Nil? then {} else (if t.list.Node? then {t.m} else {}) + Listed(t.list) + Listed(t.next)
  }

  /** Every automatic submenu put back behind its entry; `own` are the entries whose lists are their own. */
  function Ungrouped(own: set<Menu>, w: Tree): Tree {
    if w.Nil? then Nil
    else if w.m in own then Node(w.m, Ungrouped(own, w.list), Ungrouped(own, w.next))
    else Node(w.m, Nil, Concat(Ungrouped(own, w.list), Ungrouped(own, w.next)))
  }

  predicate AllBelong(belongs: Test, m: Menu, l: Tree) {
    l.Node? ==> belongs(m, l.m) && AllBelong(belongs, m, l.next)
  }

  /**
   Automatic submenus are as large as they can be: an entry without a list of its own has one exactly if it has a symbol
   and the entries behind it belong to it; what follows its submenu (`after`, if nothing does in its list) does not.
   */
  predicate Grouped(belongs: Test, own: set<Menu>, w: Tree, after: Menu?) {
    w.Node? ==>
      var follows := if w.next.Node? then w.next.m else after;
      && (w.m in own || w.list.Nil? || w.m.hasSymbol)
      && (w.m !in own && w.m.hasSymbol ==>
            AllBelong(belongs, w.m, w.list) && (follows != null ==> !belongs(w.m, follows)))
      && Grouped(belongs, own, w.list, if w.m in own then null else follows)
      && Grouped(belongs, own, w.next, after)
  }

  /** Which entry's list each entry of a list below `p`, and each entry below those, is in. */
  function Owners(l: Tree, p: Menu): set<(Menu, Menu)> {
    if l.Nil? then {} else {(l.m, p)} + Owners(l.list, l.m) + Owners(l.next, p)
  }

  /** The nearest entry with a prompt around each entry, or `p`. */
  function Prompted(l: Tree, p: Menu): set<(Menu, Menu)> {
    if l.Nil? then {} else {(l.m, p)} + Prompted(l.list, if l.m.hasPrompt then l.m else p) + Prompted(l.next, p)
  }

  /** The entry at the front of `t` got the submenu `w`, and `rest` is what is left of the siblings. */
  predicate EntryGrouped(belongs: Test, own: set<Menu>, t: Tree, w: Tree, rest: Tree) {
    && t.Node?
    && Concat(Ungrouped(own, Node(t.m, w, Nil)), rest) == t
    && Grouped(belongs, own, Node(t.m, w, Nil), Root(rest))
  }

  /**
   `u` is the entry `t` finalized: its submenus, as `w` has them, are those that belong there, and every entry has moved
   up to the nearest entry around it that has a prompt.
   */
  predicate Arranged(belongs: Test, t: Tree, w: Tree, u: Tree) {
    && t.Node? && u.Node? && u.m == t.m
    && EntryGrouped(belongs, Listed(t), t, w, u.next)
    && Owners(u.list, t.m) == Prompted(w, t.m)
  }

  /** There is only one way to group a list. */
  lemma {:induction false} GroupingUnique(belongs: Test, own: set<Menu>, v: Tree, w: Tree, after: Menu?)
    requires Ungrouped(own, v) == Ungrouped(own, w)
    requires Grouped(belongs, own, v, after) && Grouped(belongs, own, w, after)
    ensures v == w
    decreases Size(v)
  {
    if v.Node? {
      if v.m in own {
        GroupingUnique(belongs, own, v.list, w.list, null);
        GroupingUnique(belongs, own, v.next, w.next, after);
      } else {
        UngroupedConcat(own, v.list, v.next);
        UngroupedConcat(own, w.list, w.next);
        GroupedConcat(belongs, own, v.list, v.next, after);
        GroupedConcat(belongs, own, w.list, w.next, after);
        ConcatSize(v.list, v.next);
        GroupingUnique(belongs, own, Concat(v.list, v.next), Concat(w.list, w.next), after);
        if v.m.hasSymbol {
          SplitUnique(belongs, v.m, v.list, v.next, w.list, w.next);
        }
      }
    }
  }

  /** A list is cut in only one way into entries that belong and a rest whose first entry does not. */
  lemma {:induction false} SplitUnique(belongs: Test, m: Menu, a: Tree, b: Tree, c: Tree, d: Tree)
    requires Concat(a, b) == Concat(c, d) && AllBelong(belongs, m, a) && AllBelong(belongs, m, c)
    requires (b.Node? ==> !belongs(m, b.m)) && (d.Node? ==> !belongs(m, d.m))
    ensures a == c && b == d
    decreases a
  {
    if a.Node? && c.Node? {
      SplitUnique(belongs, m, a.next, b, c.next, d);
    }
  }

  lemma {:induction false} UngroupedConcat(own: set<Menu>, a: Tree, b: Tree)
    ensures Ungrouped(own, Concat(a, b)) == Concat(Ungrouped(own, a), Ungrouped(own, b))
    decreases a
  {
    if a.Node? {
      UngroupedConcat(own, a.next, b);
      if a.m !in own {
        ConcatAssoc(Ungrouped(own, a.list), Ungrouped(own, a.next), Ungrouped(own, b));
      }
    }
  }

  lemma {:induction false} ConcatAssoc(a: Tree, b: Tree, c: Tree)
    ensures Concat(Concat(a, b), c) == Concat(a, Concat(b, c))
    ensures Concat(a, Nil) == a
    decreases a
  {
    if a.Node? {
      ConcatAssoc(a.next, b, c);
    }
  }

  lemma {:induction false} GroupedConcat(belongs: Test, own: set<Menu>, a: Tree, b: Tree, after: Menu?)
    requires Grouped(belongs, own, a, if b.Node? then b.m else after) && Grouped(belongs, own, b, after)
    ensures Grouped(belongs, own, Concat(a, b), after)
    decreases a
  {
    if a.Node? {
      GroupedConcat(belongs, own, a.next, b, after);
    }
  }

  // ----- that `Fin` finds it: grouping first, then moving up -----

  /** `Fin` without moving entries up. */
  function Group(belongs: Test, t: Tree): (u: Tree)
    requires t.Node?
    ensures u.Node? && u.m == t.m && Size(u) == Size(t)
    decreases Size(t), 1
  {
    if t.list.Node? then
      Node(t.m, GroupList(belongs, t.list), t.next)
    else if t.m.hasSymbol then
      var cut := GroupCut(belongs, t.m, t.next);
      Node(t.m, cut.0, cut.1)
    else
      t
  }

  function GroupList(belongs: Test, l: Tree): (u: Tree)
    ensures Size(u) == Size(l)
    decreases Size(l), 2
  {
    if l.Nil? then Nil
    else
      var v := Group(belongs, l);
      Node(v.m, v.list, GroupList(belongs, v.next))
  }

  function GroupCut(belongs: Test, parent: Menu, l: Tree): (cut: (Tree, Tree))
    ensures Size(cut.0) + Size(cut.1) == Size(l)
    decreases Size(l), 2
  {
    if l.Nil? || !belongs(parent, l.m) then (Nil, l)
    else
      var v := Group(belongs, l);
      var cut := GroupCut(belongs, parent, v.next);
      (Node(v.m, v.list, cut.0), cut.1)
  }

  /** All entries without a prompt hand up what is below them. */
  function Lifted(l: Tree): Tree {
    if l.Nil? then Nil
    else if l.m.hasPrompt then Node(l.m, Lifted(l.list), Lifted(l.next))
    else Node(l.m, Nil, Concat(Lifted(l.list), Lifted(l.next)))
  }

  /** The same, below the entries of the list only. */
  function LiftedBelow(l: Tree): Tree {
    if l.Nil? then Nil else Node(l.m, Lifted(l.list), LiftedBelow(l.next))
  }

  lemma {:induction false} OwnersConcat(a: Tree, b: Tree, p: Menu)
    ensures Owners(Concat(a, b), p) == Owners(a, p) + Owners(b, p)
    decreases a
  {
    if a.Node? {
      OwnersConcat(a.next, b, p);
    }
  }

  lemma {:induction false} OwnersLifted(l: Tree, p: Menu)
    ensures Owners(Lifted(l), p) == Prompted(l, p)
  {
    if l.Node? {
      OwnersLifted(l.next, p);
      if l.m.hasPrompt {
        OwnersLifted(l.list, l.m);
      } else {
        OwnersLifted(l.list, p);
        OwnersConcat(Lifted(l.list), Lifted(l.next), p);
      }
    }
  }

  lemma {:induction false} LiftedFlat(l: Tree)
    ensures Flat(Lifted(l))
  {
    if l.Node? {
      LiftedFlat(l.list);
      LiftedFlat(l.next);
      FlatConcat(Lifted(l.list), Lifted(l.next));
    }
  }

  lemma {:induction false} FlatConcat(a: Tree, b: Tree)
    requires Flat(a) && Flat(b)
    ensures Flat(Concat(a, b))
    decreases a
  {
    if a.Node? {
      FlatConcat(a.next, b);
    }
  }

  /** A flat list has nothing to hand up. */
  lemma {:induction false} FlattenedConcat(a: Tree, b: Tree)
    requires Flat(a)
    ensures Flattened(Concat(a, b)) == Concat(a, Flattened(b))
    decreases a
  {
    if a.Node? {
      FlattenedConcat(a.next, b);
    }
  }

  lemma {:induction false} FlattenedLifts(l: Tree)
    ensures Flattened(LiftedBelow(l)) == Lifted(l)
    decreases l
  {
    if l.Node? {
      FlattenedLifts(l.next);
      LiftedFlat(l.list);
      FlattenedConcat(Lifted(l.list), LiftedBelow(l.next));
    }
  }

  lemma {:induction false} FinLifts(belongs: Test, t: Tree)
    requires t.Node?
    ensures Fin(belongs, t) == Node(t.m, Lifted(Group(belongs, t).list), Group(belongs, t).next)
    decreases Size(t), 1
  {
    if t.list.Node? {
      ListLifts(belongs, t.list);
      FlattenedLifts(GroupList(belongs, t.list));
    } else if t.m.hasSymbol {
      CutLifts(belongs, t.m, t.next);
      FlattenedLifts(GroupCut(belongs, t.m, t.next).0);
    }
  }

  lemma {:induction false} ListLifts(belongs: Test, l: Tree)
    ensures FinList(belongs, l) == LiftedBelow(GroupList(belongs, l))
    decreases Size(l), 2
  {
    if l.Node? {
      FinLifts(belongs, l);
      ListLifts(belongs, Group(belongs, l).next);
    }
  }

  lemma {:induction false} CutLifts(belongs: Test, parent: Menu, l: Tree)
    ensures var cut := GroupCut(belongs, parent, l); Absorbed(belongs, parent, l) == (LiftedBelow(cut.0), cut.1)
    decreases Size(l), 2
  {
    if l.Node? && belongs(parent, l.m) {
      FinLifts(belongs, l);
      CutLifts(belongs, parent, Group(belongs, l).next);
    }
  }

  /** In the part `t` of a tree, the entries with a list are those of `own`. */
  predicate OwnIn(own: set<Menu>, t: Tree) {
    t.Node? ==> (t.m in own <==> t.list.Node?) && OwnIn(own, t.list) && OwnIn(own, t.next)
  }

  lemma {:induction false} ListedOwn(t: Tree, own: set<Menu>)
    requires Separate(t) && forall m :: m in Nodes(t) ==> (m in own <==> m in Listed(t))
    ensures OwnIn(own, t)
    decreases t
  {
    if t.Node? {
      ListedNodes(t.list);
      ListedNodes(t.next);
      ListedOwn(t.list, own);
      ListedOwn(t.next, own);
    }
  }

  lemma {:induction false} ListedNodes(t: Tree)
    ensures Listed(t) <= Nodes(t)
  {
    if t.Node? {
      ListedNodes(t.list);
      ListedNodes(t.next);
    }
  }

  /** Ungrouping an entry that has been grouped, in front of what follows it. */
  lemma {:induction false} GroupArranges(belongs: Test, own: set<Menu>, t: Tree)
    requires t.Node? && OwnIn(own, t)
    ensures var g := Group(belongs, t);
            && Concat(Ungrouped(own, Node(t.m, g.list, Nil)), g.next) == t
            && Grouped(belongs, own, Node(t.m, g.list, Nil), Root(g.next))
            && OwnIn(own, g.next)
    decreases Size(t), 1
  {
    if t.list.Node? {
      ListArranges(belongs, own, t.list);
      ConcatAssoc(Nil, Nil, t.next);
    } else if t.m.hasSymbol {
      CutArranges(belongs, own, t.m, t.next);
      ConcatAssoc(Ungrouped(own, GroupCut(belongs, t.m, t.next).0), Nil, Nil);
    }
  }

  lemma {:induction false} ListArranges(belongs: Test, own: set<Menu>, l: Tree)
    requires OwnIn(own, l)
    ensures var g := GroupList(belongs, l); Ungrouped(own, g) == l && Grouped(belongs, own, g, null)
    decreases Size(l), 2
  {
    if l.Node? {
      var v := Group(belongs, l);
      GroupArranges(belongs, own, l);
      ListArranges(belongs, own, v.next);
      OneThenRest(belongs, own, v, GroupList(belongs, v.next), null);
      ListRoot(belongs, v.next);
    }
  }

  lemma ListRoot(belongs: Test, l: Tree)
    ensures Root(GroupList(belongs, l)) == Root(l)
  {
  }

  lemma {:induction false} CutArranges(belongs: Test, own: set<Menu>, parent: Menu, l: Tree)
    requires OwnIn(own, l)
    ensures var cut := GroupCut(belongs, parent, l);
            && Concat(Ungrouped(own, cut.0), cut.1) == l && Grouped(belongs, own, cut.0, Root(cut.1))
            && AllBelong(belongs, parent, cut.0) && (cut.1.Node? ==> !belongs(parent, cut.1.m))
            && OwnIn(own, cut.1)
            && (cut.0.Node? ==> Root(cut.0) == Root(l))
    decreases Size(l), 2
  {
    if l.Node? && belongs(parent, l.m) {
      var v := Group(belongs, l);
      var cut := GroupCut(belongs, parent, v.next);
      GroupArranges(belongs, own, l);
      CutArranges(belongs, own, parent, v.next);
      OneThenRest(belongs, own, v, cut.0, Root(cut.1));
      ConcatAssoc(Ungrouped(own, Node(v.m, v.list, Nil)), Ungrouped(own, cut.0), cut.1);
    }
  }

  /** A grouped entry in front of a grouped rest. */
  lemma OneThenRest(belongs: Test, own: set<Menu>, v: Tree, rest: Tree, after: Menu?)
    requires v.Node? && Grouped(belongs, own, rest, after)
    requires Grouped(belongs, own, Node(v.m, v.list, Nil), if rest.Node? then rest.m else after)
    ensures Grouped(belongs, own, Node(v.m, v.list, rest), after)
    ensures Ungrouped(own, Node(v.m, v.list, rest))
         == Concat(Ungrouped(own, Node(v.m, v.list, Nil)), Ungrouped(own, rest))
  {
    var x := Node(v.m, v.list, Nil);
    UngroupedConcat(own, x, rest);
    assert Concat(x, rest) == Node(v.m, v.list, rest);
  }

  lemma FinArranged(belongs: Test, t: Tree)
    requires t.Node? && Separate(t)
    ensures Arranged(belongs, t, Group(belongs, t).list, Fin(belongs, t))
  {
    ListedOwn(t, Listed(t));
    GroupArranges(belongs, Listed(t), t);
    FinLifts(belongs, t);
    OwnersLifted(Group(belongs, t).list, t.m);
  }

  /** What becomes of an entry without a list. */
  predicate SubmenuMade(belongs: Test, t: Tree, u: Tree) {
    t.Node? && u.Node? && t.list.Nil? ==>
      && (t.m.hasSymbol ==>
            && (u.list.Nil? <==> t.next.Nil? || !belongs(t.m, t.next.m))
            && (u.list.Node? ==> u.list.m == t.next.m)
            && (u.next.Node? ==> !belongs(t.m, u.next.m)))
      && (!t.m.hasSymbol ==> u == t)
  }

  lemma FinMakesSubmenu(belongs: Test, t: Tree)
    requires t.Node? && Separate(t)
    ensures SubmenuMade(belongs, t, Fin(belongs, t))
  {
    hide Fin;
    hide Group;
    hide Grouped;
    hide Ungrouped;
    hide Concat;
    hide Owners;
    hide Prompted;
    if t.list.Nil? {
      var g := Group(belongs, t);
      FinArranged(belongs, t);
      FinLifts(belongs, t);
      ListedOwn(t, Listed(t));
      RootSubmenu(belongs, Listed(t), t, g.list, g.next);
      LiftedRoot(g.list);
    }
  }

  lemma LiftedRoot(w: Tree)
    ensures Root(Lifted(w)) == Root(w)
  {
  }

  lemma RootSubmenu(belongs: Test, own: set<Menu>, t: Tree, w: Tree, rest: Tree)
    requires t.Node? && EntryGrouped(belongs, own, t, w, rest) && t.list.Nil? && t.m !in own
    ensures t.m.hasSymbol ==>
              && (w.Nil? <==> t.next.Nil? || !belongs(t.m, t.next.m))
              && (w.Node? ==> w.m == t.next.m)
              && (rest.Node? ==> !belongs(t.m, rest.m))
    ensures !t.m.hasSymbol ==> w.Nil? && rest == t.next
  {
    hide *;
    NodeGrouped(belongs, own, t, w, rest);
    NextOfRoot(belongs, own, t, w, rest);
    RootsKnown(w, t.next, rest);
    RootCut(belongs, t.m, w, t.next, rest);
  }

  lemma RootsKnown(a: Tree, b: Tree, c: Tree)
    ensures a.Node? <==> Root(a) != null
    ensures b.Node? <==> Root(b) != null
    ensures c.Node? <==> Root(c) != null
    ensures a.Node? ==> Root(a) == a.m
    ensures b.Node? ==> Root(b) == b.m
    ensures c.Node? ==> Root(c) == c.m
  {
  }

  lemma NextOfRoot(belongs: Test, own: set<Menu>, t: Tree, w: Tree, rest: Tree)
    requires t.Node? && EntryGrouped(belongs, own, t, w, rest) && t.list.Nil? && t.m !in own
    ensures Root(t.next) == if w.Nil? then Root(rest) else w.m
    ensures w.Nil? ==> t.next == rest
  {
    hide Grouped;
    hide Ungrouped;
    hide Concat;
    hide Root;
    UngroupedOpen(own, t.m, w);
    var below := Ungrouped(own, w);
    ConcatOpen(t.m, below, rest);
    ConcatFirst(below, rest);
    RootsKnown(w, below, rest);
  }

  lemma UngroupedOpen(own: set<Menu>, m: Menu, w: Tree)
    requires m !in own
    ensures Ungrouped(own, Node(m, w, Nil)) == Node(m, Nil, Ungrouped(own, w))
    ensures Root(Ungrouped(own, w)) == Root(w)
  {
    ConcatAssoc(Ungrouped(own, w), Nil, Nil);
  }

  lemma ConcatOpen(m: Menu, a: Tree, b: Tree)
    ensures Concat(Node(m, Nil, a), b) == Node(m, Nil, Concat(a, b))
  {
  }

  lemma ConcatFirst(a: Tree, b: Tree)
    ensures Root(Concat(a, b)) == if a.Nil? then Root(b) else a.m
    ensures a.Nil? ==> Concat(a, b) == b
  {
  }

  lemma NodeGrouped(belongs: Test, own: set<Menu>, t: Tree, w: Tree, rest: Tree)
    requires t.Node? && EntryGrouped(belongs, own, t, w, rest) && t.m !in own
    ensures w.Node? ==> t.m.hasSymbol && belongs(t.m, w.m)
    ensures t.m.hasSymbol && rest.Node? ==> !belongs(t.m, rest.m)
  {
    hide Ungrouped;
    hide Concat;
  }

  lemma RootCut(belongs: Test, m: Menu, w: Tree, n: Tree, rest: Tree)
    requires w.Node? ==> m.hasSymbol && belongs(m, w.m) && n.Node? && n.m == w.m
    requires m.hasSymbol && rest.Node? ==> !belongs(m, rest.m)
    requires w.Nil? ==> n == rest
    ensures m.hasSymbol ==>
              && (w.Nil? <==> n.Nil? || !belongs(m, n.m))
              && (w.Node? ==> w.m == n.m)
              && (rest.Node? ==> !belongs(m, rest.m))
    ensures !m.hasSymbol ==> w.Nil? && rest == n
  {
  }

  /**
   `menu_finalize`, without the rewriting of dependencies, for any outcome of the tests. Here and below `world` is a set
   of nodes around the tree: it tells the verifier that all nodes of a tree exist before the call, so that what it finds
   out about a tree still holds after nodes outside of it have been changed.
   */
  method Finalize(belongs: Test, parent: Menu, ghost t: Tree, ghost gp: Menu?, ghost world: set<Menu>)
    returns (ghost u: Tree, ghost w: Tree)
    requires t.Node? && t.m == parent && Rep(t, gp) && Separate(t) && Nodes(t) <= world
    modifies Nodes(t)
    ensures Rep(u, gp) && Finalized(t, u)
    ensures Arranged(belongs, t, w, u) && SubmenuMade(belongs, t, u)
    ensures u == Fin(belongs, t)
    decreases Size(t), 2
  {
    FinArranged(belongs, t);
    FinMakesSubmenu(belongs, t);
    w := Group(belongs, t).list;
    u := t;
    if parent.list != null {
      u := FinalizeChildren(belongs, parent, t, gp, world);
    } else if parent.hasSymbol {
      u := AbsorbSiblings(belongs, parent, t, gp, world);
    }
    u := FlattenChildren(parent, u, gp, world);
  }

  /** One finalized entry joins the entries dealt with. */
  lemma TakeOne(ps: seq<Item>, r: Tree, u: Tree, whole: Tree)
    requires r.Node? && Finalized(r, u) && SameOrder(whole, Append(ps, r))
    ensures var qs := ps + [Item(u.m, u.list)];
            Append(qs, u.next) == Append(ps, u) && SameOrder(whole, Append(qs, u.next))
    ensures Size(u.next) < Size(r)
  {
    AppendSnoc(ps, Item(u.m, u.list), u.next);
    AppendPreorder(ps, r, u);
    AppendNodes(ps, r);
    AppendNodes(ps, u);
    ReplaceSeparate(ps, r, u);
    SizeIsLength(r);
    SizeIsLength(u);
  }

  /** Finalize the next entry of a list whose first entries `ps` are dealt with. */
  method FinalizeNext(belongs: Test, menu: Menu, ghost ps: seq<Item>, ghost r: Tree, ghost p: Menu?, ghost q: Menu?,
                      ghost whole: Tree, ghost world: set<Menu>)
    returns (ghost v: Tree)
    requires r.Node? && r.m == menu && RepItems(ps, p, menu) && Rep(r, q) && SameOrder(whole, Append(ps, r))
    requires Nodes(whole) <= world
    modifies Nodes(r)
    ensures v == Fin(belongs, r) && v.m == menu && RepItems(ps, p, menu) && Rep(v, q)
    ensures Nodes(v) == Nodes(r) && Separate(v) && Flat(v.list) && Suffix(v.next, r.next) && Size(v.next) < Size(r)
    ensures SameOrder(whole, Append(ps + [Item(menu, v.list)], v.next))
    ensures Append(ps + [Item(menu, v.list)], v.next) == Append(ps, v)
    decreases Size(r), 3
  {
    NodesOfRest(ps, r, whole);
    ghost var w: Tree;
    v, w := Finalize(belongs, menu, r, q, world);
    TakeOne(ps, r, v, whole);
  }

  lemma AppendRoot(ps: seq<Item>, r: Tree)
    ensures Root(Append(ps, r)) == if ps == [] then Root(r) else ps[0].m
  {
  }

  lemma NodesOfRest(ps: seq<Item>, r: Tree, whole: Tree)
    requires SameOrder(whole, Append(ps, r))
    ensures Nodes(r) <= Nodes(whole) && ItemNodes(ps) <= Nodes(whole) && ItemNodes(ps) !! Nodes(r) && Separate(r)
  {
    AppendNodes(ps, r);
    AppendSeparate(ps, r);
  }

  method FinalizeChildren(belongs: Test, parent: Menu, ghost t: Tree, ghost gp: Menu?, ghost world: set<Menu>)
    returns (ghost u: Tree)
    requires t.Node? && t.m == parent && Rep(t, gp) && Separate(t) && Nodes(t) <= world
    modifies Nodes(t.list)
    ensures Rep(u, gp) && u.Node? && u.m == parent && u.next == t.next && SameOrder(t, u) && FlatBelow(u.list)
    ensures u.list == FinList(belongs, t.list)
    decreases Size(t), 1
  {
    var menu := parent.list;
    ghost var ps: seq<Item>, r := [], t.list;
    while menu != null
      invariant menu == Root(r) && Size(r) <= Size(t.list)
      invariant SameOrder(t.list, Append(ps, r)) && FlatItems(ps)
      invariant RepItems(ps, parent, menu) && Rep(r, parent)
      invariant Root(t.list) == Root(Append(ps, r))
      invariant Append(ps, FinList(belongs, r)) == FinList(belongs, t.list)
      decreases Size(r)
    {
      NodesOfRest(ps, r, t.list);
      ghost var v := FinalizeNext(belongs, menu, ps, r, parent, parent, t.list, world);
      AppendSnoc(ps, Item(menu, v.list), FinList(belongs, v.next));
      AppendRoot(ps, r);
      AppendRoot(ps, v);
      RepSnoc(ps, Item(menu, v.list), parent, Root(v.next));
      ps, r := ps + [Item(menu, v.list)], v.next;
      menu := menu.next;
    }
    RepAppend(ps, Nil, parent);
    FlatBelowAppend(ps, Nil);
    u := Node(parent, Append(ps, Nil), t.next);
  }

  lemma SmallerNext(t: Tree)
    requires t.Node?
    ensures Size(t.next) < Size(t)
  {
  }

  lemma AppendNothing(r: Tree)
    ensures Append([], r) == r
  {
  }

  /** One round of the loop over the siblings: finalize the next one and give it a new parent. */
  method AbsorbNext(belongs: Test, menu: Menu, parent: Menu, ghost ps: seq<Item>, ghost r: Tree, ghost gp: Menu?,
                    ghost whole: Tree, ghost world: set<Menu>)
    returns (ghost sub: Tree, ghost rest: Tree)
    requires r.Node? && r.m == menu && RepItems(ps, parent, menu) && Rep(r, gp) && SameOrder(whole, Append(ps, r))
    requires Nodes(whole) <= world
    modifies Nodes(r)
    ensures var qs := ps + [Item(menu, sub)];
            && RepItems(qs, parent, Root(rest)) && Rep(rest, gp) && menu.next == Root(rest)
            && SameOrder(whole, Append(qs, rest)) && Root(Append(qs, rest)) == Root(Append(ps, r))
    ensures Flat(sub) && Suffix(rest, r.next) && Size(rest) < Size(r)
    ensures Node(menu, sub, rest) == Fin(belongs, r)
    decreases Size(r), 4
  {
    NodesOfRest(ps, r, whole);
    ghost var v := FinalizeNext(belongs, menu, ps, r, parent, gp, whole, world);
    AppendRoot(ps, r);
    AppendRoot(ps, v);
    menu.parent := parent;
    RepSnoc(ps, Item(menu, v.list), parent, Root(v.next));
    sub, rest := v.list, v.next;
  }

  /** The submenu of `l` consists of the items `ps` and that of the rest `r`. */
  predicate Goes(belongs: Test, parent: Menu, ps: seq<Item>, r: Tree, l: Tree) {
    var cut := Absorbed(belongs, parent, r);
    Absorbed(belongs, parent, l) == (Append(ps, cut.0), cut.1)
  }

  lemma GoesOn(belongs: Test, parent: Menu, ps: seq<Item>, r: Tree, l: Tree)
    requires r.Node? && belongs(parent, r.m) && Goes(belongs, parent, ps, r, l)
    ensures var v := Fin(belongs, r); Goes(belongs, parent, ps + [Item(v.m, v.list)], v.next, l)
  {
    var v := Fin(belongs, r);
    AppendSnoc(ps, Item(v.m, v.list), Absorbed(belongs, parent, v.next).0);
  }

  /** Automatic submenu: the following siblings, as long as the test succeeds, become children. */
  method AbsorbSiblings(belongs: Test, parent: Menu, ghost t: Tree, ghost gp: Menu?, ghost world: set<Menu>)
    returns (ghost u: Tree)
    requires t.Node? && t.m == parent && Rep(t, gp) && Separate(t) && Nodes(t) <= world && t.list.Nil?
    modifies Nodes(t)
    ensures Rep(u, gp) && u.Node? && u.m == parent && SameOrder(t, u) && FlatBelow(u.list) && Suffix(u.next, t.next)
    ensures (u.list, u.next) == Absorbed(belongs, parent, t.next)
    decreases Size(t), 1
  {
    hide Preorder;
    hide Append;
    hide Size;
    var menu := parent.next;
    var lastMenu: Menu? := null;
    ghost var ps: seq<Item>, r := [], t.next;
    SmallerNext(t);
    AppendNothing(r);
    AppendNothing(Absorbed(belongs, parent, r).0);
    while menu != null
      invariant menu == Root(r) && Size(r) <= Size(t.next) && Suffix(r, t.next)
      invariant SameOrder(t.next, Append(ps, r)) && FlatItems(ps)
      invariant RepItems(ps, parent, menu) && Rep(r, gp)
      invariant parent.list == null && parent.next == Root(Append(ps, r)) && parent.parent == gp
      invariant lastMenu == if ps == [] then null else ps[|ps| - 1].m
      invariant Goes(belongs, parent, ps, r, t.next)
      decreases Size(r)
    {
      if !belongs(parent, menu) {
        break;
      }
      NodesOfRest(ps, r, t.next);
      ghost var sub, rest := AbsorbNext(belongs, menu, parent, ps, r, gp, t.next, world);
      GoesOn(belongs, parent, ps, r, t.next);
      SuffixStep(r, t.next);
      SuffixTrans(rest, r.next, t.next);
      lastMenu := menu;
      ps, r := ps + [Item(menu, sub)], rest;
      menu := menu.next;
    }
    NodesOfRest(ps, r, t.next);
    u := MoveBelow(parent, lastMenu, ps, r, t, gp, world);
  }

  /** The last three assignments: the siblings from the next one to `lastMenu` become the list. */
  method MoveBelow(parent: Menu, lastMenu: Menu?, ghost ps: seq<Item>, ghost r: Tree, ghost t: Tree, ghost gp: Menu?,
                   ghost world: set<Menu>)
    returns (ghost u: Tree)
    requires t.Node? && t.m == parent && Separate(t) && t.list.Nil? && Nodes(t) <= world
    requires SameOrder(t.next, Append(ps, r)) && FlatItems(ps)
    requires RepItems(ps, parent, Root(r)) && Rep(r, gp)
    requires parent.list == null && parent.next == Root(Append(ps, r)) && parent.parent == gp
    requires lastMenu == if ps == [] then null else ps[|ps| - 1].m
    modifies Nodes(t)
    ensures Rep(u, gp) && u.Node? && u.m == parent && SameOrder(t, u) && FlatBelow(u.list) && u.next == r
    ensures u.list == Append(ps, Nil)
  {
    hide SameOrder;
    hide Preorder;
    hide Flat;
    NodesOfRest(ps, r, t.next);
    AppendRoot(ps, r);
    MoveOrder(parent, ps, r, t);
    if lastMenu != null {
      LastItem(ps, parent, Root(r));
      parent.list := parent.next;
      parent.next := lastMenu.next;
      CutList(lastMenu, ps, parent, r, gp, world);
    }
    RepAppend(ps, Nil, parent);
    AppendRoot(ps, Nil);
    FlatBelowAppend(ps, Nil);
    u := Node(parent, Append(ps, Nil), r);
  }

  lemma LastItem(ps: seq<Item>, p: Menu?, after: Menu?)
    requires ps != [] && RepItems(ps, p, after)
    ensures var m := ps[|ps| - 1].m; m.next == after && m in ItemNodes(ps)
  {
    var qs, x := ps[..|ps| - 1], ps[|ps| - 1];
    assert ps == qs + [x];
    RepSplit(qs, x, p, after);
    AppendSnoc(qs, x, Nil);
  }

  /** End the list of the items after the last one. */
  method CutList(lastMenu: Menu, ghost ps: seq<Item>, ghost p: Menu?, ghost r: Tree, ghost gp: Menu?,
                 ghost world: set<Menu>)
    requires ps != [] && lastMenu == ps[|ps| - 1].m && Separate(Append(ps, r))
    requires RepItems(ps, p, Root(r)) && Rep(r, gp) && ItemNodes(ps) <= world && Nodes(r) <= world
    modifies lastMenu`next
    ensures RepItems(ps, p, null) && Rep(r, gp)
  {
    ghost var qs, x := ps[..|ps| - 1], ps[|ps| - 1];
    assert ps == qs + [x];
    AppendSnoc(qs, x, r);
    RepSplit(qs, x, p, Root(r));
    ItemsSeparate(qs, x, r);
    lastMenu.next := null;
    RepSnoc(qs, x, p, null);
  }

  lemma MoveOrder(parent: Menu, ps: seq<Item>, r: Tree, t: Tree)
    requires t.Node? && t.m == parent && Separate(t) && t.list.Nil? && SameOrder(t.next, Append(ps, r))
    ensures SameOrder(t, Node(parent, Append(ps, Nil), r))
    ensures Separate(Append(ps, r)) && parent !in ItemNodes(ps) && parent !in Nodes(r)
  {
    hide Append;
    AbsorbOrder(ps, r);
    AppendNodes(ps, r);
    CutOrder(t, Append(ps, Nil), r);
  }

  lemma CutOrder(t: Tree, l: Tree, r: Tree)
    requires t.Node? && t.list.Nil? && Separate(t)
    requires Preorder(t.next) == Preorder(l) + Preorder(r) && Nodes(t.next) == Nodes(l) + Nodes(r)
    requires Separate(l) && Separate(r) && Nodes(l) !! Nodes(r)
    ensures SameOrder(t, Node(t.m, l, r))
  {
    assert t == Node(t.m, Nil, t.next);
    CutPreorder(t.m, l, r, t.next);
    CutNodes(t.m, l, r, t.next);
  }

  lemma CutPreorder(m: Menu, l: Tree, r: Tree, n: Tree)
    requires Preorder(n) == Preorder(l) + Preorder(r)
    ensures Preorder(Node(m, l, r)) == Preorder(Node(m, Nil, n))
  {
    var a, b, c := Preorder(l), Preorder(r), Preorder(n);
    assert Preorder(Node(m, l, r)) == [m] + a + b;
    assert Preorder(Node(m, Nil, n)) == [m] + [] + c;
    NothingBetween(m, a, b);
  }

  lemma NothingBetween(m: Menu, a: seq<Menu>, b: seq<Menu>)
    ensures [m] + a + b == [m] + [] + (a + b)
  {
  }

  lemma CutNodes(m: Menu, l: Tree, r: Tree, n: Tree)
    requires Nodes(n) == Nodes(l) + Nodes(r)
    ensures Nodes(Node(m, l, r)) == Nodes(Node(m, Nil, n))
  {
    var a, b, c := Nodes(l), Nodes(r), Nodes(n);
    assert Nodes(Node(m, l, r)) == {m} + a + b;
    assert Nodes(Node(m, Nil, n)) == {m} + {} + c;
  }

  /** The node of an item is neither below it nor in the other items. */
  lemma ItemsSeparate(qs: seq<Item>, x: Item, r: Tree)
    requires Separate(Append(qs + [x], r))
    ensures x.m !in ItemNodes(qs) && x.m !in Nodes(x.sub) && x.m !in Nodes(r)
  {
    AppendSnoc(qs, x, r);
    AppendSeparate(qs, Node(x.m, x.sub, r));
  }

  lemma SuffixStep(r: Tree, t: Tree)
    requires r.Node? && Suffix(r, t)
    ensures Suffix(r.next, t)
  {
  }

  /** Cutting a list in two keeps the order. */
  lemma {:induction false} AbsorbOrder(ps: seq<Item>, r: Tree)
    ensures Preorder(Append(ps, r)) == Preorder(Append(ps, Nil)) + Preorder(r)
    ensures Nodes(Append(ps, r)) == Nodes(Append(ps, Nil)) + Nodes(r)
    ensures Separate(Append(ps, r)) ==>
      Separate(Append(ps, Nil)) && Separate(r) && Nodes(Append(ps, Nil)) !! Nodes(r)
    decreases |ps|
  {
    if ps != [] {
      AbsorbOrder(ps[1..], r);
    }
  }

  // ----- flattening -----

  /** One sibling list after another. */
  function Concat(l: Tree, n: Tree): Tree {
    if l.Nil? then n else Node(l.m, l.list, Concat(l.next, n))
  }

  /** The children of an entry move up behind it. */
  function Spliced(r: Tree): Tree
    requires r.Node?
  {
    Node(r.m, Nil, Concat(r.list, r.next))
  }

  lemma {:induction false} ConcatSize(l: Tree, n: Tree)
    ensures Size(Concat(l, n)) == Size(l) + Size(n)
    decreases l
  {
    if l.Node? {
      ConcatSize(l.next, n);
    }
  }

  /** A list in which the children of entries without a prompt have moved up. */
  function Flattened(l: Tree): (u: Tree)
    ensures Size(u) == Size(l)
    decreases Size(l)
  {
    if l.Nil? then Nil
    else if l.list.Node? && !l.m.hasPrompt then
      ConcatSize(l.list, l.next);
      Node(l.m, Nil, Flattened(Concat(l.list, l.next)))
    else
      Node(l.m, l.list, Flattened(l.next))
  }

  lemma {:induction false} ConcatOrder(l: Tree, n: Tree)
    ensures Preorder(Concat(l, n)) == Preorder(l) + Preorder(n)
    ensures Nodes(Concat(l, n)) == Nodes(l) + Nodes(n)
    ensures Separate(l) && Separate(n) && Nodes(l) !! Nodes(n) ==> Separate(Concat(l, n))
    ensures Flat(l) && FlatBelow(n) ==> FlatBelow(Concat(l, n))
    decreases l
  {
    if l.Node? {
      ConcatOrder(l.next, n);
    }
  }

  lemma SplicedOrder(r: Tree)
    requires r.Node? && Separate(r) && Flat(r.list) && FlatBelow(r.next)
    ensures SameOrder(r, Spliced(r)) && FlatBelow(Spliced(r).next)
  {
    ConcatOrder(r.list, r.next);
    CutPreorder(r.m, r.list, r.next, Concat(r.list, r.next));
    CutNodes(r.m, r.list, r.next, Concat(r.list, r.next));
  }

  /** The items of a sibling list. */
  function Items(l: Tree): seq<Item> {
    if l.Nil? then [] else [Item(l.m, l.list)] + Items(l.next)
  }

  lemma {:induction false} ConcatAppend(ps: seq<Item>, s: Tree, n: Tree)
    ensures Concat(Append(ps, s), n) == Append(ps, Concat(s, n))
    decreases |ps|
  {
    if ps != [] {
      ConcatAppend(ps[1..], s, n);
    }
  }

  /** The loop over the children of `menu`: they get a new parent, and the last one is linked to `after`. */
  method Adopt(menu: Menu, parent: Menu, after: Menu?, ghost l: Tree, ghost n: Tree, ghost world: set<Menu>)
    requires l.Node? && menu.list == l.m && Rep(l, menu) && Separate(l) && Rep(n, parent) && after == Root(n)
    requires menu !in Nodes(l) && Nodes(l) !! Nodes(n) && Nodes(l) <= world && Nodes(n) <= world
    modifies Nodes(l)
    ensures Rep(Concat(l, n), parent)
  {
    hide Preorder;
    var lastMenu := menu.list;
    ghost var ps: seq<Item>, s := [], l;
    while true
      invariant s.Node? && lastMenu == s.m && l == Append(ps, s)
      invariant RepItems(ps, parent, lastMenu) && Rep(s, menu) && Rep(n, parent)
      decreases Size(s)
    {
      AppendNodes(ps, s);
      AppendSeparate(ps, s);
      lastMenu.parent := parent;
      AppendSnoc(ps, Item(s.m, s.list), s.next);
      if lastMenu.next == null {
        break;
      }
      RepSnoc(ps, Item(s.m, s.list), parent, Root(s.next));
      ps, s := ps + [Item(s.m, s.list)], s.next;
      lastMenu := lastMenu.next;
    }
    AppendNodes(ps, s);
    AppendSeparate(ps, s);
    lastMenu.next := after;
    RepSnoc(ps, Item(s.m, s.list), parent, after);
    RepAppend(ps + [Item(s.m, s.list)], n, parent);
    ConcatAppend(ps, s, n);
    AppendSnoc(ps, Item(s.m, s.list), n);
  }

  /** Flattening one entry. */
  method Splice(menu: Menu, parent: Menu, ghost r: Tree, ghost world: set<Menu>)
    requires r.Node? && r.m == menu && r.list.Node? && Rep(r, parent) && Separate(r) && Nodes(r) <= world
    modifies Nodes(r)
    ensures Rep(Spliced(r), parent)
  {
    Adopt(menu, parent, menu.next, r.list, r.next, world);
    menu.next := menu.list;
    menu.list := null;
    ConcatOrder(r.list, r.next);
  }

  predicate FlatDone(ps: seq<Item>) {
    forall i :: 0 <= i < |ps| ==> (ps[i].m.hasPrompt || ps[i].sub.Nil?) && Flat(ps[i].sub)
  }

  lemma {:induction false} FlatDoneAppend(ps: seq<Item>)
    requires FlatDone(ps)
    ensures Flat(Append(ps, Nil))
    decreases |ps|
  {
    if ps != [] {
      FlatDoneAppend(ps[1..]);
    }
  }

  /** Replacing the rest of a list by one in the same order. */
  lemma ReplaceRest(whole: Tree, ps: seq<Item>, r: Tree, s: Tree)
    requires SameOrder(whole, Append(ps, r)) && SameOrder(r, s)
    ensures SameOrder(whole, Append(ps, s)) && Size(s) == Size(r)
  {
    AppendPreorder(ps, r, s);
    AppendNodes(ps, r);
    AppendNodes(ps, s);
    ReplaceSeparate(ps, r, s);
    SizeIsLength(r);
    SizeIsLength(s);
  }

  lemma FlattenedStep(r: Tree)
    ensures r.Node? ==> var s := if r.list.Node? && !r.m.hasPrompt then Spliced(r) else r;
                        Flattened(r) == Node(s.m, s.list, Flattened(s.next))
    ensures r.Nil? ==> Flattened(r) == Nil
  {
  }

  /** The last loop of `menu_finalize`. */
  method FlattenChildren(parent: Menu, ghost t: Tree, ghost gp: Menu?, ghost world: set<Menu>) returns (ghost u: Tree)
    requires t.Node? && t.m == parent && Rep(t, gp) && Separate(t) && Nodes(t) <= world && FlatBelow(t.list)
    modifies Nodes(t.list)
    ensures Rep(u, gp) && u.Node? && u.m == parent && u.next == t.next && SameOrder(t, u) && Flat(u.list)
    ensures u.list == Flattened(t.list)
  {
    hide Size;
    hide Flattened;
    hide Preorder;
    hide Append;
    AppendNothing(t.list);
    AppendNothing(Flattened(t.list));
    var menu := parent.list;
    ghost var ps: seq<Item>, r := [], t.list;
    while menu != null
      invariant menu == Root(r) && Root(t.list) == Root(Append(ps, r))
      invariant SameOrder(t.list, Append(ps, r)) && FlatDone(ps) && FlatBelow(r)
      invariant Append(ps, Flattened(r)) == Flattened(t.list)
      invariant RepItems(ps, parent, menu) && Rep(r, parent)
      decreases Size(r)
    {
      NodesOfRest(ps, r, t.list);
      FlattenedStep(r);
      ghost var s := r;
      if menu.list != null && !menu.hasPrompt {
        Splice(menu, parent, r, world);
        s := Spliced(r);
        SplicedOrder(r);
        ReplaceRest(t.list, ps, r, s);
      }
      AppendRoot(ps, r);
      AppendRoot(ps, s);
      AppendSnoc(ps, Item(s.m, s.list), s.next);
      AppendSnoc(ps, Item(s.m, s.list), Flattened(s.next));
      RepSnoc(ps, Item(s.m, s.list), parent, Root(s.next));
      SmallerNext(s);
      ps, r := ps + [Item(s.m, s.list)], s.next;
      menu := menu.next;
    }
    FlattenedStep(r);
    RepAppend(ps, Nil, parent);
    FlatDoneAppend(ps);
    u := Node(parent, Append(ps, Nil), t.next);
    SameBelow(t, u);
  }

  lemma SameBelow(t: Tree, u: Tree)
    requires t.Node? && u.Node? && u.m == t.m && u.next == t.next && Separate(t) && SameOrder(t.list, u.list)
    ensures SameOrder(t, u)
  {
  }
}
