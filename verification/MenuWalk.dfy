/** The walk over all entries that needs no stack: down to the list, on to the next entry, or up to a parent. */
module MenuWalk {
  import opened MenuTree

  /** The entries whose lists enclose the current one, outermost first, each with its place in the tree. */
  type Path = seq<Tree>

  /** The entries still to come after the current list is finished. */
  function Later(path: Path): seq<Menu> {
    if path == [] then []
    else
      var last := path[|path| - 1];
      (if last.Node? then Preorder(last.next) else []) + Later(path[..|path| - 1])
  }

  function LaterSize(path: Path): nat {
    if path == [] then 0
    else
      var last := path[|path| - 1];
      (if last.Node? then Size(last.next) else 0) + LaterSize(path[..|path| - 1])
  }

  /** The entry that encloses the current list. */
  function Owner(path: Path): Menu? {
    if path == [] then null else Root(path[|path| - 1])
  }

  /** The enclosing entries are where the path says. */
  ghost predicate OnPath(path: Path)
    reads PathNodes(path)
  {
    path != [] ==>
      var last, before := path[|path| - 1], path[..|path| - 1];
      && last.Node? && OnPath(before)
      && last.m.next == Root(last.next) && last.m.parent == Owner(before) && Rep(last.next, Owner(before))
  }

  function PathNodes(path: Path): set<Menu> {
    if path == [] then {} else Nodes(path[|path| - 1]) + PathNodes(path[..|path| - 1])
  }

  lemma PathSnoc(path: Path, t: Tree)
    requires t.Node?
    ensures var longer := path + [t];
            && longer[..|longer| - 1] == path && longer[|longer| - 1] == t
            && Later(longer) == Preorder(t.next) + Later(path)
            && LaterSize(longer) == Size(t.next) + LaterSize(path)
            && Owner(longer) == t.m
  {
    assert (path + [t])[..|path|] == path;
  }

  /** The loop up the parents, until one has a next entry. */
  method Ascend(start: Menu?, ghost path: Path) returns (following: Menu?, ghost s: Tree, ghost rest: Path)
    requires start == Owner(path) && OnPath(path)
    ensures following == Root(s) && Rep(s, Owner(rest)) && OnPath(rest)
    ensures Preorder(s) + Later(rest) == Later(path)
    ensures following == null ==> s.Nil? && rest == []
    ensures Size(s) + LaterSize(rest) <= LaterSize(path)
  {
    hide OnPath;
    hide Later;
    hide LaterSize;
    hide Rep;
    following, s, rest := start, Nil, path;
    while following != null
      invariant following == Owner(rest) && OnPath(rest)
      invariant Later(rest) == Later(path) && LaterSize(rest) <= LaterSize(path)
      decreases |rest|
    {
      PathPop(rest);
      ghost var last := rest[|rest| - 1];
      rest := rest[..|rest| - 1];
      if following.next != null {
        following := following.next;
        s := last.next;
        return;
      }
      following := following.parent;
    }
    OwnerNull(rest);
    s := Nil;
    NothingLeft(s);
  }

  lemma NothingLeft(s: Tree)
    requires s.Nil?
    ensures Rep(s, null) && Preorder(s) == [] && Size(s) == 0
  {
  }

  lemma PathPop(path: Path)
    requires path != [] && OnPath(path)
    ensures var last, before := path[|path| - 1], path[..|path| - 1];
            && last.Node? && OnPath(before) && Owner(path) == last.m
            && last.m.next == Root(last.next) && last.m.parent == Owner(before) && Rep(last.next, Owner(before))
            && Later(path) == Preorder(last.next) + Later(before)
            && LaterSize(path) == Size(last.next) + LaterSize(before)
            && (last.next.Nil? ==> Later(path) == Later(before))
  {
  }

  lemma FirstOf(t: Tree, path: Path)
    requires t.Node?
    ensures Preorder(t) + Later(path) == [t.m] + (Preorder(t.list) + (Preorder(t.next) + Later(path)))
    ensures t.list.Nil? ==> Preorder(t.list) == []
    ensures t.next.Nil? ==> Preorder(t.next) == []
  {
    Regroup(t.m, Preorder(t.list), Preorder(t.next), Later(path));
  }

  lemma Regroup(m: Menu, a: seq<Menu>, b: seq<Menu>, c: seq<Menu>)
    ensures ([m] + a + b) + c == [m] + (a + (b + c))
    ensures a == [] ==> a + (b + c) == b + c
    ensures b == [] ==> b + c == c
  {
  }

  /** The step from one entry to the following one in `conf_write` and `conf_write_defconfig`. */
  method Advance(menu: Menu, ghost t: Tree, ghost path: Path)
    returns (following: Menu?, ghost s: Tree, ghost rest: Path)
    requires t.Node? && t.m == menu && Rep(t, Owner(path)) && OnPath(path)
    ensures following == Root(s) && Rep(s, Owner(rest)) && OnPath(rest)
    ensures Preorder(t) + Later(path) == [menu] + (Preorder(s) + Later(rest))
    ensures following == null ==> s.Nil? && rest == []
    ensures Size(s) + LaterSize(rest) < Size(t) + LaterSize(path)
  {
    hide Preorder;
    hide Later;
    PathSnoc(path, t);
    FirstOf(t, path);
    Regroup(t.m, Preorder(t.list), Preorder(t.next), Later(path));
    if menu.list != null {
      following, s, rest := menu.list, t.list, path + [t];
    } else if menu.next != null {
      following, s, rest := menu.next, t.next, path;
    } else {
      following, s, rest := Ascend(menu.parent, path);
    }
  }

  lemma OwnerNull(path: Path)
    requires OnPath(path) && Owner(path) == null
    ensures path == []
  {
  }

  /** The loop of `conf_write`: below the root, every entry is visited once, in preorder. */
  method VisitAll(root: Menu, ghost t: Tree) returns (visited: seq<Menu>)
    requires t.Node? && t == Node(root, t.list, Nil) && Rep(t, null)
    ensures visited == Preorder(t.list)
  {
    hide Preorder;
    hide Later;
    hide LaterSize;
    hide OnPath;
    visited := [];
    var menu := root.list;
    ghost var s, path: Path := t.list, [t];
    StartAt(t);
    while menu != null
      invariant menu == Root(s) && Rep(s, Owner(path)) && OnPath(path)
      invariant menu == null ==> s.Nil? && Later(path) == []
      invariant visited + (Preorder(s) + Later(path)) == Preorder(t.list)
      decreases Size(s) + LaterSize(path)
    {
      ghost var before, toCome := visited, Preorder(s) + Later(path);
      visited := visited + [menu];
      ghost var here := menu;
      menu, s, path := Advance(menu, s, path);
      assert toCome == [here] + (Preorder(s) + Later(path));
      if menu == null {
        NoPath(path);
      }
    }
    NothingLeft(s);
    assert visited + ([] + []) == visited;
  }

  lemma StartAt(t: Tree)
    requires t.Node? && t.next.Nil? && Rep(t, null)
    ensures OnPath([t]) && Owner([t]) == t.m && Later([t]) == []
    ensures Preorder(t.list) == [] + (Preorder(t.list) + Later([t]))
    ensures t.list.Nil? ==> Preorder(t.list) == []
  {
    assert [t][..0] == [];
  }

  lemma NoPath(path: Path)
    requires path == []
    ensures Later(path) == []
  {
  }

  /** The walk agrees before and after `menu_finalize`. */
  method FinalizeKeepsWalk(belongs: Test, root: Menu, ghost t: Tree, ghost world: set<Menu>)
    returns (before: seq<Menu>, after: seq<Menu>)
    requires t.Node? && t == Node(root, t.list, Nil) && Rep(t, null) && Separate(t) && Nodes(t) <= world
    modifies Nodes(t)
    ensures before == after
  {
    before := VisitAll(root, t);
    ghost var u, _ := Finalize(belongs, root, t, null, world);
    after := VisitAll(root, u);
    assert Preorder(t) == [root] + Preorder(t.list) + [];
    assert Preorder(u) == [root] + Preorder(u.list) + [];
    assert Preorder(t)[1..] == Preorder(t.list) && Preorder(u)[1..] == Preorder(u.list);
  }
}
