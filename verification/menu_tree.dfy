/** The menu tree that Anvil's `Menu::populateMenu` builds through the
    external menu package: nodes with a title, a url, presentation
    attributes and ordered children. A node is addressed by its path, the
    child indices followed from the root. */
module MenuTree {
  import opened Wrappers

  /** An attribute value: a class or role name, or a link id (`li.id`). */
  datatype AttrValue = Text(text: string) | Number(number: int)

  type Attributes = map<string, AttrValue>

  /** A menu node. `id` is the id of the link the node was made from; the
      root of a menu has none. */
  datatype MenuNode = MenuNode(id: Option<int>, title: string, url: string,
                               attrs: Attributes, children: seq<MenuNode>)

  /** The root of a menu that has no links yet. */
  const EmptyMenu: MenuNode := MenuNode(None, "", "", map[], [])

  /** The attributes that turn a node into a dropdown. */
  const Dropdown: Attributes := map[
    "li.class" := Text("dropdown"),
    "a.role" := Text("button"),
    "a.class" := Text("dropdown-toggle"),
    "a.data-toggle" := Text("dropdown"),
    "ul.class" := Text("dropdown-menu"),
    "ul.role" := Text("menu")
  ]

  /** Every dropdown attribute is present with its fixed value. */
  predicate HasDropdown(a: Attributes) {
    forall k :: k in Dropdown ==> k in a && a[k] == Dropdown[k]
  }

  /** Sets the six dropdown attributes, overwriting earlier values of those
      keys and keeping every other attribute. */
  function Decorate(a: Attributes): (r: Attributes)
    ensures HasDropdown(r)
    ensures r.Keys == a.Keys + Dropdown.Keys
    ensures forall k :: k in a && k !in Dropdown ==> r[k] == a[k]
  {
    a + Dropdown
  }

  /** Decorating an already decorated node changes nothing, so a parent
      gaining a second child keeps the attributes it got with the first. */
  lemma DecorateIdempotent(a: Attributes)
    ensures HasDropdown(a) ==> Decorate(a) == a
    ensures Decorate(Decorate(a)) == Decorate(a)
  {
    if HasDropdown(a) {
      assert Decorate(a).Keys == a.Keys;
      forall k | k in a
        ensures Decorate(a)[k] == a[k]
      {
      }
    }
  }

  /** The number of nodes in a tree, root included. */
  function Size(n: MenuNode): nat
    decreases n
  {
    1 + SizeOf(n.children)
  }

  /** The number of nodes in a sequence of trees. */
  function SizeOf(cs: seq<MenuNode>): nat
    decreases cs
  {
    if cs == [] then 0 else SizeOf(cs[..|cs| - 1]) + Size(cs[|cs| - 1])
  }

  /** The link ids carried by a tree, root included. */
  function Ids(n: MenuNode): set<int>
    decreases n
  {
    (if n.id.Some? then {n.id.value} else {}) + IdsOf(n.children)
  }

  /** The link ids carried by a sequence of trees. */
  function IdsOf(cs: seq<MenuNode>): set<int>
    decreases cs
  {
    set k, x | 0 <= k < |cs| && x in Ids(cs[k]) :: x
  }

  type Path = seq<nat>

  /** `p` leads from `n` to one of its nodes. */
  predicate ValidPath(n: MenuNode, p: Path)
    decreases p
  {
    p == [] || (p[0] < |n.children| && ValidPath(n.children[p[0]], p[1..]))
  }

  /** The node `p` leads to. */
  function NodeAt(n: MenuNode, p: Path): MenuNode
    requires ValidPath(n, p)
    decreases p
  {
    if p == [] then n else NodeAt(n.children[p[0]], p[1..])
  }

  /** `$parent->add(...)` followed by the six `$parent->attribute(...)`
      calls: appends `child` as the last child of the node at `p` and
      decorates that node. */
  function AttachAt(n: MenuNode, p: Path, child: MenuNode): (r: MenuNode)
    requires ValidPath(n, p)
    ensures r.id == n.id && r.title == n.title && r.url == n.url
    ensures |r.children| == |n.children| + (if p == [] then 1 else 0)
    decreases p
  {
    if p == [] then
      n.(children := n.children + [child], attrs := Decorate(n.attrs))
    else
      n.(children := n.children[p[0] := AttachAt(n.children[p[0]], p[1..], child)])
  }

  /** `$menu->get(fn)` with the id test of `getParent`: the path of the first
      node, in pre-order from child `i` of `n` on, whose link id is `pid`.
      The node `n` itself is not tested. */
  function FindFrom(n: MenuNode, pid: int, i: nat): (r: Option<Path>)
    ensures r.Some? ==> && |r.value| >= 1 && i <= r.value[0]
                        && ValidPath(n, r.value) && NodeAt(n, r.value).id == Some(pid)
    ensures r.None? <==> forall k :: i <= k < |n.children| ==> pid !in Ids(n.children[k])
    decreases n, |n.children| - i
  {
    if i >= |n.children| then None
    else if n.children[i].id == Some(pid) then Some([i])
    else match FindFrom(n.children[i], pid, 0)
      case Some(p) =>
        assert ([i] + p)[1..] == p;
        Some([i] + p)
      case None =>
        assert pid !in Ids(n.children[i]);
        FindFrom(n, pid, i + 1)
  }

  /** The path of a node below the root of `n` carrying link id `pid`, if
      there is one. */
  function Find(n: MenuNode, pid: int): (r: Option<Path>)
    ensures r.Some? ==> |r.value| >= 1 && ValidPath(n, r.value) && NodeAt(n, r.value).id == Some(pid)
    ensures r.None? <==> pid !in IdsOf(n.children)
  {
    FindFrom(n, pid, 0)
  }

  // ---------------------------------------------------------------------
  // What attaching a child does to the rest of the tree
  // ---------------------------------------------------------------------

  /** Every node that existed keeps its path, its link id, its title and
      url; nodes other than the attachment point also keep their attributes
      and their number of children. */
  lemma {:induction false} AttachKeepsOtherNodes(n: MenuNode, p: Path, child: MenuNode, q: Path)
    requires ValidPath(n, p) && ValidPath(n, q)
    ensures ValidPath(AttachAt(n, p, child), q)
    ensures var a := NodeAt(AttachAt(n, p, child), q);
            var b := NodeAt(n, q);
            && a.id == b.id && a.title == b.title && a.url == b.url
            && (q != p ==> a.attrs == b.attrs && |a.children| == |b.children|)
    decreases q
  {
    var r := AttachAt(n, p, child);
    if q != [] {
      if p != [] && p[0] == q[0] {
        AttachKeepsOtherNodes(n.children[p[0]], p[1..], child, q[1..]);
        assert q != p ==> q[1..] != p[1..] by {
          if q[1..] == p[1..] {
            assert q == [q[0]] + q[1..] && p == [p[0]] + p[1..];
          }
        }
      } else {
        assert r.children[q[0]] == n.children[q[0]];
      }
    }
  }

  /** The attachment point gains `child` as its last child and carries the
      dropdown attributes; all its other attributes stay. */
  lemma {:induction false} AttachAtTarget(n: MenuNode, p: Path, child: MenuNode)
    requires ValidPath(n, p)
    ensures var r := AttachAt(n, p, child);
            && ValidPath(r, p)
            && NodeAt(r, p).children == NodeAt(n, p).children + [child]
            && NodeAt(r, p).attrs == Decorate(NodeAt(n, p).attrs)
            && ValidPath(r, p + [|NodeAt(n, p).children|])
            && NodeAt(r, p + [|NodeAt(n, p).children|]) == child
    decreases p
  {
    var r := AttachAt(n, p, child);
    var k := |NodeAt(n, p).children|;
    if p == [] {
      assert ([] + [k])[1..] == [];
    } else {
      AttachAtTarget(n.children[p[0]], p[1..], child);
      assert (p + [k])[0] == p[0] && (p + [k])[1..] == p[1..] + [k];
    }
  }

  /** Every path into the tree after attaching is a path that existed
      before, or the new child's path, or a path into the new child. */
  lemma {:induction false} AttachNewPaths(n: MenuNode, p: Path, child: MenuNode, q: Path)
    requires ValidPath(n, p) && ValidPath(AttachAt(n, p, child), q)
    ensures || ValidPath(n, q)
            || (&& |q| > |p| && q[..|p| + 1] == p + [|NodeAt(n, p).children|]
                && ValidPath(child, q[|p| + 1..])
                && NodeAt(AttachAt(n, p, child), q) == NodeAt(child, q[|p| + 1..]))
    decreases q
  {
    var r := AttachAt(n, p, child);
    if q != [] {
      if p == [] {
        if q[0] == |n.children| {
          assert r.children[q[0]] == child;
        }
      } else if p[0] == q[0] {
        AttachNewPaths(n.children[p[0]], p[1..], child, q[1..]);
        if !ValidPath(n, q) {
          var k := |NodeAt(n, p).children|;
          assert q[1..][..|p| - 1 + 1] == q[1..|p| + 1];
          assert q[..|p| + 1] == [q[0]] + q[1..|p| + 1];
          assert p + [k] == [p[0]] + (p[1..] + [k]);
          assert q[1..][|p| - 1 + 1..] == q[|p| + 1..];
        }
      } else {
        assert r.children[q[0]] == n.children[q[0]];
      }
    }
  }

  // ---------------------------------------------------------------------
  // Node count and ids
  // ---------------------------------------------------------------------

  /** Appending a tree adds its nodes to the count. */
  lemma {:induction false} SizeOfAppend(cs: seq<MenuNode>, c: MenuNode)
    ensures SizeOf(cs + [c]) == SizeOf(cs) + Size(c)
  {
    assert (cs + [c])[..|cs|] == cs;
  }

  /** Replacing one tree of a sequence changes the count by the difference. */
  lemma {:induction false} SizeOfUpdate(cs: seq<MenuNode>, k: nat, x: MenuNode)
    requires k < |cs|
    ensures SizeOf(cs[k := x]) == SizeOf(cs) - Size(cs[k]) + Size(x)
    decreases |cs|
  {
    var last := |cs| - 1;
    if k < last {
      SizeOfUpdate(cs[..last], k, x);
      assert cs[k := x][..last] == cs[..last][k := x];
    } else {
      assert cs[k := x][..last] == cs[..last];
    }
  }

  /** Attaching a tree adds exactly its nodes. */
  lemma {:induction false} AttachSize(n: MenuNode, p: Path, child: MenuNode)
    requires ValidPath(n, p)
    ensures Size(AttachAt(n, p, child)) == Size(n) + Size(child)
    decreases p
  {
    if p == [] {
      SizeOfAppend(n.children, child);
    } else {
      AttachSize(n.children[p[0]], p[1..], child);
      SizeOfUpdate(n.children, p[0], AttachAt(n.children[p[0]], p[1..], child));
    }
  }

  /** Appending a tree adds its ids. */
  lemma IdsOfAppend(cs: seq<MenuNode>, c: MenuNode)
    ensures IdsOf(cs + [c]) == IdsOf(cs) + Ids(c)
  {
    var cs' := cs + [c];
    forall x | x in IdsOf(cs')
      ensures x in IdsOf(cs) + Ids(c)
    {
      var k :| 0 <= k < |cs'| && x in Ids(cs'[k]);
      if k < |cs| {
        assert cs'[k] == cs[k];
      }
    }
    forall x | x in IdsOf(cs) + Ids(c)
      ensures x in IdsOf(cs')
    {
      if x in Ids(c) {
        assert cs'[|cs|] == c;
      } else {
        var k :| 0 <= k < |cs| && x in Ids(cs[k]);
        assert cs'[k] == cs[k];
      }
    }
  }

  /** Replacing one tree by one carrying `extra` more ids adds `extra`. */
  lemma IdsOfUpdate(cs: seq<MenuNode>, k: nat, x: MenuNode, extra: set<int>)
    requires k < |cs| && Ids(x) == Ids(cs[k]) + extra
    ensures IdsOf(cs[k := x]) == IdsOf(cs) + extra
  {
    var cs' := cs[k := x];
    forall y | y in IdsOf(cs')
      ensures y in IdsOf(cs) + extra
    {
      var j :| 0 <= j < |cs'| && y in Ids(cs'[j]);
      if j != k {
        assert cs'[j] == cs[j];
      } else if y !in extra {
        assert y in Ids(cs[k]);
      }
    }
    forall y | y in IdsOf(cs) + extra
      ensures y in IdsOf(cs')
    {
      if y in extra {
        assert y in Ids(cs'[k]);
      } else {
        var j :| 0 <= j < |cs| && y in Ids(cs[j]);
        if j != k {
          assert cs'[j] == cs[j];
        } else {
          assert y in Ids(cs'[k]);
        }
      }
    }
  }

  /** Attaching a tree adds exactly its ids; the root's own id is unchanged. */
  lemma {:induction false} AttachIds(n: MenuNode, p: Path, child: MenuNode)
    requires ValidPath(n, p)
    ensures IdsOf(AttachAt(n, p, child).children) == IdsOf(n.children) + Ids(child)
    ensures Ids(AttachAt(n, p, child)) == Ids(n) + Ids(child)
    decreases p
  {
    if p == [] {
      IdsOfAppend(n.children, child);
    } else {
      var x := AttachAt(n.children[p[0]], p[1..], child);
      AttachIds(n.children[p[0]], p[1..], child);
      IdsOfUpdate(n.children, p[0], x, Ids(child));
    }
  }

  // ---------------------------------------------------------------------
  // Decoration invariant
  // ---------------------------------------------------------------------

  /** Exactly the nodes with children carry the dropdown attributes. */
  predicate WellDecorated(n: MenuNode)
    decreases n
  {
    && (|n.children| > 0 <==> HasDropdown(n.attrs))
    && forall k :: 0 <= k < |n.children| ==> WellDecorated(n.children[k])
  }

  /** A node without any attribute is not a dropdown, so an empty menu and
      a freshly made leaf are well decorated. */
  lemma NoDropdownWithout(a: Attributes)
    requires "li.class" !in a
    ensures !HasDropdown(a)
  {
    assert "li.class" in Dropdown;
  }

  /** Attaching a well-decorated tree keeps a tree well decorated: the
      attachment point now has a child and is decorated, and no other
      node's attributes or children count changed. */
  lemma {:induction false} AttachKeepsWellDecorated(n: MenuNode, p: Path, child: MenuNode)
    requires ValidPath(n, p) && WellDecorated(n) && WellDecorated(child)
    ensures WellDecorated(AttachAt(n, p, child))
    decreases p
  {
    var r := AttachAt(n, p, child);
    if p == [] {
      assert HasDropdown(r.attrs);
      forall k | 0 <= k < |r.children|
        ensures WellDecorated(r.children[k])
      {
        if k < |n.children| {
          assert r.children[k] == n.children[k];
        }
      }
    } else {
      AttachKeepsWellDecorated(n.children[p[0]], p[1..], child);
      forall k | 0 <= k < |r.children|
        ensures WellDecorated(r.children[k])
      {
        if k != p[0] {
          assert r.children[k] == n.children[k];
        }
      }
    }
  }
}
