/** Anvil's menu composition (anvil/src/Anvil/Menu/Menu.php): the power
    filter applied when fetching a menu's links, the fallback for an unknown
    menu, and the fold that attaches each link under its parent.

    The database is a map from menu slug to that menu's links in the order
    the query returns them; the menu the external factory hands out is a
    parameter. */
module Menu {
  import opened Wrappers
  import opened MenuTree

  /** A link record of a menu. */
  datatype Link = Link(id: int, title: string, url: string, parentId: Option<int>,
                       requiredPower: Option<int>, maxPower: Option<int>)

  /** The stored menus: slug to links, in query order. */
  type Store = map<string, seq<Link>>

  /** The query of `fetchLinks` for a given power: `required_power` is null
      or at most `power`, and `max_power` is null or at least `power`. */
  predicate PowerAllows(l: Link, power: int) {
    && (l.requiredPower.None? || l.requiredPower.value <= power)
    && (l.maxPower.None? || power <= l.maxPower.value)
  }

  /** Keeps the links the power admits, in their order; no power keeps all. */
  function FilterByPower(links: seq<Link>, power: Option<int>): (r: seq<Link>)
    ensures power.None? ==> r == links
    ensures power.Some? ==> forall l :: l in r <==>
              && l in links
              && (l.requiredPower.None? || l.requiredPower.value <= power.value)
              && (l.maxPower.None? || power.value <= l.maxPower.value)
    ensures |r| <= |links|
    decreases |links|
  {
    if power.None? || |links| == 0 then links
    else
      var init := FilterByPower(links[..|links| - 1], power);
      var last := links[|links| - 1];
      assert links == links[..|links| - 1] + [last];
      if PowerAllows(last, power.value) then init + [last] else init
  }

  /** Filtering distributes over concatenation, so kept links keep their
      relative order. */
  lemma {:induction false} FilterByPowerAppend(a: seq<Link>, b: seq<Link>, power: Option<int>)
    ensures FilterByPower(a + b, power) == FilterByPower(a, power) + FilterByPower(b, power)
    decreases |b|
  {
    if power.Some? && |b| > 0 {
      var b' := b[..|b| - 1];
      assert (a + b)[..|a + b| - 1] == a + b';
      assert (a + b)[|a + b| - 1] == b[|b| - 1];
      FilterByPowerAppend(a, b', power);
    } else if power.Some? {
      assert a + b == a;
    }
  }

  /** `fetchLinks`: the named menu's links the power admits; an unknown menu
      has no links. */
  function FetchLinks(store: Store, name: string, power: Option<int>): (r: seq<Link>)
    ensures name !in store ==> r == []
    ensures name in store && power.None? ==> r == store[name]
    ensures power.Some? ==> forall l :: l in r <==>
              name in store && l in store[name] && PowerAllows(l, power.value)
  {
    if name in store then FilterByPower(store[name], power) else []
  }

  /** The node made for a link: its title and url, `li.id` set to its id. */
  function NewItem(l: Link): MenuNode {
    MenuNode(Some(l.id), l.title, l.url, map["li.id" := Number(l.id)], [])
  }

  /** The ids of a sequence of links. */
  function LinkIds(links: seq<Link>): set<int> {
    set i | 0 <= i < |links| :: links[i].id
  }

  /** `getParent`: where a link goes. The root when it has no parent id;
      otherwise the node carrying that id, and the root again when no node
      below the root carries it. */
  function ParentOf(m: MenuNode, l: Link): (p: Path)
    ensures ValidPath(m, p)
    ensures p == [] <==> l.parentId.None? || l.parentId.value !in IdsOf(m.children)
    ensures p != [] ==> NodeAt(m, p).id == l.parentId
  {
    if l.parentId.None? then []
    else match Find(m, l.parentId.value)
      case Some(q) => q
      case None => []
  }

  /** One iteration of `populateMenu`: attach the link's node under its
      parent and decorate the parent. */
  function Step(m: MenuNode, l: Link): MenuNode {
    AttachAt(m, ParentOf(m, l), NewItem(l))
  }

  /** `populateMenu`: the links attached one by one, in order. */
  function Populate(m: MenuNode, links: seq<Link>): (r: MenuNode)
    ensures Size(r) == Size(m) + |links|
    ensures IdsOf(r.children) == IdsOf(m.children) + LinkIds(links)
    ensures WellDecorated(m) ==> WellDecorated(r)
    ensures |links| == 0 ==> r == m
    decreases |links|
  {
    if |links| == 0 then
      assert LinkIds(links) == {};
      m
    else
      var before := Populate(m, links[..|links| - 1]);
      PopulateStepFacts(m, links, before);
      Step(before, links[|links| - 1])
  }

  /** The iteration for the last link carries the fold's counts from the
      links before it to all the links. */
  lemma PopulateStepFacts(m: MenuNode, links: seq<Link>, before: MenuNode)
    requires |links| > 0
    requires Size(before) == Size(m) + |links| - 1
    requires IdsOf(before.children) == IdsOf(m.children) + LinkIds(links[..|links| - 1])
    requires WellDecorated(m) ==> WellDecorated(before)
    ensures Size(Step(before, links[|links| - 1])) == Size(m) + |links|
    ensures IdsOf(Step(before, links[|links| - 1]).children) == IdsOf(m.children) + LinkIds(links)
    ensures WellDecorated(m) ==> WellDecorated(Step(before, links[|links| - 1]))
  {
    var init := links[..|links| - 1];
    var l := links[|links| - 1];
    StepCounts(before, l);
    LinkIdsSnoc(init, l);
    assert links == init + [l];
  }

  /** One iteration adds one node, carrying the link's id, and keeps the
      tree well decorated. */
  lemma StepCounts(m: MenuNode, l: Link)
    ensures Size(Step(m, l)) == Size(m) + 1
    ensures IdsOf(Step(m, l).children) == IdsOf(m.children) + {l.id}
    ensures WellDecorated(m) ==> WellDecorated(Step(m, l))
  {
    var p := ParentOf(m, l);
    AttachSize(m, p, NewItem(l));
    AttachIds(m, p, NewItem(l));
    assert IdsOf(NewItem(l).children) == {};
    if WellDecorated(m) {
      NoDropdownWithout(NewItem(l).attrs);
      AttachKeepsWellDecorated(m, p, NewItem(l));
    }
  }

  /** Appending a link adds its id. */
  lemma LinkIdsSnoc(links: seq<Link>, l: Link)
    ensures LinkIds(links + [l]) == LinkIds(links) + {l.id}
  {
    var all := links + [l];
    forall x | x in LinkIds(all)
      ensures x in LinkIds(links) + {l.id}
    {
      var i :| 0 <= i < |all| && all[i].id == x;
      if i < |links| {
        assert links[i] == all[i];
      }
    }
    assert all[|links|] == l;
    forall x | x in LinkIds(links)
      ensures x in LinkIds(all)
    {
      var i :| 0 <= i < |links| && links[i].id == x;
      assert all[i] == links[i];
    }
  }

  /** `get`: the factory's menu populated with the named menu's links. */
  function GetMenu(store: Store, menu: MenuNode, name: string, power: Option<int>): (r: MenuNode)
    ensures name !in store ==> r == menu
    ensures Size(r) == Size(menu) + |FetchLinks(store, name, power)|
  {
    Populate(menu, FetchLinks(store, name, power))
  }

  // ---------------------------------------------------------------------
  // Properties of the fold
  // ---------------------------------------------------------------------

  /** The fold processes the links left to right. */
  lemma PopulateSnoc(m: MenuNode, links: seq<Link>, l: Link)
    ensures Populate(m, links + [l]) == Step(Populate(m, links), l)
  {
    assert (links + [l])[..|links|] == links;
  }

  /** Where the `k`-th link goes: under the node of an earlier link (or of
      the initial menu) that carries its parent id, and under the root when
      it has no parent id or no such node exists yet. A parent that only
      appears later in the input, or a link naming itself as its parent,
      therefore lands under the root. */
  lemma ParentResolution(m: MenuNode, links: seq<Link>, k: nat)
    requires k < |links|
    ensures var before := Populate(m, links[..k]);
            var l := links[k];
            var p := ParentOf(before, l);
            && (p == [] <==> l.parentId.None?
                             || (l.parentId.value !in IdsOf(m.children)
                                 && l.parentId.value !in LinkIds(links[..k])))
            && (p != [] ==> NodeAt(before, p).id == l.parentId)
  {
  }

  /** A link that names itself as its parent, with no earlier node carrying
      its id, is attached under the root. */
  lemma SelfParentGoesToRoot(m: MenuNode, links: seq<Link>, k: nat)
    requires k < |links| && links[k].parentId == Some(links[k].id)
    requires links[k].id !in IdsOf(m.children)
    requires forall j :: 0 <= j < k ==> links[j].id != links[k].id
    ensures ParentOf(Populate(m, links[..k]), links[k]) == []
  {
    ParentResolution(m, links, k);
    assert links[k].id !in LinkIds(links[..k]);
  }

  /** What one iteration changes: the link's node becomes the last child of
      its parent, the parent is decorated (a no-op when it already was), and
      every other node keeps its place, its link id, its attributes and its
      number of children. */
  lemma StepEffect(m: MenuNode, l: Link, q: Path)
    requires ValidPath(m, q)
    ensures var r := Step(m, l);
            var p := ParentOf(m, l);
            var k := |NodeAt(m, p).children|;
            && ValidPath(r, p) && |NodeAt(r, p).children| == k + 1
            && ValidPath(r, p + [k])
            && NodeAt(r, p + [k]) == MenuNode(Some(l.id), l.title, l.url,
                                              map["li.id" := Number(l.id)], [])
            && NodeAt(r, p).children[..k] == NodeAt(m, p).children
            && HasDropdown(NodeAt(r, p).attrs)
            && (HasDropdown(NodeAt(m, p).attrs) ==> NodeAt(r, p).attrs == NodeAt(m, p).attrs)
            && ValidPath(r, q) && NodeAt(r, q).id == NodeAt(m, q).id
            && (q != p ==> && NodeAt(r, q).attrs == NodeAt(m, q).attrs
                           && |NodeAt(r, q).children| == |NodeAt(m, q).children|)
  {
    var p := ParentOf(m, l);
    AttachAtTarget(m, p, NewItem(l));
    AttachKeepsOtherNodes(m, p, NewItem(l), q);
    DecorateIdempotent(NodeAt(m, p).attrs);
    assert (NodeAt(m, p).children + [NewItem(l)])[..|NodeAt(m, p).children|]
           == NodeAt(m, p).children;
  }

  /** Nodes keep their place while later links are added: the node at a
      path after `j` links is still there, with the same link id, after all
      the links. Later children of a parent therefore come after earlier
      ones, in input order, and a decorated node stays decorated. */
  lemma {:induction false} PopulateKeepsEarlierNodes(m: MenuNode, links: seq<Link>, j: nat, q: Path)
    requires j <= |links| && ValidPath(Populate(m, links[..j]), q)
    ensures ValidPath(Populate(m, links), q)
    ensures NodeAt(Populate(m, links), q).id == NodeAt(Populate(m, links[..j]), q).id
    ensures HasDropdown(NodeAt(Populate(m, links[..j]), q).attrs)
            ==> HasDropdown(NodeAt(Populate(m, links), q).attrs)
    decreases |links| - j
  {
    if j < |links| {
      var before := Populate(m, links[..j]);
      var l := links[j];
      assert links[..j + 1] == links[..j] + [l];
      PopulateSnoc(m, links[..j], l);
      StepEffect(before, l, q);
      PopulateKeepsEarlierNodes(m, links, j + 1, q);
    } else {
      assert links[..j] == links;
    }
  }

  /** A menu built from an empty root: it holds one node per link below the
      root, and exactly the nodes with children, the root included, carry
      the dropdown attributes. */
  lemma PopulateEmptyMenu(links: seq<Link>)
    ensures Size(Populate(EmptyMenu, links)) == |links| + 1
    ensures WellDecorated(Populate(EmptyMenu, links))
    ensures |links| > 0 ==> HasDropdown(Populate(EmptyMenu, links).attrs)
  {
    var r := Populate(EmptyMenu, links);
    assert SizeOf(EmptyMenu.children) == 0;
    NoDropdownWithout(EmptyMenu.attrs);
    if |links| > 0 {
      assert SizeOf(r.children) > 0;
      assert r.children != [];
    }
  }

  /** Two links, the second naming the first as its parent: the root gets
      one child, decorated, whose only child is the second link. */
  lemma TwoLevelExample()
    ensures var a := Link(1, "A", "/a", None, None, None);
            var b := Link(2, "B", "/b", Some(1), None, None);
            var r := Populate(EmptyMenu, [a, b]);
            && |r.children| == 1
            && r.children[0].title == "A" && HasDropdown(r.children[0].attrs)
            && |r.children[0].children| == 1
            && r.children[0].children[0].title == "B"
  {
    var a := Link(1, "A", "/a", None, None, None);
    var b := Link(2, "B", "/b", Some(1), None, None);
    PopulateSnoc(EmptyMenu, [], a);
    assert [a, b] == [a] + [b];
    assert [a] == [] + [a];
    PopulateSnoc(EmptyMenu, [a], b);
    var one := Populate(EmptyMenu, [a]);
    assert one == Step(EmptyMenu, a);
    assert one.children == [NewItem(a)];
    assert one.children[0].id == Some(1);
    assert Find(one, 1) == Some([0]);
    assert ParentOf(one, b) == [0];
  }
}
