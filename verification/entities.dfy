/** Entities as heap objects that are list nodes at the same time, the shape of a
    list with a sentinel head, and the bookkeeping of a pass that walks such a list
    with a trailing pointer and unlinks some of its nodes. */
module Entities {
  import opened Selection
  import opened Collision
  import opened World

  /** A game object and a list node at once. Positions and velocities are whole
      numbers: every value the game stores in them is one. */
  class Entity {
    var x: int
    var y: int
    var w: nat
    var h: nat
    var dx: int
    var dy: int
    var health: int
    var reload: int
    var side: Side
    var next: Entity?

    /** A freshly allocated and zero-filled entity. */
    constructor Zeroed()
      ensures View(this) == Zero && next == null
    {
      x, y, w, h, dx, dy := 0, 0, 0, 0, 0, 0;
      health, reload, side, next := 0, 0, Player, null;
    }
  }

  /** The data an entity carries, without its link. */
  function View(e: Entity): Ent
    reads e
  {
    Ent(e.x, e.y, e.w, e.h, e.dx, e.dy, e.health, e.reload, e.side)
  }

  /** The data of each entity of `s`, in order. */
  ghost function Views(s: seq<Entity>): (r: seq<Ent>)
    reads s
    ensures |r| == |s| && forall k :: 0 <= k < |s| ==> r[k] == View(s[k])
  {
    seq(|s|, k requires 0 <= k < |s| reads s => View(s[k]))
  }

  /** Data given entity by entity is the data of the sequence. */
  lemma ViewsAre(s: seq<Entity>, vs: seq<Ent>)
    requires |vs| == |s| && forall k :: 0 <= k < |s| ==> View(s[k]) == vs[k]
    ensures Views(s) == vs
  {
  }

  /** The box the collision test receives for an entity. */
  function BoxOf(e: Entity): Box
    reads e`x, e`y, e`w, e`h
  {
    Box(e.x, e.y, e.w, e.h)
  }

  /** The data of a selection of entities is the same selection of their data. */
  lemma {:induction false} ViewsOfSelection(s: seq<Entity>, keep: seq<bool>, vs: seq<Ent>)
    requires |keep| == |s| == |vs|
    requires forall k :: 0 <= k < |s| && keep[k] ==> View(s[k]) == vs[k]
    ensures Views(Select(s, keep)) == Select(vs, keep)
    decreases |s|
  {
    if s != [] {
      var n := |s| - 1;
      ViewsOfSelection(s[..n], keep[..n], vs[..n]);
      var pre := Select(s[..n], keep[..n]);
      if keep[n] {
        assert Views(pre + [s[n]]) == Views(pre) + [View(s[n])];
      }
    }
  }

  /** `nodes` is the list hanging off `head`, in link order, and `tail` is its
      last node, or `head` itself when the list is empty. */
  ghost predicate Linked(head: Entity, nodes: seq<Entity>, tail: Entity)
    reads head`next, nodes`next
  {
    && head !in nodes
    && Distinct(nodes)
    && head.next == (if nodes == [] then null else nodes[0])
    && (forall i {:trigger nodes[i].next} :: 0 <= i < |nodes| ==> nodes[i].next == (if i + 1 < |nodes| then nodes[i + 1] else null))
    && tail == (if nodes == [] then head else nodes[|nodes| - 1])
  }

  /** A list whose last node leads to a further node `e`, which ends the chain:
      the list extended by `e` is well linked, with `e` as its tail. */
  lemma LinkedSnoc(head: Entity, nodes: seq<Entity>, e: Entity)
    requires head !in nodes && Distinct(nodes) && e !in nodes && e != head && e.next == null
    requires head.next == (if nodes == [] then e else nodes[0])
    requires forall k {:trigger nodes[k].next} :: 0 <= k < |nodes| ==> nodes[k].next == (if k + 1 < |nodes| then nodes[k + 1] else e)
    ensures Linked(head, nodes + [e], e)
  {
    var s := nodes + [e];
    assert s[..|s| - 1] == nodes;
    forall k | 0 <= k < |s|
      ensures s[k].next == (if k + 1 < |s| then s[k + 1] else null)
    {
      if k < |nodes| {
        assert s[k] == nodes[k] && s[k + 1] == (if k + 1 < |nodes| then nodes[k + 1] else e);
      } else {
        assert s[k] == e && k + 1 == |s|;
      }
    }
  }

  /** The node a pass trails behind its cursor: the last node kept so far, or the
      head when none is kept yet. */
  function Trailing(head: Entity, kept: seq<Entity>): Entity
  {
    if kept == [] then head else kept[|kept| - 1]
  }

  /** The node at position `i`, or null past the end. */
  function NodeAt(nodes: seq<Entity>, i: nat): Entity?
  {
    if i < |nodes| then nodes[i] else null
  }

  /** The node after position `k` of `s`, or `last` after its final node. */
  function After(s: seq<Entity>, k: nat, last: Entity?): Entity?
  {
    if k + 1 < |s| then s[k + 1] else last
  }

  /** The state of a pruning pass that has decided `keep` for the first `i` nodes:
      the head leads through the kept nodes to the cursor (node `i`), and the nodes
      not yet visited keep their original links. `links` gives each successor. */
  ghost predicate Relinked(head: Entity, nodes: seq<Entity>, keep: seq<bool>, i: nat, links: map<Entity, Entity?>)
    requires |keep| == |nodes| && i <= |nodes|
  {
    var kept := Select(nodes[..i], keep[..i]);
    && head in links
    && (forall k :: 0 <= k < |nodes| ==> nodes[k] in links)
    && (forall k :: 0 <= k < |kept| ==> kept[k] in links)
    && links[head] == (if kept == [] then NodeAt(nodes, i) else kept[0])
    && (forall k :: 0 <= k < |kept| ==> links[kept[k]] == After(kept, k, NodeAt(nodes, i)))
    && (forall k :: i <= k < |nodes| ==> links[nodes[k]] == NodeAt(nodes, k + 1))
    && (forall k :: i <= k < |nodes| ==> nodes[k] != Trailing(head, kept))
    && (Trailing(head, kept) == head || Trailing(head, kept) in nodes)
    && Trailing(head, kept) in links && links[Trailing(head, kept)] == NodeAt(nodes, i)
  }

  /** `links` records the actual `next` field of the head and of every node. */
  ghost predicate LinksHold(head: Entity, nodes: seq<Entity>, links: map<Entity, Entity?>)
    reads head`next, nodes`next
  {
    && head in links && head.next == links[head]
    && forall k {:trigger links[nodes[k]]} :: 0 <= k < |nodes| ==> nodes[k] in links && nodes[k].next == links[nodes[k]]
  }

  /** The `next` field of each node of `nodes`, taken as a value. */
  lemma {:induction false} LinksOf(nodes: seq<Entity>) returns (links: map<Entity, Entity?>)
    ensures forall k :: 0 <= k < |nodes| ==> nodes[k] in links && nodes[k].next == links[nodes[k]]
    ensures forall o :: o in links ==> o in nodes
    decreases |nodes|
  {
    if nodes == [] {
      links := map[];
    } else {
      var n := |nodes| - 1;
      links := LinksOf(nodes[..n]);
      assert forall k :: 0 <= k < n ==> nodes[..n][k] == nodes[k];
      links := links[nodes[n] := nodes[n].next];
    }
  }

  /** The links of a well-formed list, taken as a value; nothing is relinked yet. */
  lemma Successors(head: Entity, nodes: seq<Entity>, tail: Entity, keep: seq<bool>) returns (links: map<Entity, Entity?>)
    requires Linked(head, nodes, tail) && |keep| == |nodes|
    ensures LinksHold(head, nodes, links)
    ensures Relinked(head, nodes, keep, 0, links)
  {
    links := LinksOf(nodes);
    links := links[head := head.next];
    assert nodes[..0] == [] && keep[..0] == [];
    assert Select(nodes[..0], keep[..0]) == [];
    assert links[head] == NodeAt(nodes, 0);
    forall k | 0 <= k < |nodes|
      ensures links[nodes[k]] == NodeAt(nodes, k + 1)
    {
      assert nodes[k] != head;
      assert links[nodes[k]] == nodes[k].next;
    }
  }

  /** Keeping the cursor node changes no link: the pass moves on past it. */
  lemma KeepStep(head: Entity, nodes: seq<Entity>, keep: seq<bool>, i: nat, links: map<Entity, Entity?>)
    requires |keep| == |nodes| && i < |nodes| && keep[i]
    requires Distinct(nodes)
    requires Relinked(head, nodes, keep, i, links)
    ensures Relinked(head, nodes, keep, i + 1, links)
  {
    var kept := Select(nodes[..i], keep[..i]);
    SelectPrefixSnoc(nodes, keep, i);
    var kept' := kept + [nodes[i]];
    assert forall k :: 0 <= k < |kept| ==> kept'[k] == kept[k];
    assert Trailing(head, kept') == nodes[i];
    DistinctAt(nodes);
  }

  /** Dropping the cursor node points the trailing node past it. */
  lemma DropStep(head: Entity, nodes: seq<Entity>, keep: seq<bool>, i: nat, links: map<Entity, Entity?>)
    requires |keep| == |nodes| && i < |nodes| && !keep[i]
    requires head !in nodes && Distinct(nodes)
    requires Relinked(head, nodes, keep, i, links)
    ensures var prev := Trailing(head, Select(nodes[..i], keep[..i]));
      Relinked(head, nodes, keep, i + 1, links[prev := links[nodes[i]]])
  {
    var kept := Select(nodes[..i], keep[..i]);
    var prev := Trailing(head, kept);
    assert Select(nodes[..i + 1], keep[..i + 1]) == kept by {
      SelectPrefixSnoc(nodes, keep, i);
    }
    DropKeepsKeptLinks(head, nodes, keep, i, links);
    var links' := links[prev := links[nodes[i]]];
    if kept != [] {
      assert prev in nodes[..i] by {
        DistinctPrefix(nodes, i);
        SelectDistinct(nodes[..i], keep[..i]);
      }
      assert links'[head] == links[head];
    }
  }

  /** Dropping the cursor node changes the link of the trailing node only: every
      node kept so far still leads to the next kept one, and the last of them past
      the dropped node. */
  lemma DropKeepsKeptLinks(head: Entity, nodes: seq<Entity>, keep: seq<bool>, i: nat, links: map<Entity, Entity?>)
    requires |keep| == |nodes| && i < |nodes| && !keep[i]
    requires head !in nodes && Distinct(nodes)
    requires Relinked(head, nodes, keep, i, links)
    ensures var kept := Select(nodes[..i], keep[..i]);
      var links' := links[Trailing(head, kept) := links[nodes[i]]];
      forall k :: 0 <= k < |kept| ==> kept[k] in links' && links'[kept[k]] == After(kept, k, NodeAt(nodes, i + 1))
  {
    var kept := Select(nodes[..i], keep[..i]);
    var prev := Trailing(head, kept);
    DistinctPrefix(nodes, i);
    SelectDistinct(nodes[..i], keep[..i]);
    DistinctAt(kept);
    var links' := links[prev := links[nodes[i]]];
    forall k | 0 <= k < |kept|
      ensures links'[kept[k]] == After(kept, k, NodeAt(nodes, i + 1))
    {
      if k + 1 < |kept| {
        assert kept[k] != prev;
      }
    }
  }

  /** One step of a pass: the cursor node is kept, or unlinked by pointing the
      trailing node past it; either way the pass state moves on by one node and
      the new trailing node leads to the next cursor. */
  lemma Advance(head: Entity, nodes: seq<Entity>, keep: seq<bool>, i: nat, links: map<Entity, Entity?>)
    returns (links': map<Entity, Entity?>)
    requires |keep| == |nodes| && i < |nodes|
    requires head !in nodes && Distinct(nodes)
    requires Relinked(head, nodes, keep, i, links)
    ensures var prev := Trailing(head, Select(nodes[..i], keep[..i]));
      links' == if keep[i] then links else links[prev := links[nodes[i]]]
    ensures var last := Trailing(head, Select(nodes[..i + 1], keep[..i + 1]));
      && last == (if keep[i] then nodes[i] else Trailing(head, Select(nodes[..i], keep[..i])))
      && last in links' && links'[last] == NodeAt(nodes, i + 1)
    ensures Relinked(head, nodes, keep, i + 1, links')
  {
    SelectPrefixSnoc(nodes, keep, i);
    if keep[i] {
      KeepStep(head, nodes, keep, i, links);
      links' := links;
    } else {
      DropStep(head, nodes, keep, i, links);
      links' := links[Trailing(head, Select(nodes[..i], keep[..i])) := links[nodes[i]]];
    }
  }

  /** At the end of the pass the head leads through exactly the kept nodes. */
  lemma RelinkedDone(head: Entity, nodes: seq<Entity>, keep: seq<bool>, links: map<Entity, Entity?>)
    requires |keep| == |nodes|
    requires Relinked(head, nodes, keep, |nodes|, links)
    ensures var kept := Select(nodes, keep);
      && links[head] == (if kept == [] then null else kept[0])
      && (forall k :: 0 <= k < |kept| ==> kept[k] in links && links[kept[k]] == After(kept, k, null))
  {
    assert nodes[..|nodes|] == nodes && keep[..|nodes|] == keep;
    assert Select(nodes[..|nodes|], keep[..|nodes|]) == Select(nodes, keep);
    assert NodeAt(nodes, |nodes|) == null;
  }

  /** A finished pass leaves a well-formed list of the kept nodes, ending at the
      trailing node. */
  lemma PassLeavesList(head: Entity, nodes: seq<Entity>, keep: seq<bool>, links: map<Entity, Entity?>)
    requires |keep| == |nodes| && head !in nodes && Distinct(nodes)
    requires Relinked(head, nodes, keep, |nodes|, links)
    requires LinksHold(head, nodes, links)
    ensures Linked(head, Select(nodes, keep), Trailing(head, Select(nodes, keep)))
  {
    RelinkedDone(head, nodes, keep, links);
    SelectDistinct(nodes, keep);
    var kept := Select(nodes, keep);
    forall k | 0 <= k < |kept|
      ensures kept[k].next == links[kept[k]]
    {
      assert kept[k] in nodes;
    }
  }
}
