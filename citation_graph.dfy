/**
 * CitationGraph of 5_graf_cytowan: publications keyed by id, each node owning the nodes that
 * cite it (its children) and recording the nodes it cites (its parents) by weak reference.
 * The graph owns the root.
 *
 * `ids` is the map from publication id to node; `nodes` holds the live nodes by handle. A
 * node's parents set keeps the handles of parents that have since been destroyed: the node
 * inherits enable_shared_from_this privately, so the handle its destructor passes to
 * removeParent is empty and no parent entry is ever erased.
 */
module CitationGraph {
  import opened Wrappers
  import opened Ownership

  /** The exceptions the graph throws. */
  datatype Failure = PublicationAlreadyCreated | PublicationNotFound | TriedToRemoveRoot

  /** The state of a graph: the id map, the live nodes and the handle the next node receives. */
  datatype Graph = Graph(ids: map<Id, Handle>, nodes: map<Handle, Node>, next: Handle)

  /** The id map and the live nodes agree both ways. */
  ghost predicate IdsAgree(g: Graph)
  {
    (forall id :: id in g.ids ==> g.ids[id] in g.nodes && g.nodes[g.ids[id]].id == id) &&
    (forall h :: h in g.nodes ==> g.nodes[h].id in g.ids && g.ids[g.nodes[h].id] == h)
  }

  /** An owned node is live and records its owner among its parents. */
  ghost predicate Owned(g: Graph)
  {
    forall h, c {:trigger c in g.nodes[h].children} ::
      h in g.nodes && c in g.nodes[h].children ==> c in g.nodes && h in g.nodes[c].parents
  }

  /** The root is live, and every handle in use, live or recorded as a parent, is below next. */
  ghost predicate Bounded(g: Graph, root: Handle)
  {
    root in g.nodes &&
    (forall h :: h in g.nodes ==> h < g.next) &&
    (forall h, p :: h in g.nodes && p in g.nodes[h].parents ==> p < g.next)
  }

  ghost predicate Linked(g: Graph, root: Handle)
  {
    IdsAgree(g) && Owned(g) && Bounded(g, root)
  }

  /** Linked, and nothing is due to be destroyed. */
  ghost predicate Valid(g: Graph, root: Handle)
  {
    Linked(g, root) && Stable(g.nodes, root)
  }

  /** find / exists: the id names a live node. */
  predicate Exists(g: Graph, id: Id)
  {
    id in g.ids && g.ids[id] in g.nodes
  }

  // ---------------------------------------------------------------------------------------
  // The changes the operations make

  /** The handles of the ids that are in the map. */
  function HandlesOf(ids: map<Id, Handle>, parentIds: seq<Id>): (hs: set<Handle>)
    ensures forall h :: h in hs <==> exists p :: p in parentIds && p in ids && ids[p] == h
  {
    set p | p in parentIds && p in ids :: ids[p]
  }

  lemma HandlesOfSnoc(ids: map<Id, Handle>, parentIds: seq<Id>, i: nat)
    requires i < |parentIds| && parentIds[i] in ids
    ensures HandlesOf(ids, parentIds[..i + 1]) == HandlesOf(ids, parentIds[..i]) + {ids[parentIds[i]]}
  {
    assert parentIds[..i + 1] == parentIds[..i] + [parentIds[i]];
  }

  /** The nodes after each of the parents takes ownership of h. */
  function Attached(nodes: map<Handle, Node>, hs: set<Handle>, h: Handle): (r: map<Handle, Node>)
    ensures r.Keys == nodes.Keys
    ensures forall q :: q in r ==>
              r[q] == if q in hs then nodes[q].(children := nodes[q].children + {h}) else nodes[q]
  {
    map q | q in nodes :: if q in hs then nodes[q].(children := nodes[q].children + {h}) else nodes[q]
  }

  lemma AttachedOne(nodes: map<Handle, Node>, hs: set<Handle>, h: Handle, p: Handle)
    requires p in nodes
    ensures Attached(nodes, hs + {p}, h) == Attached(nodes, hs, h)[p := Attached(nodes, hs, h)[p].(children := Attached(nodes, hs, h)[p].children + {h})]
  {
  }

  /**
   * create(id, parent_ids) with live parents, before the new node's owner goes out of scope:
   * the new node records the parents, every parent owns it and the id maps to it.
   */
  function Attach(g: Graph, id: Id, parentIds: seq<Id>): (r: Graph)
    ensures r.next == g.next + 1
  {
    var hs := HandlesOf(g.ids, parentIds);
    Graph(g.ids[id := g.next], Attached(g.nodes, hs, g.next)[g.next := Node(id, {}, hs)], g.next + 1)
  }

  lemma AttachKeeps(g: Graph, root: Handle, id: Id, parentIds: seq<Id>)
    requires Valid(g, root) && !Exists(g, id)
    requires forall p :: p in parentIds ==> Exists(g, p)
    ensures Linked(Attach(g, id, parentIds), root)
    ensures parentIds != [] ==> Stable(Attach(g, id, parentIds).nodes, root)
    ensures parentIds == [] ==> !Held(Attach(g, id, parentIds).nodes, g.next)
  {
    assert g.next !in g.nodes;
    AttachOwned(g, root, id, parentIds);
    AttachIndexed(g, root, id, parentIds);
    if parentIds != [] {
      AttachStable(g, root, id, parentIds);
    } else {
      AttachAlone(g, root, id);
    }
  }

  lemma AttachIndexed(g: Graph, root: Handle, id: Id, parentIds: seq<Id>)
    requires Linked(g, root) && !Exists(g, id)
    ensures IdsAgree(Attach(g, id, parentIds)) && Bounded(Attach(g, id, parentIds), root)
  {
    assert id !in g.ids;
    assert g.next !in g.nodes;
  }

  lemma AttachStable(g: Graph, root: Handle, id: Id, parentIds: seq<Id>)
    requires Valid(g, root) && parentIds != []
    requires forall p :: p in parentIds ==> Exists(g, p)
    ensures Stable(Attach(g, id, parentIds).nodes, root)
  {
    var r := Attach(g, id, parentIds);
    var hs := HandlesOf(g.ids, parentIds);
    forall h | h in r.nodes && h != root
      ensures Held(r.nodes, h)
    {
      if h == g.next {
        assert parentIds[0] in parentIds;
        var p := g.ids[parentIds[0]];
        assert p in hs && p in r.nodes && h in r.nodes[p].children;
      } else {
        assert Held(g.nodes, h);
        var p :| p in g.nodes && h in g.nodes[p].children;
        assert h in r.nodes[p].children;
      }
    }
  }

  /** A node created without parents is destroyed at once, and nothing else with it. */
  lemma LoneNodeReclaimed(g: Graph, root: Handle, id: Id, after: Graph, order: seq<Handle>)
    requires Valid(g, root) && !Exists(g, id)
    requires ReclaimOrder(Attach(g, id, []).nodes, after.nodes, root, order)
    requires Stable(after.nodes, root) && after.ids == Survivors(Attach(g, id, []).ids, after.nodes)
    ensures after.nodes == g.nodes && after.ids == g.ids
  {
    var a := Attach(g, id, []);
    AttachAlone(g, root, id);
    UnheldIsReclaimed(a.nodes, after.nodes, root, order, g.next);
    StableSupports(g, root, a.nodes);
    SupportedAreLive(a.nodes, after.nodes, root, order, g.nodes.Keys);
    LiveAgain(g.nodes, a.nodes, after.nodes, g.next, Node(id, {}, {}));
    SurvivorsDropNew(g, root, id, after.nodes);
  }

  lemma AttachAlone(g: Graph, root: Handle, id: Id)
    requires Linked(g, root)
    ensures Attach(g, id, []).nodes == g.nodes[g.next := Node(id, {}, {})]
    ensures Attach(g, id, []).ids == g.ids[id := g.next]
    ensures !Held(Attach(g, id, []).nodes, g.next)
  {
    assert HandlesOf(g.ids, []) == {};
    assert Attached(g.nodes, {}, g.next) == g.nodes;
    assert g.next !in g.nodes;
  }

  /** The live nodes of a stable graph support each other in any extension of the graph. */
  lemma StableSupports(g: Graph, root: Handle, nodes: map<Handle, Node>)
    requires Stable(g.nodes, root)
    requires forall q :: q in g.nodes ==> q in nodes && nodes[q] == g.nodes[q]
    ensures SelfSupporting(nodes, root, g.nodes.Keys)
  {
    forall q | q in g.nodes && q != root
      ensures exists p :: p in g.nodes.Keys && q in nodes[p].children
    {
      assert Held(g.nodes, q);
    }
  }

  lemma LiveAgain(prior: map<Handle, Node>, a: map<Handle, Node>, after: map<Handle, Node>, h: Handle, n: Node)
    requires h !in prior && a == prior[h := n]
    requires after.Keys <= a.Keys && (forall q :: q in after ==> after[q] == a[q])
    requires prior.Keys <= after.Keys && h !in after
    ensures after == prior
  {
  }

  lemma SurvivorsDropNew(g: Graph, root: Handle, id: Id, nodes: map<Handle, Node>)
    requires Linked(g, root) && !Exists(g, id) && nodes == g.nodes
    ensures Survivors(g.ids[id := g.next], nodes) == g.ids
  {
    assert g.next !in g.nodes;
    assert id !in g.ids;
  }

  /** A node created with parents is owned, so nothing is destroyed. */
  lemma AttachedKept(g: Graph, root: Handle, id: Id, parentIds: seq<Id>, after: Graph, order: seq<Handle>)
    requires Valid(g, root) && !Exists(g, id) && parentIds != []
    requires forall p :: p in parentIds ==> Exists(g, p)
    requires ReclaimOrder(Attach(g, id, parentIds).nodes, after.nodes, root, order)
    requires after.ids == Survivors(Attach(g, id, parentIds).ids, after.nodes)
    ensures after.nodes == Attach(g, id, parentIds).nodes && after.ids == Attach(g, id, parentIds).ids
  {
    AttachKeeps(g, root, id, parentIds);
    StableKept(Attach(g, id, parentIds).nodes, after.nodes, root, order);
    SurvivorsAll(Attach(g, id, parentIds), root);
  }

  lemma AttachOwned(g: Graph, root: Handle, id: Id, parentIds: seq<Id>)
    requires Linked(g, root) && g.next !in g.nodes
    requires forall p :: p in parentIds ==> Exists(g, p)
    ensures Owned(Attach(g, id, parentIds))
  {
    var r := Attach(g, id, parentIds);
    var hs := HandlesOf(g.ids, parentIds);
    forall h, c | h in r.nodes && c in r.nodes[h].children
      ensures c in r.nodes && h in r.nodes[c].parents
    {
      assert h != g.next;
      if c == g.next {
        assert h in hs;
      } else {
        assert c in g.nodes[h].children;
      }
    }
  }

  /** The live nodes minus every owning edge to h. */
  function Detached(nodes: map<Handle, Node>, h: Handle): (r: map<Handle, Node>)
    ensures r.Keys == nodes.Keys
    ensures forall q :: q in r ==> r[q] == nodes[q].(children := nodes[q].children - {h})
  {
    map q | q in nodes :: nodes[q].(children := nodes[q].children - {h})
  }

  /** The live nodes after the parents in ps give up their owning edge to h. */
  function DetachedFrom(nodes: map<Handle, Node>, h: Handle, ps: set<Handle>): (r: map<Handle, Node>)
    ensures r.Keys == nodes.Keys
    ensures forall q :: q in r ==> r[q] == if q in ps then nodes[q].(children := nodes[q].children - {h}) else nodes[q]
  {
    map q | q in nodes :: if q in ps then nodes[q].(children := nodes[q].children - {h}) else nodes[q]
  }

  /** Giving up the edges from the recorded parents gives up every owning edge to h. */
  lemma DetachedFromParents(g: Graph, h: Handle)
    requires Owned(g) && h in g.nodes
    ensures DetachedFrom(g.nodes, h, g.nodes[h].parents) == Detached(g.nodes, h)
  {
    var a, b := DetachedFrom(g.nodes, h, g.nodes[h].parents), Detached(g.nodes, h);
    forall q | q in a
      ensures a[q] == b[q]
    {
      if q !in g.nodes[h].parents {
        assert h !in g.nodes[q].children;
        assert g.nodes[q].children - {h} == g.nodes[q].children;
      }
    }
  }

  lemma DetachedFromOne(nodes: map<Handle, Node>, h: Handle, ps: set<Handle>, p: Handle)
    requires p in nodes
    ensures DetachedFrom(nodes, h, ps + {p}) ==
            DetachedFrom(nodes, h, ps)[p := nodes[p].(children := nodes[p].children - {h})]
  {
  }

  lemma DetachedFromMissing(nodes: map<Handle, Node>, h: Handle, ps: set<Handle>, p: Handle)
    requires p !in nodes
    ensures DetachedFrom(nodes, h, ps + {p}) == DetachedFrom(nodes, h, ps)
  {
  }

  lemma DetachKeeps(g: Graph, root: Handle, h: Handle)
    requires Linked(g, root)
    ensures Linked(g.(nodes := Detached(g.nodes, h)), root)
    ensures !Held(Detached(g.nodes, h), h)
  {
  }

  /** The destruction of an unowned node: its map entry is erased and it leaves the live set. */
  function Erase(g: Graph, h: Handle): (r: Graph)
    requires h in g.nodes
  {
    Graph(g.ids - {g.nodes[h].id}, g.nodes - {h}, g.next)
  }

  /** The entries of ids0 whose node is live. */
  function Survivors(ids0: map<Id, Handle>, nodes: map<Handle, Node>): map<Id, Handle>
  {
    map id | id in ids0 && ids0[id] in nodes :: ids0[id]
  }

  lemma EraseKeeps(g: Graph, root: Handle, h: Handle, ids0: map<Id, Handle>)
    requires Linked(g, root) && h in g.nodes && h != root && !Held(g.nodes, h)
    requires g.ids == Survivors(ids0, g.nodes)
    ensures Linked(Erase(g, h), root)
    ensures Erase(g, h).ids == Survivors(ids0, Erase(g, h).nodes)
  {
    var r := Erase(g, h);
    assert IdsAgree(r) by {
      forall q | q in r.nodes
        ensures r.nodes[q].id in r.ids && r.ids[r.nodes[q].id] == q
      {
        assert g.nodes[q].id != g.nodes[h].id;
      }
    }
  }

  /** In a linked graph every entry of the id map survives. */
  lemma SurvivorsAll(g: Graph, root: Handle)
    requires IdsAgree(g)
    ensures g.ids == Survivors(g.ids, g.nodes)
  {
  }

  /**
   * The state of a destructor cascade that started from g0: still linked, destroyed in order,
   * and the id map holding exactly the entries of live nodes.
   */
  ghost predicate Reclaiming(g0: Graph, g: Graph, root: Handle, order: seq<Handle>)
  {
    Linked(g, root) && g.next == g0.next && ReclaimOrder(g0.nodes, g.nodes, root, order) &&
    g.ids == Survivors(g0.ids, g.nodes)
  }

  lemma ReclaimStart(g0: Graph, root: Handle)
    requires Linked(g0, root)
    ensures Reclaiming(g0, g0, root, [])
  {
    SurvivorsAll(g0, root);
  }

  /** One destructor run keeps the cascade's invariant and shrinks the live set. */
  lemma ReclaimStep(g0: Graph, g: Graph, root: Handle, order: seq<Handle>, h: Handle)
    requires Reclaiming(g0, g, root, order)
    requires h in g.nodes && h != root && !Held(g.nodes, h)
    ensures Reclaiming(g0, Erase(g, h), root, order + [h])
    ensures |Erase(g, h).nodes| < |g.nodes|
  {
    EraseKeeps(g, root, h, g0.ids);
    OrderExtends(g0.nodes, g, root, order, h);
  }

  lemma ReclaimDone(g0: Graph, g: Graph, root: Handle, order: seq<Handle>)
    requires Reclaiming(g0, g, root, order)
    requires !exists h :: h in g.nodes && h != root && !Held(g.nodes, h)
    ensures Valid(g, root) && ReclaimOrder(g0.nodes, g.nodes, root, order)
    ensures g.next == g0.next && g.ids == Survivors(g0.ids, g.nodes)
  {
  }

  /** One more destruction extends a destruction order. */
  lemma OrderExtends(before: map<Handle, Node>, g: Graph, root: Handle, order: seq<Handle>, h: Handle)
    requires ReclaimOrder(before, g.nodes, root, order)
    requires h in g.nodes && h != root && !Held(g.nodes, h)
    ensures ReclaimOrder(before, Erase(g, h).nodes, root, order + [h])
  {
    var after := Erase(g, h).nodes;
    var o := order + [h];
    forall k, p | 0 <= k < |o| && p in before && o[k] in before[p].children
      ensures p in o[..k]
    {
      if k < |order| {
        assert o[..k] == order[..k];
      } else {
        assert o[..k] == order;
      }
    }
  }

  /** add_citation on live ids: the parent owns the child and the child records the parent. */
  function AddEdge(g: Graph, c: Handle, p: Handle): (r: Graph)
    requires c in g.nodes && p in g.nodes
  {
    var nodes := g.nodes[c := g.nodes[c].(parents := g.nodes[c].parents + {p})];
    g.(nodes := nodes[p := nodes[p].(children := nodes[p].children + {c})])
  }

  lemma AddEdgeKeeps(g: Graph, root: Handle, c: Handle, p: Handle)
    requires Valid(g, root) && c in g.nodes && p in g.nodes
    ensures Valid(AddEdge(g, c, p), root)
  {
    AddEdgeLinked(g, root, c, p);
    AddEdgeStable(g, root, c, p);
  }

  lemma AddEdgeLinked(g: Graph, root: Handle, c: Handle, p: Handle)
    requires Linked(g, root) && c in g.nodes && p in g.nodes
    ensures Linked(AddEdge(g, c, p), root)
  {
    var r := AddEdge(g, c, p);
    assert r.nodes.Keys == g.nodes.Keys;
    assert forall q :: q in r.nodes ==> r.nodes[q].id == g.nodes[q].id;
  }

  lemma AddEdgeStable(g: Graph, root: Handle, c: Handle, p: Handle)
    requires Stable(g.nodes, root) && c in g.nodes && p in g.nodes
    ensures Stable(AddEdge(g, c, p).nodes, root)
  {
    var r := AddEdge(g, c, p);
    forall h | h in r.nodes && h != root
      ensures Held(r.nodes, h)
    {
      assert Held(g.nodes, h);
      var q :| q in g.nodes && h in g.nodes[q].children;
      assert h in r.nodes[q].children;
    }
  }

  /** add_citation keeps its edges in sets, so repeating it changes nothing. */
  lemma AddEdgeIdempotent(g: Graph, c: Handle, p: Handle)
    requires c in g.nodes && p in g.nodes
    ensures AddEdge(AddEdge(g, c, p), c, p) == AddEdge(g, c, p)
  {
  }

  // ---------------------------------------------------------------------------------------
  // The graph

  class CitationGraph {
    const root: Handle
    var ids: map<Id, Handle>
    var nodes: map<Handle, Node>
    var next: Handle

    function Snapshot(): Graph
      reads this
    {
      Graph(ids, nodes, next)
    }

    /** CitationGraph(stem_id): the root alone. */
    constructor (stemId: Id)
      ensures Valid(Snapshot(), root)
      ensures root == 0 && Snapshot() == Graph(map[stemId := 0], map[0 := Node(stemId, {}, {})], 1)
    {
      root := 0;
      ids := map[stemId := 0];
      nodes := map[0 := Node(stemId, {}, {})];
      next := 1;
    }

    /** get_root_id */
    function RootId(): (id: Id)
      requires Valid(Snapshot(), root)
      reads this
      ensures Exists(Snapshot(), id) && ids[id] == root
    {
      nodes[root].id
    }

    /** operator[]: the publication of a live node, here its id. */
    function Publication(id: Id): (r: Result<Id, Failure>)
      requires Valid(Snapshot(), root)
      reads this
      ensures r.Err? <==> !Exists(Snapshot(), id)
      ensures r.Err? ==> r.error == PublicationNotFound
      ensures r.Ok? ==> r.value == id
    {
      if !Exists(Snapshot(), id) then Err(PublicationNotFound) else Ok(nodes[ids[id]].id)
    }

    /** get_children: the ids of the nodes that cite id. */
    function Children(id: Id): (r: Result<set<Id>, Failure>)
      requires Valid(Snapshot(), root)
      reads this
      ensures r.Err? <==> !Exists(Snapshot(), id)
      ensures r.Err? ==> r.error == PublicationNotFound
      ensures r.Ok? ==> forall c :: c in r.value <==> Exists(Snapshot(), c) && ids[c] in nodes[ids[id]].children
    {
      if !Exists(Snapshot(), id) then Err(PublicationNotFound)
      else Ok(set c | c in nodes[ids[id]].children :: nodes[c].id)
    }

    /** get_parents: the ids of the live nodes id cites; expired parents are left out. */
    function Parents(id: Id): (r: Result<set<Id>, Failure>)
      requires Valid(Snapshot(), root)
      reads this
      ensures r.Err? <==> !Exists(Snapshot(), id)
      ensures r.Err? ==> r.error == PublicationNotFound
      ensures r.Ok? ==> forall p :: p in r.value <==> Exists(Snapshot(), p) && ids[p] in nodes[ids[id]].parents
    {
      if !Exists(Snapshot(), id) then Err(PublicationNotFound)
      else Ok(set p | p in nodes[ids[id]].parents && p in nodes :: nodes[p].id)
    }

    /**
     * The destructor cascade: a node other than the root that no live node owns is destroyed,
     * its map entry erased and its children set released, until none is left. Survivors keep
     * everything they hold, including parent entries for the destroyed nodes.
     */
    method Reclaim() returns (ghost order: seq<Handle>)
      requires Linked(Snapshot(), root)
      modifies this
      ensures Valid(Snapshot(), root)
      ensures ReclaimOrder(old(nodes), nodes, root, order)
      ensures next == old(next)
      ensures ids == Survivors(old(ids), nodes)
    {
      order := [];
      var g := Snapshot();
      ReclaimStart(g, root);
      while exists h :: h in g.nodes && h != root && !Held(g.nodes, h)
        invariant Reclaiming(old(Snapshot()), g, root, order) && next == old(next)
        decreases |g.nodes|
      {
        var h :| h in g.nodes && h != root && !Held(g.nodes, h);
        ReclaimStep(old(Snapshot()), g, root, order, h);
        g := Erase(g, h);
        order := order + [h];
      }
      ReclaimDone(old(Snapshot()), g, root, order);
      ids, nodes := g.ids, g.nodes;
      assert Snapshot() == g;
    }

    /**
     * The body of create after its checks: the node is made with the parents, and each
     * parent in turn takes ownership of it.
     */
    method Insert(id: Id, parentIds: seq<Id>)
      requires forall p :: p in parentIds ==> Exists(Snapshot(), p)
      modifies this
      ensures Snapshot() == Attach(old(Snapshot()), id, parentIds)
    {
      ghost var g := Snapshot();
      var h := next;
      var parents: set<Handle> := {};
      for i := 0 to |parentIds|
        invariant ids == g.ids && nodes == g.nodes && next == g.next
        invariant parents == HandlesOf(g.ids, parentIds[..i])
      {
        assert parentIds[i] in parentIds;
        HandlesOfSnoc(g.ids, parentIds, i);
        parents := parents + {ids[parentIds[i]]};
      }
      assert parentIds[..|parentIds|] == parentIds;
      var added: set<Handle> := {};
      assert Attached(g.nodes, {}, h) == g.nodes;
      for i := 0 to |parentIds|
        invariant ids == g.ids && next == g.next
        invariant added == HandlesOf(g.ids, parentIds[..i])
        invariant nodes == Attached(g.nodes, added, h)
      {
        assert parentIds[i] in parentIds;
        var p := ids[parentIds[i]];
        HandlesOfSnoc(g.ids, parentIds, i);
        AttachedOne(g.nodes, added, h, p);
        nodes := nodes[p := nodes[p].(children := nodes[p].children + {h})];
        added := added + {p};
      }
      nodes := nodes[h := Node(id, {}, parents)];
      ids := ids[id := h];
      next := next + 1;
    }

    /**
     * create(id, parent_ids): throws PublicationAlreadyCreated for a live id, then
     * PublicationNotFound when a parent is missing, changing nothing. Otherwise the new node
     * records the parents (repeats collapse) and every parent owns it; with no parent it has
     * no owner and is destroyed on return, leaving the graph as it was but for the handle.
     */
    method Create(id: Id, parentIds: seq<Id>) returns (r: Result<(), Failure>)
      requires Valid(Snapshot(), root)
      modifies this
      ensures Valid(Snapshot(), root)
      ensures r == Err(PublicationAlreadyCreated) <==> old(Exists(Snapshot(), id))
      ensures r == Err(PublicationNotFound) <==>
                !old(Exists(Snapshot(), id)) && exists p :: p in parentIds && !old(Exists(Snapshot(), p))
      ensures r.Ok? <==> !old(Exists(Snapshot(), id)) && forall p :: p in parentIds ==> old(Exists(Snapshot(), p))
      ensures r.Err? ==> Snapshot() == old(Snapshot())
      ensures r.Ok? && parentIds == [] ==> ids == old(ids) && nodes == old(nodes) && next == old(next) + 1
      ensures r.Ok? && parentIds != [] ==> Snapshot() == Attach(old(Snapshot()), id, parentIds)
    {
      if Exists(Snapshot(), id) {
        return Err(PublicationAlreadyCreated);
      }
      for i := 0 to |parentIds|
        invariant forall j :: 0 <= j < i ==> Exists(Snapshot(), parentIds[j])
      {
        if !Exists(Snapshot(), parentIds[i]) {
          return Err(PublicationNotFound);
        }
      }
      ghost var g := Snapshot();
      assert forall p :: p in parentIds ==> Exists(g, p);
      AttachKeeps(g, root, id, parentIds);
      Insert(id, parentIds);
      ghost var order := Reclaim();
      if parentIds == [] {
        LoneNodeReclaimed(g, root, id, Snapshot(), order);
      } else {
        AttachedKept(g, root, id, parentIds, Snapshot(), order);
      }
      r := Ok(());
    }

    /** create(id, parent_id): create with the one parent. */
    method CreateWithParent(id: Id, parentId: Id) returns (r: Result<(), Failure>)
      requires Valid(Snapshot(), root)
      modifies this
      ensures Valid(Snapshot(), root)
      ensures r == Err(PublicationAlreadyCreated) <==> old(Exists(Snapshot(), id))
      ensures r == Err(PublicationNotFound) <==> !old(Exists(Snapshot(), id)) && !old(Exists(Snapshot(), parentId))
      ensures r.Ok? <==> !old(Exists(Snapshot(), id)) && old(Exists(Snapshot(), parentId))
      ensures r.Err? ==> Snapshot() == old(Snapshot())
      ensures r.Ok? ==> Snapshot() == Attach(old(Snapshot()), id, [parentId])
    {
      r := Create(id, [parentId]);
    }

    /**
     * add_citation(child_id, parent_id): throws PublicationNotFound unless both are live;
     * otherwise the parent owns the child and the child records the parent. Repeats change
     * nothing and no cycle is refused.
     */
    method AddCitation(childId: Id, parentId: Id) returns (r: Result<(), Failure>)
      requires Valid(Snapshot(), root)
      modifies this
      ensures Valid(Snapshot(), root)
      ensures r.Err? <==> !old(Exists(Snapshot(), childId)) || !old(Exists(Snapshot(), parentId))
      ensures r.Err? ==> r.error == PublicationNotFound && Snapshot() == old(Snapshot())
      ensures r.Ok? ==> Snapshot() == AddEdge(old(Snapshot()), old(ids)[childId], old(ids)[parentId])
    {
      if !Exists(Snapshot(), childId) || !Exists(Snapshot(), parentId) {
        return Err(PublicationNotFound);
      }
      var c := ids[childId];
      var p := ids[parentId];
      AddEdgeKeeps(Snapshot(), root, c, p);
      nodes := nodes[c := nodes[c].(parents := nodes[c].parents + {p})];
      nodes := nodes[p := nodes[p].(children := nodes[p].children + {c})];
      return Ok(());
    }

    /**
     * remove(id): throws PublicationNotFound for an id that is not live and TriedToRemoveRoot
     * for the root, changing nothing. Otherwise every live parent gives up its owning edge,
     * which leaves the node without an owner: it is destroyed, and with it whatever it alone
     * kept alive. An expired parent is passed over.
     */
    method Remove(id: Id) returns (r: Result<(), Failure>, ghost order: seq<Handle>)
      requires Valid(Snapshot(), root)
      modifies this
      ensures Valid(Snapshot(), root)
      ensures r == Err(PublicationNotFound) <==> !old(Exists(Snapshot(), id))
      ensures r == Err(TriedToRemoveRoot) <==> old(Exists(Snapshot(), id)) && old(ids)[id] == root
      ensures r.Ok? <==> old(Exists(Snapshot(), id)) && old(ids)[id] != root
      ensures r.Err? ==> Snapshot() == old(Snapshot())
      ensures r.Ok? ==> !Exists(Snapshot(), id) && ReclaimOrder(Detached(old(nodes), old(ids)[id]), nodes, root, order)
      ensures ids == Survivors(old(ids), nodes) && next == old(next)
    {
      SurvivorsAll(Snapshot(), root);
      if !Exists(Snapshot(), id) {
        return Err(PublicationNotFound), [];
      }
      if RootId() == id {
        return Err(TriedToRemoveRoot), [];
      }
      var h := ids[id];
      var parents := nodes[h].parents;
      var todo := parents;
      ghost var before := nodes;
      assert DetachedFrom(before, h, {}) == before;
      while todo != {}
        invariant ids == old(ids) && next == old(next)
        invariant todo <= parents && nodes == DetachedFrom(before, h, parents - todo)
        decreases todo
      {
        var p :| p in todo;
        assert parents - (todo - {p}) == (parents - todo) + {p};
        if p in nodes {
          DetachedFromOne(before, h, parents - todo, p);
          nodes := nodes[p := nodes[p].(children := nodes[p].children - {h})];
        } else {
          DetachedFromMissing(before, h, parents - todo, p);
        }
        todo := todo - {p};
      }
      assert parents - todo == parents;
      DetachedFromParents(old(Snapshot()), h);
      DetachKeeps(old(Snapshot()), root, h);
      order := Reclaim();
      UnheldIsReclaimed(Detached(before, h), nodes, root, order, h);
      r := Ok(());
    }
  }

  // ---------------------------------------------------------------------------------------
  // Removing a node with an expired parent

  /**
   * What remove(id) does as written when the node has an expired parent: it locks that
   * parent's weak reference and calls removeChild through the null pointer it yields.
   */
  ghost predicate RemoveDereferencesNull(g: Graph, id: Id)
  {
    Exists(g, id) && exists p :: p in g.nodes[g.ids[id]].parents && p !in g.nodes
  }

  /** The graph of stem id 0 with paper 1 citing it, and then paper 2 citing both. */
  function CitingOne(): Graph
  {
    Graph(map[0 := 0, 1 := 1], map[0 := Node(0, {1}, {}), 1 := Node(1, {}, {0})], 2)
  }

  function CitingBoth(): Graph
  {
    Graph(map[0 := 0, 1 := 1, 2 := 2],
          map[0 := Node(0, {1, 2}, {}), 1 := Node(1, {2}, {0}), 2 := Node(2, {}, {0, 1})], 3)
  }

  lemma CitingOneBuilt()
    ensures Attach(Graph(map[0 := 0], map[0 := Node(0, {}, {})], 1), 1, [0]) == CitingOne()
  {
    var g := Graph(map[0 := 0], map[0 := Node(0, {}, {})], 1);
    assert HandlesOf(g.ids, [0]) == {0} by {
      assert 0 in [0];
    }
    var a := Attached(g.nodes, {0}, 1);
    assert a.Keys == {0} && a[0] == Node(0, {1}, {});
    assert a == map[0 := Node(0, {1}, {})];
  }

  lemma CitingBothBuilt()
    ensures Attach(CitingOne(), 2, [0, 1]) == CitingBoth()
  {
    var g := CitingOne();
    assert HandlesOf(g.ids, [0, 1]) == {0, 1} by {
      assert 0 in [0, 1] && 1 in [0, 1];
    }
    var a := Attached(g.nodes, {0, 1}, 2);
    assert a.Keys == {0, 1} && a[0] == Node(0, {1, 2}, {}) && a[1] == Node(1, {2}, {0});
    assert a == map[0 := Node(0, {1, 2}, {}), 1 := Node(1, {2}, {0})];
  }

  /** Once paper 1 is destroyed, paper 2, still owned by the root, keeps 1 as a parent. */
  lemma ExpiredParentKept(ids: map<Id, Handle>, after: map<Handle, Node>, order: seq<Handle>)
    requires ReclaimOrder(Detached(CitingBoth().nodes, 1), after, 0, order)
    requires ids == Survivors(CitingBoth().ids, after) && !Exists(Graph(ids, after, 3), 1)
    ensures RemoveDereferencesNull(Graph(ids, after, 3), 2)
  {
    assert 1 !in after;
    var before := Detached(CitingBoth().nodes, 1);
    assert 2 in before[0].children;
    SupportedAreLive(before, after, 0, order, {0, 2});
    assert after[2] == before[2];
    assert 1 in after[2].parents;
  }

  /**
   * A paper citing the root and a second paper keeps an expired parent once the second paper
   * is removed; removing it as written then dereferences null.
   */
  method ExpiredParentScenario() returns (g: CitationGraph)
    ensures Valid(g.Snapshot(), g.root)
    ensures RemoveDereferencesNull(g.Snapshot(), 2)
  {
    g := CitingBothGraph();
    var r, order := g.Remove(1);
    assert r.Ok?;
    ExpiredParentKept(g.ids, g.nodes, order);
  }

  /** The graph of stem id 0 after create(1, [0]) and create(2, [0, 1]). */
  method CitingBothGraph() returns (g: CitationGraph)
    ensures fresh(g)
    ensures g.root == 0 && Valid(g.Snapshot(), g.root) && g.Snapshot() == CitingBoth()
  {
    g := CitingOneGraph();
    CitingBothBuilt();
    assert 0 in [0, 1] && 1 in [0, 1];
    var r := g.Create(2, [0, 1]);
    assert r.Ok?;
  }

  /** The graph of stem id 0 after create(1, [0]). */
  method CitingOneGraph() returns (g: CitationGraph)
    ensures fresh(g)
    ensures g.root == 0 && Valid(g.Snapshot(), g.root) && g.Snapshot() == CitingOne()
  {
    g := new CitationGraph(0);
    CitingOneBuilt();
    assert 0 in [0];
    var r := g.Create(1, [0]);
    assert r.Ok?;
  }
}
