/**
 * Reclamation of the nodes of 5_graf_cytowan. A node is owned through the children sets of
 * live nodes (shared_ptr) and the root is owned by the graph; the parents sets hold weak
 * references only. When a node loses its last owner it is destroyed, which releases its
 * children set, so destruction cascades.
 *
 * A node is named by a handle, which no later node reuses: a weak reference to a destroyed
 * node stays expired even after a node with the same publication id is created.
 */
module Ownership {

  type Handle = nat
  type Id = nat

  /** A live node: its publication id, the nodes it owns and the nodes it records as parents. */
  datatype Node = Node(id: Id, children: set<Handle>, parents: set<Handle>)

  /** Some live node owns h. */
  predicate Held(nodes: map<Handle, Node>, h: Handle)
  {
    exists p :: p in nodes && h in nodes[p].children
  }

  /**
   * S is self-supporting: every member other than the root is owned by a member. Reference
   * counting never frees such a set.
   */
  ghost predicate SelfSupporting(nodes: map<Handle, Node>, root: Handle, s: set<Handle>)
  {
    s <= nodes.Keys &&
    forall h :: h in s && h != root ==> exists p :: p in s && h in nodes[p].children
  }

  /** No live node but the root is without an owner: nothing more is due to be destroyed. */
  ghost predicate Stable(nodes: map<Handle, Node>, root: Handle)
  {
    forall h {:trigger Held(nodes, h)} :: h in nodes && h != root ==> Held(nodes, h)
  }

  /**
   * order lists, without repetition, the nodes of before that are gone in after, in an order
   * of destruction: every owner a node had in before was destroyed ahead of it. The root is
   * never destroyed, and the survivors keep what they held.
   */
  ghost predicate ReclaimOrder(before: map<Handle, Node>, after: map<Handle, Node>, root: Handle, order: seq<Handle>)
  {
    after.Keys <= before.Keys &&
    (forall h :: h in after ==> after[h] == before[h]) &&
    (forall k :: 0 <= k < |order| ==> order[k] in before && order[k] !in after && order[k] != root) &&
    (forall h :: h in before && h !in after ==> h in order) &&
    (forall j, k :: 0 <= j < k < |order| ==> order[j] != order[k]) &&
    (forall k, p :: 0 <= k < |order| && p in before && order[k] in before[p].children ==> p in order[..k])
  }

  /**
   * Destruction only frees what no self-supporting set keeps: a node of a self-supporting set
   * is never destroyed.
   */
  lemma {:induction false} SupportedSurvive(before: map<Handle, Node>, after: map<Handle, Node>, root: Handle,
                                            order: seq<Handle>, s: set<Handle>, k: nat)
    requires ReclaimOrder(before, after, root, order)
    requires SelfSupporting(before, root, s)
    requires k < |order|
    ensures order[k] !in s
    decreases k
  {
    if order[k] in s {
      var p :| p in s && order[k] in before[p].children;
      assert p in order[..k];
      var j :| 0 <= j < k && order[j] == p;
      SupportedSurvive(before, after, root, order, s, j);
    }
  }

  /** Corollary: after destruction, every node of a self-supporting set is still live. */
  lemma SupportedAreLive(before: map<Handle, Node>, after: map<Handle, Node>, root: Handle,
                         order: seq<Handle>, s: set<Handle>)
    requires ReclaimOrder(before, after, root, order)
    requires SelfSupporting(before, root, s)
    ensures s <= after.Keys
  {
    forall h | h in s
      ensures h in after
    {
      if h !in after {
        var k :| 0 <= k < |order| && order[k] == h;
        SupportedSurvive(before, after, root, order, s, k);
      }
    }
  }

  /** A node that had no owner before destruction and has none after it is gone. */
  lemma UnheldIsReclaimed(before: map<Handle, Node>, after: map<Handle, Node>, root: Handle,
                          order: seq<Handle>, h: Handle)
    requires ReclaimOrder(before, after, root, order) && Stable(after, root)
    requires h != root && !Held(before, h)
    ensures h !in after
  {
    assert h in after ==> Held(after, h);
  }

  /** Nothing is destroyed when nothing is due: a stable set of nodes is self-supporting. */
  lemma StableKept(before: map<Handle, Node>, after: map<Handle, Node>, root: Handle, order: seq<Handle>)
    requires ReclaimOrder(before, after, root, order) && Stable(before, root)
    ensures after == before
  {
    forall h | h in before.Keys && h != root
      ensures exists p :: p in before.Keys && h in before[p].children
    {
      assert Held(before, h);
    }
    SupportedAreLive(before, after, root, order, before.Keys);
  }

  /** A path of owning edges from the root through live nodes. */
  ghost predicate RootPath(nodes: map<Handle, Node>, root: Handle, path: seq<Handle>)
  {
    |path| > 0 && path[0] == root &&
    (forall i :: 0 <= i < |path| ==> path[i] in nodes) &&
    (forall i :: 0 < i < |path| ==> path[i] in nodes[path[i - 1]].children)
  }

  /** Destruction never frees a node reachable from the root. */
  lemma ReachableSurvive(before: map<Handle, Node>, after: map<Handle, Node>, root: Handle,
                         order: seq<Handle>, path: seq<Handle>)
    requires ReclaimOrder(before, after, root, order)
    requires RootPath(before, root, path)
    ensures forall i :: 0 <= i < |path| ==> path[i] in after
  {
    var s := set i | 0 <= i < |path| :: path[i];
    forall h | h in s && h != root
      ensures exists p :: p in s && h in before[p].children
    {
      var i :| 0 <= i < |path| && path[i] == h;
      assert path[i - 1] in s;
    }
    SupportedAreLive(before, after, root, order, s);
    forall i | 0 <= i < |path|
      ensures path[i] in after
    {
      assert path[i] in s;
    }
  }

  /**
   * Owning edges are not checked for cycles, so liveness is not reachability: two nodes that
   * own each other outlive every owner from the root.
   */
  lemma CyclesSurvive(before: map<Handle, Node>, after: map<Handle, Node>, root: Handle,
                      order: seq<Handle>, a: Handle, b: Handle)
    requires ReclaimOrder(before, after, root, order)
    requires a in before && b in before
    requires b in before[a].children && a in before[b].children
    ensures a in after && b in after
  {
    SupportedAreLive(before, after, root, order, {a, b});
  }
}
