/** The remote tree mirror as objects: a category entry owns an ordered list
    of document nodes, and each node owns an ordered list of child nodes.
    Find, remove and add work on these objects in place, as the helpers
    exercised by sync/util.test.ts do; each is proved against the
    value-level definitions of module MirrorSpec through the ghost field
    `model`.  Ownership is tracked by `repr` sets that are disjoint between
    siblings, so no node is reachable from two places. */
module Mirror {
  import opened Base
  import opened MirrorSpec

  /** A document summary: a slug and the list of child documents. */
  class DocNode {
    const slug: string
    var children: seq<DocNode>
    /** This node and every node below it. */
    ghost var repr: set<object>
    ghost var model: DocTree

    ghost predicate Valid()
      reads this, repr
      decreases repr, 0
    {
      this in repr && model.slug == slug && ListOk(children, repr - {this}, model.children)
    }

    /** A node with no children. */
    constructor Leaf(s: string)
      ensures Valid() && repr == {this}
      ensures slug == s && children == [] && model == DocTree(s, [])
    {
      slug, children := s, [];
      repr, model := {this}, DocTree(s, []);
    }
  }

  /** `nodes` is a list of valid nodes standing for the values `ms`, and
      owning pairwise-disjoint parts of `r`: the first node owns part of
      `r`, and the rest of the list owns part of what is left. */
  ghost predicate ListOk(nodes: seq<DocNode>, r: set<object>, ms: seq<DocTree>)
    reads r
    decreases r, |nodes| + 1
  {
    if nodes == [] then ms == []
    else
      ms != [] && nodes[0] in r && nodes[0].repr <= r && nodes[0].Valid() && nodes[0].model == ms[0]
      && ListOk(nodes[1..], r - nodes[0].repr, ms[1..])
  }

  /** Every node of an owning list is one of the owned objects, and the
      list stands for the values of its nodes. */
  lemma {:induction false} ListOkMembers(nodes: seq<DocNode>, r: set<object>, ms: seq<DocTree>)
    requires ListOk(nodes, r, ms)
    ensures |ms| == |nodes|
    ensures forall i :: 0 <= i < |nodes| ==>
      nodes[i] in r && nodes[i].repr <= r && nodes[i].Valid() && nodes[i].model == ms[i]
    decreases |nodes|
  {
    if nodes != [] {
      ListOkMembers(nodes[1..], r - nodes[0].repr, ms[1..]);
    }
  }

  /** Appending a valid node that owns objects outside `r`. */
  lemma {:induction false} ListOkSnoc(nodes: seq<DocNode>, r: set<object>, ms: seq<DocTree>, n: DocNode)
    requires ListOk(nodes, r, ms) && n.Valid() && n.repr !! r
    ensures ListOk(nodes + [n], r + n.repr, ms + [n.model])
    decreases |nodes|
  {
    if nodes == [] {
      assert nodes + [n] == [n];
      assert ms + [n.model] == [n.model];
    } else {
      ListOkSnoc(nodes[1..], r - nodes[0].repr, ms[1..], n);
      assert (nodes + [n])[1..] == nodes[1..] + [n];
      assert (ms + [n.model])[1..] == ms[1..] + [n.model];
      assert (r - nodes[0].repr) + n.repr == (r + n.repr) - nodes[0].repr;
    }
  }

  /** Splicing the node at `i` out of a list releases exactly its objects. */
  lemma {:induction false} ListOkSplice(nodes: seq<DocNode>, r: set<object>, ms: seq<DocTree>, i: nat)
    requires ListOk(nodes, r, ms) && i < |nodes|
    ensures |ms| == |nodes|
    ensures nodes[i].repr <= r && nodes[i].Valid() && nodes[i].model == ms[i]
    ensures ListOk(nodes[..i] + nodes[i + 1..], r - nodes[i].repr, ms[..i] + ms[i + 1..])
    decreases |nodes|
  {
    var head, tail, mtail := nodes[0], nodes[1..], ms[1..];
    var rest := r - head.repr;
    if i > 0 {
      ListOkSplice(tail, rest, mtail, i - 1);
      var n := nodes[i];
      assert n == tail[i - 1] && ms[i] == mtail[i - 1];
      var spliced, mspliced := nodes[..i] + nodes[i + 1..], ms[..i] + ms[i + 1..];
      assert spliced[0] == head && spliced[1..] == tail[..i - 1] + tail[i..];
      assert mspliced[0] == ms[0] && mspliced[1..] == mtail[..i - 1] + mtail[i..];
      assert head in head.repr && n.repr <= rest;
      assert (r - n.repr) - head.repr == rest - n.repr;
    } else {
      assert |ms| == |nodes| by {
        ListOkMembers(nodes, r, ms);
      }
      assert nodes[..0] + nodes[1..] == tail;
      assert ms[..0] + ms[1..] == mtail;
    }
  }

  /** The category entry of the remote tree: its top-level documents. */
  class RemoteTreeEntry {
    var docs: seq<DocNode>
    ghost var repr: set<object>
    ghost var model: seq<DocTree>

    ghost predicate Valid()
      reads this, repr
    {
      this in repr && ListOk(docs, repr - {this}, model)
    }

    /** An entry with no documents yet. */
    constructor ()
      ensures Valid() && fresh(repr) && docs == [] && model == []
    {
      docs := [];
      repr, model := {this}, [];
    }
  }

  // ---------------------------------------------------------------------
  // findSlugInCategory

  /** Pre-order search of a list: its first node, then that node's
      children, then the rest of the list. */
  method FindIn(nodes: seq<DocNode>, ghost r: set<object>, ghost ms: seq<DocTree>, s: string)
      returns (found: DocNode?)
    requires ListOk(nodes, r, ms)
    ensures found == null <==> Find(ms, s).None?
    ensures found != null ==> found in r && found.Valid() && Find(ms, s) == Some(found.model)
    decreases r, |nodes|
  {
    if nodes == [] {
      return null;
    }
    var head := nodes[0];
    if head.slug == s {
      return head;
    }
    found := FindIn(head.children, head.repr - {head}, head.model.children, s);
    if found == null {
      found := FindIn(nodes[1..], r - head.repr, ms[1..], s);
    }
  }

  /** `findSlugInCategory`: the first node, in pre-order, whose slug is `s`,
      or null.  The node returned is the tree's own object. */
  method FindSlugInCategory(tree: RemoteTreeEntry, s: string) returns (found: DocNode?)
    requires tree.Valid()
    ensures found == null <==> s !in Slugs(tree.model)
    ensures found != null ==> found in tree.repr && found.Valid() && found.slug == s
    ensures found != null ==> Find(tree.model, s) == Some(found.model)
  {
    found := FindIn(tree.docs, tree.repr - {tree}, tree.model, s);
  }

  // ---------------------------------------------------------------------
  // removeSlugFromTree

  /** Remove the first node with slug `s` from the list: a node of the list
      itself is spliced out of it; otherwise the search goes on below the
      list, which is then returned as it was. */
  method RemoveIn(nodes: seq<DocNode>, ghost r: set<object>, ghost ms: seq<DocTree>, s: string)
      returns (rest: seq<DocNode>, removed: DocNode?)
    requires ListOk(nodes, r, ms)
    modifies r
    ensures removed == null <==> Remove(ms, s).removed.None?
    ensures removed == null ==> rest == nodes && unchanged(r)
    ensures removed != null ==>
      (removed in r && removed.repr <= r && removed.Valid()
       && Remove(ms, s).removed == Some(removed.model))
    ensures ListOk(rest, if removed == null then r else r - removed.repr, Remove(ms, s).docs)
    ensures forall n :: n in rest ==> n in nodes
    decreases r, |nodes| + 2
  {
    ListOkMembers(nodes, r, ms);
    var i := 0;
    while i < |nodes| && nodes[i].slug != s
      invariant 0 <= i <= |nodes|
      invariant forall j :: 0 <= j < i ==> ms[j].slug != s
    {
      i := i + 1;
    }
    if i < |nodes| {
      ListOkSplice(nodes, r, ms, i);
      assert IndexOfSlug(ms, s) == i;
      rest, removed := nodes[..i] + nodes[i + 1..], nodes[i];
    } else {
      assert IndexOfSlug(ms, s) == |nodes|;
      removed := RemoveBelowIn(nodes, r, ms, s);
      rest := nodes;
    }
  }

  /** The search below a list: each node's children in turn.  Only the
      node holding the removed node changes, in place. */
  method RemoveBelowIn(nodes: seq<DocNode>, ghost r: set<object>, ghost ms: seq<DocTree>, s: string)
      returns (removed: DocNode?)
    requires ListOk(nodes, r, ms)
    modifies r
    ensures removed == null <==> RemoveBelow(ms, s).removed.None?
    ensures removed == null ==> unchanged(r)
    ensures removed != null ==>
      (removed in r && removed.repr <= r && removed.Valid()
       && RemoveBelow(ms, s).removed == Some(removed.model))
    ensures ListOk(nodes, if removed == null then r else r - removed.repr, RemoveBelow(ms, s).docs)
    decreases r, |nodes| + 1
  {
    if nodes == [] {
      return null;
    }
    var head := nodes[0];
    ghost var tailR := r - head.repr;
    removed := DetachBelow(head, s);
    if removed != null {
      assert ListOk(nodes[1..], tailR, ms[1..]);
      assert (r - removed.repr) - head.repr == tailR;
      return;
    }
    removed := RemoveBelowIn(nodes[1..], tailR, ms[1..], s);
    if removed != null {
      assert (r - removed.repr) - head.repr == tailR - removed.repr;
    }
  }

  /** Remove the first node with slug `s` from below `n` (not `n` itself),
      splicing it out of the children list that holds it; `n` gives up the
      removed node's objects. */
  method DetachBelow(n: DocNode, s: string) returns (removed: DocNode?)
    requires n.Valid()
    modifies n.repr
    ensures n.Valid()
    ensures removed == null <==> Remove(old(n.model).children, s).removed.None?
    ensures removed == null ==> unchanged(old(n.repr))
    ensures removed != null ==>
      (removed in old(n.repr) && removed.repr <= old(n.repr) && removed.Valid()
       && Remove(old(n.model).children, s).removed == Some(removed.model)
       && n.repr == old(n.repr) - removed.repr)
    ensures n.model == DocTree(n.slug, Remove(old(n.model).children, s).docs)
    decreases n.repr, 0
  {
    var sub;
    ghost var m := Remove(n.model.children, s);
    RemoveFindsSlug(n.model.children, s);
    sub, removed := RemoveIn(n.children, n.repr - {n}, n.model.children, s);
    if removed != null {
      ghost var kept := (n.repr - {n}) - removed.repr;
      assert ListOk(sub, kept, m.docs);
      assert (n.repr - removed.repr) - {n} == kept;
      label pre:
      n.children, n.model, n.repr := sub, DocTree(n.slug, m.docs), n.repr - removed.repr;
      assert forall o :: o in kept ==> unchanged@pre(o);
      assert ListOk(sub, kept, m.docs);
    }
  }

  /** `removeSlugFromTree`: detach the first node with slug `s` and return
      it, or return null and change nothing.  The node returned is the
      tree's own object, still holding its children, and no longer owned by
      the tree. */
  method RemoveSlugFromTree(tree: RemoteTreeEntry, s: string) returns (removed: DocNode?)
    requires tree.Valid()
    modifies tree, tree.repr
    ensures tree.Valid()
    ensures removed == null <==> s !in Slugs(old(tree.model))
    ensures tree.model == Remove(old(tree.model), s).docs
    ensures removed == null ==> tree.docs == old(tree.docs) && unchanged(old(tree.repr))
    ensures removed != null ==>
      (removed in old(tree.repr) && removed.Valid() && removed.repr !! tree.repr
       && Remove(old(tree.model), s).removed == Some(removed.model))
    ensures tree.repr <= old(tree.repr)
  {
    var rest;
    RemoveFindsSlug(tree.model, s);
    ghost var m := Remove(tree.model, s);
    rest, removed := RemoveIn(tree.docs, tree.repr - {tree}, tree.model, s);
    if removed != null {
      assert (tree.repr - removed.repr) - {tree} == (tree.repr - {tree}) - removed.repr;
      tree.docs, tree.repr, tree.model := rest, tree.repr - removed.repr, m.docs;
    }
  }

  // ---------------------------------------------------------------------
  // addDocUnderSlug

  /** `children.push(n)`: `q` takes `n` as its last child, and its
      objects with it. */
  method AppendChild(q: DocNode, n: DocNode)
    requires q.Valid() && n.Valid() && q.repr !! n.repr
    modifies q
    ensures q.Valid()
    ensures q.children == old(q.children) + [n]
    ensures q.repr == old(q.repr) + n.repr
    ensures q.model == DocTree(q.slug, old(q.model).children + [n.model])
  {
    ghost var kids := q.model.children;
    ListOkSnoc(q.children, q.repr - {q}, kids, n);
    ghost var below := (q.repr - {q}) + n.repr;
    label pre:
    q.children, q.model, q.repr := q.children + [n], DocTree(q.slug, kids + [n.model]), q.repr + n.repr;
    assert forall o :: o in below ==> unchanged@pre(o);
    assert q.repr - {q} == below;
  }

  /** Append `n` to the children of the first node, in pre-order, whose
      slug is `p`, and return that node; every node on the way down takes
      ownership of `n`'s objects.  Null, and nothing changed, when no node
      has the slug. */
  method AddUnderIn(nodes: seq<DocNode>, ghost r: set<object>, ghost ms: seq<DocTree>, p: string, n: DocNode)
      returns (parent: DocNode?)
    requires ListOk(nodes, r, ms) && n.Valid() && n.repr !! r
    modifies r
    ensures parent == null <==> p !in Slugs(ms)
    ensures parent == null ==> unchanged(r)
    ensures parent != null ==>
      (parent in r && parent.slug == p && parent.children == old(parent.children) + [n]
       && ListOk(nodes, r + n.repr, AppendUnder(ms, p, n.model)))
    decreases r, |nodes| + 1
  {
    if nodes == [] {
      return null;
    }
    var head := nodes[0];
    ghost var tailR := r - head.repr;
    assert Slugs(ms) == [ms[0].slug] + Slugs(head.model.children) + Slugs(ms[1..]);
    if head.slug == p {
      AppendChild(head, n);
      parent := head;
    } else {
      parent := AddBelow(head, p, n);
      if parent == null {
        parent := AddUnderIn(nodes[1..], tailR, ms[1..], p, n);
        if parent != null {
          assert (r + n.repr) - head.repr == tailR + n.repr;
        }
        return;
      }
    }
    assert ListOk(nodes[1..], tailR, ms[1..]);
    assert (r + n.repr) - head.repr == tailR;
  }

  /** The search below `q` (not `q` itself): `q` takes ownership of `n`'s
      objects when `n` is placed somewhere below it. */
  method AddBelow(q: DocNode, p: string, n: DocNode) returns (parent: DocNode?)
    requires q.Valid() && n.Valid() && n.repr !! q.repr
    modifies q.repr
    ensures parent == null <==> p !in Slugs(old(q.model).children)
    ensures parent == null ==> unchanged(old(q.repr))
    ensures parent != null ==>
      (parent in old(q.repr) && parent.slug == p && parent.children == old(parent.children) + [n]
       && q.Valid() && q.repr == old(q.repr) + n.repr
       && q.model == DocTree(q.slug, AppendUnder(old(q.model).children, p, n.model)))
    decreases q.repr, 0
  {
    ghost var kids := q.model.children;
    parent := AddUnderIn(q.children, q.repr - {q}, kids, p, n);
    if parent != null {
      ghost var below := (q.repr - {q}) + n.repr;
      label pre:
      q.model, q.repr := DocTree(q.slug, AppendUnder(kids, p, n.model)), q.repr + n.repr;
      assert forall o :: o in below ==> unchanged@pre(o);
      assert q.repr - {q} == below;
    }
  }

  /** `addDocUnderSlug`: with no parent slug, append `n` to the top-level
      list; otherwise append it to the children of the node that
      `findSlugInCategory` returns for the slug.  False, and nothing
      changed, when no node has that slug.  The tree takes ownership of
      `n`, which must not already belong to it. */
  method AddDocUnderSlug(tree: RemoteTreeEntry, n: DocNode, parent: Option<string>) returns (added: bool)
    requires tree.Valid() && n.Valid() && n.repr !! tree.repr
    modifies tree, tree.repr
    ensures tree.Valid()
    ensures added == Add(old(tree.model), n.model, parent).added
    ensures tree.model == Add(old(tree.model), n.model, parent).docs
    ensures tree.repr == if added then old(tree.repr) + n.repr else old(tree.repr)
    ensures !added ==> unchanged(old(tree.repr))
    ensures parent.None? ==> tree.docs == old(tree.docs) + [n]
    ensures parent.Some? && added ==>
      tree.docs == old(tree.docs)
      && exists q: DocNode :: q in old(tree.repr) && q.slug == parent.value && q.children == old(q.children) + [n]
  {
    match parent {
      case None =>
        ListOkSnoc(tree.docs, tree.repr - {tree}, tree.model, n);
        assert (tree.repr - {tree}) + n.repr == (tree.repr + n.repr) - {tree};
        tree.docs, tree.repr, tree.model := tree.docs + [n], tree.repr + n.repr, tree.model + [n.model];
        added := true;
      case Some(p) =>
        ghost var m := tree.model;
        var q := AddUnderIn(tree.docs, tree.repr - {tree}, tree.model, p, n);
        added := q != null;
        if added {
          assert (tree.repr - {tree}) + n.repr == (tree.repr + n.repr) - {tree};
          tree.repr, tree.model := tree.repr + n.repr, AppendUnder(m, p, n.model);
        }
    }
  }
}
