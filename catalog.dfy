/**
 * The component library as a tree, and its flattening into the ordered list
 * of insertable components that both search surfaces search
 * (`collectLeafNodes`).
 */
module Catalog {

  /** A library node: a component (leaf) or a group of nodes. */
  datatype LibraryNode =
    | Leaf(name: string, translatedName: string, hidden: bool, unique: bool)
    | Group(name: string, translatedName: string, hidden: bool, children: seq<LibraryNode>)

  /** A collected component and the category shown beside it. */
  datatype Tagged = Tagged(node: LibraryNode, category: string)

  /**
   * What handing a component to the circuit leaves behind: the component
   * itself, or the error message naming it when its description cannot be read.
   */
  datatype Insertion = Inserted(node: LibraryNode) | LoadFailed(name: string)

  /**
   * `insertComponent` and `insertAndClose`: a group or a non-unique leaf is
   * ignored; a unique leaf is inserted when `describable` says its description
   * loads, and otherwise its name goes into an error message.
   */
  function Attempt(node: LibraryNode, describable: LibraryNode -> bool): seq<Insertion> {
    if !(node.Leaf? && node.unique) then []
    else if describable(node) then [Inserted(node)]
    else [LoadFailed(node.name)]
  }

  /** A node that the flattening keeps when it reaches it. */
  predicate Selectable(n: LibraryNode) {
    n.Leaf? && !n.hidden && n.unique
  }

  /**
   * The depth-first flattening: selectable leaves in catalog order, each
   * tagged with the translated name of the group that holds it.
   */
  function Flatten(node: LibraryNode, parentCategory: string): (r: seq<Tagged>)
    ensures forall t :: t in r ==> Selectable(t.node)
    decreases node
  {
    match node
    case Leaf(_, _, hidden, unique) =>
      if !hidden && unique then [Tagged(node, parentCategory)] else []
    case Group(_, myName, _, children) =>
      FlattenChildren(children, myName)
  }

  /** The children in order; hidden children are not descended into. */
  function FlattenChildren(children: seq<LibraryNode>, category: string): (r: seq<Tagged>)
    ensures forall t :: t in r ==> Selectable(t.node)
    decreases children
  {
    if children == [] then []
    else
      (if children[0].hidden then [] else Flatten(children[0], category))
      + FlattenChildren(children[1..], category)
  }

  /**
   * Reference description of the same set: `leaf` is reached from `node`
   * through visible groups only, and `category` is the name of the group
   * that holds it directly (`parentCategory` when `node` is the leaf).
   */
  ghost predicate Reaches(node: LibraryNode, parentCategory: string, leaf: LibraryNode, category: string)
    decreases node
  {
    match node
    case Leaf(_, _, _, _) => leaf == node && category == parentCategory
    case Group(_, myName, _, children) =>
      exists i :: 0 <= i < |children| && !children[i].hidden && Reaches(children[i], myName, leaf, category)
  }

  ghost predicate ReachesFromChildren(children: seq<LibraryNode>, category: string, leaf: LibraryNode, leafCategory: string) {
    exists i :: 0 <= i < |children| && !children[i].hidden && Reaches(children[i], category, leaf, leafCategory)
  }

  /**
   * A leaf is kept, with a given category, exactly when it is selectable and
   * reached through visible groups whose innermost one has that name.
   */
  lemma {:induction false} FlattenMembers(node: LibraryNode, parentCategory: string, leaf: LibraryNode, category: string)
    ensures Tagged(leaf, category) in Flatten(node, parentCategory)
        <==> Selectable(leaf) && Reaches(node, parentCategory, leaf, category)
    decreases node
  {
    match node
    case Leaf(_, _, _, _) =>
    case Group(_, myName, _, children) =>
      FlattenChildrenMembers(children, myName, leaf, category);
  }

  lemma {:induction false} FlattenChildrenMembers(children: seq<LibraryNode>, category: string, leaf: LibraryNode, leafCategory: string)
    ensures Tagged(leaf, leafCategory) in FlattenChildren(children, category)
        <==> Selectable(leaf) && ReachesFromChildren(children, category, leaf, leafCategory)
    decreases children
  {
    if children != [] {
      var t := Tagged(leaf, leafCategory);
      FlattenMembers(children[0], category, leaf, leafCategory);
      FlattenChildrenMembers(children[1..], category, leaf, leafCategory);
      if ReachesFromChildren(children, category, leaf, leafCategory) {
        var i :| 0 <= i < |children| && !children[i].hidden && Reaches(children[i], category, leaf, leafCategory);
        if i > 0 {
          assert children[1..][i - 1] == children[i];
        }
      }
      if ReachesFromChildren(children[1..], category, leaf, leafCategory) {
        var i :| 0 <= i < |children[1..]| && !children[1..][i].hidden && Reaches(children[1..][i], category, leaf, leafCategory);
        assert children[i + 1] == children[1..][i];
      }
    }
  }

  lemma {:induction false} FlattenChildrenAppend(a: seq<LibraryNode>, b: seq<LibraryNode>, category: string)
    ensures FlattenChildren(a + b, category) == FlattenChildren(a, category) + FlattenChildren(b, category)
  {
    if a == [] {
      assert a + b == b;
    } else {
      assert (a + b)[1..] == a[1..] + b;
      FlattenChildrenAppend(a[1..], b, category);
    }
  }

  lemma ChildrenPrefixStep(children: seq<LibraryNode>, i: nat, category: string)
    requires i < |children|
    ensures FlattenChildren(children[..i + 1], category)
         == FlattenChildren(children[..i], category)
            + (if children[i].hidden then [] else Flatten(children[i], category))
  {
    assert children[..i + 1] == children[..i] + [children[i]];
    FlattenChildrenAppend(children[..i], [children[i]], category);
    assert FlattenChildren([children[i]], category)
        == (if children[i].hidden then [] else Flatten(children[i], category)) + FlattenChildren([], category);
  }

  /** The components of a tagged list, in order. */
  function Nodes(ts: seq<Tagged>): seq<LibraryNode>
  {
    seq(|ts|, i requires 0 <= i < |ts| => ts[i].node)
  }

  lemma NodesAppend(a: seq<Tagged>, b: seq<Tagged>)
    ensures Nodes(a + b) == Nodes(a) + Nodes(b)
  {
  }

  /** `categories.put(node, category)` for each tagged component in turn. */
  function Record(m: map<LibraryNode, string>, ts: seq<Tagged>): map<LibraryNode, string>
    decreases |ts|
  {
    if ts == [] then m else Record(m[ts[0].node := ts[0].category], ts[1..])
  }

  lemma {:induction false} RecordAppend(m: map<LibraryNode, string>, a: seq<Tagged>, b: seq<Tagged>)
    ensures Record(m, a + b) == Record(Record(m, a), b)
    decreases |a|
  {
    if a == [] {
      assert a + b == b;
    } else {
      assert (a + b)[1..] == a[1..] + b;
      RecordAppend(m[a[0].node := a[0].category], a[1..], b);
    }
  }

  /**
   * When no component occurs twice, the category map sends every collected
   * component to its own category, and holds nothing else new.
   */
  lemma {:induction false} RecordLookup(m: map<LibraryNode, string>, ts: seq<Tagged>)
    requires forall i, j :: 0 <= i < j < |ts| ==> ts[i].node != ts[j].node
    ensures Record(m, ts).Keys == m.Keys + set t | t in ts :: t.node
    ensures forall t :: t in ts ==> Record(m, ts)[t.node] == t.category
    ensures forall n :: n in m && (forall t :: t in ts ==> t.node != n) ==> Record(m, ts)[n] == m[n]
    decreases |ts|
  {
    if ts != [] {
      var m', rest := m[ts[0].node := ts[0].category], ts[1..];
      DistinctTail(ts);
      RecordLookup(m', rest);
      assert Record(m, ts) == Record(m', rest);
      RecordConsFacts(m, Record(m', rest), ts);
    }
  }

  /** What a map that records the tail over the head's entry says about the whole list. */
  lemma RecordConsFacts(m: map<LibraryNode, string>, r: map<LibraryNode, string>, ts: seq<Tagged>)
    requires ts != []
    requires forall t :: t in ts[1..] ==> t.node != ts[0].node
    requires r.Keys == m[ts[0].node := ts[0].category].Keys + set t | t in ts[1..] :: t.node
    requires forall t :: t in ts[1..] ==> r[t.node] == t.category
    requires forall n :: n in m[ts[0].node := ts[0].category] && (forall t :: t in ts[1..] ==> t.node != n) ==> r[n] == m[ts[0].node := ts[0].category][n]
    ensures r.Keys == m.Keys + set t | t in ts :: t.node
    ensures forall t :: t in ts ==> r[t.node] == t.category
    ensures forall n :: n in m && (forall t :: t in ts ==> t.node != n) ==> r[n] == m[n]
  {
    var m', rest := m[ts[0].node := ts[0].category], ts[1..];
    NodeSetCons(ts);
    assert ts[0].node in m' && forall t :: t in rest ==> t.node != ts[0].node;
    forall t | t in ts ensures r[t.node] == t.category {
      if t !in rest {
        assert t == ts[0];
      }
    }
    forall n | n in m && (forall t :: t in ts ==> t.node != n) ensures r[n] == m[n] {
      assert ts[0] in ts;
      assert forall t :: t in rest ==> t in ts;
    }
  }

  /** The tail of a list of distinct components is distinct and misses the head. */
  lemma DistinctTail(ts: seq<Tagged>)
    requires ts != []
    requires forall i, j :: 0 <= i < j < |ts| ==> ts[i].node != ts[j].node
    ensures forall i, j :: 0 <= i < j < |ts[1..]| ==> ts[1..][i].node != ts[1..][j].node
    ensures forall t :: t in ts[1..] ==> t.node != ts[0].node
  {
    var rest := ts[1..];
    forall i, j | 0 <= i < j < |rest| ensures rest[i].node != rest[j].node {
      assert rest[i] == ts[i + 1] && rest[j] == ts[j + 1];
    }
    forall t | t in rest ensures t.node != ts[0].node {
      var j :| 0 <= j < |rest| && rest[j] == t;
      assert ts[j + 1] == t;
    }
  }

  lemma NodeSetCons(ts: seq<Tagged>)
    requires ts != []
    ensures (set t | t in ts :: t.node) == {ts[0].node} + set t | t in ts[1..] :: t.node
  {
    forall t | t in ts ensures t == ts[0] || t in ts[1..] {
      var j :| 0 <= j < |ts| && ts[j] == t;
      if j > 0 {
        assert ts[1..][j - 1] == t;
      }
    }
  }

  /**
   * `collectLeafNodes`: appends the selectable leaves under `node` to
   * `result` and records each one's category, returning both.
   */
  method CollectLeafNodes(node: LibraryNode, result: seq<LibraryNode>, categories: map<LibraryNode, string>,
                          parentCategory: string)
    returns (result': seq<LibraryNode>, categories': map<LibraryNode, string>)
    ensures result' == result + Nodes(Flatten(node, parentCategory))
    ensures categories' == Record(categories, Flatten(node, parentCategory))
    decreases node, 1
  {
    if node.Leaf? {
      if !node.hidden && node.unique {
        result' := result + [node];
        categories' := categories[node := parentCategory];
        assert Record(categories', []) == categories';
      } else {
        result', categories' := result, categories;
      }
    } else {
      result', categories' := CollectChildren(node.children, result, categories, node.translatedName);
    }
  }

  /** The flattening of one child more extends the flattening of the prefix. */
  lemma PrefixStep(children: seq<LibraryNode>, i: nat, myName: string, done: seq<Tagged>, added: seq<Tagged>)
    requires i < |children|
    requires done == FlattenChildren(children[..i], myName)
    requires added == if children[i].hidden then [] else Flatten(children[i], myName)
    ensures done + added == FlattenChildren(children[..i + 1], myName)
  {
    ChildrenPrefixStep(children, i, myName);
  }

  /** Appending a part's nodes after the nodes collected so far. */
  lemma NodesStep(result: seq<LibraryNode>, done: seq<Tagged>, added: seq<Tagged>, r0: seq<LibraryNode>, r1: seq<LibraryNode>)
    requires r0 == result + Nodes(done) && r1 == r0 + Nodes(added)
    ensures r1 == result + Nodes(done + added)
  {
    NodesAppend(done, added);
  }

  /** Recording a part's categories after those recorded so far. */
  lemma RecordStep(categories: map<LibraryNode, string>, done: seq<Tagged>, added: seq<Tagged>,
                   c0: map<LibraryNode, string>, c1: map<LibraryNode, string>)
    requires c0 == Record(categories, done) && c1 == Record(c0, added)
    ensures c1 == Record(categories, done + added)
  {
    RecordAppend(categories, done, added);
  }

  /** The loop of `collectLeafNodes` over the children of a group named `myName`. */
  method CollectChildren(children: seq<LibraryNode>, result: seq<LibraryNode>, categories: map<LibraryNode, string>,
                         myName: string)
    returns (result': seq<LibraryNode>, categories': map<LibraryNode, string>)
    ensures result' == result + Nodes(FlattenChildren(children, myName))
    ensures categories' == Record(categories, FlattenChildren(children, myName))
    decreases children, 0
  {
    result', categories' := result, categories;
    ghost var done: seq<Tagged> := [];
    var i := 0;
    while i < |children|
      invariant 0 <= i <= |children|
      invariant done == FlattenChildren(children[..i], myName)
      invariant result' == result + Nodes(done)
      invariant categories' == Record(categories, done)
    {
      var child := children[i];
      ghost var added := if child.hidden then [] else Flatten(child, myName);
      ghost var r0, c0 := result', categories';
      if !child.hidden {
        result', categories' := CollectLeafNodes(child, result', categories', myName);
      } else {
        assert r0 + Nodes(added) == r0;
      }
      PrefixStep(children, i, myName, done, added);
      NodesStep(result, done, added, r0, result');
      RecordStep(categories, done, added, c0, categories');
      done := done + added;
      i := i + 1;
    }
    assert children[..i] == children;
  }
}
