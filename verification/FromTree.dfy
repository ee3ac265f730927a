/**
  FROM trees by position.  A path names a node by child numbers from the root; what the walk over
  a tree collects is stated against paths alone.
 */
module FromTree {
  import opened Text
  import opened HyriseParser

  type Path = seq<nat>

  /** A join has its left side as child 0 and its right side as child 1; a cross product has its list. */
  function Child(ref: Option<TableRef>, i: nat): Option<TableRef> {
    match ref
    case Some(JoinRef(Some(JoinDefinition(left, right)))) => if i == 0 then left else if i == 1 then right else None
    case Some(CrossProductRef(Listed(list))) => if i < |list| then list[i] else None
    case _ => None
  }

  function NodeAt(ref: Option<TableRef>, path: Path): Option<TableRef>
    decreases |path|
  {
    if path == [] then ref else NodeAt(Child(ref, path[0]), path[1..])
  }

  /** The table or subquery a path ends in; null names read as empty ones. */
  function LeafAt(ref: Option<TableRef>, path: Path): Option<Leaf> {
    match NodeAt(ref, path)
    case Some(NameRef(schema, name, alias)) =>
      Some(Named(if schema.Some? then schema.value else "", if name.Some? then name.value else "", alias))
    case Some(SubqueryRef) => Some(Subquery)
    case _ => None
  }

  ghost predicate Occurs(ref: Option<TableRef>, leaf: Leaf) {
    exists path :: LeafAt(ref, path) == Some(leaf)
  }

  /** p leaves q for a smaller child number. */
  ghost predicate LeftOf(p: Path, q: Path) {
    exists k :: 0 <= k < |p| && k < |q| && p[..k] == q[..k] && p[k] < q[k]
  }

  /** Every path to a leaf, from left to right, with the leaf it ends in. */
  ghost predicate Enumerates(at: Path -> Option<Leaf>, leaves: seq<Leaf>, paths: seq<Path>) {
    && |paths| == |leaves|
    && (forall i :: 0 <= i < |paths| ==> at(paths[i]) == Some(leaves[i]))
    && (forall i, j :: 0 <= i < j < |paths| ==> LeftOf(paths[i], paths[j]))
    && (forall p :: at(p).Some? ==> p in paths)
  }

  /** The leaf a path ends in whose first step picks one of several trees. */
  function LeafBelow(kids: seq<Option<TableRef>>, path: Path): Option<Leaf> {
    if path == [] || path[0] >= |kids| then None else LeafAt(kids[path[0]], path[1..])
  }

  function Prefixed(i: nat, paths: seq<Path>): (r: seq<Path>)
    ensures |r| == |paths|
  {
    seq(|paths|, k requires 0 <= k < |paths| => [i] + paths[k])
  }

  lemma PrefixedLeftOf(i: nat, p: Path, q: Path)
    requires LeftOf(p, q)
    ensures LeftOf([i] + p, [i] + q)
  {
    var k :| 0 <= k < |p| && k < |q| && p[..k] == q[..k] && p[k] < q[k];
    assert ([i] + p)[..k + 1] == [i] + p[..k] && ([i] + q)[..k + 1] == [i] + q[..k];
    assert ([i] + p)[k + 1] < ([i] + q)[k + 1];
  }

  lemma NextTree(kids: seq<Option<TableRef>>, leaves: seq<Leaf>, paths: seq<Path>,
                 ref: Option<TableRef>, more: seq<Leaf>, below: seq<Path>)
    requires Enumerates(p => LeafBelow(kids, p), leaves, paths)
    requires Enumerates(p => LeafAt(ref, p), more, below)
    ensures Enumerates(p => LeafBelow(kids + [ref], p), leaves + more, paths + Prefixed(|kids|, below))
  {
    hide LeafAt, LeftOf;
    var n, all := |kids|, paths + Prefixed(|kids|, below);
    forall i | 0 <= i < |all| ensures LeafBelow(kids + [ref], all[i]) == Some((leaves + more)[i]) {
      if i < |paths| {
        assert LeafBelow(kids, paths[i]) == Some(leaves[i]);
      } else {
        assert all[i][1..] == below[i - |paths|];
      }
    }
    forall i, j | 0 <= i < j < |all| ensures LeftOf(all[i], all[j]) {
      if |paths| <= i {
        PrefixedLeftOf(n, below[i - |paths|], below[j - |paths|]);
      } else if |paths| <= j {
        assert LeafBelow(kids, paths[i]) == Some(leaves[i]);
        EarlierTree(all[i], all[j]);
      }
    }
    forall p | LeafBelow(kids + [ref], p).Some? ensures p in all {
      if p[0] < n {
        assert LeafBelow(kids, p).Some?;
      } else {
        assert p[1..] in below;
        var k :| 0 <= k < |below| && below[k] == p[1..];
        assert p == [n] + below[k];
        assert all[|paths| + k] == p;
      }
    }
  }

  lemma EarlierTree(p: Path, q: Path)
    requires p != [] && q != [] && p[0] < q[0]
    ensures LeftOf(p, q)
  {
    assert p[..0] == q[..0];
  }

  lemma NoTree()
    ensures Enumerates(p => LeafBelow([], p), [], [])
  {
  }

  lemma {:induction false} LeavesOfAllInOrder(list: seq<Option<TableRef>>) returns (paths: seq<Path>)
    ensures Enumerates(p => LeafBelow(list, p), LeavesOfAll(list), paths)
    decreases list
  {
    if list == [] {
      NoTree();
      paths := [];
    } else {
      var front, last := list[..|list| - 1], list[|list| - 1];
      var before := LeavesOfAllInOrder(front);
      var below := LeavesInOrder(last);
      NextTree(front, LeavesOfAll(front), before, last, Leaves(last), below);
      assert front + [last] == list;
      paths := before + Prefixed(|front|, below);
    }
  }

  /** The collected leaves are those the paths end in, each once, from left to right. */
  lemma {:induction false} LeavesInOrder(ref: Option<TableRef>) returns (paths: seq<Path>)
    ensures Enumerates(p => LeafAt(ref, p), Leaves(ref), paths)
    decreases ref
  {
    match ref
    case Some(JoinRef(Some(JoinDefinition(left, right)))) =>
      var first := LeavesInOrder(left);
      var second := LeavesInOrder(right);
      JoinInOrder(left, Leaves(left), first, right, Leaves(right), second);
      paths := Prefixed(0, first) + Prefixed(1, second);
    case Some(CrossProductRef(Listed(list))) =>
      paths := LeavesOfAllInOrder(list);
      BelowIsAt(ref, list, Leaves(ref), paths);
    case _ =>
      paths := if Leaves(ref) == [] then [] else [[]];
      BareNode(ref);
  }

  lemma JoinInOrder(left: Option<TableRef>, leaves: seq<Leaf>, first: seq<Path>,
                    right: Option<TableRef>, more: seq<Leaf>, second: seq<Path>)
    requires Enumerates(p => LeafAt(left, p), leaves, first)
    requires Enumerates(p => LeafAt(right, p), more, second)
    ensures var ref := Some(JoinRef(Some(JoinDefinition(left, right))));
      Enumerates(p => LeafAt(ref, p), leaves + more, Prefixed(0, first) + Prefixed(1, second))
  {
    hide Enumerates, LeafAt, LeafBelow;
    NoTree();
    NextTree([], [], [], left, leaves, first);
    assert [] + [left] == [left] && [] + leaves == leaves && [] + Prefixed(0, first) == Prefixed(0, first);
    NextTree([left], leaves, Prefixed(0, first), right, more, second);
    assert [left] + [right] == [left, right];
    BelowIsAt(Some(JoinRef(Some(JoinDefinition(left, right)))), [left, right], leaves + more,
              Prefixed(0, first) + Prefixed(1, second));
  }

  lemma BelowIsAt(ref: Option<TableRef>, kids: seq<Option<TableRef>>, leaves: seq<Leaf>, paths: seq<Path>)
    requires Enumerates(p => LeafBelow(kids, p), leaves, paths)
    requires forall i: nat :: Child(ref, i) == if i < |kids| then kids[i] else None
    requires ref.Some? && !ref.value.NameRef? && !ref.value.SubqueryRef?
    ensures Enumerates(p => LeafAt(ref, p), leaves, paths)
  {
    hide LeftOf;
    forall p ensures LeafAt(ref, p) == LeafBelow(kids, p) {
      if p != [] && p[0] >= |kids| { NothingBelowNull(p[1..]); }
    }
  }

  lemma {:induction false} NothingBelowNull(path: Path)
    ensures NodeAt(None, path) == None
    decreases |path|
  {
    if path != [] { NothingBelowNull(path[1..]); }
  }

  lemma BareNode(ref: Option<TableRef>)
    requires forall i: nat :: Child(ref, i) == None
    ensures forall p :: LeafAt(ref, p).Some? ==> p == []
  {
    forall p | p != [] ensures LeafAt(ref, p) == None {
      NothingBelowNull(p[1..]);
    }
  }

  /** A leaf is collected iff some path ends in it. */
  lemma LeavesOccur(ref: Option<TableRef>)
    ensures forall leaf :: leaf in Leaves(ref) <==> Occurs(ref, leaf)
  {
    hide Leaves, LeafAt, LeftOf;
    var paths := LeavesInOrder(ref);
    forall leaf ensures leaf in Leaves(ref) <==> Occurs(ref, leaf) {
      if Occurs(ref, leaf) {
        var p :| LeafAt(ref, p) == Some(leaf);
        assert (q => LeafAt(ref, q))(p).Some?;
        var i :| 0 <= i < |paths| && paths[i] == p;
        assert Leaves(ref)[i] == leaf;
      }
    }
  }
}
