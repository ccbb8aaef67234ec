/**
 * Value model of the binary search tree in index.js.
 *
 * A subtree is a value of the datatype `Tree`; each recursive operation of the
 * source (bisection build, insert, delete, find, the four traversals) is a
 * function from trees to trees or to the sequence of values it visits. The heap
 * model in `BinarySearchTree` is proved to compute exactly these functions, and
 * the lemmas here state what the source promises about them.
 */
module Bst {

  /** `Nil` is the source's `null`; `Node` is a node with its two child links. */
  datatype Tree = Nil | Node(left: Tree, value: int, right: Tree)

  // ---------------------------------------------------------------------------
  // Reference views of a tree
  // ---------------------------------------------------------------------------

  /** Number of nodes. */
  function Size(t: Tree): nat
  {
    match t
    case Nil => 0
    case Node(l, _, r) => Size(l) + 1 + Size(r)
  }

  /** The set of values held by the nodes of `t`. */
  function Values(t: Tree): set<int>
  {
    match t
    case Nil => {}
    case Node(l, x, r) => Values(l) + {x} + Values(r)
  }

  /** One entry per node: the values of `t` with their multiplicities. */
  function Elements(t: Tree): multiset<int>
  {
    match t
    case Nil => multiset{}
    case Node(l, x, r) => Elements(l) + multiset{x} + Elements(r)
  }

  /** The ordering invariant: left subtrees hold smaller values, right subtrees greater ones. */
  predicate IsBst(t: Tree)
  {
    match t
    case Nil => true
    case Node(l, x, r) =>
      IsBst(l) && IsBst(r) &&
      (forall y :: y in Values(l) ==> y < x) &&
      (forall y :: y in Values(r) ==> x < y)
  }

  predicate StrictlyAscending(s: seq<int>)
  {
    forall i, j :: 0 <= i < j < |s| ==> s[i] < s[j]
  }

  /** At every node, the two subtrees differ in size by at most one. */
  predicate SizeBalanced(t: Tree)
  {
    match t
    case Nil => true
    case Node(l, _, r) =>
      SizeBalanced(l) && SizeBalanced(r) && -1 <= Size(l) - Size(r) <= 1
  }

  // ---------------------------------------------------------------------------
  // Depth-first traversals (the `traverse` helpers of the three *OrderForEach)
  // ---------------------------------------------------------------------------

  /** Left subtree, node, right subtree. */
  function InOrder(t: Tree): seq<int>
  {
    match t
    case Nil => []
    case Node(l, x, r) => InOrder(l) + [x] + InOrder(r)
  }

  /** Node, left subtree, right subtree. */
  function PreOrder(t: Tree): seq<int>
  {
    match t
    case Nil => []
    case Node(l, x, r) => [x] + PreOrder(l) + PreOrder(r)
  }

  /** Left subtree, right subtree, node. */
  function PostOrder(t: Tree): seq<int>
  {
    match t
    case Nil => []
    case Node(l, x, r) => PostOrder(l) + PostOrder(r) + [x]
  }

  /** In-order visits every node exactly once. */
  lemma {:induction false} InOrderContents(t: Tree)
    ensures |InOrder(t)| == Size(t)
    ensures multiset(InOrder(t)) == Elements(t)
    ensures forall y :: y in InOrder(t) <==> y in Values(t)
  {
    match t
    case Nil =>
    case Node(l, x, r) =>
      InOrderContents(l);
      InOrderContents(r);
      assert InOrder(t) == InOrder(l) + [x] + InOrder(r);
  }

  /** Pre-order visits every node exactly once. */
  lemma {:induction false} PreOrderContents(t: Tree)
    ensures |PreOrder(t)| == Size(t)
    ensures multiset(PreOrder(t)) == Elements(t)
  {
    match t
    case Nil =>
    case Node(l, x, r) =>
      PreOrderContents(l);
      PreOrderContents(r);
  }

  /** Post-order visits every node exactly once. */
  lemma {:induction false} PostOrderContents(t: Tree)
    ensures |PostOrder(t)| == Size(t)
    ensures multiset(PostOrder(t)) == Elements(t)
  {
    match t
    case Nil =>
    case Node(l, x, r) =>
      PostOrderContents(l);
      PostOrderContents(r);
  }

  lemma SplitAround(s: seq<int>, i: nat)
    requires i < |s|
    ensures s[..i] + [s[i]] + s[i + 1..] == s
  {
  }

  lemma TailOfAppend<T>(a: seq<T>, b: seq<T>)
    requires a != []
    ensures (a + b)[0] == a[0] && (a + b)[1..] == a[1..] + b
  {
  }

  lemma AppendAssoc<T>(a: seq<T>, b: seq<T>, c: seq<T>)
    ensures a + b + c == a + (b + c)
  {
  }

  lemma AppendEmpty<T>(a: seq<T>)
    ensures a + [] == a && [] + a == a
  {
  }

  /** Splitting a strictly ascending sequence around one element. */
  lemma AscendingAround(a: seq<int>, x: int, b: seq<int>)
    ensures StrictlyAscending(a + [x] + b) <==>
      StrictlyAscending(a) && StrictlyAscending(b) &&
      (forall y :: y in a ==> y < x) && (forall y :: y in b ==> x < y)
  {
    if StrictlyAscending(a + [x] + b) {
      AscendingSplit(a, x, b);
    }
    if StrictlyAscending(a) && StrictlyAscending(b) &&
       (forall y :: y in a ==> y < x) && (forall y :: y in b ==> x < y)
    {
      AscendingJoin(a, x, b);
    }
  }

  lemma AscendingSplit(a: seq<int>, x: int, b: seq<int>)
    requires StrictlyAscending(a + [x] + b)
    ensures StrictlyAscending(a) && StrictlyAscending(b)
    ensures forall y :: y in a ==> y < x
    ensures forall y :: y in b ==> x < y
  {
    var s := a + [x] + b;
    assert forall i :: 0 <= i < |a| ==> s[i] == a[i];
    assert forall i :: 0 <= i < |b| ==> s[|a| + 1 + i] == b[i];
    forall y | y in a ensures y < x {
      var i :| 0 <= i < |a| && a[i] == y;
      assert s[i] < s[|a|];
    }
    forall y | y in b ensures x < y {
      var i :| 0 <= i < |b| && b[i] == y;
      assert s[|a|] < s[|a| + 1 + i];
    }
  }

  lemma AscendingJoin(a: seq<int>, x: int, b: seq<int>)
    requires StrictlyAscending(a) && StrictlyAscending(b)
    requires forall y :: y in a ==> y < x
    requires forall y :: y in b ==> x < y
    ensures StrictlyAscending(a + [x] + b)
  {
    var s := a + [x] + b;
    forall i, j | 0 <= i < j < |s| ensures s[i] < s[j] {
      if j < |a| {
        assert s[i] == a[i] && s[j] == a[j];
      } else if i < |a| {
        assert s[i] == a[i] && a[i] in a;
        if j > |a| {
          assert s[j] == b[j - |a| - 1] && b[j - |a| - 1] in b;
        }
      } else if i == |a| {
        assert s[j] == b[j - |a| - 1] && b[j - |a| - 1] in b;
      } else {
        assert s[i] == b[i - |a| - 1] && s[j] == b[j - |a| - 1];
      }
    }
  }


  /** A tree satisfies the ordering invariant exactly when its in-order sequence is strictly ascending. */
  lemma {:induction false} BstIffInOrderAscending(t: Tree)
    ensures IsBst(t) <==> StrictlyAscending(InOrder(t))
  {
    match t
    case Nil =>
    case Node(l, x, r) =>
      BstIffInOrderAscending(l);
      BstIffInOrderAscending(r);
      InOrderContents(l);
      InOrderContents(r);
      AscendingAround(InOrder(l), x, InOrder(r));
  }

  // ---------------------------------------------------------------------------
  // buildTree: bisection
  // ---------------------------------------------------------------------------

  /** The middle element (index floor(n/2)) becomes the root; the slices on either side become the subtrees. */
  function Build(s: seq<int>): Tree
    decreases |s|
  {
    if |s| == 0 then Nil
    else
      var mid := |s| / 2;
      Node(Build(s[..mid]), s[mid], Build(s[mid + 1..]))
  }

  /** Bisection keeps the input order: the in-order sequence of the result is the input itself. */
  lemma {:induction false} BuildInOrder(s: seq<int>)
    ensures InOrder(Build(s)) == s
    decreases |s|
  {
    if |s| > 0 {
      var mid := |s| / 2;
      BuildInOrder(s[..mid]);
      BuildInOrder(s[mid + 1..]);
      SplitAround(s, mid);
    }
  }

  /** Shape of a built tree: empty input gives `Nil`; otherwise the root holds `s[n/2]`, and the
      subtrees have `n/2` and `n - n/2 - 1` nodes. */
  lemma BuildShape(s: seq<int>)
    ensures Size(Build(s)) == |s|
    ensures Build(s) == Nil <==> |s| == 0
    ensures |s| > 0 ==>
      Build(s).value == s[|s| / 2] &&
      Size(Build(s).left) == |s| / 2 &&
      Size(Build(s).right) == |s| - |s| / 2 - 1
  {
    BuildInOrder(s);
    InOrderContents(Build(s));
    if |s| > 0 {
      var mid := |s| / 2;
      BuildInOrder(s[..mid]);
      InOrderContents(Build(s[..mid]));
      BuildInOrder(s[mid + 1..]);
      InOrderContents(Build(s[mid + 1..]));
    }
  }

  /** Bisection gives subtrees whose sizes differ by at most one, at every node. */
  lemma {:induction false} BuildBalanced(s: seq<int>)
    ensures SizeBalanced(Build(s))
    decreases |s|
  {
    if |s| > 0 {
      var mid := |s| / 2;
      BuildShape(s);
      BuildBalanced(s[..mid]);
      BuildBalanced(s[mid + 1..]);
    }
  }

  /** A built tree satisfies the ordering invariant exactly when the input is strictly ascending,
      and it holds exactly the input's values. */
  lemma BuildBst(s: seq<int>)
    ensures IsBst(Build(s)) <==> StrictlyAscending(s)
    ensures forall y :: y in Values(Build(s)) <==> y in s
  {
    BuildInOrder(s);
    InOrderContents(Build(s));
    BstIffInOrderAscending(Build(s));
  }

  /** The constructor builds from the raw array: input out of order gives a tree that breaks the
      ordering invariant, and a repeated value gives two nodes holding it. */
  lemma RawConstructorBreaksInvariant()
    ensures Build([2, 1]) == Node(Node(Nil, 2, Nil), 1, Nil)
    ensures !IsBst(Build([2, 1]))
    ensures Elements(Build([3, 3])) == multiset{3, 3}
  {
    assert [2, 1][..1] == [2] && [2, 1][2..] == [];
    assert [2][..0] == [] && [2][1..] == [];
    assert [3, 3][..1] == [3] && [3, 3][2..] == [];
    assert [3][..0] == [] && [3][1..] == [];
    assert 2 in Values(Build([2, 1]).left);
  }

  /** `x` placed into an ascending sequence, dropped when already present. */
  function InsertSorted(x: int, s: seq<int>): (r: seq<int>)
    ensures StrictlyAscending(s) ==> StrictlyAscending(r)
    ensures forall y :: y in r <==> y == x || y in s
  {
    if s == [] then [x]
    else if x < s[0] then
      AscendingTail(s);
      PrependAscending(x, s);
      [x] + s
    else if x == s[0] then s
    else
      var rest := InsertSorted(x, s[1..]);
      AscendingTail(s);
      PrependAscending(s[0], rest);
      [s[0]] + rest
  }

  /** The tail of a strictly ascending sequence is strictly ascending and above its head. */
  lemma AscendingTail(s: seq<int>)
    requires s != []
    ensures StrictlyAscending(s) ==> StrictlyAscending(s[1..])
    ensures StrictlyAscending(s) ==> forall y :: y in s[1..] ==> s[0] < y
  {
    if StrictlyAscending(s) {
      assert s == [] + [s[0]] + s[1..];
      AscendingSplit([], s[0], s[1..]);
    }
  }

  /** A value below every element of a strictly ascending sequence may be put in front of it. */
  lemma PrependAscending(x: int, s: seq<int>)
    ensures StrictlyAscending(s) && (forall y :: y in s ==> x < y) ==> StrictlyAscending([x] + s)
  {
    if StrictlyAscending(s) && forall y :: y in s ==> x < y {
      AscendingJoin([], x, s);
      assert [] + [x] + s == [x] + s;
    }
  }


  /** The values of `s` in ascending order, each once: the sorted, deduplicated copy of index.js:10. */
  function SortedUnique(s: seq<int>): (r: seq<int>)
    ensures StrictlyAscending(r)
    ensures forall y :: y in r <==> y in s
  {
    if s == [] then [] else InsertSorted(s[0], SortedUnique(s[1..]))
  }

  /** Construction from the sorted, deduplicated copy: a balanced search tree over exactly the input's values. */
  function BuildSortedUnique(s: seq<int>): (t: Tree)
    ensures IsBst(t)
    ensures forall y :: y in Values(t) <==> y in s
    ensures SizeBalanced(t)
  {
    var sorted := SortedUnique(s);
    BuildBst(sorted);
    BuildBalanced(sorted);
    Build(sorted)
  }

  // ---------------------------------------------------------------------------
  // insert
  // ---------------------------------------------------------------------------

  /** The new subtree root `insert` returns: a new leaf at `null`, otherwise the same node with the
      value inserted below it; an equal value changes nothing. */
  function Insert(t: Tree, v: int): Tree
  {
    match t
    case Nil => Node(Nil, v, Nil)
    case Node(l, x, r) =>
      if v < x then Node(Insert(l, v), x, r)
      else if v > x then Node(l, x, Insert(r, v))
      else t
  }

  lemma {:induction false} InsertValues(t: Tree, v: int)
    ensures Values(Insert(t, v)) == Values(t) + {v}
  {
    match t
    case Nil =>
    case Node(l, x, r) =>
      if v < x {
        InsertValues(l, v);
      } else if v > x {
        InsertValues(r, v);
      }
  }

  /** Insertion keeps the ordering invariant and adds exactly `v`. */
  lemma {:induction false} InsertBst(t: Tree, v: int)
    requires IsBst(t)
    ensures IsBst(Insert(t, v))
    ensures Values(Insert(t, v)) == Values(t) + {v}
  {
    InsertValues(t, v);
    match t
    case Nil =>
    case Node(l, x, r) =>
      if v < x {
        InsertBst(l, v);
      } else if v > x {
        InsertBst(r, v);
      }
  }

  /** Inserting a value already in a search tree returns the tree unchanged. */
  lemma {:induction false} InsertPresent(t: Tree, v: int)
    requires IsBst(t) && v in Values(t)
    ensures Insert(t, v) == t
  {
    match t
    case Node(l, x, r) =>
      if v < x {
        InsertPresent(l, v);
      } else if v > x {
        InsertPresent(r, v);
      }
  }

  // ---------------------------------------------------------------------------
  // findMin and delete
  // ---------------------------------------------------------------------------

  /** The value at the end of the left links. */
  function Min(t: Tree): (m: int)
    requires t != Nil
    ensures m in Values(t)
  {
    if t.left == Nil then t.value else Min(t.left)
  }

  /** The value `findMin` reaches is the first value of the in-order sequence, and in a search tree
      it is below every other value. */
  lemma {:induction false} MinLeast(t: Tree)
    requires t != Nil
    ensures InOrder(t) != [] && Min(t) == InOrder(t)[0]
    ensures IsBst(t) ==> forall y :: y in Values(t) ==> Min(t) <= y
  {
    var Node(l, x, r) := t;
    assert InOrder(t) == InOrder(l) + [x] + InOrder(r);
    if l == Nil {
      assert InOrder(t)[0] == x;
    } else {
      MinLeast(l);
      assert InOrder(t)[0] == InOrder(l)[0];
      if IsBst(t) {
        assert Min(t) == Min(l) && Min(l) < x;
      }
    }
  }


  /** The new subtree root `delete` returns. At the matching node: a leaf gives `Nil`, a node with one
      child gives that child, and a node with two children takes the minimum of its right subtree
      as its value and has that minimum deleted from its right subtree. */
  function Delete(t: Tree, v: int): Tree
  {
    match t
    case Nil => Nil
    case Node(l, x, r) =>
      if v < x then Node(Delete(l, v), x, r)
      else if v > x then Node(l, x, Delete(r, v))
      else if l == Nil && r == Nil then Nil
      else if l == Nil then r
      else if r == Nil then l
      else
        var m := Min(r);
        Node(l, m, Delete(r, m))
  }

  /** Deleting a value that is not in the tree returns the tree unchanged. */
  lemma {:induction false} DeleteAbsent(t: Tree, v: int)
    requires v !in Values(t)
    ensures Delete(t, v) == t
  {
    match t
    case Nil =>
    case Node(l, x, r) =>
      if v < x {
        DeleteAbsent(l, v);
      } else {
        DeleteAbsent(r, v);
      }
  }

  /** Deletion keeps the ordering invariant and removes exactly `v`. */
  lemma {:induction false} DeleteBst(t: Tree, v: int)
    requires IsBst(t)
    ensures IsBst(Delete(t, v))
    ensures Values(Delete(t, v)) == Values(t) - {v}
  {
    match t
    case Nil =>
    case Node(l, x, r) =>
      if v < x {
        DeleteBst(l, v);
      } else if v > x {
        DeleteBst(r, v);
      } else if l != Nil && r != Nil {
        DeleteBst(r, Min(r));
        SuccessorReplaces(l, x, r);
      }
  }

  /** The two-children case of `delete`: once the successor is deleted from the right subtree,
      moving it into the matching node keeps the ordering and removes exactly the matched value. */
  lemma SuccessorReplaces(l: Tree, x: int, r: Tree)
    requires IsBst(Node(l, x, r)) && r != Nil
    requires IsBst(Delete(r, Min(r))) && Values(Delete(r, Min(r))) == Values(r) - {Min(r)}
    ensures IsBst(Node(l, Min(r), Delete(r, Min(r))))
    ensures Values(Node(l, Min(r), Delete(r, Min(r)))) == Values(Node(l, x, r)) - {x}
  {
    var m := Min(r);
    MinLeast(r);
    assert x < m;
    assert forall y :: y in Values(Delete(r, m)) ==> m < y;
  }

  /** The three cases at the matching node of a search tree. In the two-children case the left
      subtree is kept, the new value is the in-order successor of `x` (the least value of the tree
      above `x`), and the right subtree loses exactly that successor. */
  lemma DeleteAtMatch(l: Tree, x: int, r: Tree)
    requires IsBst(Node(l, x, r))
    ensures l == Nil && r == Nil ==> Delete(Node(l, x, r), x) == Nil
    ensures l == Nil ==> Delete(Node(l, x, r), x) == r
    ensures r == Nil ==> Delete(Node(l, x, r), x) == l
    ensures l != Nil && r != Nil ==>
      var d := Delete(Node(l, x, r), x);
      d.Node? && d.left == l && x < d.value && d.value in Values(r) &&
      (forall y :: y in Values(Node(l, x, r)) && x < y ==> d.value <= y) &&
      Values(d.right) == Values(r) - {d.value}
  {
    if l != Nil && r != Nil {
      MinLeast(r);
      DeleteBst(r, Min(r));
    }
  }

  /** Deleting a value that was just inserted into a tree without it restores the tree exactly:
      both descend the same path, and the leaf `insert` added is the one `delete` removes. */
  lemma {:induction false} DeleteUndoesInsert(t: Tree, v: int)
    requires v !in Values(t)
    ensures Delete(Insert(t, v), v) == t
  {
    match t
    case Nil =>
    case Node(l, x, r) =>
      if v < x {
        DeleteUndoesInsert(l, v);
      } else {
        DeleteUndoesInsert(r, v);
      }
  }

  // ---------------------------------------------------------------------------
  // find
  // ---------------------------------------------------------------------------

  /** The subtree rooted at the node `find` returns, `Nil` for `null`. */
  function Find(t: Tree, v: int): (r: Tree)
    ensures r != Nil ==> r.value == v && v in Values(t)
  {
    match t
    case Nil => Nil
    case Node(l, x, r) =>
      if v == x then t
      else if v < x then Find(l, v)
      else Find(r, v)
  }

  /** In a search tree, `find` returns a node exactly when the value is in the tree. */
  lemma {:induction false} FindBst(t: Tree, v: int)
    requires IsBst(t)
    ensures Find(t, v) != Nil <==> v in Values(t)
  {
    match t
    case Nil =>
    case Node(l, x, r) =>
      if v < x {
        FindBst(l, v);
      } else if v > x {
        FindBst(r, v);
      }
  }

  // ---------------------------------------------------------------------------
  // The top-level calls `tree.insert(v)` and `tree.delete(v)`
  // ---------------------------------------------------------------------------

  /** What `tree.insert(v)` leaves in the tree: the returned root is not stored, so inserting into
      an empty tree is lost; a non-empty root is updated in place. */
  function InsertDiscarded(t: Tree, v: int): Tree
  {
    if t == Nil then Nil else Insert(t, v)
  }

  /** Whether `delete` at the top returns a node other than the root: the root holds `v` and has at
      most one child. */
  predicate DeleteReplacesRoot(t: Tree, v: int)
  {
    t.Node? && v == t.value && (t.left == Nil || t.right == Nil)
  }

  /** What `tree.delete(v)` leaves in the tree: when the root itself would be replaced, nothing has
      been changed in place and the old root stays. */
  function DeleteDiscarded(t: Tree, v: int): Tree
  {
    if DeleteReplacesRoot(t, v) then t else Delete(t, v)
  }

  /** In a search tree, `tree.insert(v)` makes `v` present exactly when the tree was not empty. */
  lemma InsertDiscardedValues(t: Tree, v: int)
    requires IsBst(t)
    ensures IsBst(InsertDiscarded(t, v))
    ensures v in Values(InsertDiscarded(t, v)) <==> t != Nil
  {
    InsertBst(t, v);
  }

  /** In a search tree, `tree.delete(v)` leaves `v` present exactly when `v` is at a root with at most
      one child. */
  lemma DeleteDiscardedValues(t: Tree, v: int)
    requires IsBst(t)
    ensures IsBst(DeleteDiscarded(t, v))
    ensures v in Values(DeleteDiscarded(t, v)) <==> DeleteReplacesRoot(t, v)
  {
    DeleteBst(t, v);
  }

  /** Concrete instances: inserting 1 into an empty tree leaves it empty, and deleting 5 from the
      one-node tree built from [5] leaves 5 in place. */
  lemma DiscardedRootExamples()
    ensures InsertDiscarded(Build([]), 1) == Nil
    ensures DeleteDiscarded(Build([5]), 5) == Node(Nil, 5, Nil)
    ensures Delete(Build([5]), 5) == Nil
  {
    assert [5][..0] == [] && [5][1..] == [];
  }

  // ---------------------------------------------------------------------------
  // levelOrderForEach: breadth-first over a queue of subtrees
  // ---------------------------------------------------------------------------

  function ForestSize(q: seq<Tree>): nat
  {
    if q == [] then 0 else Size(q[0]) + ForestSize(q[1..])
  }

  lemma {:induction false} ForestSizeAppend(a: seq<Tree>, b: seq<Tree>)
    ensures ForestSize(a + b) == ForestSize(a) + ForestSize(b)
  {
    if a == [] {
      assert a + b == b;
    } else {
      ForestSizeAppend(a[1..], b);
      TailOfAppend(a, b);
    }
  }

  /** The children that get queued: the non-null links, left before right. */
  function Children(t: Tree): seq<Tree>
  {
    match t
    case Nil => []
    case Node(l, _, r) =>
      if l == Nil && r == Nil then []
      else if l == Nil then [r]
      else if r == Nil then [l]
      else [l, r]
  }

  lemma ForestSizeSingle(t: Tree)
    ensures ForestSize([t]) == Size(t)
  {
    assert [t][1..] == [];
  }

  lemma ChildrenSize(t: Tree)
    ensures t != Nil ==> ForestSize(Children(t)) + 1 == Size(t)
  {
    match t
    case Nil =>
    case Node(l, _, r) =>
      if l != Nil && r != Nil {
        assert [l, r][1..] == [r];
        ForestSizeSingle(r);
      } else if l != Nil {
        ForestSizeSingle(l);
      } else if r != Nil {
        ForestSizeSingle(r);
      }
  }

  /** The values visited by the queue loop when the queue holds `q`: take the front, visit it,
      queue its children at the back. */
  function Bfs(q: seq<Tree>): seq<int>
    decreases ForestSize(q), |q|
  {
    if q == [] then []
    else
      match q[0]
      case Nil => Bfs(q[1..])
      case Node(_, x, _) =>
        ForestSizeAppend(q[1..], Children(q[0]));
        ChildrenSize(q[0]);
        [x] + Bfs(q[1..] + Children(q[0]))
  }

  /** The queue starts with the root, or empty for an empty tree. */
  function LevelOrder(t: Tree): seq<int>
  {
    Bfs(if t == Nil then [] else [t])
  }

  /** The root values of a forest, left to right. */
  function Roots(q: seq<Tree>): seq<int>
  {
    if q == [] then []
    else (if q[0] == Nil then [] else [q[0].value]) + Roots(q[1..])
  }

  /** The next level of a forest: all its children, left to right. */
  function NextLevel(q: seq<Tree>): seq<Tree>
  {
    if q == [] then [] else Children(q[0]) + NextLevel(q[1..])
  }

  /** The queue discipline: the trees already queued (`a`) are visited before anything queued later,
      and the children of `a` are queued behind `b`. */
  lemma {:induction false} BfsSplit(a: seq<Tree>, b: seq<Tree>)
    ensures Bfs(a + b) == Roots(a) + Bfs(b + NextLevel(a))
    decreases |a|
  {
    if a == [] {
      AppendEmpty(b);
    } else {
      var t := a[0];
      TailOfAppend(a, b);
      match t
      case Nil =>
        BfsSplit(a[1..], b);
        AppendEmpty(Roots(a[1..]));
        AppendEmpty(NextLevel(a[1..]));
      case Node(_, x, _) =>
        BfsSplit(a[1..], b + Children(t));
        AppendAssoc(a[1..], b, Children(t));
        AppendAssoc(b, Children(t), NextLevel(a[1..]));
        AppendAssoc([x], Roots(a[1..]), Bfs(b + NextLevel(a)));
    }
  }

  /** Level by level: level-order visits the values of one level left to right, then the next level. */
  lemma ByLevels(q: seq<Tree>)
    ensures Bfs(q) == Roots(q) + Bfs(NextLevel(q))
  {
    BfsSplit(q, []);
    AppendEmpty(q);
    AppendEmpty(NextLevel(q));
  }

  function ForestElements(q: seq<Tree>): multiset<int>
  {
    if q == [] then multiset{} else Elements(q[0]) + ForestElements(q[1..])
  }

  lemma {:induction false} ForestElementsAppend(a: seq<Tree>, b: seq<Tree>)
    ensures ForestElements(a + b) == ForestElements(a) + ForestElements(b)
  {
    if a == [] {
      assert a + b == b;
    } else {
      ForestElementsAppend(a[1..], b);
      TailOfAppend(a, b);
      calc {
        ForestElements(a + b);
        Elements(a[0]) + ForestElements(a[1..] + b);
        Elements(a[0]) + (ForestElements(a[1..]) + ForestElements(b));
      }
    }
  }

  lemma ForestElementsSingle(t: Tree)
    ensures ForestElements([t]) == Elements(t)
  {
    assert [t][1..] == [];
  }

  lemma ChildrenElements(t: Tree)
    requires t != Nil
    ensures ForestElements(Children(t)) + multiset{t.value} == Elements(t)
  {
    match t
    case Node(l, x, r) =>
      if l != Nil && r != Nil {
        assert Children(t) == [l, r];
        assert [l, r][1..] == [r];
        ForestElementsSingle(r);
      } else if l != Nil {
        assert Children(t) == [l];
        ForestElementsSingle(l);
      } else if r != Nil {
        assert Children(t) == [r];
        ForestElementsSingle(r);
      } else {
        assert Children(t) == [];
      }
  }

  /** One turn of the queue on a non-empty front. */
  lemma BfsUnfold(t: Tree, q: seq<Tree>)
    requires t != Nil
    ensures ForestSize(q + Children(t)) < ForestSize([t] + q)
    ensures Bfs([t] + q) == [t.value] + Bfs(q + Children(t))
  {
    assert ([t] + q)[0] == t && ([t] + q)[1..] == q;
    ForestSizeAppend(q, Children(t));
    ChildrenSize(t);
  }

  lemma ElementsStep(q: seq<Tree>)
    requires q != [] && q[0] != Nil
    ensures ForestElements(q) == multiset{q[0].value} + ForestElements(q[1..] + Children(q[0]))
  {
    ForestElementsAppend(q[1..], Children(q[0]));
    ChildrenElements(q[0]);
  }

  lemma {:induction false} BfsContents(q: seq<Tree>)
    ensures multiset(Bfs(q)) == ForestElements(q)
    decreases ForestSize(q), |q|
  {
    if q != [] {
      if q[0] == Nil {
        BfsContents(q[1..]);
      } else {
        assert q == [q[0]] + q[1..];
        BfsUnfold(q[0], q[1..]);
        BfsContents(q[1..] + Children(q[0]));
        ElementsStep(q);
      }
    }
  }

  /** Level-order visits every node exactly once. */
  lemma LevelOrderContents(t: Tree)
    ensures multiset(LevelOrder(t)) == Elements(t)
  {
    var q := if t == Nil then [] else [t];
    BfsContents(q);
    if t != Nil {
      assert q[1..] == [];
    }
  }

  /** The tree built from [1..7] is complete, with root 4 and subtree roots 2 and 6. */
  lemma BuildSeven()
    ensures Build([1, 2, 3, 4, 5, 6, 7]) ==
      Node(Node(Node(Nil, 1, Nil), 2, Node(Nil, 3, Nil)), 4, Node(Node(Nil, 5, Nil), 6, Node(Nil, 7, Nil)))
  {
    var s := [1, 2, 3, 4, 5, 6, 7];
    assert s[..3] == [1, 2, 3] && s[4..] == [5, 6, 7];
    assert Build([1, 2, 3]) == Node(Node(Nil, 1, Nil), 2, Node(Nil, 3, Nil)) by {
      assert [1, 2, 3][..1] == [1] && [1, 2, 3][2..] == [3];
      assert [1][..0] == [] && [1][1..] == [];
      assert [3][..0] == [] && [3][1..] == [];
    }
    assert Build([5, 6, 7]) == Node(Node(Nil, 5, Nil), 6, Node(Nil, 7, Nil)) by {
      assert [5, 6, 7][..1] == [5] && [5, 6, 7][2..] == [7];
      assert [5][..0] == [] && [5][1..] == [];
      assert [7][..0] == [] && [7][1..] == [];
    }
  }

  lemma BfsLeaves(a: int, c: int, e: int, g: int)
    ensures Bfs([Node(Nil, a, Nil), Node(Nil, c, Nil), Node(Nil, e, Nil), Node(Nil, g, Nil)]) == [a, c, e, g]
  {
    var la, lc, le, lg := Node(Nil, a, Nil), Node(Nil, c, Nil), Node(Nil, e, Nil), Node(Nil, g, Nil);
    BfsUnfold(la, [lc, le, lg]);
    assert [la, lc, le, lg] == [la] + [lc, le, lg];
    BfsUnfold(lc, [le, lg]);
    assert [lc, le, lg] == [lc] + [le, lg];
    BfsUnfold(le, [lg]);
    assert [le, lg] == [le] + [lg];
    BfsUnfold(lg, []);
    assert [lg] == [lg] + [];
    assert Children(la) == [] && Children(lc) == [] && Children(le) == [] && Children(lg) == [];
    assert [lc, le, lg] + [] == [lc, le, lg] && [le, lg] + [] == [le, lg];
    assert [lg] + [] == [lg] && [] + Children(lg) == [];
    assert Bfs([]) == [];
  }

  /** Level-order of a complete tree of three levels. */
  lemma LevelOrderComplete(a: int, b: int, c: int, d: int, e: int, f: int, g: int)
    ensures LevelOrder(Node(Node(Node(Nil, a, Nil), b, Node(Nil, c, Nil)), d,
                            Node(Node(Nil, e, Nil), f, Node(Nil, g, Nil))))
            == [d, b, f, a, c, e, g]
  {
    var la, lc, le, lg := Node(Nil, a, Nil), Node(Nil, c, Nil), Node(Nil, e, Nil), Node(Nil, g, Nil);
    var x, y := Node(la, b, lc), Node(le, f, lg);
    var t := Node(x, d, y);
    BfsUnfold(t, []);
    assert [t] == [t] + [];
    assert [] + Children(t) == [x, y];
    BfsUnfold(x, [y]);
    assert [x, y] == [x] + [y];
    assert [y] + Children(x) == [y, la, lc];
    BfsUnfold(y, [la, lc]);
    assert [y, la, lc] == [y] + [la, lc];
    assert [la, lc] + Children(y) == [la, lc, le, lg];
    BfsLeaves(a, c, e, g);
  }

  /** Level-order on the tree built from [1..7] visits 4, 2, 6, 1, 3, 5, 7. */
  lemma SevenLevelOrder()
    ensures LevelOrder(Build([1, 2, 3, 4, 5, 6, 7])) == [4, 2, 6, 1, 3, 5, 7]
  {
    BuildSeven();
    LevelOrderComplete(1, 2, 3, 4, 5, 6, 7);
  }
}
