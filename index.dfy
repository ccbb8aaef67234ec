/**
 * Heap model of index.js: `Node` objects linked by `left`/`right`, and a `Tree`
 * holding the root. Insertion and deletion rewrite node fields in place while
 * they recurse, exactly as the source does; each node carries the ghost value
 * `Model` (the `Bst.Tree` it roots) and its footprint `Repr`, and every
 * operation is proved to act on `Model` as the matching function of `Bst`.
 */
module BinarySearchTree {
  import Bst

  /** The model of a possibly-null link. */
  ghost function ModelOf(n: Node?): Bst.Tree
    reads n
  {
    if n == null then Bst.Nil else n.Model
  }

  /** The footprint of a possibly-null link. */
  ghost function ReprOf(n: Node?): set<object>
    reads n
  {
    if n == null then {} else n.Repr
  }

  /** The argument the traversals check with `typeof callback !== "function"`. */
  datatype Callback = Function | NotAFunction

  /** A traversal either visits the nodes (recorded here by their values, in visit order) or throws. */
  datatype Outcome = Visited(values: seq<int>) | Thrown(message: string)

  const CallbackRequired := "A callback function is required"

  class Node {
    var value: int
    var left: Node?
    var right: Node?
    ghost var Repr: set<object>
    ghost var Model: Bst.Tree

    /** The links form a tree inside `Repr` (no sharing, no cycles) and `Model` is the value it holds. */
    ghost predicate Valid()
      reads this, Repr
      decreases Repr
    {
      this in Repr &&
      (left != null ==>
        left in Repr && left.Repr <= Repr && this !in left.Repr && left.Valid()) &&
      (right != null ==>
        right in Repr && right.Repr <= Repr && this !in right.Repr && right.Valid()) &&
      (left != null && right != null ==> left.Repr !! right.Repr) &&
      Model == Bst.Node(ModelOf(left), value, ModelOf(right))
    }

    /** `Valid` from the validity of the children: the step that closes a node after its links
        and ghost fields have been assigned. */
    lemma Linked()
      requires this in Repr
      requires left != null ==> left in Repr && left.Repr <= Repr && this !in left.Repr && left.Valid()
      requires right != null ==> right in Repr && right.Repr <= Repr && this !in right.Repr && right.Valid()
      requires left != null && right != null ==> left.Repr !! right.Repr
      requires Model == Bst.Node(ModelOf(left), value, ModelOf(right))
      ensures Valid()
    {
    }

    /** A new leaf. */
    constructor (value: int)
      ensures Valid() && fresh(Repr)
      ensures Model == Bst.Node(Bst.Nil, value, Bst.Nil)
      ensures left == null && right == null
    {
      this.value := value;
      left := null;
      right := null;
      Repr := {this};
      Model := Bst.Node(Bst.Nil, value, Bst.Nil);
    }
  }

  class Tree {
    var root: Node?
    ghost var Repr: set<object>

    ghost predicate Valid()
      reads this, Repr
    {
      this in Repr &&
      (root != null ==> root in Repr && root.Repr <= Repr && this !in root.Repr && root.Valid())
    }

    /** The tree the root holds. */
    ghost function Model(): Bst.Tree
      reads this, Repr
      requires Valid()
    {
      ModelOf(root)
    }

    /** Builds from the input array as given: the sorted, deduplicated copy is computed and then
        not used. */
    constructor (items: seq<int>)
      ensures Valid() && fresh(Repr)
      ensures Model() == Bst.Build(items)
    {
      var sortedArray := Bst.SortedUnique(items);
      var r := BuildTree(items);
      root := r;
      Repr := if r == null then {this} else {this} + r.Repr;
    }

    /** Bisection: the middle element becomes a new node, the two slices its subtrees. */
    static method BuildTree(items: seq<int>) returns (r: Node?)
      ensures r == null <==> |items| == 0
      ensures r != null ==> r.Valid()
      ensures r != null ==> fresh(r.Repr)
      ensures ModelOf(r) == Bst.Build(items)
      decreases |items|
    {
      if |items| == 0 {
        return null;
      }
      var mid := |items| / 2;
      var l := BuildTree(items[..mid]);
      var rt := BuildTree(items[mid + 1..]);
      r := new Node(items[mid]);
      r.left, r.right, r.Repr, r.Model := l, rt, r.Repr + ReprOf(l) + ReprOf(rt), Bst.Node(ModelOf(l), items[mid], ModelOf(rt));
    }

    /** `insert(value, node)`: the recursion that rewrites child links in place and returns the
        subtree root (a new leaf at `null`, otherwise `node` itself). */
    static method InsertAt(value: int, node: Node?) returns (r: Node)
      requires node != null ==> node.Valid()
      modifies if node != null then node.Repr else {}
      ensures r.Valid()
      ensures node == null ==> fresh(r.Repr)
      ensures node != null ==> r == node && fresh(r.Repr - old(node.Repr))
      ensures r.Model == Bst.Insert(old(ModelOf(node)), value)
      decreases if node != null then node.Repr else {}
    {
      if node == null {
        r := new Node(value);
        return;
      }
      if value < node.value {
        var l := InsertAt(value, node.left);
        node.left, node.Repr, node.Model := l, node.Repr + l.Repr, Bst.Node(l.Model, node.value, ModelOf(node.right));
      } else if value > node.value {
        var rt := InsertAt(value, node.right);
        node.right, node.Repr, node.Model := rt, node.Repr + rt.Repr, Bst.Node(ModelOf(node.left), node.value, rt.Model);
      }
      r := node;
    }

    /** `tree.insert(value)`: the recursion starts at the root and its result is dropped, so only the
        in-place changes below an existing root remain. */
    method Insert(value: int)
      requires Valid()
      modifies Repr
      ensures Valid() && fresh(Repr - old(Repr))
      ensures Model() == Bst.InsertDiscarded(old(Model()), value)
    {
      var discarded := InsertAt(value, root);
      Repr := Repr + discarded.Repr;
    }

    /** `findMin(node)`: follows left links to the end. */
    static method FindMin(node: Node) returns (m: int)
      requires node.Valid()
      ensures m == Bst.Min(node.Model)
    {
      var n: Node := node;
      while n.left != null
        invariant n.Valid()
        invariant Bst.Min(n.Model) == Bst.Min(node.Model)
        decreases n.Repr
      {
        n := n.left;
      }
      m := n.value;
    }

    /** `delete(value, node)`: the recursion that rewrites links and values in place and returns the
        new subtree root. When that root is not `node` (a leaf or one-child match), nothing has been
        changed. */
    static method DeleteAt(value: int, node: Node?) returns (r: Node?)
      requires node != null ==> node.Valid()
      modifies if node != null then node.Repr else {}
      ensures node == null ==> r == null
      ensures r != null ==> node != null && r.Valid() && r.Repr <= old(node.Repr)
      ensures ModelOf(r) == Bst.Delete(old(ModelOf(node)), value)
      ensures node != null ==> (r != node <==> Bst.DeleteReplacesRoot(old(node.Model), value))
      ensures node != null && r != node ==> unchanged(old(node.Repr))
      decreases ReprOf(node), 1
    {
      if node == null {
        return null;
      }
      if value < node.value {
        var l := DeleteAt(value, node.left);
        node.left, node.Model := l, Bst.Node(ModelOf(l), node.value, ModelOf(node.right));
      } else if value > node.value {
        var rt := DeleteAt(value, node.right);
        node.right, node.Model := rt, Bst.Node(ModelOf(node.left), node.value, ModelOf(rt));
      } else {
        if node.left == null && node.right == null {
          return null;
        }
        if node.left == null {
          return node.right;
        }
        if node.right == null {
          return node.left;
        }
        ReplaceBySuccessor(node);
      }
      r := node;
    }

    /** The two-children case of `delete`: the node takes the least value of its right subtree,
        which is then deleted from that subtree. */
    static method ReplaceBySuccessor(node: Node)
      requires node.Valid() && node.left != null && node.right != null
      modifies node.Repr
      ensures node.Valid() && node.Repr == old(node.Repr)
      ensures node.Model == Bst.Delete(old(node.Model), old(node.value))
      decreases node.Repr, 0
    {
      ghost var l, rm := node.left, node.right.Model;
      assert Bst.Delete(node.Model, node.value) == Bst.Node(l.Model, Bst.Min(rm), Bst.Delete(rm, Bst.Min(rm)));
      var minValue := FindMin(node.right);
      node.value := minValue;
      var rt := DeleteAt(minValue, node.right);
      assert l.Valid();
      node.right, node.Model := rt, Bst.Node(l.Model, minValue, ModelOf(rt));
      node.Linked();
    }

    /** `tree.delete(value)`: the recursion starts at the root and its result is dropped. */
    method Delete(value: int)
      requires Valid()
      modifies Repr
      ensures Valid() && Repr == old(Repr)
      ensures Model() == Bst.DeleteDiscarded(old(Model()), value)
    {
      var discarded := DeleteAt(value, root);
    }

    /** `find(value, node)`: the node holding `value` on the search path, or `null`. */
    static function FindAt(value: int, node: Node?): (r: Node?)
      requires node != null ==> node.Valid()
      reads if node != null then node.Repr else {}
      ensures r != null ==> node != null && r in node.Repr && r.Valid() && r.value == value
      ensures ModelOf(r) == Bst.Find(ModelOf(node), value)
      decreases if node != null then node.Repr else {}
    {
      if node == null then null
      else if value == node.value then node
      else if value < node.value then FindAt(value, node.left)
      else FindAt(value, node.right)
    }

    /** `tree.find(value)`: the search starts at the root. */
    function Find(value: int): (r: Node?)
      requires Valid()
      reads Repr
      ensures r != null ==> r in Repr && r.Valid() && r.value == value
      ensures ModelOf(r) == Bst.Find(Model(), value)
    {
      FindAt(value, root)
    }

    /** The `traverse` helper of `inOrderForEach`. */
    static function InOrderAt(node: Node?): (s: seq<int>)
      requires node != null ==> node.Valid()
      reads if node != null then node.Repr else {}
      ensures s == Bst.InOrder(ModelOf(node))
      decreases if node != null then node.Repr else {}
    {
      if node == null then [] else InOrderAt(node.left) + [node.value] + InOrderAt(node.right)
    }

    /** The `traverse` helper of `preOrderForEach`. */
    static function PreOrderAt(node: Node?): (s: seq<int>)
      requires node != null ==> node.Valid()
      reads if node != null then node.Repr else {}
      ensures s == Bst.PreOrder(ModelOf(node))
      decreases if node != null then node.Repr else {}
    {
      if node == null then [] else [node.value] + PreOrderAt(node.left) + PreOrderAt(node.right)
    }

    /** The `traverse` helper of `postOrderForEach`. */
    static function PostOrderAt(node: Node?): (s: seq<int>)
      requires node != null ==> node.Valid()
      reads if node != null then node.Repr else {}
      ensures s == Bst.PostOrder(ModelOf(node))
      decreases if node != null then node.Repr else {}
    {
      if node == null then [] else PostOrderAt(node.left) + PostOrderAt(node.right) + [node.value]
    }

    function InOrderForEach(callback: Callback): (o: Outcome)
      requires Valid()
      reads Repr
      ensures callback == NotAFunction ==> o == Thrown(CallbackRequired)
      ensures callback == Function ==> o == Visited(Bst.InOrder(Model()))
    {
      if callback != Function then Thrown(CallbackRequired) else Visited(InOrderAt(root))
    }

    function PreOrderForEach(callback: Callback): (o: Outcome)
      requires Valid()
      reads Repr
      ensures callback == NotAFunction ==> o == Thrown(CallbackRequired)
      ensures callback == Function ==> o == Visited(Bst.PreOrder(Model()))
    {
      if callback != Function then Thrown(CallbackRequired) else Visited(PreOrderAt(root))
    }

    function PostOrderForEach(callback: Callback): (o: Outcome)
      requires Valid()
      reads Repr
      ensures callback == NotAFunction ==> o == Thrown(CallbackRequired)
      ensures callback == Function ==> o == Visited(Bst.PostOrder(Model()))
    {
      if callback != Function then Thrown(CallbackRequired) else Visited(PostOrderAt(root))
    }

    /** The models of the nodes waiting in the queue. */
    static ghost function Models(queue: seq<Node>): seq<Bst.Tree>
      reads set i | 0 <= i < |queue| :: queue[i]
    {
      seq(|queue|, i requires 0 <= i < |queue| reads queue => queue[i].Model)
    }

    static lemma ModelsStep(queue: seq<Node>, next: seq<Node>)
      requires |queue| > 0 && queue[0].Valid()
      requires next == queue[1..] + (if queue[0].left == null then [] else [queue[0].left])
                                  + (if queue[0].right == null then [] else [queue[0].right])
      ensures Models(next) == Models(queue)[1..] + Bst.Children(Models(queue)[0])
    {
      var n := queue[0];
      assert Models(queue)[0] == n.Model;
      assert n.left != null ==> n.left.Model.Node?;
      assert n.right != null ==> n.right.Model.Node?;
    }

    /** One turn of the queue loop: the front is visited and its children queued, with less left to
        do; every queued node is still a valid subtree inside `repr`. */
    static lemma BfsStep(queue: seq<Node>, next: seq<Node>, repr: set<object>)
      requires |queue| > 0
      requires forall i :: 0 <= i < |queue| ==> queue[i].Repr <= repr && queue[i].Valid()
      requires next == queue[1..] + (if queue[0].left == null then [] else [queue[0].left])
                                  + (if queue[0].right == null then [] else [queue[0].right])
      ensures forall i :: 0 <= i < |next| ==> next[i].Repr <= repr && next[i].Valid()
      ensures Bst.Bfs(Models(queue)) == [queue[0].value] + Bst.Bfs(Models(next))
      ensures Bst.ForestSize(Models(next)) < Bst.ForestSize(Models(queue))
    {
      ModelsStep(queue, next);
      var q := Models(queue);
      assert q == [q[0]] + q[1..];
      Bst.BfsUnfold(q[0], q[1..]);
    }

    /** `levelOrderForEach`: a queue seeded with the root; each step shifts the front node, visits
        it and pushes its non-null children, left first. */
    method LevelOrderForEach(callback: Callback) returns (o: Outcome)
      requires Valid()
      ensures callback == NotAFunction ==> o == Thrown(CallbackRequired)
      ensures callback == Function ==> o == Visited(Bst.LevelOrder(Model()))
    {
      if callback != Function {
        return Thrown(CallbackRequired);
      }
      var queue: seq<Node> := [];
      if root != null {
        queue := queue + [root];
        assert Models(queue) == [root.Model];
      }
      var visited: seq<int> := [];
      while |queue| > 0
        invariant forall i :: 0 <= i < |queue| ==> queue[i].Repr <= Repr && queue[i].Valid()
        invariant visited + Bst.Bfs(Models(queue)) == Bst.LevelOrder(Model())
        decreases Bst.ForestSize(Models(queue))
      {
        ghost var before, seen := queue, visited;
        var current := queue[0];
        queue := queue[1..];
        visited := visited + [current.value];
        if current.left != null {
          var child: Node := current.left;
          queue := queue + [child];
        }
        if current.right != null {
          var child: Node := current.right;
          queue := queue + [child];
        }
        BfsStep(before, queue, Repr);
        Bst.AppendAssoc(seen, [current.value], Bst.Bfs(Models(queue)));
      }
      o := Visited(visited);
    }
  }
}
