/** The pointer heap of gps/utils/LocHeap.cpp, proved to compute the functions of HeapTree.

    A node's links never change except where a leaf is attached or detached: push and pop
    move the data between nodes instead. */
module LocHeapClass {
  import opened Wrappers
  import opened HeapTree

  ghost function TreeOf(n: LocHeapNode?): Tree
    reads n
  {
    if n == null then Nil else n.tree
  }

  class LocHeapNode {
    var mSize: int
    var mLeft: LocHeapNode?
    var mRight: LocHeapNode?
    var mData: Option<Rankable>
    ghost var Repr: set<LocHeapNode>
    ghost var tree: Tree

    ghost predicate Valid()
      reads this, Repr
      ensures Valid() ==> this in Repr
      decreases Repr
    {
      && this in Repr
      && (mLeft != null ==> mLeft in Repr && mLeft.Repr <= Repr && this !in mLeft.Repr && mLeft.Valid())
      && (mRight != null ==> mRight in Repr && mRight.Repr <= Repr && this !in mRight.Repr && mRight.Valid())
      && (mLeft != null && mRight != null ==> mLeft.Repr !! mRight.Repr)
      && mData.Some?
      && tree == Node(mSize, mData.value, TreeOf(mLeft), TreeOf(mRight))
    }

    constructor (data: Rankable)
      ensures Valid() && Repr == {this} && tree == Single(data)
    {
      mSize, mLeft, mRight, mData := 1, null, null, Some(data);
      Repr, tree := {this}, Single(data);
    }

    /** Brings the ghost fields up to date after a change below this node. */
    ghost method Reseal(repr: set<LocHeapNode>)
      requires this in repr && mData.Some?
      requires mLeft != null ==> mLeft in repr && mLeft.Repr <= repr && this !in mLeft.Repr && mLeft.Valid()
      requires mRight != null ==> mRight in repr && mRight.Repr <= repr && this !in mRight.Repr && mRight.Valid()
      requires mLeft != null && mRight != null ==> mLeft.Repr !! mRight.Repr
      modifies this`Repr, this`tree
      ensures Valid() && Repr == repr
      ensures tree == Node(mSize, mData.value, old(TreeOf(mLeft)), old(TreeOf(mRight)))
    {
      Repr := repr;
      tree := Node(mSize, mData.value, TreeOf(mLeft), TreeOf(mRight));
    }

    method DetachData() returns (data: Option<Rankable>)
      modifies this`mData
      ensures data == old(mData) && mData == None
    {
      data := mData;
      mData := None;
    }

    /** Lines 108-111: leaves the higher ranked data here and the lower ranked in `node`. */
    method KeepHigher(node: LocHeapNode)
      requires Valid() && node.Valid() && node !in Repr && this !in node.Repr
      modifies this`mData, this`tree, node`mData, node`tree
      ensures Valid() && node.Valid()
      ensures var a, b := old(mData.value), old(node.mData.value);
              && tree == old(tree).(data := if OutRanks(b, a) then b else a)
              && node.tree == old(node.tree).(data := if OutRanks(b, a) then a else b)
    {
      if OutRanks(node.mData.value, mData.value) {
        mData, node.mData := node.mData, mData;
        tree, node.tree := tree.(data := mData.value), node.tree.(data := node.mData.value);
      }
    }

    method PushNode(node: LocHeapNode)
      requires Valid() && node.Valid() && node.Repr == {node} && node !in Repr
      requires node.tree == Single(node.mData.value)
      modifies Repr, node
      ensures Valid() && Repr == old(Repr) + {node}
      ensures tree == Push(old(tree), old(node.mData.value))
      decreases Repr
    {
      ghost var r := Repr;
      KeepHigher(node);
      if mLeft == null {
        mLeft := node;
      } else if mRight == null {
        mRight := node;
      } else if mLeft.mSize <= mRight.mSize {
        mLeft.PushNode(node);
      } else {
        mRight.PushNode(node);
      }
      mSize := mSize + 1;
      Reseal(r + {node});
    }

    predicate IsLeaf()
      reads this
    {
      mLeft == null && mRight == null
    }

    /** Line 152: gives this node the data of one of its children, and the child this node's. */
    method SwapWith(child: LocHeapNode)
      requires Valid() && (child == mLeft || child == mRight) && child.tree.Node?
      modifies this`mData, child`mData, child`tree
      ensures mData == old(child.mData) && child.mData == old(mData) && mData.Some?
      ensures child.Valid() && child.tree == old(child.tree).(data := old(mData.value))
      ensures mLeft != null ==> mLeft.Valid()
      ensures mRight != null ==> mRight.Valid()
    {
      mData, child.mData := child.mData, mData;
      child.tree := child.tree.(data := child.mData.value);
    }

    /** Lines 143 and 152-154 when the left child replaces the top. */
    method PopThroughLeft() returns (popped: LocHeapNode)
      requires Valid() && mLeft != null
      modifies Repr
      ensures Valid() && popped in old(Repr) && popped !in Repr && Repr <= old(Repr)
      ensures popped.mData == old(mData)
      ensures popped.IsLeaf() && old(popped.IsLeaf())
      ensures var t := old(tree);
              t.left.Node? && tree == Node(t.size - 1, t.left.data, Pop(t.left), t.right)
      decreases Repr, 0
    {
      ghost var r := Repr;
      SwapWith(mLeft);
      mLeft, popped := PopNode(mLeft);
      mSize := mSize - 1;
      Reseal(r - {popped});
    }

    /** The same when the right child does. */
    method PopThroughRight() returns (popped: LocHeapNode)
      requires Valid() && mRight != null
      modifies Repr
      ensures Valid() && popped in old(Repr) && popped !in Repr && Repr <= old(Repr)
      ensures popped.mData == old(mData)
      ensures popped.IsLeaf() && old(popped.IsLeaf())
      ensures var t := old(tree);
              t.right.Node? && tree == Node(t.size - 1, t.right.data, t.left, Pop(t.right))
      decreases Repr, 0
    {
      ghost var r := Repr;
      SwapWith(mRight);
      mRight, popped := PopNode(mRight);
      mSize := mSize - 1;
      Reseal(r - {popped});
    }

    /** `newTop` is what the caller's reference to `top` holds afterwards. */
    static method PopNode(top: LocHeapNode) returns (newTop: LocHeapNode?, popped: LocHeapNode)
      requires top.Valid()
      modifies top.Repr
      ensures popped in old(top.Repr) && popped.mData == old(top.mData)
      ensures popped.IsLeaf() && old(popped.IsLeaf())
      ensures TreeOf(newTop) == Pop(old(top.tree))
      ensures newTop != null ==> newTop == top && top.Valid()
      ensures newTop != null ==> popped !in top.Repr && top.Repr <= old(top.Repr)
      decreases top.Repr, 1
    {
      newTop := top;
      if top.mLeft == null && top.mRight == null {
        top.mSize := top.mSize - 1;
        newTop, popped := null, top;
      } else if top.mLeft == null ||
          (top.mRight != null && !OutRanks(top.mLeft.mData.value, top.mRight.mData.value)) {
        popped := top.PopThroughRight();
      } else {
        popped := top.PopThroughLeft();
      }
    }

    /** Lines 178-180 and 187-189. */
    method RemoveFromLeft(data: Rankable) returns (removed: LocHeapNode?)
      requires Valid()
      modifies Repr
      ensures Valid() && removed !in Repr && Repr <= old(Repr)
      ensures removed != null ==> removed in old(Repr) && removed.mData == Some(data)
      ensures removed != null ==> removed.IsLeaf()
      ensures removed != null <==> old(tree).left.Node? && Remove(old(tree).left, data).1
      ensures var t := old(tree);
              tree == if removed == null then t else Node(t.size - 1, t.data, Remove(t.left, data).0, t.right)
      decreases Repr, 0
    {
      removed := null;
      if mLeft != null {
        ghost var r := Repr;
        mLeft, removed := RemoveNode(mLeft, data);
        mSize := mSize - if removed != null then 1 else 0;
        Reseal(r - {removed});
      }
    }

    /** Lines 182-184 and 187-189. */
    method RemoveFromRight(data: Rankable) returns (removed: LocHeapNode?)
      requires Valid()
      modifies Repr
      ensures Valid() && removed !in Repr && Repr <= old(Repr)
      ensures removed != null ==> removed in old(Repr) && removed.mData == Some(data)
      ensures removed != null ==> removed.IsLeaf()
      ensures removed != null <==> old(tree).right.Node? && Remove(old(tree).right, data).1
      ensures var t := old(tree);
              tree == if removed == null then t else Node(t.size - 1, t.data, t.left, Remove(t.right, data).0)
      decreases Repr, 0
    {
      removed := null;
      if mRight != null {
        ghost var r := Repr;
        mRight, removed := RemoveNode(mRight, data);
        mSize := mSize - if removed != null then 1 else 0;
        Reseal(r - {removed});
      }
    }

    static method RemoveNode(top: LocHeapNode, data: Rankable)
      returns (newTop: LocHeapNode?, removed: LocHeapNode?)
      requires top.Valid()
      modifies top.Repr
      ensures removed != null <==> Remove(old(top.tree), data).1
      ensures removed != null ==> removed in old(top.Repr) && removed.mData == Some(data)
      ensures removed != null ==> removed.IsLeaf()
      ensures TreeOf(newTop) == Remove(old(top.tree), data).0
      ensures newTop != null ==> newTop == top && top.Valid()
      ensures newTop != null ==> removed !in top.Repr && top.Repr <= old(top.Repr)
      ensures removed == null ==> Remove(old(top.tree), data).0 == old(top.tree)
      decreases top.Repr, 1
    {
      newTop, removed := top, null;
      if data == top.mData.value {
        newTop, removed := PopNode(top);
      } else if !OutRanks(data, top.mData.value) {
        removed := top.RemoveFromLeft(data);
        if removed == null {
          removed := top.RemoveFromRight(data);
        }
      }
    }
  }

  /** The heap a client sees. */
  class LocHeap {
    var mTree: LocHeapNode?
    ghost var Repr: set<object>

    ghost predicate Valid()
      reads this, Repr
    {
      && this in Repr
      && (mTree != null ==> mTree in Repr && mTree.Repr <= Repr && mTree.Valid())
      && Healthy(Contents())
    }

    ghost function Contents(): Tree
      reads this, mTree
    {
      TreeOf(mTree)
    }

    constructor ()
      ensures Valid() && fresh(Repr) && Contents() == Nil
    {
      mTree := null;
      Repr := {this};
    }

    method Push(node: Rankable)
      requires Valid()
      modifies Repr
      ensures Valid() && fresh(Repr - old(Repr))
      ensures Contents() == HeapTree.Push(old(Contents()), node)
    {
      hide Healthy, Elements, OutRanks;
      PushKeeps(Contents(), node);
      var heapNode := new LocHeapNode(node);
      if mTree == null {
        mTree := heapNode;
      } else {
        mTree.PushNode(heapNode);
      }
      Repr := Repr + {heapNode};
    }

    method Peek() returns (top: Option<Rankable>)
      requires Valid()
      ensures top == PeekOf(Contents())
    {
      top := None;
      if mTree != null {
        top := mTree.mData;
      }
    }

    method Pop() returns (r: Option<Rankable>)
      requires Valid()
      modifies Repr
      ensures Valid() && Repr == old(Repr)
      ensures r == PeekOf(old(Contents()))
      ensures Contents() == if r.Some? then HeapTree.Pop(old(Contents())) else Nil
    {
      hide Healthy, Elements, HeapTree.Pop, TopBelow, Count;
      r := None;
      if mTree != null {
        PopKeeps(Contents());
        var heapNode;
        mTree, heapNode := LocHeapNode.PopNode(mTree);
        r := heapNode.DetachData();
      }
    }

    method Remove(rankable: Rankable) returns (r: Option<Rankable>)
      requires Valid()
      modifies Repr
      ensures Valid() && Repr == old(Repr)
      ensures r == if rankable in Elements(old(Contents())) then Some(rankable) else None
      ensures Contents() == RemoveFrom(old(Contents()), rankable)
    {
      hide Healthy, Elements, HeapTree.Remove, OutRanks;
      r := None;
      RemoveFromKeeps(Contents(), rankable);
      if mTree != null {
        var heapNode;
        mTree, heapNode := LocHeapNode.RemoveNode(mTree, rankable);
        if heapNode != null {
          r := heapNode.DetachData();
        }
      }
    }
  }
}
