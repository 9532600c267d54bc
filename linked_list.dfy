/** A singly linked list of heap nodes reached from a `head` reference. The
    list's abstract value is the ghost sequence `contents`; the ghost
    sequence `nodes` names the node holding each element and `Repr` is the
    set of objects the list is made of. */
module LinkedLists {

  datatype Option<T> = None | Some(value: T)

  /** How a call ends: normally, or by dereferencing a null reference. */
  datatype Outcome = Ok | NullPointerException

  /** One element of a list and the reference to the next node. */
  class Node<T> {
    var element: T
    var nextNode: Node?<T>

    constructor (value: T)
      ensures element == value && nextNode == null
    {
      element := value;
      nextNode := null;
    }

    method GetElement() returns (value: T)
      ensures value == element
    {
      value := element;
    }

    method SetElement(value: T)
      modifies this
      ensures element == value && nextNode == old(nextNode)
    {
      element := value;
    }

    method GetNextNode() returns (next: Node?<T>)
      ensures next == nextNode
    {
      next := nextNode;
    }

    method SetNextNode(next: Node?<T>)
      modifies this
      ensures nextNode == next && element == old(element)
    {
      nextNode := next;
    }
  }

  /** A node's getters give back what the constructor and the setters stored,
      and each setter leaves the other field alone. */
  method NodeAccessors<T>(first: T, second: T)
    returns (initial: T, updated: T, next: Node?<T>, kept: T, linked: Node?<T>, linkedElement: T)
    ensures initial == first && updated == second && next == null && kept == second
    ensures linked != null && linkedElement == first
  {
    var node := new Node(first);
    initial := node.GetElement();
    node.SetElement(second);
    updated := node.GetElement();
    next := node.GetNextNode();
    var other := new Node(first);
    node.SetNextNode(other);
    kept := node.GetElement();
    linked := node.GetNextNode();
    linkedElement := linked.GetElement();
  }

  /** Node `i` of a chain, and null past its end. */
  ghost function NodeAt<T>(nodes: seq<Node<T>>, i: int): Node?<T>
  {
    if 0 <= i < |nodes| then nodes[i] else null
  }

  class LinkedList<T> {
    var head: Node?<T>
    ghost var nodes: seq<Node<T>>
    ghost var contents: seq<T>
    ghost var Repr: set<object>

    /** `head` starts a chain through `nodes` that ends in null, and node `i`
        holds element `i` of `contents`. */
    ghost predicate Valid()
      reads this, Repr
    {
      this in Repr &&
      |nodes| == |contents| &&
      head == NodeAt(nodes, 0) &&
      (forall i :: 0 <= i < |nodes| ==> nodes[i] in Repr) &&
      (forall i :: 0 <= i < |nodes| ==> nodes[i].element == contents[i]) &&
      (forall i {:trigger nodes[i].nextNode} :: 0 <= i < |nodes| ==> nodes[i].nextNode == NodeAt(nodes, i + 1))
    }

    constructor ()
      ensures Valid() && fresh(Repr) && contents == []
    {
      head := null;
      nodes := [];
      contents := [];
      Repr := {this};
    }

    /** Walks the chain from `head` and counts its nodes. */
    method CountElements() returns (elementCount: int)
      requires Valid()
      ensures elementCount == |contents|
    {
      if head == null {
        return 0;
      } else {
        var currentNodeReference := head;
        elementCount := 0;
        while currentNodeReference != null
          invariant Valid()
          invariant 0 <= elementCount <= |nodes|
          invariant currentNodeReference == NodeAt(nodes, elementCount)
          decreases |nodes| - elementCount
        {
          currentNodeReference := currentNodeReference.GetNextNode();
          elementCount := elementCount + 1;
        }
      }
    }

    /** Removes the first element and returns it; an empty list gives `None`
        (the null of the original) and stays empty. */
    method PopFirstElement() returns (firstElement: Option<T>)
      requires Valid()
      modifies this
      ensures Valid() && Repr == old(Repr)
      ensures old(contents) == [] ==> firstElement == None && contents == []
      ensures old(contents) != [] ==> firstElement == Some(old(contents)[0]) && contents == old(contents)[1..]
    {
      firstElement := None;
      if head == null {
        firstElement := None;
      } else if head != null {
        var element := head.GetElement();
        firstElement := Some(element);
        head := head.GetNextNode();
        ghost var oldNodes := nodes;
        nodes := nodes[1..];
        contents := contents[1..];
        forall i | 0 <= i < |nodes|
          ensures nodes[i].nextNode == NodeAt(nodes, i + 1)
        {
          assert nodes[i] == oldNodes[i + 1];
        }
      }
    }

    /** Meant to append `elementValue` at the end. On an empty list it makes
        the one-element list. On any other list the walk runs until its
        cursor is null and then stores the new node through that null
        reference: the call fails and the list is left as it was. */
    method AddNode(elementValue: T) returns (outcome: Outcome)
      requires Valid()
      modifies this
      ensures Valid() && fresh(Repr - old(Repr))
      ensures old(contents) == [] ==> outcome == Ok && contents == [elementValue]
      ensures old(contents) != [] ==> outcome == NullPointerException && contents == old(contents)
    {
      if head == null {
        head := new Node(elementValue);
        nodes := [head];
        contents := [elementValue];
        Repr := Repr + {head};
        outcome := Ok;
      } else {
        var currentNode := head;
        ghost var position := 0;
        while currentNode != null
          modifies {}
          invariant Valid()
          invariant 0 <= position <= |nodes|
          invariant currentNode == NodeAt(nodes, position)
          decreases |nodes| - position
        {
          currentNode := currentNode.GetNextNode();
          position := position + 1;
        }
        // The walk only ends once the cursor is null, so the store of the
        // new node into the last node's successor goes through null.
        var lastNode := currentNode;
        outcome := if lastNode == null then NullPointerException else Ok;
      }
    }

    /** The append AddNode is evidently meant to be: the walk stops at the
        last node, whose successor becomes the new node. */
    method AppendNode(elementValue: T)
      requires Valid()
      modifies this, Repr
      ensures Valid() && fresh(Repr - old(Repr))
      ensures contents == old(contents) + [elementValue]
    {
      if head == null {
        head := new Node(elementValue);
        nodes := [head];
        contents := [elementValue];
        Repr := Repr + {head};
      } else {
        var currentNode := head;
        ghost var position := 0;
        while currentNode.nextNode != null
          modifies {}
          invariant Valid()
          invariant 0 <= position < |nodes| && currentNode == nodes[position]
          decreases |nodes| - position
        {
          currentNode := currentNode.GetNextNode();
          position := position + 1;
        }
        LinkAfterLast(currentNode, elementValue);
      }
    }

    /** The end of AppendNode: `lastNode`, the node without a successor,
        gets a new node holding `elementValue` as its successor. */
    method LinkAfterLast(lastNode: Node<T>, elementValue: T)
      requires Valid() && lastNode in nodes && lastNode.nextNode == null
      modifies this, lastNode
      ensures Valid() && fresh(Repr - old(Repr))
      ensures contents == old(contents) + [elementValue]
    {
      ghost var oldNodes, oldContents := nodes, contents;
      ghost var position :| 0 <= position < |nodes| && nodes[position] == lastNode;
      assert position == |nodes| - 1;
      forall i | 0 <= i < position ensures oldNodes[i] != lastNode {
        assert oldNodes[i].nextNode == NodeAt(oldNodes, i + 1) != null;
      }
      var newNode := new Node(elementValue);
      lastNode.SetNextNode(newNode);
      nodes := nodes + [newNode];
      contents := contents + [elementValue];
      Repr := Repr + {newNode};
      forall i | 0 <= i < |nodes|
        ensures nodes[i] in Repr && nodes[i].element == contents[i] && nodes[i].nextNode == NodeAt(nodes, i + 1)
      {
        if i < position {
          assert nodes[i] == oldNodes[i] && contents[i] == oldContents[i];
          assert NodeAt(nodes, i + 1) == NodeAt(oldNodes, i + 1);
        } else if i == position {
          assert nodes[i] == lastNode && contents[i] == oldContents[i];
        }
      }
    }

    /** Index 0 puts `elementValue` in front of the list. Every other index,
        including one past the end and beyond, leaves the list unchanged. */
    method InsertElementAtIndex(elementValue: T, index: int)
      requires Valid()
      modifies this
      ensures Valid() && fresh(Repr - old(Repr))
      ensures index == 0 ==> contents == [elementValue] + old(contents)
      ensures index != 0 ==> contents == old(contents) && head == old(head)
    {
      var count := CountElements();
      if index > count {
        return;
      }
      if index == 0 {
        PrependElement(elementValue);
      }
    }

    /** The index-0 case of InsertElementAtIndex: a new head node whose
        successor is the old head. */
    method PrependElement(elementValue: T)
      requires Valid()
      modifies this
      ensures Valid() && fresh(Repr - old(Repr))
      ensures contents == [elementValue] + old(contents)
    {
      ghost var oldNodes, oldContents := nodes, contents;
      var secondNode := head;
      var newHead := new Node(elementValue);
      newHead.SetNextNode(secondNode);
      head := newHead;
      nodes := [head] + nodes;
      contents := [elementValue] + contents;
      Repr := Repr + {head};
      forall i | 0 <= i < |nodes|
        ensures nodes[i] in Repr && nodes[i].element == contents[i] && nodes[i].nextNode == NodeAt(nodes, i + 1)
      {
        if i > 0 {
          assert nodes[i] == oldNodes[i - 1] && contents[i] == oldContents[i - 1];
          assert NodeAt(nodes, i + 1) == NodeAt(oldNodes, i);
        }
      }
    }

    /** Drops every element by forgetting the head. */
    method DeleteAllElements()
      modifies this
      ensures Valid() && contents == []
    {
      head := null;
      nodes := [];
      contents := [];
      Repr := {this};
    }
  }

  /** AddNode as written: the second call, on a list that is no longer
      empty, fails, and the list still holds one element. */
  method AddNodeTwice<T>(first: T, second: T) returns (firstOutcome: Outcome, secondOutcome: Outcome, count: int)
    ensures firstOutcome == Ok && secondOutcome == NullPointerException && count == 1
  {
    var list := new LinkedList<T>();
    firstOutcome := list.AddNode(first);
    secondOutcome := list.AddNode(second);
    count := list.CountElements();
  }

  /** The corrected append: two appends give a two-element list whose
      elements pop off in the order they were added. */
  method AppendNodeTwice<T>(first: T, second: T) returns (count: int, popped: Option<T>, next: Option<T>)
    ensures count == 2 && popped == Some(first) && next == Some(second)
  {
    var list := new LinkedList<T>();
    list.AppendNode(first);
    list.AppendNode(second);
    count := list.CountElements();
    popped := list.PopFirstElement();
    next := list.PopFirstElement();
  }

  /** Inserting at index 0 prepends, any other index is ignored, and
      clearing the list leaves nothing to count. */
  method InsertThenClear<T>(first: T, second: T) returns (front: Option<T>, countBefore: int, countAfter: int)
    ensures front == Some(second) && countBefore == 2 && countAfter == 0
  {
    var list := new LinkedList<T>();
    list.InsertElementAtIndex(first, 0);
    list.InsertElementAtIndex(second, 1);
    list.InsertElementAtIndex(second, 0);
    countBefore := list.CountElements();
    front := list.PopFirstElement();
    list.InsertElementAtIndex(first, 0);
    list.DeleteAllElements();
    countAfter := list.CountElements();
  }
}
