/** LinkedList.swift: chain surgery on the heap, against plain sequence operations. */
module LinkedListModel {
  import opened Collections

  class Node<T> {
    var value: T
    var next: Node?<T>
    var previous: Node?<T>

    constructor (value: T)
      ensures this.value == value && next == null && previous == null
    {
      this.value, next, previous := value, null, null;
    }
  }

  /** Identifies the list an index belongs to. */
  class ListID {
    constructor () {}
  }

  datatype Index<T> = Index(node: Node?<T>, offset: nat, listID: ListID)

  /** Following next from the first node, or previous from the last, visits exactly these
      nodes, and no node comes twice. */
  ghost predicate Chain<T>(nodes: seq<Node<T>>)
    reads nodes
  {
    && (forall i, j | 0 <= i < j < |nodes| :: nodes[i] != nodes[j])
    && (forall i {:trigger nodes[i].next} | 0 <= i < |nodes| :: nodes[i].next == At(nodes, i + 1, null))
    && (forall i {:trigger nodes[i].previous} | 0 <= i < |nodes| :: nodes[i].previous == At(nodes, i - 1, null))
  }

  ghost function Values<T>(nodes: seq<Node<T>>): (r: seq<T>)
    reads nodes
    ensures |r| == |nodes| && forall i | 0 <= i < |nodes| :: r[i] == nodes[i].value
  {
    seq(|nodes|, i requires 0 <= i < |nodes| reads nodes => nodes[i].value)
  }

  ghost predicate Apart<T>(a: seq<Node<T>>, b: seq<Node<T>>) {
    forall i, j | 0 <= i < |a| && 0 <= j < |b| :: a[i] != b[j]
  }

  /** Iteration that starts at head, which follows next only, visits these nodes. */
  ghost predicate Spells<T>(head: Node?<T>, nodes: seq<Node<T>>)
    reads nodes
  {
    && head == At(nodes, 0, null)
    && forall i {:trigger nodes[i].next} | 0 <= i < |nodes| :: nodes[i].next == At(nodes, i + 1, null)
  }

  /** Iteration that starts at a node of a chain visits the rest of the chain. */
  lemma RestIsSpelled<T>(nodes: seq<Node<T>>, k: nat)
    requires Chain(nodes) && k <= |nodes|
    ensures Spells(At(nodes, k, null), nodes[k..]) && Values(nodes[k..]) == Values(nodes)[k..]
  {
  }

  /** Allocates a node and links it behind the last one of a chain. */
  method LinkBehind<T>(ghost nodes: seq<Node<T>>, last: Node<T>, value: T) returns (n: Node<T>)
    requires Chain(nodes) && nodes != [] && last == nodes[|nodes| - 1]
    modifies last`next
    ensures fresh(n) && Chain(nodes + [n])
    ensures Values(nodes + [n]) == old(Values(nodes)) + [value]
  {
    ghost var values := Values(nodes);
    n := new Node(value);
    last.next := n;
    n.previous := last;
    LinkedIn(nodes, n, |nodes|, values);
    hide Chain;
    assert InsertAt(nodes, |nodes|, n) == nodes + [n];
    assert InsertAt(values, |nodes|, value) == values + [value];
  }

  /** Allocates a node and links it before the one at position k of a chain. */
  method LinkBefore<T>(ghost nodes: seq<Node<T>>, nextNode: Node<T>, value: T, ghost k: nat) returns (newNode: Node<T>)
    requires Chain(nodes) && k < |nodes| && nextNode == nodes[k]
    modifies nodes
    ensures fresh(newNode) && newNode.value == value && Chain(InsertAt(nodes, k, newNode))
    ensures Values(InsertAt(nodes, k, newNode)) == InsertAt(old(Values(nodes)), k, value)
  {
    ghost var values := Values(nodes);
    newNode := new Node(value);
    var prevNode := nextNode.previous;
    newNode.previous := prevNode;
    newNode.next := nextNode;
    if prevNode != null {
      prevNode.next := newNode;
    }
    nextNode.previous := newNode;
    LinkedIn(nodes, newNode, k, values);
  }

  /** chain(of:), for a sequence that is not empty */
  method ChainOf<T>(elements: seq<T>)
    returns (head: Node<T>, tail: Node<T>, count: nat, ghost nodes: seq<Node<T>>)
    requires elements != []
    ensures fresh(nodes) && Chain(nodes) && Values(nodes) == elements
    ensures count == |nodes| && head == nodes[0] && tail == nodes[count - 1]
  {
    hide Chain, Values;
    head := new Node(elements[0]);
    OneNode(head);
    tail, count, nodes := head, 1, [head];
    while count < |elements|
      invariant 1 <= count == |nodes| <= |elements|
      invariant fresh(nodes) && Chain(nodes)
      invariant head == nodes[0] && tail == nodes[count - 1]
      invariant Values(nodes) == elements[..count]
    {
      tail := LinkBehind(nodes, tail, elements[count]);
      nodes := nodes + [tail];
      assert elements[..count + 1] == elements[..count] + [elements[count]];
      count := count + 1;
    }
  }

  /** A node linked in before position k, with its neighbours' links turned to it, gives a chain. */
  lemma LinkedIn<T>(before: seq<Node<T>>, n: Node<T>, k: nat, values: seq<T>)
    requires k <= |before| == |values| && n !in before
    requires forall i, j | 0 <= i < j < |before| :: before[i] != before[j]
    requires forall i {:trigger before[i].value} | 0 <= i < |before| :: before[i].value == values[i]
    requires forall i {:trigger before[i].next} | 0 <= i < |before| ::
      before[i].next == if i == k - 1 then n else At(before, i + 1, null)
    requires forall i {:trigger before[i].previous} | 0 <= i < |before| ::
      before[i].previous == if i == k then n else At(before, i - 1, null)
    requires n.next == At(before, k, null) && n.previous == At(before, k - 1, null)
    ensures Chain(InsertAt(before, k, n)) && Values(InsertAt(before, k, n)) == InsertAt(values, k, n.value)
  {
    var after := InsertAt(before, k, n);
    forall i | 0 <= i < |after|
      ensures after[i].next == At(after, i + 1, null) && after[i].previous == At(after, i - 1, null)
      ensures after[i].value == InsertAt(values, k, n.value)[i]
    {
      if i < k {
        assert after[i] == before[i];
      } else if i > k {
        assert after[i] == before[i - 1];
      }
    }
  }

  lemma OneNode<T>(n: Node<T>)
    requires n.next == null && n.previous == null
    ensures Chain([n]) && Values([n]) == [n.value]
  {
  }

  class LinkedList<T> {
    var headNode: Node?<T>
    var tailNode: Node?<T>
    var count: nat
    var id: ListID
    ghost var nodes: seq<Node<T>>

    ghost predicate Valid()
      reads this, nodes
      ensures Valid() ==> count == |nodes|
    {
      && Chain(nodes) && count == |nodes|
      && headNode == At(nodes, 0, null) && tailNode == At(nodes, |nodes| - 1, null)
    }

    ghost function Elements(): (r: seq<T>)
      reads this, nodes
      ensures |r| == |nodes| && forall i | 0 <= i < |nodes| :: r[i] == nodes[i].value
    {
      Values(nodes)
    }

    ghost function IndexAt(k: nat): Index<T>
      reads this
    {
      Index(At(nodes, k, null), k, id)
    }

    constructor Empty()
      ensures Valid() && nodes == [] && fresh(id)
    {
      headNode, tailNode, count, nodes := null, null, 0, [];
      id := new ListID();
    }

    /** init(_:) over a chain */
    constructor Of(elements: seq<T>)
      ensures Valid() && Elements() == elements && fresh(nodes) && fresh(id)
    {
      headNode, tailNode, count, nodes := null, null, 0, [];
      id := new ListID();
      new;
      hide Chain, Values;
      NoNodes();
      if elements != [] {
        var head, tail, length;
        ghost var made;
        head, tail, length, made := ChainOf(elements);
        headNode, tailNode, count, nodes := head, tail, length, made;
      }
    }

    method StartIndex() returns (i: Index<T>)
      requires Valid()
      ensures i == IndexAt(0)
    {
      i := Index(headNode, 0, id);
    }

    method EndIndex() returns (i: Index<T>)
      requires Valid()
      ensures i == IndexAt(count)
    {
      i := Index(null, count, id);
    }

    /** index(after:); its preconditions are the source's. */
    method IndexAfter(i: Index<T>) returns (r: Index<T>)
      requires Valid() && i.listID == id && i.offset < count && i == IndexAt(i.offset)
      ensures r == IndexAt(i.offset + 1)
    {
      r := Index(i.node.next, i.offset + 1, id);
    }

    /** index(before:) */
    method IndexBefore(i: Index<T>) returns (r: Index<T>)
      requires Valid() && i.listID == id && 0 < i.offset <= count && i == IndexAt(i.offset)
      ensures r == IndexAt(i.offset - 1)
    {
      if i.offset == count {
        return Index(tailNode, i.offset - 1, id);
      }
      r := Index(i.node.previous, i.offset - 1, id);
    }

    /** What iteration from the head shows after insert(_:at:) of x.  `elements` are those of this
        list, `others` those of the chain in which the index's node stands at position `at`; `own`
        says whether that is this list's chain. */
    static ghost function Shown(elements: seq<T>, others: seq<T>, own: bool, index: Index<T>, at: nat, x: T): seq<T>
      requires index.node != null ==> at <= |others| && (own ==> others == elements)
    {
      if index.offset == |elements| then (if elements == [] then [] else elements + [x])
      else if index.node == null then (if index.offset == 0 then [x] else elements)
      else if index.offset == 0 then [x] + others[at..]
      else if own && at > 0 then InsertAt(elements, at, x)
      else elements
    }

    /** The outcome of insert(_:at:) for any index: one more is counted; the new node is linked behind the
        last node, before the index's node, which stands at position `at` of `chain`, or nowhere; the
        list stays consistent exactly if it was not empty, the index's node is its own, and offset and
        position agree on being first; `shown` are the nodes that can then be reached from the head. */
    twostate predicate Places(x: T, index: Index<T>, chain: seq<Node<T>>, new node: Node<T>, at: nat, new shown: seq<Node<T>>)
      reads this, nodes, chain, node, shown
    {
      var atEnd, own := index.offset == old(count), index.node != null && chain == old(nodes);
      && count == old(count) + 1 && id == old(id) && fresh(node) && node.value == x
      && at <= |chain|
      && (!atEnd && index.node != null ==>
            && at < |chain| && chain[at] == index.node
            && Chain(InsertAt(chain, at, node)) && Values(InsertAt(chain, at, node)) == InsertAt(old(Values(chain)), at, x))
      && nodes == (if atEnd then old(nodes) + [node] else if own then InsertAt(chain, at, node) else old(nodes))
      && Chain(nodes)
      && Elements() == (if atEnd then old(Elements()) + [x] else if own then InsertAt(old(Values(chain)), at, x) else old(Elements()))
      && (Valid() <==> if atEnd then old(nodes) != [] else own && (index.offset == 0 <==> at == 0))
      && (atEnd && old(nodes) == [] ==> headNode == null && tailNode == node)
      && Spells(headNode, shown)
      && Values(shown) == Shown(old(Elements()), old(Values(chain)), chain == old(nodes), index, at, x)
    }

    /** insert(_:at:), which compares offsets only and does not ask whose index it is given.  With an
        index of a non-empty list it is sequence insertion by one fresh node; other indices, be they
        stale or of another list, are taken as Places says. */
    method Insert(newElement: T, index: Index<T>, ghost chain: seq<Node<T>>)
      returns (ghost newNode: Node<T>, ghost at: nat, ghost shown: seq<Node<T>>)
      requires Valid() && Chain(chain) && (chain == nodes || Apart(chain, nodes))
      requires index.offset != count && index.node != null ==> index.node in chain
      modifies this, nodes, chain
      ensures Places(newElement, index, chain, newNode, at, shown)
      ensures old(nodes) != [] && index.offset <= old(count) && index == old(IndexAt(index.offset)) ==>
        && Valid() && Elements() == InsertAt(old(Elements()), index.offset, newElement)
        && nodes == InsertAt(old(nodes), index.offset, newNode)
    {
      hide Values, Spells, Shown;
      newNode, at, shown := InsertAnywhere(newElement, index, chain);
      InsertedLast(old(nodes), newNode);
      InsertedLast(old(Elements()), newElement);
    }

    /** The body of insert(_:at:). */
    method InsertAnywhere(newElement: T, index: Index<T>, ghost chain: seq<Node<T>>)
      returns (ghost newNode: Node<T>, ghost at: nat, ghost shown: seq<Node<T>>)
      requires Valid() && Chain(chain) && (chain == nodes || Apart(chain, nodes))
      requires index.offset != count && index.node != null ==> index.node in chain
      modifies this, nodes, chain
      ensures Places(newElement, index, chain, newNode, at, shown)
    {
      at := 0;
      if index.offset == count {
        newNode, shown := InsertLast(newElement, index, chain);
      } else if index.node == null {
        newNode, shown := InsertUnlinked(newElement, index, chain);
      } else {
        at :| at < |chain| && chain[at] == index.node;
        newNode, shown := InsertBefore(newElement, index, chain, at);
      }
    }

    /** The branch of insert(_:at:) for an index without a node: nothing is linked. */
    method InsertUnlinked(newElement: T, index: Index<T>, ghost chain: seq<Node<T>>)
      returns (ghost node: Node<T>, ghost shown: seq<Node<T>>)
      requires Valid() && index.offset != count && index.node == null
      modifies this
      ensures Places(newElement, index, chain, node, 0, shown)
    {
      var newNode := new Node(newElement);
      count := count + 1;
      RestIsSpelled(nodes, 0);
      assert nodes[0..] == nodes;
      if index.offset == 0 {
        headNode := newNode;
      }
      node, shown := newNode, if index.offset == 0 then [newNode] else nodes;
    }

    /** The nodes reached from the head after an insertion before a node. */
    lemma ShownAfter(before: seq<Node<T>>, chain: seq<Node<T>>, own: bool, index: Index<T>, at: nat, newNode: Node<T>,
                     elements: seq<T>, others: seq<T>, x: T) returns (shown: seq<Node<T>>)
      requires index.node != null && |elements| != index.offset && at <= |others| && (own ==> others == elements)
      requires at < |chain| && Chain(InsertAt(chain, at, newNode)) && (own ==> chain == before) && Chain(nodes)
      requires nodes == if own then InsertAt(before, at, newNode) else before
      requires Values(InsertAt(chain, at, newNode)) == InsertAt(others, at, x) && (!own ==> Values(nodes) == elements)
      requires headNode == if index.offset == 0 then newNode else At(before, 0, null)
      ensures Spells(headNode, shown)
      ensures Values(shown) == Shown(elements, others, own, index, at, x)
    {
      hide Chain, Values, Spells;
      InsertedFrom(others, at, x);
      var linked := InsertAt(chain, at, newNode);
      if index.offset == 0 {
        RestIsSpelled(linked, at);
        shown := linked[at..];
      } else if own && at == 0 {
        RestIsSpelled(linked, 1);
        shown := linked[1..];
      } else {
        RestIsSpelled(nodes, 0);
        shown := nodes;
        assert nodes[0..] == nodes;
      }
    }

    static lemma InsertedLast<A>(s: seq<A>, x: A)
      ensures InsertAt(s, |s|, x) == s + [x]
    {
    }

    /** The branch of insert(_:at:) for the end index. */
    method InsertLast(newElement: T, index: Index<T>, ghost chain: seq<Node<T>>)
      returns (ghost node: Node<T>, ghost shown: seq<Node<T>>)
      requires Valid() && index.offset == count
      modifies this, nodes
      ensures Places(newElement, index, chain, node, 0, shown)
    {
      ghost var before, values := nodes, Values(nodes);
      hide Chain, Values, Spells;
      var newNode := LinkLast(newElement);
      nodes := before + [newNode];
      RestIsSpelled(nodes, 0);
      assert nodes[0..] == nodes;
      NothingIsSpelled<T>();
      node, shown := newNode, if before == [] then [] else nodes;
    }

    static lemma NothingIsSpelled<A>()
      ensures Spells<A>(null, []) && Values<A>([]) == []
    {
    }

    /** What that branch does to the fields and the chain */
    method LinkLast(newElement: T) returns (newNode: Node<T>)
      requires Valid()
      modifies this`count, this`tailNode, nodes
      ensures fresh(newNode) && newNode.value == newElement && tailNode == newNode && count == old(count) + 1
      ensures Chain(nodes + [newNode]) && Values(nodes + [newNode]) == old(Elements()) + [newElement]
    {
      ghost var values := Values(nodes);
      newNode := new Node(newElement);
      newNode.previous := tailNode;
      if tailNode != null {
        tailNode.next := newNode;
      }
      tailNode := newNode;
      count := count + 1;
      LinkedIn(nodes, newNode, |nodes|, values);
      hide Chain;
      InsertedLast(nodes, newNode);
      InsertedLast(values, newElement);
    }

    /** The branch of insert(_:at:) for the index of a node, which stands at position k of its chain. */
    method InsertBefore(newElement: T, index: Index<T>, ghost chain: seq<Node<T>>, ghost k: nat)
      returns (ghost node: Node<T>, ghost shown: seq<Node<T>>)
      requires Valid() && Chain(chain) && (chain == nodes || Apart(chain, nodes))
      requires index.offset != count && k < |chain| && index.node == chain[k]
      modifies this, chain
      ensures Places(newElement, index, chain, node, k, shown)
    {
      hide Chain, Values, Spells, Shown;
      ghost var before, others := nodes, Values(chain);
      ghost var own, elements := chain == nodes, Elements();
      var newNode := LinkIn(newElement, index, chain, k);
      node := newNode;
      if own {
        EndsAfterInsert(chain, k, node);
        nodes := InsertAt(chain, k, node);
        shown := ShownAfter(before, chain, true, index, k, node, elements, others, newElement);
        hide InsertAt, At;
        assert Valid() <==> (index.offset == 0 <==> k == 0);
        assert Places(newElement, index, chain, node, k, shown);
      } else {
        shown := ShownAfter(before, chain, false, index, k, node, elements, others, newElement);
        hide InsertAt, At;
        assert Places(newElement, index, chain, node, k, shown);
      }
    }

    /** What that branch does to the fields and the chain */
    method LinkIn(newElement: T, index: Index<T>, ghost chain: seq<Node<T>>, ghost k: nat) returns (node: Node<T>)
      requires Valid() && Chain(chain) && (chain == nodes || Apart(chain, nodes))
      requires k < |chain| && index.node == chain[k]
      modifies this`count, this`headNode, chain
      ensures fresh(node) && node.value == newElement
      ensures Chain(InsertAt(chain, k, node))
      ensures Values(InsertAt(chain, k, node)) == InsertAt(old(Values(chain)), k, newElement)
      ensures chain != nodes ==> Chain(nodes) && Values(nodes) == old(Values(nodes))
      ensures count == old(count) + 1 && headNode == if index.offset == 0 then node else old(headNode)
    {
      hide Chain, Values;
      node := LinkBefore(chain, index.node, newElement, k);
      count := count + 1;
      if index.offset == 0 {
        headNode := node;
      }
    }

    /** The ends of a chain after a node has been linked in */
    static lemma EndsAfterInsert(before: seq<Node<T>>, k: nat, n: Node<T>)
      requires k < |before|
      ensures var after := InsertAt(before, k, n);
        && |after| == |before| + 1 && At(after, |before|, null) == At(before, |before| - 1, null)
        && At(after, 0, null) == (if k == 0 then n else At(before, 0, null))
        && At(before, 0, null) == before[0]
    {
    }

    static lemma InsertedFrom(s: seq<T>, k: nat, x: T)
      requires k <= |s|
      ensures InsertAt(s, k, x)[k..] == [x] + s[k..] && (k == 0 ==> InsertAt(s, k, x)[1..] == s)
    {
    }

    /** A chain of new nodes that holds the first `length` of the elements to keep. */
    static ghost predicate IsCopy(copy: seq<Node<T>>, head: Node<T>, tail: Node<T>, length: nat, kept: seq<T>)
      reads copy
    {
      && Chain(copy) && 1 <= length == |copy| <= |kept|
      && head == copy[0] && tail == copy[length - 1]
      && Values(copy) == kept[..length]
    }

    static method CopyFirst(value: T, ghost kept: seq<T>) returns (n: Node<T>)
      requires kept != [] && kept[0] == value
      ensures fresh(n) && IsCopy([n], n, n, 1, kept)
    {
      n := new Node(value);
      OneNode(n);
    }

    static method CopyNext(ghost copy: seq<Node<T>>, ghost head: Node<T>, tail: Node<T>, length: nat, value: T, ghost kept: seq<T>)
      returns (n: Node<T>)
      requires IsCopy(copy, head, tail, length, kept) && length < |kept| && value == kept[length]
      modifies tail`next
      ensures fresh(n) && IsCopy(copy + [n], head, n, length + 1, kept)
    {
      hide Chain;
      n := LinkBehind(copy, tail, value);
    }

    /** The loop of copyNodes(settingNodeAt:to:): it only makes new nodes. */
    method CopyChain(index: nat, value: T, ghost target: seq<T>)
      returns (head: Node<T>, tail: Node<T>, ghost copy: seq<Node<T>>)
      requires Valid() && index < count && |target| == count
      requires forall k {:trigger target[k]} | 0 <= k < count :: target[k] == if k == index then value else nodes[k].value
      ensures fresh(copy) && IsCopy(copy, head, tail, count, target)
    {
      hide Chain, Values, IsCopy, Valid, Elements, InsertAt;
      var currentIndex := StartIndex();
      var first := if currentIndex.offset == index then value else currentIndex.node.value;
      tail := CopyFirst(first, target);
      head, copy := tail, [tail];
      currentIndex := IndexAfter(currentIndex);
      while currentIndex.offset < count
        invariant Valid()
        invariant currentIndex.offset <= count && currentIndex == IndexAt(currentIndex.offset)
        invariant fresh(copy) && IsCopy(copy, head, tail, currentIndex.offset, target) && tail in copy
      {
        var next := if currentIndex.offset == index then value else currentIndex.node.value;
        assert next == target[currentIndex.offset];
        tail := CopyNext(copy, head, tail, currentIndex.offset, next, target);
        copy := copy + [tail];
        currentIndex := IndexAfter(currentIndex);
      }
    }

    /** copyNodes(settingNodeAt:to:) */
    method CopyNodesSetting(index: Index<T>, value: T)
      requires Valid() && index.offset < count
      modifies this
      ensures Valid() && fresh(nodes) && fresh(id) && count == old(count)
      ensures Elements() == old(Elements())[index.offset := value]
    {
      hide Chain, Values, IsCopy;
      var head, tail;
      ghost var copy;
      ghost var target := Elements()[index.offset := value];
      head, tail, copy := CopyChain(index.offset, value, target);
      var newID := new ListID();
      Adopt(newID, head, tail, count, copy, target);
    }

    /** The list takes over a copied chain and a new identity. */
    method Adopt(newID: ListID, head: Node<T>, tail: Node<T>, length: nat, ghost copy: seq<Node<T>>, ghost kept: seq<T>)
      requires IsCopy(copy, head, tail, length, kept) && length == |kept|
      modifies this
      ensures Valid() && Elements() == kept && nodes == copy && id == newID && count == length
    {
      hide Chain;
      id := newID;
      headNode := head;
      tailNode := tail;
      count := length;
      nodes := copy;
    }

    /** The subscript setter; `unique` is what isKnownUniquelyReferenced(&headNode) answers.  A
        shared chain is replaced by a fresh copy and stays as it was. */
    method Set(position: Index<T>, newValue: T, unique: bool)
      requires Valid() && position.offset < count && position == IndexAt(position.offset)
      modifies this, nodes
      ensures Valid() && Elements() == old(Elements())[position.offset := newValue]
      ensures unique ==> nodes == old(nodes) && id == old(id)
      ensures !unique ==> fresh(nodes) && forall n | n in old(nodes) :: unchanged(n)
    {
      if !unique {
        CopyNodesSetting(position, newValue);
      } else {
        position.node.value := newValue;
      }
    }

    /** The first loop of copyNodes(removing:): the first index outside the range. */
    method FirstKept(lo: nat, hi: nat) returns (r: Index<T>)
      requires Valid() && lo <= hi <= count
      ensures r == IndexAt(if lo == 0 then hi else 0)
    {
      r := StartIndex();
      while lo <= r.offset < hi
        invariant r.offset <= count && r == IndexAt(r.offset)
        invariant r.offset == 0 || (lo == 0 && r.offset <= hi)
        decreases hi - r.offset
      {
        r := IndexAfter(r);
      }
    }

    /** How many of the first k elements lie outside the range. */
    static function KeptBefore(k: nat, lo: nat, hi: nat): nat
      requires lo <= hi
    {
      if k <= lo then k else if k <= hi then lo else k - (hi - lo)
    }

    /** The elements outside a range, and where the element at k goes among them. */
    static lemma KeptElements(elements: seq<T>, lo: nat, hi: nat, k: nat)
      requires lo <= hi <= |elements| && k < |elements| && !(lo <= k < hi)
      ensures var kept, n := elements[..lo] + elements[hi..], KeptBefore(k, lo, hi);
        n < |kept| && kept[n] == elements[k] && kept[..n] + [elements[k]] == kept[..n + 1]
    {
    }

    static lemma KeptSteps(lo: nat, hi: nat, k: nat)
      requires lo <= hi
      ensures KeptBefore(k + 1, lo, hi) == KeptBefore(k, lo, hi) + (if lo <= k < hi then 0 else 1)
      ensures KeptBefore(0, lo, hi) == 0 && KeptBefore(hi, lo, hi) == lo
      ensures k >= hi ==> KeptBefore(k, lo, hi) == k - (hi - lo)
    {
    }

    /** The body of the second loop for a node outside the range. */
    method KeepNode(ghost copy: seq<Node<T>>, ghost head: Node<T>, last: Node<T>, length: nat, index: Index<T>,
                    lo: nat, hi: nat, newID: ListID, seam: Index<T>) returns (tail: Node<T>, seam': Index<T>)
      requires Valid() && lo <= hi <= count && index.offset < count && !(lo <= index.offset < hi)
      requires index == IndexAt(index.offset) && length == KeptBefore(index.offset, lo, hi)
      requires IsCopy(copy, head, last, length, Elements()[..lo] + Elements()[hi..]) && last !in nodes
      modifies last`next
      ensures fresh(tail) && IsCopy(copy + [tail], head, tail, length + 1, old(Elements()[..lo] + Elements()[hi..]))
      ensures seam' == if index.offset == hi then Index(tail, length, newID) else seam
    {
      hide Chain, IsCopy, KeptBefore;
      KeptElements(Elements(), lo, hi, index.offset);
      tail := CopyNext(copy, head, last, length, index.node.value, Elements()[..lo] + Elements()[hi..]);
      seam' := if index.offset == hi then Index(tail, length, newID) else seam;
    }

    /** The second loop: the elements outside the range in a chain of new nodes, and the seam. */
    method CopyKept(first: Index<T>, lo: nat, hi: nat, newID: ListID)
      returns (head: Node<T>, tail: Node<T>, newCount: nat, seam: Index<T>, ghost copy: seq<Node<T>>)
      requires Valid() && lo <= hi <= count
      requires first == IndexAt(if lo == 0 then hi else 0) && first.offset < count
      ensures fresh(copy) && IsCopy(copy, head, tail, newCount, Elements()[..lo] + Elements()[hi..])
      ensures newCount == count - (hi - lo)
      ensures seam == Index(At(copy, lo, null), lo, newID)
    {
      ghost var elements := Elements();
      hide Chain, Values, IsCopy, Valid, Elements, KeptBefore;
      ghost var kept := elements[..lo] + elements[hi..];
      KeptElements(elements, lo, hi, first.offset);
      KeptSteps(lo, hi, first.offset);
      KeptSteps(lo, hi, count);
      tail := CopyFirst(first.node.value, kept);
      head, newCount, copy := tail, 1, [tail];
      seam := Index(tail, 0, newID);
      var currentIndex := IndexAfter(first);
      while currentIndex.offset < count
        invariant Valid() && Elements() == elements
        invariant currentIndex.offset <= count && currentIndex == IndexAt(currentIndex.offset)
        invariant newCount == |copy| == KeptBefore(currentIndex.offset, lo, hi)
        invariant fresh(copy) && IsCopy(copy, head, tail, newCount, kept) && tail in copy
        invariant currentIndex.offset > hi || lo == 0 ==> lo < |copy| && seam == Index(copy[lo], lo, newID)
        decreases count - currentIndex.offset
      {
        KeptSteps(lo, hi, currentIndex.offset);
        if lo <= currentIndex.offset < hi {
          currentIndex := IndexAfter(currentIndex);
          continue;
        }
        tail, seam := KeepNode(copy, head, tail, newCount, currentIndex, lo, hi, newID, seam);
        copy := copy + [tail];
        newCount := newCount + 1;
        currentIndex := IndexAfter(currentIndex);
      }
      if currentIndex.offset == hi {
        seam := Index(null, newCount, newID);
      }
    }

    /** copyNodes(removing:): the chain without the range, all fresh, and the seam, which is where
        the range was.  The original chain is left alone. */
    method CopyNodesRemoving(lower: Index<T>, upper: Index<T>) returns (seam: Index<T>)
      requires Valid() && lower.offset <= upper.offset <= count
      modifies this
      ensures Valid() && fresh(nodes) && fresh(id)
      ensures Elements() == old(Elements()[..lower.offset] + Elements()[upper.offset..])
      ensures seam == IndexAt(lower.offset)
    {
      hide Chain, Values, IsCopy;
      ghost var kept := Elements()[..lower.offset] + Elements()[upper.offset..];
      var newID := new ListID();
      var currentIndex := FirstKept(lower.offset, upper.offset);
      if currentIndex.node == null {
        NoNodes();
        headNode, tailNode, count, nodes := null, null, 0, [];
        id := newID;
        return Index(null, 0, id);
      }
      var head, tail, newCount;
      ghost var copy;
      head, tail, newCount, seam, copy := CopyKept(currentIndex, lower.offset, upper.offset, newID);
      Adopt(newID, head, tail, newCount, copy, kept);
    }

    lemma NoNodes()
      ensures Chain<T>([])
    {
    }
  }

  /** What is inserted into an empty list cannot be reached from its head. */
  method InsertIntoEmpty<T>(newElement: T) returns (list: LinkedList<T>)
    ensures fresh(list) && list.count == 1 && list.headNode == null && list.tailNode != null
    ensures list.Elements() == [newElement] && Spells(list.headNode, [])
  {
    list := new LinkedList.Empty();
    var end := list.EndIndex();
    ghost var _, _, _ := list.Insert(newElement, end, []);
  }

  lemma OnlyPlace<T>(nodes: seq<Node<T>>, i: nat)
    requires Chain(nodes) && i < |nodes|
    ensures forall j | 0 <= j < |nodes| && nodes[j] == nodes[i] :: j == i
  {
  }

  lemma InsertedTwice<A>(s: seq<A>, first: A, second: A)
    ensures InsertAt(s, 0, first) == [first] + s && ([first] + s)[1..] == s
    ensures InsertAt([first] + s, 1, second) == [first, second] + s
  {
  }

  /** A start index used twice: the element inserted first drops out of reach from the head. */
  method InsertTwice<T>(elements: seq<T>, first: T, second: T) returns (list: LinkedList<T>, ghost shown: seq<Node<T>>)
    requires elements != []
    ensures fresh(list) && !list.Valid()
    ensures list.Elements() == [first, second] + elements
    ensures Spells(list.headNode, shown) && Values(shown) == [second] + elements
  {
    hide Chain, Values, Spells, InsertAt;
    list := new LinkedList.Of(elements);
    var start := list.StartIndex();
    ghost var own := list.nodes;
    ghost var node, at;
    node, at, shown := list.Insert(first, start, own);
    InsertedTwice(own, node, node);
    InsertedTwice(elements, first, second);
    assert list.nodes[1] == start.node;
    own := list.nodes;
    OnlyPlace(own, 1);
    node, at, shown := list.Insert(second, start, own);
  }

  /** The end index of another, empty list: the element there can no longer be reached. */
  method InsertAtForeignEnd<T>(only: T, newElement: T) returns (list: LinkedList<T>, ghost shown: seq<Node<T>>)
    ensures fresh(list) && !list.Valid() && list.Elements() == [only]
    ensures Spells(list.headNode, shown) && Values(shown) == [newElement]
  {
    var empty := new LinkedList<T>.Empty();
    var end := empty.EndIndex();
    list := new LinkedList.Of([only]);
    ghost var node, at;
    node, at, shown := list.Insert(newElement, end, []);
  }
}
