/** LRUCache.swift on the heap: a dictionary of containers threaded on a doubly linked list.
    Each method is one critical section, or the sequence of sections one call runs. */
module LRUCacheModel {
  import opened Collections
  import opened LRUSpec

  class Container<K, V> {
    var value: V
    var cost: int
    const key: K
    var prev: Container?<K, V>
    var next: Container?<K, V>

    constructor (value: V, cost: int, key: K)
      ensures this.value == value && this.cost == cost && this.key == key
      ensures prev == null && next == null
    {
      this.value, this.cost, this.key := value, cost, key;
      prev, next := null, null;
    }
  }

  /** head/next and tail/prev spell these containers, none of them twice. */
  ghost predicate Linked<K, V>(chain: seq<Container<K, V>>)
    reads chain
  {
    && (forall i, j | 0 <= i < j < |chain| :: chain[i] != chain[j])
    && (forall i {:trigger chain[i].next} | 0 <= i < |chain| :: chain[i].next == At(chain, i + 1, null))
    && (forall i {:trigger chain[i].prev} | 0 <= i < |chain| :: chain[i].prev == At(chain, i - 1, null))
  }

  ghost function EntryOf<K, V>(c: Container<K, V>): Entry<K, V>
    reads c
  {
    Entry(c.key, c.value, c.cost)
  }

  ghost function EntriesOf<K, V>(chain: seq<Container<K, V>>): (r: seq<Entry<K, V>>)
    reads chain
    ensures |r| == |chain| && forall i | 0 <= i < |chain| :: r[i] == EntryOf(chain[i])
  {
    seq(|chain|, i requires 0 <= i < |chain| reads chain => EntryOf(chain[i]))
  }

  /** The dictionary holds exactly these containers, each under its own key. */
  ghost predicate Keyed<K, V>(values: map<K, Container<K, V>>, chain: seq<Container<K, V>>) {
    && (forall i | 0 <= i < |chain| :: chain[i].key in values && values[chain[i].key] == chain[i])
    && (forall k | k in values :: values[k] in chain && values[k].key == k)
  }

  /** With position i bridged over by its neighbours, the rest is linked. */
  lemma LinkedOut<K, V>(before: seq<Container<K, V>>, i: nat)
    requires i < |before|
    requires forall j, k | 0 <= j < k < |before| :: before[j] != before[k]
    requires forall j {:trigger before[j].next} | 0 <= j < |before| && j != i ::
      before[j].next == if j == i - 1 then At(before, i + 1, null) else At(before, j + 1, null)
    requires forall j {:trigger before[j].prev} | 0 <= j < |before| && j != i ::
      before[j].prev == if j == i + 1 then At(before, i - 1, null) else At(before, j - 1, null)
    ensures Linked(CutAt(before, i))
    ensures EntriesOf(CutAt(before, i)) == CutAt(EntriesOf(before), i)
  {
    var after := CutAt(before, i);
    forall j | 0 <= j < |after|
      ensures after[j].next == At(after, j + 1, null) && after[j].prev == At(after, j - 1, null)
    {
      assert after[j] == before[if j < i then j else j + 1];
    }
  }

  lemma CutEnds<K, V>(s: seq<Container<K, V>>, i: nat)
    requires i < |s|
    ensures |CutAt(s, i)| == |s| - 1
    ensures At(CutAt(s, i), 0, null) == if i == 0 then At(s, 1, null) else At(s, 0, null)
    ensures At(CutAt(s, i), |s| - 2, null) == if i == |s| - 1 then At(s, |s| - 2, null) else At(s, |s| - 1, null)
  {
  }

  lemma KeyedMoved<K, V>(values: map<K, Container<K, V>>, chain: seq<Container<K, V>>, i: nat)
    requires Keyed(values, chain) && i < |chain|
    ensures Keyed(values, CutAt(chain, i) + [chain[i]])
  {
    var moved := CutAt(chain, i) + [chain[i]];
    forall j | 0 <= j < |chain| ensures chain[j] in moved {
      if j < i {
        assert moved[j] == chain[j];
      } else if j > i {
        assert moved[j - 1] == chain[j];
      } else {
        assert moved[|chain| - 1] == chain[j];
      }
    }
    forall j | 0 <= j < |moved| ensures moved[j] in chain {
      assert moved[j] == chain[if j < i then j else if j < |chain| - 1 then j + 1 else i];
    }
  }

  lemma KeyedMore<K, V>(values: map<K, Container<K, V>>, chain: seq<Container<K, V>>, c: Container<K, V>)
    requires Keyed(values, chain) && c.key !in values
    ensures Keyed(values[c.key := c], chain + [c])
    ensures c !in chain
  {
  }

  lemma KeyedLess<K, V>(values: map<K, Container<K, V>>, chain: seq<Container<K, V>>, i: nat)
    requires Keyed(values, chain) && i < |chain|
    requires forall j, k | 0 <= j < k < |chain| :: chain[j] != chain[k]
    ensures Keyed(values - {chain[i].key}, CutAt(chain, i))
  {
    var less := values - {chain[i].key};
    forall j | 0 <= j < |CutAt(chain, i)|
      ensures CutAt(chain, i)[j].key in less && less[CutAt(chain, i)[j].key] == CutAt(chain, i)[j]
    {
      var k := if j < i then j else j + 1;
      assert CutAt(chain, i)[j] == chain[k] && chain[k] != chain[i];
    }
    forall k | k in less ensures less[k] in CutAt(chain, i) {
      var j :| 0 <= j < |chain| && chain[j] == values[k];
      assert CutAt(chain, i)[if j < i then j else j - 1] == chain[j];
    }
  }

  lemma {:induction false} KeyedSize<K, V>(values: map<K, Container<K, V>>, chain: seq<Container<K, V>>)
    requires Keyed(values, chain) && forall j, k | 0 <= j < k < |chain| :: chain[j] != chain[k]
    ensures |values| == |chain|
  {
    if chain == [] {
      assert values.Keys == {};
    } else {
      var n := |chain| - 1;
      KeyedLess(values, chain, n);
      assert CutAt(chain, n) == chain[..n];
      KeyedSize(values - {chain[n].key}, chain[..n]);
      assert values.Keys == (values - {chain[n].key}).Keys + {chain[n].key};
    }
  }

  lemma CutIsGone<K, V>(s: seq<Container<K, V>>, i: nat)
    requires i < |s| && forall j, k | 0 <= j < k < |s| :: s[j] != s[k]
    ensures s[i] !in CutAt(s, i)
    ensures forall j | 0 <= j < |CutAt(s, i)| :: CutAt(s, i)[j] in s
  {
    forall j | 0 <= j < |s| - 1 ensures CutAt(s, i)[j] != s[i] {
      assert CutAt(s, i)[j] == s[if j < i then j else j + 1];
    }
  }

  class LRUCache<K(==), V> {
    var values: map<K, Container<K, V>>
    var head: Container?<K, V>
    var tail: Container?<K, V>
    var totalCost: int
    var totalCostLimit: int
    var countLimit: int
    /** The containers on the list, oldest first. */
    ghost var chain: seq<Container<K, V>>

    ghost predicate LinksOk()
      reads this, chain
    {
      Linked(chain) && head == At(chain, 0, null) && tail == At(chain, |chain| - 1, null)
    }

    /** The list holds exactly the dictionary's containers, each under its own key. */
    ghost predicate Valid()
      reads this, chain
    {
      LinksOk() && Keyed(values, chain)
    }

    ghost function View(): State<K, V>
      reads this, chain
    {
      State(EntriesOf(chain), totalCost)
    }

    ghost function Limit(): Limits
      reads this
    {
      Limits(totalCostLimit, countLimit)
    }

    constructor (totalCostLimit: int, countLimit: int)
      ensures Valid() && View() == State([], 0) && Limit() == Limits(totalCostLimit, countLimit)
    {
      this.totalCostLimit, this.countLimit := totalCostLimit, countLimit;
      values, head, tail, totalCost, chain := map[], null, null, 0, [];
    }

    /** remove(_ container:) */
    method Unlink(container: Container<K, V>, ghost i: nat)
      requires LinksOk() && i < |chain| && chain[i] == container
      modifies this`head, this`tail, this`chain, chain`prev, chain`next
      ensures LinksOk() && chain == CutAt(old(chain), i) && container.next == null
      ensures EntriesOf(chain) == CutAt(old(EntriesOf(chain)), i)
    {
      hide EntriesOf, CutAt;
      ghost var before, was := chain, EntriesOf(chain);
      assert container.next == At(chain, i + 1, null) && container.prev == At(chain, i - 1, null);
      if head == container {
        head := container.next;
      }
      if tail == container {
        tail := container.prev;
      }
      if container.next != null {
        container.next.prev := container.prev;
      }
      if container.prev != null {
        container.prev.next := container.next;
      }
      container.next := null;
      LinkedOut(before, i);
      assert EntriesOf(before) == was;
      CutEnds(before, i);
      chain := CutAt(before, i);
    }

    /** append(_:) */
    method Link(container: Container<K, V>)
      requires LinksOk() && container !in chain && container.next == null
      modifies this`head, this`tail, this`chain, (if tail == null then {} else {tail})`next, container`prev
      ensures LinksOk() && chain == old(chain) + [container]
      ensures EntriesOf(chain) == old(EntriesOf(chain)) + [EntryOf(container)]
    {
      if head == null {
        head := container;
      }
      container.prev := tail;
      if tail != null {
        tail.next := container;
      }
      tail := container;
      chain := chain + [container];
    }

    lemma KeysAreDistinct()
      requires Keyed(values, chain) && forall i, j | 0 <= i < j < |chain| :: chain[i] != chain[j]
      ensures KeysDiffer(EntriesOf(chain))
    {
      var es := EntriesOf(chain);
      forall j, k | 0 <= j < k < |es| ensures es[j].key != es[k].key {
        assert chain[j] != chain[k];
      }
    }

    /** The dictionary finds a key exactly where the list has its entry. */
    lemma Position(key: K) returns (i: int)
      requires Valid()
      ensures KeysDiffer(EntriesOf(chain))
      ensures key in values ==>
        && 0 <= i < |chain| && chain[i] == values[key] && chain[i].key == key
        && WithoutKey(EntriesOf(chain), key) == CutAt(EntriesOf(chain), i)
        && Find(EntriesOf(chain), key) == Some(EntryOf(chain[i]))
      ensures key !in values ==> WithoutKey(EntriesOf(chain), key) == EntriesOf(chain) && Find(EntriesOf(chain), key) == None
    {
      hide WithoutKey, Find, KeysDiffer, EntriesOf;
      KeysAreDistinct();
      i := 0;
      if key in values {
        i :| 0 <= i < |chain| && chain[i] == values[key];
        WithoutKeyIsCut(EntriesOf(chain), i);
      } else {
        forall j | 0 <= j < |chain| ensures EntriesOf(chain)[j].key != key {
          assert chain[j].key in values;
        }
        WithoutKeyAbsent(EntriesOf(chain), key);
      }
    }

    lemma MoveIsKeyed(i: nat)
      requires Valid() && i < |chain|
      ensures Keyed(values, CutAt(chain, i) + [chain[i]]) && chain[i] !in CutAt(chain, i)
      ensures var rest := CutAt(chain, i); rest != [] ==> rest[|rest| - 1] in chain
    {
      KeyedMoved(values, chain, i);
      CutIsGone(chain, i);
    }

    /** Unlink and link again: the container becomes the newest. */
    method MoveToEnd(container: Container<K, V>, ghost i: nat)
      requires Valid() && i < |chain| && chain[i] == container
      modifies this`head, this`tail, this`chain, chain`prev, chain`next
      ensures Valid() && chain == CutAt(old(chain), i) + [container]
      ensures EntriesOf(chain) == CutAt(old(EntriesOf(chain)), i) + [old(EntryOf(container))]
    {
      hide Linked, EntriesOf, CutAt, Keyed;
      ghost var before, was := chain, EntriesOf(chain);
      MoveIsKeyed(i);
      assert container in before;
      Unlink(container, i);
      ghost var cut := EntriesOf(chain);
      assert cut == CutAt(was, i);
      assert tail != null ==> tail in before;
      Link(container);
      assert EntriesOf(chain) == cut + [EntryOf(container)];
    }

    /** The locked part of setValue for a value that is not nil. */
    method SetLocked(value: V, key: K, cost: int)
      requires Valid()
      modifies this`values, this`head, this`tail, this`totalCost, this`chain, chain
      ensures Valid() && View() == AfterSet(old(View()), key, value, cost)
      ensures forall i | 0 <= i < |chain| :: chain[i] in old(chain) || fresh(chain[i])
    {
      hide Linked, Keyed, EntriesOf, WithoutKey, Find;
      ghost var i := Position(key);
      if key in values {
        SetKnown(value, key, cost, i);
      } else {
        SetUnknown(value, key, cost);
      }
    }

    /** Overwrites what one container holds. */
    method Overwrite(container: Container<K, V>, value: V, cost: int, ghost i: nat)
      requires Valid() && i < |chain| && chain[i] == container
      modifies container`value, container`cost
      ensures Valid() && container.value == value && container.cost == cost
      ensures EntriesOf(chain) == old(EntriesOf(chain))[i := Entry(container.key, value, cost)]
    {
      container.value := value;
      container.cost := cost;
    }

    /** The branch of setValue for a key the cache has. */
    method SetKnown(value: V, key: K, cost: int, ghost i: nat)
      requires Valid() && key in values && i < |chain| && chain[i] == values[key] && chain[i].key == key
      modifies this`head, this`tail, this`totalCost, this`chain, chain
      ensures Valid() && chain == CutAt(old(chain), i) + [values[key]]
      ensures EntriesOf(chain) == CutAt(old(EntriesOf(chain)), i) + [Entry(key, value, cost)]
      ensures totalCost == old(totalCost) - old(chain[i].cost) + cost
    {
      hide Linked, Keyed, EntriesOf;
      ghost var before := EntriesOf(chain);
      var container := values[key];
      assert container in chain;
      totalCost := totalCost - container.cost;
      Overwrite(container, value, cost, i);
      assert CutAt(EntriesOf(chain), i) == CutAt(before, i);
      MoveToEnd(container, i);
      totalCost := totalCost + cost;
    }

    /** The branch for a key it has not. */
    method SetUnknown(value: V, key: K, cost: int)
      requires Valid() && key !in values
      modifies this`values, this`head, this`tail, this`totalCost, this`chain, chain`next
      ensures Valid() && |chain| == |old(chain)| + 1 && chain[..|old(chain)|] == old(chain) && fresh(chain[|old(chain)|])
      ensures EntriesOf(chain) == old(EntriesOf(chain)) + [Entry(key, value, cost)]
      ensures totalCost == old(totalCost) + cost
    {
      hide Linked, Keyed;
      var container := new Container(value, cost, key);
      KeyedMore(values, chain, container);
      values := values[key := container];
      hide EntriesOf;
      Link(container);
      totalCost := totalCost + cost;
    }

    /** value(forKey:) */
    method Fetch(key: K) returns (r: Option<V>)
      requires Valid()
      modifies this`head, this`tail, this`chain, chain`prev, chain`next
      ensures Valid() && View() == AfterValue(old(View()), key)
      ensures r == (var e := Find(old(View()).entries, key); if e.Some? then Some(e.value.value) else None)
    {
      hide Linked, Keyed, EntriesOf, WithoutKey, Find;
      ghost var i := Position(key);
      if key in values {
        var container := values[key];
        MoveToEnd(container, i);
        return Some(container.value);
      }
      return None;
    }

    /** removeValue(forKey:) */
    method RemoveValue(key: K) returns (r: Option<V>)
      requires Valid()
      modifies this`values, this`head, this`tail, this`totalCost, this`chain, chain`prev, chain`next
      ensures Valid() && View() == AfterRemove(old(View()), key)
      ensures r == (var e := Find(old(View()).entries, key); if e.Some? then Some(e.value.value) else None)
    {
      hide Linked, Keyed, EntriesOf, WithoutKey, Find;
      ghost var i := Position(key);
      if key !in values {
        return None;
      }
      var container := values[key];
      Drop(container, i);
      return Some(container.value);
    }

    /** Takes a container out of the dictionary, the list and the total. */
    method Drop(container: Container<K, V>, ghost i: nat)
      requires Valid() && i < |chain| && chain[i] == container
      modifies this`values, this`head, this`tail, this`totalCost, this`chain, chain`prev, chain`next
      ensures Valid() && chain == CutAt(old(chain), i)
      ensures EntriesOf(chain) == CutAt(old(EntriesOf(chain)), i)
      ensures totalCost == old(totalCost) - container.cost && values == old(values) - {container.key}
    {
      hide Linked, Keyed, EntriesOf;
      DropIsKeyed(i);
      values := values - {container.key};
      Unlink(container, i);
      totalCost := totalCost - container.cost;
    }

    lemma DropIsKeyed(i: nat)
      requires Valid() && i < |chain|
      ensures Keyed(values - {chain[i].key}, CutAt(chain, i))
    {
      KeyedLess(values, chain, i);
    }

    /** removeAllValues; totalCost is left as it is. */
    method RemoveAllValues()
      requires Valid()
      modifies this`values, this`head, this`tail, this`chain
      ensures Valid() && View() == AfterRemoveAll(old(View()))
    {
      values := map[];
      head, tail, chain := null, null, [];
    }

    /** allValues: from oldest to newest */
    method AllValues() returns (all: seq<V>)
      requires Valid()
      ensures |all| == |View().entries| && forall i | 0 <= i < |all| :: all[i] == View().entries[i].value
    {
      all := [];
      var next := head;
      while next != null
        invariant |all| <= |chain| && next == At(chain, |all|, null)
        invariant forall i | 0 <= i < |all| :: all[i] == chain[i].value
        decreases |chain| - |all|
      {
        all := all + [next.value];
        next := next.next;
      }
    }

    /** clean: evicts from the oldest end until both limits hold or nothing is left. */
    method Clean() returns (ghost evicted: nat)
      requires Valid()
      modifies this`values, this`head, this`tail, this`totalCost, this`chain, chain`prev, chain`next
      ensures Valid() && evicted == CleanCount(old(View()), Limit()) && View() == AfterClean(old(View()), Limit())
      ensures IsShortest(old(View()), Limit(), evicted) && View() == Evicted(old(View()), evicted)
    {
      hide Linked, Keyed, EntriesOf, CleanCount, Evicted, IsShortest;
      ghost var start, limits := View(), Limit();
      evicted := 0;
      CleanCountIsShortest(start, limits);
      NothingEvicted(start);
      SizesAgree();
      while (totalCost > totalCostLimit || |values| > countLimit) && head != null
        invariant Valid() && evicted <= |start.entries| && View() == Evicted(start, evicted)
        invariant CleanCount(start, limits) == evicted + CleanCount(View(), limits)
        invariant forall j | 0 <= j < |chain| :: chain[j] in old(chain)
        invariant |values| == |chain| == |start.entries| - evicted
        invariant head == At(chain, 0, null)
        decreases |chain|
      {
        EvictOldest(start, evicted);
        evicted := evicted + 1;
      }
      CleanDone(View(), limits);
    }

    /** The body of the loop in clean. */
    method EvictOldest(ghost start: State<K, V>, ghost n: nat)
      requires Valid() && head != null && n < |start.entries| && View() == Evicted(start, n) && !Fits(View(), Limit())
      modifies this`values, this`head, this`tail, this`totalCost, this`chain, chain`prev, chain`next
      ensures Valid() && View() == Evicted(start, n + 1)
      ensures CleanCount(old(View()), Limit()) == 1 + CleanCount(View(), Limit())
      ensures |values| == |chain| == |start.entries| - (n + 1) && head == At(chain, 0, null)
      ensures forall j | 0 <= j < |chain| :: chain[j] in old(chain)
    {
      hide Linked, Keyed, EntriesOf, CleanCount, Evicted;
      SizesAgree();
      CleanRound(start, Limit(), n);
      Drop(head, 0);
      SizesAgree();
    }

    /** The dictionary has as many keys as the list has containers. */
    lemma SizesAgree()
      requires Valid()
      ensures |values| == |chain| == |View().entries|
      ensures head == At(chain, 0, null)
    {
      KeyedSize(values, chain);
    }

    /** setValue(_:forKey:cost:) without interference between its two critical sections */
    method SetValue(value: Option<V>, key: K, cost: int)
      requires Valid()
      modifies this`values, this`head, this`tail, this`totalCost, this`chain, chain
      ensures Valid()
      ensures View() == if value.None? then AfterRemove(old(View()), key)
                        else AfterClean(AfterSet(old(View()), key, value.value, cost), Limit())
    {
      if value.None? {
        var _ := RemoveValue(key);
        return;
      }
      SetLocked(value.value, key, cost);
      ghost var _ := Clean();
    }
  }
}
