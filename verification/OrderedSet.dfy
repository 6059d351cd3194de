/** OrderedSet.swift on the heap: a dictionary of indices beside an array of pointers that
    several sets may share until one of them is changed. */
module OrderedSetModel {
  import opened Collections
  import opened OrderedSetSpec

  /** What an UnsafeMutablePointer points to. */
  class Cell<T> {
    var pointee: T

    constructor (pointee: T)
      ensures this.pointee == pointee
    {
      this.pointee := pointee;
    }
  }

  /** The shared storage.  owners stands for the references counted by isKnownUniquelyReferenced. */
  class SequencedContents<T> {
    var pointers: seq<Cell<T>>
    var owners: set<object>

    constructor ()
      ensures pointers == [] && owners == {}
    {
      pointers, owners := [], {};
    }

    ghost predicate CellsDiffer()
      reads this
    {
      forall i, j | 0 <= i < j < |pointers| :: pointers[i] != pointers[j]
    }

    ghost function Pointees(): (r: seq<T>)
      reads this, pointers
      ensures |r| == |pointers| && forall i | 0 <= i < |pointers| :: r[i] == pointers[i].pointee
    {
      seq(|pointers|, i requires 0 <= i < |pointers| reads this, pointers => pointers[i].pointee)
    }

    /** copy(): new cells for all elements */
    method Copy() returns (copy: SequencedContents<T>)
      ensures fresh(copy) && fresh(copy.pointers) && copy.owners == {}
      ensures copy.CellsDiffer() && copy.Pointees() == Pointees()
    {
      copy := new SequencedContents();
      for i := 0 to |pointers|
        invariant |copy.pointers| == i && fresh(copy.pointers) && copy.owners == {} && copy.CellsDiffer()
        invariant forall k | 0 <= k < i :: copy.pointers[k].pointee == pointers[k].pointee
      {
        var cell := new Cell(pointers[i].pointee);
        copy.pointers := copy.pointers + [cell];
      }
    }
  }

  class OrderedSet<T(==)> {
    var contents: map<T, int>
    var sequencedContents: SequencedContents<T>

    ghost predicate StorageOk()
      reads this, sequencedContents
    {
      this in sequencedContents.owners && sequencedContents.CellsDiffer()
    }

    ghost function View(): (r: seq<T>)
      reads this, sequencedContents, sequencedContents.pointers
      ensures |r| == |sequencedContents.pointers|
    {
      sequencedContents.Pointees()
    }

    ghost predicate Valid()
      reads this, sequencedContents, sequencedContents.pointers
    {
      StorageOk() && Mirrors(contents, View())
    }

    /** The cells this set may write to: its own if it owns the storage alone, else none. */
    ghost function OwnCells(): set<object>
      reads this, sequencedContents
    {
      if sequencedContents.owners == {this} then set c | c in sequencedContents.pointers else {}
    }

    constructor ()
      ensures Valid() && View() == [] && fresh(sequencedContents) && sequencedContents.owners == {this}
    {
      contents := map[];
      sequencedContents := new SequencedContents();
      new;
      sequencedContents.owners := {this};
    }

    /** init(sequence:) */
    constructor From(objects: seq<T>)
      ensures Valid() && View() == Added([], objects)
      ensures fresh(sequencedContents) && fresh(sequencedContents.pointers) && sequencedContents.owners == {this}
    {
      contents := map[];
      sequencedContents := new SequencedContents();
      new;
      hide Mirrors, Added;
      sequencedContents.owners := {this};
      MirrorsNothing<T>();
      AppendEach(objects);
    }

    /** The loop of init(sequence:). */
    method AppendEach(objects: seq<T>)
      requires Valid() && sequencedContents.owners == {this} && View() == []
      modifies this`contents, sequencedContents`pointers
      ensures Valid() && View() == Added([], objects)
      ensures fresh(OwnCells() - old(OwnCells()))
    {
      hide Mirrors, Added, Appended;
      NothingAdded<T>([], 0);
      assert objects[..0] == [];
      for k := 0 to |objects|
        invariant Valid() && View() == Added([], objects[..k])
        invariant fresh(OwnCells() - old(OwnCells()))
      {
        AddedIsAppended(objects, k);
        AppendFirst(objects[k]);
      }
      assert objects[..|objects|] == objects;
    }

    /** The body of the loop in init(sequence:). */
    method AppendFirst(object': T)
      requires Valid() && sequencedContents.owners == {this}
      modifies this`contents, sequencedContents`pointers
      ensures Valid() && View() == Appended(old(View()), object')
      ensures fresh(OwnCells() - old(OwnCells()))
    {
      hide Mirrors;
      MembersAreKeys(contents, View(), object');
      if object' !in contents {
        MirrorsSnoc(contents, View(), object');
        contents := contents[object' := |contents|];
        AppendPointer(object');
      }
    }

    /** Assigning a set to another variable shares the storage. */
    constructor Shared(original: OrderedSet<T>)
      requires original.Valid()
      modifies original.sequencedContents`owners
      ensures Valid() && View() == original.View() && original.Valid()
      ensures original.View() == old(original.View())
      ensures sequencedContents == original.sequencedContents
      ensures sequencedContents.owners == old(original.sequencedContents.owners) + {this}
    {
      contents := original.contents;
      sequencedContents := original.sequencedContents;
      new;
      sequencedContents.owners := sequencedContents.owners + {this};
    }

    /** Before any change: replaces shared storage by a copy of its own. */
    method MakeUnique()
      requires StorageOk()
      modifies this`sequencedContents, sequencedContents`owners
      ensures StorageOk() && sequencedContents.owners == {this} && View() == old(View())
      ensures old(sequencedContents.owners) == {this} ==> sequencedContents == old(sequencedContents)
      ensures old(sequencedContents.owners) != {this} ==>
        && fresh(sequencedContents) && fresh(sequencedContents.pointers)
        && old(sequencedContents).owners == old(sequencedContents.owners) - {this}
    {
      if sequencedContents.owners != {this} {
        var copy := sequencedContents.Copy();
        sequencedContents.owners := sequencedContents.owners - {this};
        copy.owners := {this};
        sequencedContents := copy;
      }
    }

    /** index(of:) */
    method IndexOf(x: T) returns (i: int)
      requires Valid()
      ensures i == Position(View(), x)
    {
      MembersAreKeys(contents, View(), x);
      i := if x in contents then contents[x] else -1;
    }

    /** What every operation leaves of the storage it found: shared storage keeps its pointers
        and at most loses this owner, and what this set owns afterwards is its own or new. */
    twostate predicate KeepsShares(storage: SequencedContents<T>)
      reads this, sequencedContents, storage
    {
      && storage == old(sequencedContents)
      && (sequencedContents == storage || fresh(sequencedContents))
      && fresh(OwnCells() - old(OwnCells()))
      && (old(storage.owners) != {this} ==> storage.pointers == old(storage.pointers))
      && (sequencedContents == storage ==> storage.owners == old(storage.owners))
      && (sequencedContents != storage ==>
            && old(storage.owners) != {this}
            && storage.owners == old(storage.owners) - {this}
            && sequencedContents.owners == {this})
    }

    /** Allocates a cell at the end of the storage. */
    method AppendPointer(x: T)
      requires StorageOk() && sequencedContents.owners == {this}
      modifies sequencedContents`pointers
      ensures StorageOk() && View() == old(View()) + [x]
      ensures fresh(OwnCells() - old(OwnCells()))
    {
      var pointer := new Cell(x);
      sequencedContents.pointers := sequencedContents.pointers + [pointer];
    }

    /** Takes a cell out of the storage. */
    method RemovePointer(index: nat)
      requires StorageOk() && sequencedContents.owners == {this} && index < |View()|
      modifies sequencedContents`pointers
      ensures StorageOk() && View() == CutAt(old(View()), index)
      ensures OwnCells() <= old(OwnCells())
    {
      sequencedContents.pointers := sequencedContents.pointers[..index] + sequencedContents.pointers[index + 1..];
    }

    /** Writes through the pointer at an index. */
    method SetPointee(index: nat, x: T)
      requires StorageOk() && sequencedContents.owners == {this} && index < |View()|
      modifies sequencedContents.pointers[index]
      ensures StorageOk() && View() == old(View())[index := x]
    {
      sequencedContents.pointers[index].pointee := x;
    }

    /** The branch of append(_:) for a new object. */
    method AppendNew(x: T)
      requires Valid() && x !in contents
      modifies this, sequencedContents
      ensures Valid() && View() == old(View()) + [x] && KeepsShares(old(sequencedContents))
      ensures sequencedContents.owners == {this} && contents == old(contents)[x := |old(contents)|]
    {
      hide Mirrors;
      MirrorsSnoc(contents, View(), x);
      contents := contents[x := |contents|];
      MakeUnique();
      AppendPointer(x);
    }

    /** remove(_:) */
    method Remove(x: T) returns (index: int)
      requires Valid()
      modifies this, sequencedContents
      ensures Valid() && View() == Without(old(View()), x) && KeepsShares(old(sequencedContents))
      ensures index == Position(old(View()), x) && x !in contents
    {
      hide Mirrors, Without, CutAt, Position, ShiftedFrom;
      ghost var before := View();
      MembersAreKeys(contents, before, x);
      MirrorsIsDistinct(contents, before);
      if x !in contents {
        WithoutAbsent(before, x);
        return -1;
      }
      index := contents[x];
      WithoutIsCut(before, index);
      RemoveMember(x, index);
    }

    /** The branch of remove(_:) for a member. */
    method RemoveMember(x: T, index: nat)
      requires Valid() && index < |View()| && View()[index] == x && x in contents
      modifies this, sequencedContents
      ensures Valid() && View() == CutAt(old(View()), index) && KeepsShares(old(sequencedContents)) && x !in contents
    {
      hide Mirrors, CutAt, ShiftedFrom, SequencedContents.Pointees;
      MirrorsCut(contents, View(), index);
      ShiftedKeys(contents - {x}, index);
      contents := contents - {x};
      TakeOut(index);
      ShiftIndices(index);
    }

    /** The storage without the pointer at an index */
    method TakeOut(index: nat)
      requires StorageOk() && index < |View()|
      modifies this`sequencedContents, sequencedContents
      ensures StorageOk() && View() == CutAt(old(View()), index) && KeepsShares(old(sequencedContents))
    {
      hide CutAt;
      MakeUnique();
      RemovePointer(index);
    }

    /** The loop of remove(_:): it runs over the dictionary it found, in any order. */
    method ShiftIndices(index: int)
      modifies this`contents
      ensures contents == ShiftedFrom(old(contents), index)
    {
      var entries := contents;
      var remaining := entries.Keys;
      while remaining != {}
        invariant remaining <= entries.Keys == contents.Keys
        invariant forall y | y in entries ::
          contents[y] == if y in remaining || entries[y] < index then entries[y] else entries[y] - 1
        decreases |remaining|
      {
        var object' :| object' in remaining;
        remaining := remaining - {object'};
        var i := entries[object'];
        if i < index {
          continue;
        }
        contents := contents[object' := i - 1];
      }
    }

    /** swapObject(_:with:) */
    method SwapObject(first: T, second: T)
      requires Valid()
      modifies this, sequencedContents`owners, OwnCells()
      ensures Valid() && View() == Swapped(old(View()), first, second) && KeepsShares(old(sequencedContents))
      ensures contents.Keys == old(contents.Keys)
    {
      hide Mirrors, Position;
      ghost var before := View();
      MembersAreKeys(contents, before, first);
      MembersAreKeys(contents, before, second);
      if first in contents {
        var firstPosition := contents[first];
        if second in contents {
          var secondPosition := contents[second];
          MirrorsSwap(contents, before, firstPosition, secondPosition);
          contents := contents[first := secondPosition];
          contents := contents[second := firstPosition];
          MakeUnique();
          SetPointee(firstPosition, second);
          SetPointee(secondPosition, first);
        }
      }
    }

    /** append(_:).  A member is taken out and put back where it was. */
    method Append(x: T)
      requires Valid()
      modifies this, sequencedContents, OwnCells()
      ensures Valid() && View() == Appended(old(View()), x) && KeepsShares(old(sequencedContents))
      ensures x !in old(contents) ==>
        sequencedContents.owners == {this} && contents == old(contents)[x := |old(contents)|]
      decreases if x in contents then 2 else 0
    {
      hide Mirrors, Position, Without, InsertAt, CutAt;
      ghost var before := View();
      MembersAreKeys(contents, before, x);
      if x in contents {
        var lastIndex := contents[x];
        MirrorsIsDistinct(contents, before);
        WithoutIsCut(before, lastIndex);
        PutBack(before, lastIndex);
        var _ := Remove(x);
        Insert(x, lastIndex);
      } else {
        AppendNew(x);
      }
    }

    /** insert(_:at:); an index out of bounds is a fatal error in the source. */
    method Insert(x: T, index: nat)
      requires Valid() && index <= |View()|
      modifies this, sequencedContents, OwnCells()
      ensures Valid() && View() == Inserted(old(View()), x, index) && KeepsShares(old(sequencedContents))
      decreases 1
    {
      hide Mirrors, Position, Swapped, InsertAt;
      ghost var before := View();
      MembersAreKeys(contents, before, x);
      if x in contents {
        return;
      }
      Append(x);
      SwapDown(x, index, before);
    }

    /** The loop in insert(_:at:): the object appended last goes down to the index. */
    method SwapDown(x: T, index: nat, ghost before: seq<T>)
      requires Valid() && index <= |before| && View() == before + [x]
      modifies this, sequencedContents`owners, OwnCells()
      ensures Valid() && View() == InsertAt(before, index, x) && KeepsShares(old(sequencedContents))
    {
      hide Mirrors, InsertAt;
      InsertedLast(before, x);
      var i := |sequencedContents.pointers| - 1;
      while i > index
        invariant index <= i <= |before|
        invariant Valid() && View() == InsertAt(before, i, x)
        invariant KeepsShares(old(sequencedContents))
      {
        i := i - 1;
        InsertStep(before, i, x);
        SwapWithNext(i);
      }
    }

    /** The body of the loop in insert(_:at:): exchanges two neighbours. */
    method SwapWithNext(i: nat)
      requires Valid() && i + 1 < |View()|
      modifies this, sequencedContents`owners, OwnCells()
      ensures Valid() && KeepsShares(old(sequencedContents))
      ensures View() == old(View())[i := old(View())[i + 1]][i + 1 := old(View())[i]]
    {
      hide Mirrors, Swapped;
      MirrorsIsDistinct(contents, View());
      SwapIs(View(), i);
      SwapObject(sequencedContents.pointers[i].pointee, sequencedContents.pointers[i + 1].pointee);
    }

    /** moveObject(_:toIndex:); an index out of bounds is a fatal error in the source. */
    method MoveObject(x: T, index: nat)
      requires Valid() && index < |View()|
      modifies this, sequencedContents`owners, OwnCells()
      ensures Valid() && View() == Moved(old(View()), x, index) && KeepsShares(old(sequencedContents))
    {
      hide Mirrors, Position, InsertAt, CutAt;
      ghost var before := View();
      MembersAreKeys(contents, before, x);
      if x in contents {
        var position := contents[x];
        if position == index {
          MovedNowhere(before, position);
          return;
        }
        MakeUnique();
        MoveAlong(x, position, index, before);
      }
    }

    /** The loop of moveObject(_:toIndex:), on storage of its own. */
    method MoveAlong(x: T, position: nat, index: nat, ghost before: seq<T>)
      requires Valid() && sequencedContents.owners == {this} && View() == before
      requires position < |before| && index < |before| && before[position] == x && position != index
      modifies this`contents, OwnCells()
      ensures Valid() && View() == InsertAt(CutAt(before, position), index, x)
    {
      hide Mirrors, InsertAt, CutAt;
      MovedNowhere(before, position);
      var adjustment := if position > index then -1 else 1;
      var currentIndex := position;
      while currentIndex != index
        invariant 0 <= currentIndex < |before|
        invariant if adjustment == 1 then currentIndex <= index else index <= currentIndex
        invariant Valid()
        invariant View() == InsertAt(CutAt(before, position), currentIndex, x)
        decreases if adjustment == 1 then index - currentIndex else currentIndex - index
      {
        var nextIndex := currentIndex + adjustment;
        MoveStep(CutAt(before, position), currentIndex, nextIndex, x);
        SwapAdjacent(currentIndex, nextIndex);
        currentIndex := currentIndex + adjustment;
      }
    }

    /** The body of the loop in moveObject. */
    method SwapAdjacent(currentIndex: nat, nextIndex: nat)
      requires Valid() && sequencedContents.owners == {this}
      requires currentIndex < |View()| && nextIndex < |View()|
      modifies this`contents, OwnCells()
      ensures Valid()
      ensures View() == old(View())[currentIndex := old(View())[nextIndex]][nextIndex := old(View())[currentIndex]]
    {
      hide Mirrors;
      ghost var now := View();
      var firstObject := sequencedContents.pointers[currentIndex].pointee;
      var secondObject := sequencedContents.pointers[nextIndex].pointee;
      MirrorsSwap(contents, now, currentIndex, nextIndex);
      SetPointee(currentIndex, secondObject);
      SetPointee(nextIndex, firstObject);
      contents := contents[firstObject := nextIndex];
      contents := contents[secondObject := currentIndex];
    }

    /** Allocates a cell in the midst of the storage. */
    method InsertPointer(x: T, index: nat)
      requires StorageOk() && sequencedContents.owners == {this} && index <= |View()|
      modifies sequencedContents`pointers
      ensures StorageOk() && View() == InsertAt(old(View()), index, x)
      ensures fresh(OwnCells() - old(OwnCells()))
    {
      var pointer := new Cell(x);
      sequencedContents.pointers := sequencedContents.pointers[..index] + [pointer] + sequencedContents.pointers[index..];
    }

    /** The body of the loop in the bulk insertion, for a new object. */
    method InsertOne(x: T, seqIdx: nat)
      requires StorageOk() && sequencedContents.owners == {this}
      requires x !in contents && MirrorsTo(contents, View(), seqIdx)
      modifies this`contents, sequencedContents`pointers
      ensures StorageOk() && sequencedContents.owners == {this} && fresh(OwnCells() - old(OwnCells()))
      ensures seqIdx <= |old(View())| && View() == InsertAt(old(View()), seqIdx, x)
      ensures MirrorsTo(contents, View(), seqIdx + 1)
    {
      hide MirrorsTo, InsertAt;
      MirrorsToBound(contents, View(), seqIdx);
      MirrorsToInsert(contents, View(), seqIdx, x);
      InsertPointer(x, seqIdx);
      contents := contents[x := seqIdx];
    }

    /** insert(_:at:) for a sequence of objects */
    method InsertAll(objects: seq<T>, index: nat)
      requires Valid() && index <= |View()|
      modifies this, sequencedContents
      ensures Valid() && View() == InsertedAll(old(View()), objects, index) && KeepsShares(old(sequencedContents))
    {
      hide Mirrors, MirrorsTo, Added, InsertedAll, SequencedContents.Pointees;
      MirrorsToAll(contents, View());
      MakeUnique();
      var addedObjectCount := AddAll(objects, index);
      FixIndices(index + addedObjectCount);
    }

    /** The loop of the bulk insertion over the objects. */
    method AddAll(objects: seq<T>, index: nat) returns (addedObjectCount: nat)
      requires StorageOk() && sequencedContents.owners == {this}
      requires index <= |View()| && MirrorsTo(contents, View(), index)
      modifies this`contents, sequencedContents`pointers
      ensures StorageOk() && fresh(OwnCells() - old(OwnCells()))
      ensures View() == InsertedAll(old(View()), objects, index)
      ensures MirrorsTo(contents, View(), index + addedObjectCount)
    {
      hide MirrorsTo, Added, InsertedAll, InsertAt;
      ghost var before := View();
      NothingAdded(before, index);
      addedObjectCount := 0;
      for k := 0 to |objects|
        invariant addedObjectCount == |Added(before, objects[..k])|
        invariant StorageOk() && fresh(OwnCells() - old(OwnCells()))
        invariant View() == InsertedAll(before, objects[..k], index)
        invariant MirrorsTo(contents, View(), index + addedObjectCount)
      {
        var object' := objects[k];
        AddNext(before, objects, k, index);
        MirrorsToMembers(contents, View(), index + addedObjectCount, object');
        if object' !in contents {
          InsertOne(object', index + addedObjectCount);
          addedObjectCount := addedObjectCount + 1;
        }
      }
      assert objects[..|objects|] == objects;
    }

    /** The last loop of insert(_:at:): the shifted objects get their new indices. */
    method FixIndices(from: nat)
      requires StorageOk() && MirrorsTo(contents, View(), from)
      modifies this`contents
      ensures Valid()
    {
      hide MirrorsTo;
      MirrorsToBound(contents, View(), from);
      for i := from to |contents|
        invariant i <= |View()| == |contents| && MirrorsTo(contents, View(), i)
      {
        MirrorsToNext(contents, View(), i);
        contents := contents[sequencedContents.pointers[i].pointee := i];
        MirrorsToBound(contents, View(), i + 1);
      }
      MirrorsToAll(contents, View());
    }

    /** Two sets that share nothing. */
    ghost predicate Apart(other: OrderedSet<T>)
      reads this, other, sequencedContents, other.sequencedContents
    {
      && other != this && other.sequencedContents != sequencedContents
      && forall i, j | 0 <= i < |sequencedContents.pointers| && 0 <= j < |other.sequencedContents.pointers| ::
           sequencedContents.pointers[i] != other.sequencedContents.pointers[j]
    }

    /** One removal of removeAllObjects(where:). */
    method Transfer(x: T, removed: OrderedSet<T>)
      requires Valid() && removed.Valid() && Apart(removed) && removed.sequencedContents.owners == {removed}
      modifies this, sequencedContents, removed, removed.sequencedContents, removed.OwnCells()
      ensures Valid() && removed.Valid() && Apart(removed)
      ensures View() == Without(old(View()), x) && KeepsShares(old(sequencedContents))
      ensures removed.View() == Appended(old(removed.View()), x) && removed.sequencedContents.owners == {removed}
      ensures removed.sequencedContents == old(removed.sequencedContents)
      ensures fresh(removed.OwnCells() - old(removed.OwnCells()))
    {
      hide Mirrors, Without, Appended;
      var _ := Remove(x);
      assert removed.View() == old(removed.View()) && removed.Valid() && Apart(removed);
      ghost var kept := View();
      removed.Append(x);
      assert View() == kept;
    }

    /** removeAllObjects(where:): the iterator runs over the pointers found at the start. */
    method RemoveAllWhere(shouldBeRemoved: T -> bool) returns (removedObjects: OrderedSet<T>)
      requires Valid()
      modifies this, sequencedContents
      ensures Valid() && View() == Filtered(old(View()), Not(shouldBeRemoved)) && KeepsShares(old(sequencedContents))
      ensures fresh(removedObjects) && removedObjects.Valid()
      ensures removedObjects.View() == Filtered(old(View()), shouldBeRemoved)
      ensures removedObjects.sequencedContents.owners == {removedObjects}
    {
      hide Mirrors, Filtered, Remaining, Without, Appended;
      ghost var before := View();
      MirrorsIsDistinct(contents, before);
      FilterEnds(before, shouldBeRemoved);
      removedObjects := new OrderedSet();
      var pointers := sequencedContents.pointers;
      for k := 0 to |pointers|
        invariant Valid() && View() == Remaining(before, k, shouldBeRemoved) && KeepsShares(old(sequencedContents))
        invariant fresh(removedObjects) && removedObjects.Valid() && fresh(removedObjects.sequencedContents)
        invariant removedObjects.sequencedContents.owners == {removedObjects} && fresh(removedObjects.OwnCells())
        invariant removedObjects.View() == Filtered(before[..k], shouldBeRemoved)
        invariant Apart(removedObjects)
        invariant forall j | 0 <= j < |pointers| :: pointers[j].pointee == before[j]
      {
        var object' := pointers[k].pointee;
        RemainingNext(before, k, shouldBeRemoved);
        RemovedNext(before, k, shouldBeRemoved);
        if shouldBeRemoved(object') {
          Transfer(object', removedObjects);
        }
      }
      assert before[..|before|] == before;
    }

    /** == */
    method Equals(other: OrderedSet<T>) returns (equal: bool)
      requires Valid() && other.Valid()
      ensures equal <==> View() == other.View()
    {
      if |contents| != |other.contents| {
        return false;
      }
      SameDictionarySameOrder(contents, View(), other.contents, other.View());
      for i := 0 to |contents|
        invariant forall k | 0 <= k < i :: View()[k] in other.contents && other.contents[View()[k]] == contents[View()[k]]
      {
        var object' := sequencedContents.pointers[i].pointee;
        assert object' == View()[i] && contents[object'] == i;
        if object' !in other.contents || contents[object'] != other.contents[object'] {
          return false;
        }
      }
      return true;
    }
  }

  /** Appending a member that is not last leaves it where it is. */
  method AppendMember<T(==)>(first: T, second: T) returns (objects: OrderedSet<T>)
    requires first != second
    ensures fresh(objects) && objects.Valid() && objects.View() == Appended([first, second], first) == [first, second]
  {
    hide Mirrors, Added, Appended;
    TwoAdded(first, second);
    objects := new OrderedSet.From([first, second]);
    objects.Append(first);
  }
}
