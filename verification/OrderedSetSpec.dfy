/** Ordered sets as duplicate-free sequences, and the element-to-index dictionary that mirrors one. */
module OrderedSetSpec {
  import opened Collections

  /** The dictionary and the sequence are mutual inverses. */
  ghost predicate Mirrors<T>(contents: map<T, int>, s: seq<T>) {
    && |contents| == |s|
    && (forall i | 0 <= i < |s| :: s[i] in contents && contents[s[i]] == i)
    && (forall x | x in contents :: 0 <= contents[x] < |s| && s[contents[x]] == x)
  }

  lemma MirrorsIsDistinct<T>(contents: map<T, int>, s: seq<T>)
    requires Mirrors(contents, s)
    ensures Distinct(s) && forall x :: x in contents <==> x in s
  {
  }

  // ---------- What the operations mean ----------

  function Without<T(==)>(s: seq<T>, x: T): seq<T> {
    if s == [] then [] else (if s[0] == x then [] else [s[0]]) + Without(s[1..], x)
  }

  /** Appending a member keeps the order. */
  function Appended<T(==)>(s: seq<T>, x: T): seq<T> {
    if x in s then s else s + [x]
  }

  function Inserted<T(==)>(s: seq<T>, x: T, i: nat): seq<T>
    requires i <= |s|
  {
    if x in s then s else InsertAt(s, i, x)
  }

  /** The objects not yet in s, each at its first occurrence. */
  function Added<T(==)>(s: seq<T>, objects: seq<T>): seq<T> {
    if objects == [] then [] else
    var before, last := Added(s, objects[..|objects| - 1]), objects[|objects| - 1];
    if last in s || last in before then before else before + [last]
  }

  function InsertedAll<T(==)>(s: seq<T>, objects: seq<T>, i: nat): seq<T>
    requires i <= |s|
  {
    s[..i] + Added(s, objects) + s[i..]
  }

  function Filtered<T>(s: seq<T>, p: T -> bool): seq<T> {
    if s == [] then [] else
    Filtered(s[..|s| - 1], p) + (if p(s[|s| - 1]) then [s[|s| - 1]] else [])
  }

  function Not<T>(p: T -> bool): T -> bool {
    x => !p(x)
  }

  ghost function Position<T>(s: seq<T>, x: T): (i: int)
    ensures x in s ==> 0 <= i < |s| && s[i] == x
    ensures x !in s ==> i == -1
  {
    if x in s then var i :| 0 <= i < |s| && s[i] == x; i else -1
  }

  ghost function Swapped<T>(s: seq<T>, a: T, b: T): seq<T> {
    if a in s && b in s then s[Position(s, a) := b][Position(s, b) := a] else s
  }

  ghost function Moved<T>(s: seq<T>, x: T, i: nat): seq<T>
    requires i < |s|
  {
    if x in s then InsertAt(CutAt(s, Position(s, x)), i, x) else s
  }

  // ---------- Facts about them ----------

  /** What is appended comes last if and only if it is new or was last already. */
  lemma AppendedComesLast<T>(s: seq<T>, x: T)
    ensures var t := Appended(s, x);
      t != [] && (t[|t| - 1] == x <==> x !in s || s[|s| - 1] == x)
  {
  }

  lemma PositionIs<T>(s: seq<T>, i: nat)
    requires Distinct(s) && i < |s|
    ensures s[i] in s && Position(s, s[i]) == i
  {
  }

  lemma {:induction false} WithoutIsCut<T>(s: seq<T>, i: nat)
    requires Distinct(s) && i < |s|
    ensures Without(s, s[i]) == CutAt(s, i)
  {
    if i == 0 {
      WithoutAbsent(s[1..], s[0]);
      assert CutAt(s, 0) == s[1..];
    } else {
      assert forall j, k | 0 <= j < k < |s[1..]| :: s[1..][j] != s[1..][k];
      WithoutIsCut(s[1..], i - 1);
      assert CutAt(s, i) == [s[0]] + CutAt(s[1..], i - 1);
    }
  }

  lemma {:induction false} WithoutAbsent<T>(s: seq<T>, x: T)
    requires forall i | 0 <= i < |s| :: s[i] != x
    ensures Without(s, x) == s
  {
    if s != [] {
      WithoutAbsent(s[1..], x);
    }
  }

  /** All indices from i on go down by one. */
  function ShiftedFrom<T>(contents: map<T, int>, i: int): map<T, int> {
    map x | x in contents :: if contents[x] < i then contents[x] else contents[x] - 1
  }

  lemma ShiftedKeys<T>(contents: map<T, int>, i: int)
    ensures ShiftedFrom(contents, i).Keys == contents.Keys
  {
  }

  /** After taking the object at index i out, the entries of all later objects go down by one. */
  lemma MirrorsCut<T>(contents: map<T, int>, s: seq<T>, i: nat)
    requires Mirrors(contents, s) && i < |s|
    ensures Mirrors(ShiftedFrom(contents - {s[i]}, i), CutAt(s, i))
  {
    var cut, contents' := CutAt(s, i), ShiftedFrom(contents - {s[i]}, i);
    assert contents'.Keys == contents.Keys - {s[i]};
    assert |contents'.Keys| == |contents.Keys| - 1;
    forall j | 0 <= j < |cut| ensures cut[j] in contents' && contents'[cut[j]] == j {
      var k := if j < i then j else j + 1;
      assert cut[j] == s[k];
      assert contents[s[k]] == k && contents[s[i]] == i;
    }
    forall x | x in contents' ensures 0 <= contents'[x] < |cut| && cut[contents'[x]] == x {
      assert s[contents[x]] == x && contents[x] != i;
    }
  }

  lemma MirrorsNothing<T>()
    ensures Mirrors<T>(map[], [])
  {
  }

  lemma MirrorsSnoc<T>(contents: map<T, int>, s: seq<T>, x: T)
    requires Mirrors(contents, s) && x !in contents
    ensures Mirrors(contents[x := |contents|], s + [x])
  {
  }

  lemma MirrorsSwap<T>(contents: map<T, int>, s: seq<T>, i: nat, j: nat)
    requires Mirrors(contents, s) && i < |s| && j < |s|
    ensures Mirrors(contents[s[i] := j][s[j] := i], s[i := s[j]][j := s[i]])
  {
    var contents', s' := contents[s[i] := j][s[j] := i], s[i := s[j]][j := s[i]];
    assert contents'.Keys == contents.Keys;
    assert |contents'.Keys| == |contents.Keys|;
    forall k | 0 <= k < |s'| ensures s'[k] in contents' && contents'[s'[k]] == k {
      assert contents[s[i]] == i && contents[s[j]] == j && contents[s[k]] == k;
    }
    forall x | x in contents' ensures 0 <= contents'[x] < |s'| && s'[contents'[x]] == x {
      assert s[contents[x]] == x;
    }
  }

  lemma MembersAreKeys<T>(contents: map<T, int>, s: seq<T>, x: T)
    requires Mirrors(contents, s)
    ensures x in contents <==> x in s
    ensures x in contents ==> Position(s, x) == contents[x]
  {
    if x in contents {
      assert s[contents[x]] == x;
      var p := Position(s, x);
      assert s[p] in contents && contents[s[p]] == p;
    }
  }

  /** Equal dictionaries mean equal sequences. */
  lemma SameDictionarySameOrder<T>(a: map<T, int>, s: seq<T>, b: map<T, int>, t: seq<T>)
    requires Mirrors(a, s) && Mirrors(b, t) && |s| == |t|
    ensures (forall i | 0 <= i < |s| :: s[i] in b && b[s[i]] == a[s[i]]) <==> s == t
  {
    if forall i | 0 <= i < |s| :: s[i] in b && b[s[i]] == a[s[i]] {
      forall i | 0 <= i < |s| ensures s[i] == t[i] {
        assert b[s[i]] == a[s[i]] == i;
      }
    }
  }

  // ---------- What the operations are for ----------

  /** Nothing is lost by appending, and only a new object is added. */
  lemma AppendedKeeps<T>(s: seq<T>, x: T)
    ensures s <= Appended(s, x) && |Appended(s, x)| == |s| + (if x in s then 0 else 1)
  {
  }

  /** A new object stands at the index it was inserted at, between what was before and behind it. */
  lemma InsertedThere<T>(s: seq<T>, x: T, i: nat)
    requires i <= |s|
    ensures var t := Inserted(s, x, i);
      if x in s then t == s else |t| == |s| + 1 && t[i] == x && t[..i] == s[..i] && t[i + 1..] == s[i..]
  {
  }

  /** Objects inserted together stand between what was before and behind the index. */
  lemma InsertedAllThere<T>(s: seq<T>, objects: seq<T>, i: nat)
    requires i <= |s|
    ensures var t, n := InsertedAll(s, objects, i), |Added(s, objects)|;
      |t| == |s| + n && t[..i] == s[..i] && t[i..i + n] == Added(s, objects) && t[i + n..] == s[i..]
  {
    hide Added;
  }

  /** A member stands at the index it was moved to, and the others keep their order. */
  lemma MovedThere<T>(s: seq<T>, x: T, i: nat)
    requires Distinct(s) && i < |s|
    ensures var t := Moved(s, x, i);
      if x in s then |t| == |s| && t[i] == x && Without(t, x) == Without(s, x) else t == s
  {
    if x in s {
      hide Distinct, CutAt, InsertAt, Without;
      var p := Position(s, x);
      var rest, t := CutAt(s, p), Moved(s, x, i);
      WithoutIsCut(s, p);
      PutBack(s, p);
      CutIsDistinct(s, p);
      InsertIsDistinct(rest, i, x);
      CutUndoesInsert(rest, i, x);
      WithoutIsCut(t, i);
    }
  }

  lemma CutUndoesInsert<T>(s: seq<T>, i: nat, x: T)
    requires i <= |s|
    ensures InsertAt(s, i, x)[i] == x && CutAt(InsertAt(s, i, x), i) == s
  {
  }

  lemma CutIsDistinct<T>(s: seq<T>, p: nat)
    requires Distinct(s) && p < |s|
    ensures |CutAt(s, p)| == |s| - 1 && Distinct(CutAt(s, p))
  {
  }

  /** Two members change places; nothing else moves. */
  lemma SwappedThere<T>(s: seq<T>, a: T, b: T)
    requires Distinct(s)
    ensures var t := Swapped(s, a, b);
      |t| == |s| && forall j | 0 <= j < |s| ::
        t[j] == if a !in s || b !in s then s[j] else if s[j] == a then b else if s[j] == b then a else s[j]
  {
  }

  /** Filtering keeps exactly the members that satisfy the predicate. */
  lemma {:induction false} FilteredAre<T>(s: seq<T>, p: T -> bool, x: T)
    ensures x in Filtered(s, p) <==> x in s && p(x)
  {
    if s != [] {
      var n := |s| - 1;
      FilteredAre(s[..n], p, x);
      assert s == s[..n] + [s[n]];
    }
  }

  // ---------- Steps of the loops ----------

  lemma PutBack<T>(s: seq<T>, i: nat)
    requires i < |s| && Distinct(s)
    ensures i <= |CutAt(s, i)| && s[i] !in CutAt(s, i) && InsertAt(CutAt(s, i), i, s[i]) == s
  {
    forall j | 0 <= j < |CutAt(s, i)| ensures CutAt(s, i)[j] != s[i] {
      assert CutAt(s, i)[j] == s[if j < i then j else j + 1];
    }
  }

  lemma InsertedLast<T>(s: seq<T>, x: T)
    ensures InsertAt(s, |s|, x) == s + [x]
  {
  }

  /** Exchanging x with its left neighbour inserts it one place further left. */
  lemma InsertStep<T>(s: seq<T>, i: nat, x: T)
    requires i < |s|
    ensures var t := InsertAt(s, i + 1, x);
      |t| == |s| + 1 && InsertAt(s, i, x) == t[i := t[i + 1]][i + 1 := t[i]]
  {
  }

  lemma SwapIs<T>(s: seq<T>, i: nat)
    requires i + 1 < |s| && Distinct(s)
    ensures Swapped(s, s[i], s[i + 1]) == s[i := s[i + 1]][i + 1 := s[i]]
  {
    PositionIs(s, i);
    PositionIs(s, i + 1);
  }

  lemma MovedNowhere<T>(s: seq<T>, i: nat)
    requires i < |s|
    ensures |CutAt(s, i)| == |s| - 1 && InsertAt(CutAt(s, i), i, s[i]) == s
  {
  }

  /** Exchanging x with a neighbour moves it by one place. */
  lemma MoveStep<T>(rest: seq<T>, i: nat, j: nat, x: T)
    requires i <= |rest| && j <= |rest| && (j == i + 1 || i == j + 1)
    ensures var t := InsertAt(rest, i, x);
      |t| == |rest| + 1 && InsertAt(rest, j, x) == t[i := t[j]][j := t[i]]
  {
  }

  // ---------- Bulk insertion ----------

  /** The dictionary has the right keys, but its indices are right for the first m objects only. */
  ghost predicate MirrorsTo<T>(contents: map<T, int>, s: seq<T>, m: nat) {
    && |contents| == |s| && m <= |s| && Distinct(s)
    && (forall i | 0 <= i < |s| :: s[i] in contents)
    && (forall x | x in contents :: x in s)
    && (forall i | 0 <= i < m :: s[i] in contents && contents[s[i]] == i)
  }

  lemma MirrorsToMembers<T>(contents: map<T, int>, s: seq<T>, m: nat, x: T)
    requires MirrorsTo(contents, s, m)
    ensures x in contents <==> x in s
  {
  }

  lemma MirrorsToBound<T>(contents: map<T, int>, s: seq<T>, m: nat)
    requires MirrorsTo(contents, s, m)
    ensures m <= |s| == |contents|
  {
  }

  lemma MirrorsToAll<T>(contents: map<T, int>, s: seq<T>)
    ensures Mirrors(contents, s) ==> forall m: nat | m <= |s| :: MirrorsTo(contents, s, m)
    ensures MirrorsTo(contents, s, |s|) ==> Mirrors(contents, s)
  {
    if MirrorsTo(contents, s, |s|) {
      forall x | x in contents ensures 0 <= contents[x] < |s| && s[contents[x]] == x {
        var i :| 0 <= i < |s| && s[i] == x;
        assert contents[s[i]] == i;
      }
    }
  }

  lemma InsertMembers<T>(s: seq<T>, m: nat, x: T)
    requires m <= |s|
    ensures forall y :: y in InsertAt(s, m, x) <==> y in s || y == x
  {
    assert s == s[..m] + s[m..];
  }

  lemma InsertIsDistinct<T>(s: seq<T>, m: nat, x: T)
    requires m <= |s| && Distinct(s) && x !in s
    ensures Distinct(InsertAt(s, m, x))
  {
    var t := InsertAt(s, m, x);
    forall i, j | 0 <= i < j < |t| ensures t[i] != t[j] {
      assert i < m ==> t[i] == s[i];
      assert i > m ==> t[i] == s[i - 1];
      assert j < m ==> t[j] == s[j];
      assert j > m ==> t[j] == s[j - 1];
    }
  }

  /** Inserting a new object at m shifts the rest, whose indices become wrong. */
  lemma MirrorsToInsert<T>(contents: map<T, int>, s: seq<T>, m: nat, x: T)
    requires MirrorsTo(contents, s, m) && x !in contents
    ensures MirrorsTo(contents[x := m], InsertAt(s, m, x), m + 1)
  {
    var t, contents' := InsertAt(s, m, x), contents[x := m];
    assert x !in s;
    InsertIsDistinct(s, m, x);
    InsertMembers(s, m, x);
    forall i | 0 <= i < m ensures t[i] in contents' && contents'[t[i]] == i {
      assert t[i] == s[i] && s[i] in contents;
    }
    hide Distinct;
    forall i | 0 <= i < |t| ensures t[i] in contents' {
      assert t[i] in t;
    }
  }

  /** Correcting the index of the object at m. */
  lemma MirrorsToNext<T>(contents: map<T, int>, s: seq<T>, m: nat)
    requires MirrorsTo(contents, s, m) && m < |s|
    ensures MirrorsTo(contents[s[m] := m], s, m + 1)
  {
    assert contents[s[m] := m].Keys == contents.Keys;
    assert |contents[s[m] := m].Keys| == |contents.Keys|;
  }

  /** The next object of the list goes behind those already added. */
  lemma AddNext<T>(s: seq<T>, objects: seq<T>, k: nat, i: nat)
    requires k < |objects| && i <= |s|
    ensures var sofar, x := Added(s, objects[..k]), objects[k];
      var t := InsertedAll(s, objects[..k], i);
      && (x in t <==> x in s || x in sofar)
      && (x !in t ==>
            && Added(s, objects[..k + 1]) == sofar + [x]
            && i + |sofar| <= |t|
            && InsertedAll(s, objects[..k + 1], i) == InsertAt(t, i + |sofar|, x))
      && (x in t ==> Added(s, objects[..k + 1]) == sofar && InsertedAll(s, objects[..k + 1], i) == t)
  {
    assert objects[..k + 1][..k] == objects[..k];
    var t := InsertedAll(s, objects[..k], i);
    assert s == s[..i] + s[i..];
    forall x ensures x in t <==> x in s || x in Added(s, objects[..k]) {
      InThreeParts(s[..i], Added(s, objects[..k]), s[i..], x);
    }
  }

  /** What is added are exactly the objects that were missing, each once. */
  lemma {:induction false} AddedIsNew<T>(s: seq<T>, objects: seq<T>)
    ensures forall x :: x in Added(s, objects) <==> x in objects && x !in s
    ensures Distinct(Added(s, objects))
  {
    if objects != [] {
      var n := |objects| - 1;
      AddedIsNew(s, objects[..n]);
      assert objects == objects[..n] + [objects[n]];
    }
  }

  lemma InThreeParts<T>(a: seq<T>, b: seq<T>, c: seq<T>, x: T)
    ensures x in a + b + c <==> x in a + c || x in b
  {
  }

  lemma NothingAdded<T>(s: seq<T>, i: nat)
    requires i <= |s|
    ensures Added(s, []) == [] && InsertedAll(s, [], i) == s
  {
  }

  lemma TwoAdded<T>(first: T, second: T)
    requires first != second
    ensures Added([], [first, second]) == [first, second] && Appended([first, second], first) == [first, second]
  {
    AddedIsAppended([first, second], 0);
    AddedIsAppended([first, second], 1);
    assert [first, second][..0] == [] && [first, second][..1] == [first] && [first, second][..2] == [first, second];
    assert Added([], [first]) == [first];
  }

  /** Building a set from a sequence appends its objects one by one. */
  lemma AddedIsAppended<T>(objects: seq<T>, k: nat)
    requires k < |objects|
    ensures Added([], objects[..0]) == []
    ensures Added([], objects[..k + 1]) == Appended(Added([], objects[..k]), objects[k])
  {
    assert objects[..k + 1][..k] == objects[..k];
  }

  // ---------- Filtered removal ----------

  /** The set while its first k objects have been examined. */
  function Remaining<T>(s: seq<T>, k: nat, p: T -> bool): seq<T>
    requires k <= |s|
  {
    Filtered(s[..k], Not(p)) + s[k..]
  }

  lemma {:induction false} FilteredIsPart<T>(s: seq<T>, p: T -> bool)
    ensures forall x | x in Filtered(s, p) :: x in s
  {
    if s != [] {
      FilteredIsPart(s[..|s| - 1], p);
    }
  }

  lemma WithoutFirst<T>(s: seq<T>, x: T)
    requires s != []
    ensures Without(s, x) == (if s[0] == x then [] else [s[0]]) + Without(s[1..], x)
  {
  }

  lemma {:induction false} WithoutConcat<T>(a: seq<T>, b: seq<T>, x: T)
    ensures Without(a + b, x) == Without(a, x) + Without(b, x)
  {
    if a == [] {
      assert a + b == b;
    } else {
      assert (a + b)[0] == a[0] && (a + b)[1..] == a[1..] + b;
      WithoutConcat(a[1..], b, x);
      WithoutFirst(a + b, x);
      WithoutFirst(a, x);
      hide Without;
    }
  }

  lemma FilteredNext<T>(s: seq<T>, k: nat, p: T -> bool)
    requires k < |s|
    ensures Filtered(s[..k + 1], p) == Filtered(s[..k], p) + (if p(s[k]) then [s[k]] else [])
  {
    assert s[..k + 1][..k] == s[..k];
  }

  lemma OnlyThere<T>(s: seq<T>, k: nat)
    requires k < |s| && Distinct(s)
    ensures s[k] !in s[..k] && s[k] !in s[k + 1..]
    ensures s[k..] == [s[k]] + s[k + 1..]
  {
  }

  /** Examining the next object removes it from the remaining ones if it satisfies p ... */
  lemma RemainingNext<T>(s: seq<T>, k: nat, p: T -> bool)
    requires k < |s| && Distinct(s)
    ensures Remaining(s, k + 1, p) == if p(s[k]) then Without(Remaining(s, k, p), s[k]) else Remaining(s, k, p)
  {
    hide Filtered, Distinct, Without;
    var kept, x := Filtered(s[..k], Not(p)), s[k];
    FilteredNext(s, k, Not(p));
    OnlyThere(s, k);
    if p(x) {
      FilteredIsPart(s[..k], Not(p));
      WithoutConcat(kept, s[k..], x);
      WithoutConcat([x], s[k + 1..], x);
      WithoutAbsent(kept, x);
      WithoutAbsent(s[k + 1..], x);
      WithoutItself(x);
    } else {
      assert (kept + [x]) + s[k + 1..] == kept + s[k..];
    }
  }

  lemma WithoutItself<T>(x: T)
    ensures Without([x], x) == []
  {
  }

  /** ... and appends it to the removed ones. */
  lemma RemovedNext<T>(s: seq<T>, k: nat, p: T -> bool)
    requires k < |s| && Distinct(s)
    ensures Filtered(s[..k + 1], p) == if p(s[k]) then Appended(Filtered(s[..k], p), s[k]) else Filtered(s[..k], p)
  {
    FilteredNext(s, k, p);
    OnlyThere(s, k);
    FilteredIsPart(s[..k], p);
  }

  lemma FilterEnds<T>(s: seq<T>, p: T -> bool)
    ensures Remaining(s, 0, p) == s && Filtered(s[..0], p) == []
    ensures Remaining(s, |s|, p) == Filtered(s, Not(p)) && Filtered(s[..|s|], p) == Filtered(s, p)
  {
    assert s[..|s|] == s;
  }

  /** Splitting loses nothing: each object is kept or removed, not both. */
  lemma {:induction false} FilterSplits<T>(s: seq<T>, p: T -> bool)
    ensures multiset(Filtered(s, p)) + multiset(Filtered(s, Not(p))) == multiset(s)
  {
    if s != [] {
      hide Filtered;
      var n := |s| - 1;
      FilterSplits(s[..n], p);
      FilteredSnoc(s, p);
      FilteredSnoc(s, Not(p));
      LastCounts(s);
    }
  }

  lemma FilteredSnoc<T>(s: seq<T>, p: T -> bool)
    requires s != []
    ensures var n := |s| - 1;
      multiset(Filtered(s, p)) == multiset(Filtered(s[..n], p)) + (if p(s[n]) then multiset{s[n]} else multiset{})
  {
  }
}
