/** FinalMap.swift: the index as an object, and the visible timetable it caches. */
module FinalTimetable {
  import opened Collections
  import opened Timetable
  import opened TermPage
  import opened CourseRows

  // ---------- Runs of an index set ----------

  /** A half-open range of locations. */
  datatype Range = Range(lo: nat, hi: nat)

  predicate Contains(r: Range, l: nat) {
    r.lo <= l < r.hi
  }

  /** A maximal stretch of consecutive members of s. */
  ghost predicate IsRun(s: set<nat>, r: Range) {
    && r.lo < r.hi
    && (forall l | Contains(r, l) :: l in s)
    && r.hi !in s
    && (r.lo > 0 ==> r.lo - 1 !in s)
  }

  /** Two runs of one set are the same or share no location. */
  lemma RunsDisjoint(s: set<nat>, a: Range, b: Range, l: nat)
    requires IsRun(s, a) && IsRun(s, b) && Contains(a, l) && Contains(b, l)
    ensures a == b
  {
    assert !Contains(b, a.hi) && !Contains(a, b.hi);
    assert a.lo > 0 ==> !Contains(b, a.lo - 1);
    assert b.lo > 0 ==> !Contains(a, b.lo - 1);
  }

  method UpperBound(s: set<nat>) returns (bound: nat)
    ensures forall l | l in s :: l < bound
  {
    var rest := s;
    bound := 0;
    while rest != {}
      invariant rest <= s
      invariant forall l | l in s :: l in rest || l < bound
    {
      var l :| l in rest;
      rest := rest - {l};
      bound := if l >= bound then l + 1 else bound;
    }
  }

  /** IndexSet.rangeView: the runs in ascending order. */
  method RangeView(s: set<nat>) returns (rs: seq<Range>)
    ensures forall r :: r in rs <==> IsRun(s, r)
    ensures forall i, j | 0 <= i < j < |rs| :: rs[i].hi < rs[j].lo
  {
    rs := [];
    var bound := UpperBound(s);
    var start: nat := 0;
    for l := 0 to bound + 1
      invariant start <= l
      invariant forall k | start <= k < l :: k in s
      invariant start > 0 ==> start - 1 !in s
      invariant l == bound + 1 ==> start == l
      invariant forall r :: r in rs <==> IsRun(s, r) && r.hi < start
      invariant forall i, j | 0 <= i < j < |rs| :: rs[i].hi < rs[j].lo
    {
      if l !in s {
        ghost var before := rs;
        if start < l {
          rs := rs + [Range(start, l)];
        }
        forall r ensures r in rs <==> IsRun(s, r) && r.hi < l + 1 {
          RunEndsAt(s, start, l, r);
          assert r in rs <==> r in before || (start < l && r == Range(start, l));
        }
        forall r | r in before ensures r.hi < start {
        }
        start := l + 1;
      }
    }
    forall r | IsRun(s, r) ensures r.hi < start {
      assert Contains(r, r.hi - 1);
    }
  }

  /** Between two gaps start - 1 and l with only members between them there is one run or none. */
  lemma RunEndsAt(s: set<nat>, start: nat, l: nat, r: Range)
    requires start <= l && l !in s && (start > 0 ==> start - 1 !in s)
    requires forall k | start <= k < l :: k in s
    ensures IsRun(s, r) && start <= r.hi <= l ==> start < l && r == Range(start, l)
    ensures start < l ==> IsRun(s, Range(start, l))
  {
    if IsRun(s, r) && start <= r.hi <= l {
      assert Contains(r, r.hi - 1);
      assert start > 0 ==> !Contains(r, start - 1);
    }
  }

  /** Every member lies in a run. */
  lemma RunAround(s: set<nat>, l: nat) returns (r: Range)
    requires l in s
    ensures IsRun(s, r) && Contains(r, l)
  {
    var lo: nat := l;
    while lo > 0 && lo - 1 in s
      invariant lo <= l && forall k | lo <= k <= l :: k in s
    {
      lo := lo - 1;
    }
    var hi: nat := l + 1;
    while hi in s
      invariant l < hi && forall k | lo <= k < hi :: k in s
      decreases set x | x in s && x >= hi
    {
      ghost var above := set x | x in s && x >= hi;
      assert hi in above && hi !in (set x | x in s && x >= hi + 1);
      hi := hi + 1;
    }
    r := Range(lo, hi);
  }

  // ---------- The visible timetable ----------

  datatype ItemModel = ItemModel(model: Node, locates: Range)

  type NodeMap = map<Node, seq<set<nat>>>

  ghost predicate Belongs(nodes: NodeMap, item: ItemModel, section: nat) {
    && item.model in nodes
    && section < |nodes[item.model]|
    && IsRun(nodes[item.model][section], item.locates)
  }

  /** The items of a section are, in some order, the runs of all nodes listed there, each once. */
  ghost predicate HoldsRuns(nodes: NodeMap, items: seq<ItemModel>, section: nat) {
    Distinct(items) && forall item :: item in items <==> Belongs(nodes, item, section)
  }

  ghost predicate IsLongest(nodes: NodeMap, sections: nat) {
    && (forall n | n in nodes :: |nodes[n]| <= sections)
    && (nodes == map[] ==> sections == 0)
    && (nodes != map[] ==> exists n | n in nodes :: |nodes[n]| == sections)
  }

  /** A fresh rebuild; without nodes it has no section at all, else one more than the longest node has. */
  ghost predicate IsFinal(nodes: NodeMap, sections: nat, final: seq<seq<ItemModel>>) {
    && IsLongest(nodes, sections)
    && |final| == (if nodes == map[] then 0 else sections + 1)
    && forall s | 0 <= s < |final| :: HoldsRuns(nodes, final[s], s)
  }

  /** Item i of the slot's section stands on the slot. */
  predicate ShownBy(final: seq<seq<ItemModel>>, at: Locate, i: int) {
    && at.section < |final| && 0 <= i < |final[at.section]|
    && final[at.section][i].model.InDay() == at.week
    && Contains(final[at.section][i].locates, at.location)
  }

  /** Main result: the items shown are a partition of the occupied slots.  Each occupied slot is
      covered by exactly one item, that of its visible head; no other slot is covered. */
  lemma VisibleIsPartition(x: Index, sections: nat, final: seq<seq<ItemModel>>, at: Locate)
    requires IsInverse(x) && IsFinal(x.nodes, sections, final)
    ensures at in x.points <==> exists i :: ShownBy(final, at, i)
    ensures forall i, j | ShownBy(final, at, i) && ShownBy(final, at, j) :: i == j
    ensures forall i | ShownBy(final, at, i) :: Heads(x, final[at.section][i].model, at)
  {
    forall i | ShownBy(final, at, i) ensures Heads(x, final[at.section][i].model, at) {
      ShownHeads(x, sections, final, at, i);
    }
    forall i, j | ShownBy(final, at, i) && ShownBy(final, at, j) ensures i == j {
      ShownOnce(x, sections, final, at, i, j);
    }
    if at in x.points {
      var i := OccupiedIsShown(x, sections, final, at);
    }
  }

  lemma ShownHeads(x: Index, sections: nat, final: seq<seq<ItemModel>>, at: Locate, i: int)
    requires IsInverse(x) && IsFinal(x.nodes, sections, final) && ShownBy(final, at, i)
    ensures Heads(x, final[at.section][i].model, at)
  {
    var item := final[at.section][i];
    assert HoldsRuns(x.nodes, final[at.section], at.section);
    assert Belongs(x.nodes, item, at.section);
    assert Matches(x, item.model, at.section, at.location);
  }

  lemma ShownOnce(x: Index, sections: nat, final: seq<seq<ItemModel>>, at: Locate, i: int, j: int)
    requires IsInverse(x) && IsFinal(x.nodes, sections, final)
    requires ShownBy(final, at, i) && ShownBy(final, at, j)
    ensures i == j
  {
    ShownHeads(x, sections, final, at, i);
    ShownHeads(x, sections, final, at, j);
    var items := final[at.section];
    assert HoldsRuns(x.nodes, items, at.section);
    assert Belongs(x.nodes, items[i], at.section) && Belongs(x.nodes, items[j], at.section);
    RunsDisjoint(x.nodes[items[i].model][at.section], items[i].locates, items[j].locates, at.location);
  }

  lemma OccupiedIsShown(x: Index, sections: nat, final: seq<seq<ItemModel>>, at: Locate) returns (i: int)
    requires IsInverse(x) && IsFinal(x.nodes, sections, final) && at in x.points
    ensures ShownBy(final, at, i)
  {
    var head := x.points[at][0];
    assert head.InDay() == at.week;
    assert Matches(x, head, at.section, at.location);
    var r := RunAround(x.nodes[head][at.section], at.location);
    assert Belongs(x.nodes, ItemModel(head, r), at.section);
    assert HoldsRuns(x.nodes, final[at.section], at.section);
    i :| 0 <= i < |final[at.section]| && final[at.section][i] == ItemModel(head, r);
  }

  /** The ranges one node shows in one section are apart by at least one free location. */
  lemma RangesAreMaximal(nodes: NodeMap, sections: nat, final: seq<seq<ItemModel>>, s: nat, i: nat, j: nat)
    requires IsFinal(nodes, sections, final) && s < |final| && i < |final[s]| && j < |final[s]|
    requires final[s][i].model == final[s][j].model && i != j
    ensures final[s][i].locates.hi < final[s][j].locates.lo || final[s][j].locates.hi < final[s][i].locates.lo
  {
    var a, b := final[s][i], final[s][j];
    assert HoldsRuns(nodes, final[s], s);
    assert Belongs(nodes, a, s) && Belongs(nodes, b, s) && a != b;
    var set' := nodes[a.model][s];
    if b.locates.lo <= a.locates.hi && a.locates.lo <= b.locates.hi {
      assert !Contains(b.locates, a.locates.hi) && !Contains(a.locates, b.locates.hi);
      assert a.locates.hi != b.locates.lo by {
        assert Contains(b.locates, b.locates.lo);
      }
      assert b.locates.hi != a.locates.lo by {
        assert Contains(a.locates, a.locates.lo);
      }
      if a.locates.lo <= b.locates.lo {
        RunsDisjoint(set', a.locates, b.locates, b.locates.lo);
      } else {
        RunsDisjoint(set', a.locates, b.locates, a.locates.lo);
      }
    }
  }

  lemma {:induction false} DistinctCounts<T>(s: seq<T>, x: T)
    requires Distinct(s)
    ensures multiset(s)[x] == if x in s then 1 else 0
  {
    if s != [] {
      var n := |s| - 1;
      DistinctCounts(s[..n], x);
      assert s == s[..n] + [s[n]];
    }
  }

  /** Two rebuilds of the same index differ at most in the order of a section's items, which the
      dictionary's iteration order decides. */
  lemma RebuildIsDetermined(nodes: NodeMap, m: nat, a: seq<seq<ItemModel>>, n: nat, b: seq<seq<ItemModel>>, s: nat)
    requires IsFinal(nodes, m, a) && IsFinal(nodes, n, b)
    ensures m == n && |a| == |b|
    ensures s < |a| ==> multiset(a[s]) == multiset(b[s])
  {
    if s < |a| {
      assert HoldsRuns(nodes, a[s], s) && HoldsRuns(nodes, b[s], s);
      forall item: ItemModel ensures multiset(a[s])[item] == multiset(b[s])[item] {
        DistinctCounts(a[s], item);
        DistinctCounts(b[s], item);
      }
    }
  }

  // ---------- The object ----------

  /** The items a node adds to one section, in the order of its runs. */
  ghost predicate AddsRuns(before: seq<ItemModel>, after: seq<ItemModel>, n: Node, rows: seq<set<nat>>, s: nat) {
    && before <= after
    && (forall i, j | |before| <= i < j < |after| :: after[i] != after[j])
    && (forall i | |before| <= i < |after| ::
          after[i].model == n && s < |rows| && IsRun(rows[s], after[i].locates))
    && (s < |rows| ==> forall r | IsRun(rows[s], r) :: ItemModel(n, r) in after[|before|..])
  }

  /** The innermost loop of `final`. */
  method AppendRuns(before: seq<ItemModel>, n: Node, rows: seq<set<nat>>, s: nat) returns (values: seq<ItemModel>)
    requires s < |rows|
    ensures AddsRuns(before, values, n, rows, s)
  {
    hide IsRun;
    var view := RangeView(rows[s]);
    values := before;
    for k := 0 to |view|
      invariant |values| == |before| + k && before <= values
      invariant forall i | |before| <= i < |values| :: values[i] == ItemModel(n, view[i - |before|])
    {
      values := values + [ItemModel(n, view[k])];
    }
    forall i | |before| <= i < |values| ensures IsRun(rows[s], values[i].locates) {
      assert view[i - |before|] in view;
    }
    forall range | IsRun(rows[s], range) ensures ItemModel(n, range) in values[|before|..] {
      var k :| 0 <= k < |view| && view[k] == range;
      assert values[|before|..][k] == ItemModel(n, range);
    }
    forall i, j | |before| <= i < j < |values| ensures values[i] != values[j] {
      assert view[i - |before|] in view && view[j - |before|] in view;
      RunsAreProper(rows[s], view[j - |before|]);
    }
  }

  lemma RunsAreProper(s: set<nat>, r: Range)
    requires IsRun(s, r)
    ensures r.lo < r.hi
  {
  }

  /** The inner loops of `final`: one node's ranges are appended to each of its sections. */
  method AppendNode(final: seq<seq<ItemModel>>, n: Node, rows: seq<set<nat>>) returns (r: seq<seq<ItemModel>>)
    requires |rows| <= |final|
    ensures |r| == |final|
    ensures forall s | 0 <= s < |final| :: AddsRuns(final[s], r[s], n, rows, s)
  {
    r := final;
    for index := 0 to |rows|
      invariant |r| == |final|
      invariant forall s | 0 <= s < index :: AddsRuns(final[s], r[s], n, rows, s)
      invariant forall s | index <= s < |final| :: r[s] == final[s]
    {
      var values := AppendRuns(r[index], n, rows, index);
      r := r[index := values];
    }
  }

  ghost predicate HoldsRunsOf(nodes: NodeMap, done: set<Node>, items: seq<ItemModel>, s: nat) {
    && Distinct(items)
    && forall item :: item in items <==> item.model in done && Belongs(nodes, item, s)
  }

  /** The rebuild after the nodes in `done`. */
  ghost predicate HoldsFinal(nodes: NodeMap, done: set<Node>, sections: nat, final: seq<seq<ItemModel>>)
    requires done <= nodes.Keys
  {
    && |final| == (if done == {} then 0 else sections + 1)
    && (forall n | n in done :: |nodes[n]| <= sections)
    && (done == {} ==> sections == 0)
    && (done != {} ==> exists n | n in done :: |nodes[n]| == sections)
    && forall s | 0 <= s < |final| :: HoldsRunsOf(nodes, done, final[s], s)
  }

  lemma NoRunsYet(nodes: NodeMap, done: set<Node>, s: nat)
    requires forall n | n in done && n in nodes :: |nodes[n]| <= s
    ensures HoldsRunsOf(nodes, done, [], s)
  {
  }

  lemma AllRunsHeld(nodes: NodeMap, items: seq<ItemModel>, s: nat)
    requires HoldsRunsOf(nodes, nodes.Keys, items, s)
    ensures HoldsRuns(nodes, items, s)
  {
    assert forall item: ItemModel :: Belongs(nodes, item, s) ==> item.model in nodes.Keys;
  }

  lemma AddingKeepsRuns(nodes: NodeMap, done: set<Node>, n: Node, before: seq<ItemModel>, after: seq<ItemModel>, s: nat)
    requires HoldsRunsOf(nodes, done, before, s) && n in nodes && n !in done
    requires AddsRuns(before, after, n, nodes[n], s)
    ensures HoldsRunsOf(nodes, done + {n}, after, s)
  {
    assert after == before + after[|before|..];
    forall i, j | 0 <= i < j < |after| ensures after[i] != after[j] {
      if i < |before| {
        assert after[i] == before[i] && before[i] in before;
        assert j < |before| ==> after[j] == before[j];
      }
    }
    forall item ensures item in after <==> item.model in done + {n} && Belongs(nodes, item, s) {
      if item in after[|before|..] {
        var i :| |before| <= i < |after| && after[i] == item;
      }
      assert item.model == n && Belongs(nodes, item, s) ==> ItemModel(n, item.locates) in after[|before|..];
    }
  }

  lemma RowsBegin(c: Course, from: nat)
    ensures AllRowLocates(c, []) == [] && PeriodRows(from, from) == [] && SpecialRows([]) == []
  {
  }

  lemma NoPeriods(from: nat, to: nat)
    requires to <= from
    ensures PeriodRows(from, to) == PeriodRows(from, from)
  {
  }

  lemma RowsGrow(c: Course, rows: seq<nat>, row: nat)
    ensures AllRowLocates(c, rows + [row]) == AllRowLocates(c, rows) + RowLocates(c, row)
  {
    assert (rows + [row])[..|rows|] == rows;
  }

  lemma PeriodRowsGrow(from: nat, p: nat)
    requires from <= p
    ensures PeriodRows(from, p + 1) == PeriodRows(from, p) + [Row(p)]
  {
  }

  lemma SpecialRowsGrow(specials: seq<SpecialTime>, special: SpecialTime)
    ensures SpecialRows(specials + [special]) == SpecialRows(specials) + [special.RawValue()]
  {
    assert (specials + [special])[..|specials|] == specials;
  }

  lemma NoHistory()
    ensures HistoryOf([]) == []
  {
  }

  lemma HistoryGrows(calls: seq<CourseCall>, call: CourseCall)
    ensures HistoryOf(calls + [call]) == HistoryOf(calls) + CallInserts(call)
  {
    assert (calls + [call])[..|calls|] == calls;
  }

  lemma {:induction false} HistoryOfBoth(a: seq<CourseCall>, b: seq<CourseCall>)
    ensures HistoryOf(a + b) == HistoryOf(a) + HistoryOf(b)
  {
    if b == [] {
      assert a + b == a;
      NoHistory();
    } else {
      hide HistoryOf, CallInserts;
      var n := |b| - 1;
      HistoryOfBoth(a, b[..n]);
      HistoryGrows(a + b[..n], b[n]);
      HistoryGrows(b[..n], b[n]);
      LastOfBoth(a, b);
      Associate(HistoryOf(a), HistoryOf(b[..n]), CallInserts(b[n]));
    }
  }

  /** FinalMap with what it inherits from Map.  The slots' lists are values, as the struct LinkedList is. */
  class FinalMap {
    const sno: Option<string>
    var pointMap: map<Locate, seq<Node>>
    var nodeMap: NodeMap
    var sections: nat
    var useImmediate: bool
    var finalRange: seq<seq<ItemModel>>
    /** All insertions so far. */
    ghost var history: seq<Insert>

    ghost function View(): Index
      reads this
    {
      Index(pointMap, nodeMap)
    }

    /** The dictionaries are what the insertions make of them, and a cached timetable is what a
        rebuild would give. */
    ghost predicate Valid()
      reads this
    {
      && View() == After(sno, history)
      && (useImmediate ==> IsFinal(nodeMap, sections, finalRange))
    }

    constructor (sno: Option<string>)
      ensures Valid() && history == [] && this.sno == sno
    {
      this.sno := sno;
      pointMap, nodeMap := map[], map[];
      sections, useImmediate, finalRange := 0, false, [[]];
      history := [];
    }

    /** list.firstIndex(where:) with the ordering closure of insert(node:in:) */
    method FirstIndex(list: seq<Node>, newValue: Node) returns (index: nat)
      ensures index == InsertIndex(sno, list, newValue)
    {
      var newKind := Kind(sno, newValue.key).RawValue();
      index := 0;
      while index < |list|
        invariant index <= |list|
        invariant InsertIndex(sno, list, newValue) == index + InsertIndex(sno, list[index..], newValue)
      {
        var oldKind := Kind(sno, list[index].key).RawValue();
        if newKind < oldKind {
          return;
        }
        if newKind == oldKind {
          if PeriodCount(newValue.value) >= PeriodCount(list[index].value) {
            return;
          }
        }
        assert list[index..][1..] == list[index + 1..];
        index := index + 1;
      }
    }

    /** insert(node:in:) as Map defines it */
    method InsertInMap(newValue: Node, locate: Locate)
      requires Safe(View())
      modifies this`pointMap, this`nodeMap
      ensures View() == AfterInsert(sno, old(View()), newValue, locate)
    {
      if locate in pointMap {
        var list := pointMap[locate];
        if list != [] {
          var oldValue := list[0];
          if oldValue in nodeMap {
            var ordered := nodeMap[oldValue];
            nodeMap := nodeMap[oldValue := ordered[locate.section := ordered[locate.section] - {locate.location}]];
          }
        }
        var index := FirstIndex(list, newValue);
        pointMap := pointMap[locate := list[..index] + [newValue] + list[index..]];
      } else {
        pointMap := pointMap[locate := [newValue]];
        assert InsertIndex(sno, [], newValue) == 0;
        assert Inserted(sno, [], newValue) == [newValue];
      }
      var list := pointMap[locate];
      if list != [] {
        var node := list[0];
        var ordered := if node in nodeMap then nodeMap[node] else [];
        ghost var unpadded := ordered;
        while |ordered| <= locate.section
          invariant |unpadded| <= |ordered| && unpadded <= ordered
          invariant |ordered| <= locate.section + 1 || ordered == unpadded
          invariant forall i | |unpadded| <= i < |ordered| :: ordered[i] == {}
        {
          ordered := ordered + [{}];
        }
        assert ordered == Padded(unpadded, locate.section);
        ordered := ordered[locate.section := ordered[locate.section] + {locate.location}];
        nodeMap := nodeMap[node := ordered];
      }
    }

    /** insert(node:in:) as FinalMap overrides it */
    method InsertNode(newValue: Node, locate: Locate)
      requires Valid()
      modifies this
      ensures Valid() && !useImmediate && history == old(history) + [Insert(newValue, locate)]
    {
      useImmediate := false;
      InsertInMap(newValue, locate);
      ghost var before := history;
      history := history + [Insert(newValue, locate)];
      assert history[..|history| - 1] == before;
    }

    /** The locates of a course; the set of special times is visited in some order. */
    static method Locates(c: Course) returns (locates: seq<Locate>, ghost specials: seq<SpecialTime>)
      ensures IsOrderOf(specials, c.identity.inSpecial)
      ensures locates == AllRowLocates(c, Rows(c.identity, specials))
    {
      locates := PeriodLocates(c);
      locates, specials := SpecialLocates(c, locates, PeriodRows(c.identity.periodFrom, c.identity.periodTo));
    }

    /** The loop over the lessons. */
    static method PeriodLocates(c: Course) returns (locates: seq<Locate>)
      ensures locates == AllRowLocates(c, PeriodRows(c.identity.periodFrom, c.identity.periodTo))
    {
      hide AllRowLocates, PeriodRows, RowLocates;
      RowsBegin(c, c.identity.periodFrom);
      locates := [];
      ghost var rows: seq<nat> := [];
      var p := c.identity.periodFrom;
      while p < c.identity.periodTo
        invariant p <= c.identity.periodTo || p == c.identity.periodFrom
        invariant rows == PeriodRows(c.identity.periodFrom, p)
        invariant locates == AllRowLocates(c, rows)
      {
        var period := p;
        if period >= 9 {
          period := period + 1;
        }
        if period >= 5 {
          period := period + 1;
        }
        RowsGrow(c, rows, period);
        PeriodRowsGrow(c.identity.periodFrom, p);
        locates := AppendRow(c, period, locates);
        rows := rows + [period];
        p := p + 1;
      }
      if c.identity.periodTo < c.identity.periodFrom {
        NoPeriods(c.identity.periodFrom, c.identity.periodTo);
      }
    }

    /** The loop over the special times. */
    static method SpecialLocates(c: Course, before: seq<Locate>, ghost periods: seq<nat>)
      returns (locates: seq<Locate>, ghost specials: seq<SpecialTime>)
      requires before == AllRowLocates(c, periods)
      ensures IsOrderOf(specials, c.identity.inSpecial)
      ensures locates == AllRowLocates(c, periods + SpecialRows(specials))
    {
      hide AllRowLocates, SpecialRows, RowLocates;
      RowsBegin(c, 0);
      locates, specials := before, [];
      assert periods + SpecialRows([]) == periods;
      ghost var rows := periods;
      var rest := c.identity.inSpecial;
      while rest != {}
        invariant rest <= c.identity.inSpecial
        invariant multiset(specials) == multiset(c.identity.inSpecial - rest)
        invariant rows == periods + SpecialRows(specials)
        invariant locates == AllRowLocates(c, rows)
      {
        var special :| special in rest;
        RowsGrow(c, rows, special.RawValue());
        SpecialRowsGrow(specials, special);
        locates := AppendRow(c, special.RawValue(), locates);
        rows := rows + [special.RawValue()];
        assert c.identity.inSpecial - (rest - {special}) == (c.identity.inSpecial - rest) + {special};
        specials, rest := specials + [special], rest - {special};
      }
      assert c.identity.inSpecial - rest == c.identity.inSpecial;
    }

    static method AppendRow(c: Course, location: nat, before: seq<Locate>) returns (locates: seq<Locate>)
      ensures locates == before + RowLocates(c, location)
    {
      locates := before;
      for i := 0 to |c.inSections|
        invariant locates == before + SectionLocates(c.inSections[..i], c.identity.inDay, location)
      {
        locates := locates + [Locate(c.inSections[i], c.identity.inDay, location)];
      }
      assert c.inSections[..|c.inSections|] == c.inSections;
      locates := locates + [Locate(0, c.identity.inDay, location)];
    }

    /** insert(course:with:) */
    method InsertCourse(course: Course, key: Key) returns (ghost call: CourseCall)
      requires Valid()
      modifies this
      ensures Valid()
      ensures call.key == key && call.course == course && IsOrderOf(call.specials, course.identity.inSpecial)
      ensures history == old(history) + CallInserts(call)
      ensures old(AllFit(history)) ==> AllFit(history)
    {
      hide After, IsFinal, AllRowLocates;
      var node := Node(key, course.identity);
      ghost var specials;
      var locates;
      locates, specials := Locates(course);
      call := CourseCall(key, course, specials);
      for i := 0 to |locates|
        invariant Valid() && history == old(history) + NodeInserts(node, locates[..i])
      {
        InsertNode(node, locates[i]);
        assert NodeInserts(node, locates[..i + 1]) == NodeInserts(node, locates[..i]) + [Insert(node, locates[i])];
      }
      assert locates[..|locates|] == locates;
      CallFits(call);
    }

    /** insert(item:), as far as the index is concerned */
    method InsertItem(key: Key, values: seq<Course>) returns (ghost calls: seq<CourseCall>)
      requires Valid()
      modifies this
      ensures Valid() && |calls| == |values|
      ensures forall i | 0 <= i < |values| :: calls[i].key == key && calls[i].course == values[i]
      ensures forall i | 0 <= i < |values| :: IsOrderOf(calls[i].specials, values[i].identity.inSpecial)
      ensures history == old(history) + HistoryOf(calls)
      ensures old(AllFit(history)) ==> AllFit(history)
    {
      hide After, IsFinal, HistoryOf, CallInserts;
      calls := [];
      NoHistory();
      for i := 0 to |values|
        invariant Valid() && |calls| == i
        invariant forall k | 0 <= k < i :: calls[k].key == key && calls[k].course == values[k]
        invariant forall k | 0 <= k < i :: IsOrderOf(calls[k].specials, values[k].identity.inSpecial)
        invariant history == old(history) + HistoryOf(calls)
        invariant old(AllFit(history)) ==> AllFit(history)
      {
        ghost var call := InsertCourse(values[i], key);
        HistoryGrows(calls, call);
        calls := calls + [call];
      }
    }

    /** One round of the rebuild: room for the node's sections, then its ranges. */
    method AddNode(n: Node, ghost done: set<Node>)
      requires n in nodeMap && n !in done && done <= nodeMap.Keys
      requires HoldsFinal(nodeMap, done, sections, finalRange)
      modifies this`sections, this`finalRange
      ensures HoldsFinal(nodeMap, done + {n}, sections, finalRange)
    {
      hide IsRun, Distinct;
      var rows := nodeMap[n];
      ghost var before := finalRange;
      sections := if |rows| > sections then |rows| else sections;
      ghost var longest := sections;
      while |finalRange| <= sections
        invariant sections == longest
        invariant before <= finalRange && |finalRange| <= sections + 1
        invariant forall s | |before| <= s < |finalRange| :: finalRange[s] == []
      {
        finalRange := finalRange + [[]];
      }
      forall s | 0 <= s < |finalRange| ensures HoldsRunsOf(nodeMap, done, finalRange[s], s) {
        if s >= |before| {
          NoRunsYet(nodeMap, done, s);
        }
      }
      ghost var padded := finalRange;
      finalRange := AppendNode(finalRange, n, rows);
      forall s | 0 <= s < |finalRange| ensures HoldsRunsOf(nodeMap, done + {n}, finalRange[s], s) {
        AddingKeepsRuns(nodeMap, done, n, padded[s], finalRange[s], s);
      }
    }

    /** final: the cached timetable, rebuilt if an insertion has come since. */
    method Final() returns (final: seq<seq<ItemModel>>)
      requires Valid()
      modifies this`useImmediate, this`sections, this`finalRange
      ensures Valid() && useImmediate && final == finalRange
      ensures IsFinal(nodeMap, sections, final)
      ensures old(useImmediate) ==> final == old(finalRange) && sections == old(sections)
    {
      hide After, HoldsRunsOf, HoldsRuns;
      if useImmediate {
        return finalRange;
      }
      useImmediate := true;
      sections := 0;
      finalRange := [];
      var rest := nodeMap.Keys;
      ghost var done: set<Node> := {};
      while rest != {}
        invariant done + rest == nodeMap.Keys && done !! rest
        invariant useImmediate && HoldsFinal(nodeMap, done, sections, finalRange)
      {
        var n :| n in rest;
        AddNode(n, done);
        done, rest := done + {n}, rest - {n};
      }
      assert done == nodeMap.Keys;
      forall s | 0 <= s < |finalRange| ensures HoldsRuns(nodeMap, finalRange[s], s) {
        AllRunsHeld(nodeMap, finalRange[s], s);
      }
      return finalRange;
    }

    lemma ViewIsAfter()
      requires Valid()
      ensures View() == After(sno, history)
    {
    }

    /** If only courses were inserted, the cached timetable is a partition of the occupied slots. */
    lemma ShownIsPartition()
      requires Valid() && useImmediate && AllFit(history)
      ensures IsPartition(View(), finalRange)
    {
      AlwaysInverse(sno, history);
      forall at: Locate ensures IsCovered(View(), finalRange, at) {
        VisibleIsPartition(View(), sections, finalRange, at);
      }
    }
  }

  /** The slot is covered by exactly one item, that of its head, if it is occupied, else by none. */
  ghost predicate IsCovered(x: Index, final: seq<seq<ItemModel>>, at: Locate) {
    && (at in x.points <==> exists i :: ShownBy(final, at, i))
    && (forall i, j | ShownBy(final, at, i) && ShownBy(final, at, j) :: i == j)
    && (forall i | ShownBy(final, at, i) :: Heads(x, final[at.section][i].model, at))
  }

  ghost predicate IsPartition(x: Index, final: seq<seq<ItemModel>>) {
    forall at: Locate :: IsCovered(x, final, at)
  }

  // ---------- Whole uses ----------

  /** What a client does with a timetable: it inserts an item's courses or looks at what is shown. */
  datatype Use = InsertItem(key: Key, values: seq<Course>) | Look

  function CoursesOf(uses: seq<Use>): seq<(Key, Course)> {
    if uses == [] then [] else
    CoursesOf(uses[..|uses| - 1])
    + match uses[|uses| - 1]
      case InsertItem(key, values) => seq(|values|, i requires 0 <= i < |values| => (key, values[i]))
      case Look => []
  }

  /** One call of insert(course:with:) for each course, its special times visited in some order. */
  ghost predicate CallsFor(calls: seq<CourseCall>, courses: seq<(Key, Course)>) {
    && |calls| == |courses|
    && (forall i | 0 <= i < |calls| ::
          && (calls[i].key, calls[i].course) == courses[i]
          && IsOrderOf(calls[i].specials, calls[i].course.identity.inSpecial))
  }

  /** Main result: after any insertions of courses, with looks in between, what is shown is a partition
      of the slots these courses occupy. */
  method Show(sno: Option<string>, uses: seq<Use>) returns (final: seq<seq<ItemModel>>, ghost calls: seq<CourseCall>)
    ensures CallsFor(calls, CoursesOf(uses))
    ensures IsPartition(After(sno, HistoryOf(calls)), final)
  {
    hide After, IsFinal, HistoryOf, IsPartition;
    var timetable := new FinalMap(sno);
    NoHistory();
    calls := [];
    for k := 0 to |uses|
      invariant fresh(timetable) && timetable.sno == sno && timetable.Valid()
      invariant timetable.history == HistoryOf(calls) && AllFit(timetable.history)
      invariant CallsFor(calls, CoursesOf(uses[..k]))
    {
      assert uses[..k + 1][..k] == uses[..k];
      match uses[k]
      case InsertItem(key, values) =>
        ghost var more := timetable.InsertItem(key, values);
        HistoryOfBoth(calls, more);
        calls := calls + more;
      case Look =>
        var _ := timetable.Final();
    }
    assert uses[..|uses|] == uses;
    final := timetable.Final();
    timetable.ShownIsPartition();
    timetable.ViewIsAfter();
  }

  ghost predicate IsShown(final: seq<seq<ItemModel>>, at: Locate) {
    exists k :: ShownBy(final, at, k)
  }

  /** Some course takes place at the slot. */
  ghost predicate IsTaken(courses: seq<(Key, Course)>, at: Locate) {
    exists i :: 0 <= i < |courses| && Covers(courses[i].1, at)
  }

  /** A Swift range does not run backwards. */
  ghost predicate AreCourses(courses: seq<(Key, Course)>) {
    forall i | 0 <= i < |courses| :: courses[i].1.identity.periodFrom <= courses[i].1.identity.periodTo
  }

  lemma CallsAreCalls(calls: seq<CourseCall>, courses: seq<(Key, Course)>)
    requires CallsFor(calls, courses) && AreCourses(courses)
    ensures AreCalls(calls) && |calls| == |courses|
    ensures forall i | 0 <= i < |calls| :: calls[i].course == courses[i].1 && calls[i].key == courses[i].0
  {
    forall i | 0 <= i < |calls| ensures calls[i].course == courses[i].1 && calls[i].key == courses[i].0 {
      assert (calls[i].key, calls[i].course) == courses[i];
    }
  }

  /** Main result: what is shown covers exactly the slots at which some course takes place. */
  lemma ShownIsTaken(sno: Option<string>, courses: seq<(Key, Course)>, calls: seq<CourseCall>,
                     final: seq<seq<ItemModel>>, at: Locate)
    requires CallsFor(calls, courses) && AreCourses(courses) && IsPartition(After(sno, HistoryOf(calls)), final)
    ensures IsShown(final, at) <==> IsTaken(courses, at)
  {
    hide After, HistoryOf, Covers, AreCalls, CallsFor, ShownBy, Heads;
    assert IsCovered(After(sno, HistoryOf(calls)), final, at);
    CallsAreCalls(calls, courses);
    OccupiedIsCovered(sno, calls, at);
  }

  /** ... each with a course that takes place there and that none of the others comes before. */
  lemma ShownIsFirst(sno: Option<string>, courses: seq<(Key, Course)>, calls: seq<CourseCall>,
                     final: seq<seq<ItemModel>>, at: Locate, k: int, i: nat)
    requires CallsFor(calls, courses) && AreCourses(courses) && IsPartition(After(sno, HistoryOf(calls)), final)
    requires ShownBy(final, at, k) && i < |courses| && Covers(courses[i].1, at)
    ensures var shown := final[at.section][k].model;
      IsEntered(calls, shown, at) && !ComesBefore(sno, Node(courses[i].0, courses[i].1.identity), shown)
  {
    hide After, HistoryOf, Covers, AreCalls, CallsFor, ComesBefore, IsEntered;
    var x := After(sno, HistoryOf(calls));
    assert IsCovered(x, final, at);
    CallsAreCalls(calls, courses);
    CallEnters(calls, i, at);
    HeadIsFirst(sno, calls, at, Node(courses[i].0, courses[i].1.identity));
  }

  lemma CallEnters(calls: seq<CourseCall>, i: nat, at: Locate)
    requires i < |calls| && Covers(calls[i].course, at)
    ensures IsEntered(calls, Node(calls[i].key, calls[i].course.identity), at)
  {
    hide Covers;
  }
}
