/** Courses, nodes and the pure meaning of the timetable index: what Map.swift's two
    dictionaries hold after a sequence of node insertions. */
module Timetable {
  import opened Collections

  datatype KeyType = Student | Teacher | CustomKey

  /** Keys are equal when number and type are. */
  datatype Key = Key(sno: string, kind: KeyType)

  datatype Keyname = Mine | Custom | Others {
    function RawValue(): nat {
      match this
      case Mine => 0
      case Custom => 1
      case Others => 2
    }
  }

  datatype SpecialTime = Noon | Night {
    function RawValue(): nat {
      match this
      case Noon => 5
      case Night => 10
    }
  }

  /** The fields of a course that its equality compares. */
  datatype CourseIdentity = CourseIdentity(
    inDay: int,
    periodFrom: nat,
    periodTo: nat,
    inSpecial: set<SpecialTime>,
    course: string,
    classRoom: string,
    courseID: Option<string>)

  /** A course; inSections lists its weeks in ascending order. */
  datatype Course = Course(identity: CourseIdentity, inSections: seq<nat>)

  /** A node; its kind is a function of its key (see Kind). */
  datatype Node = Node(key: Key, value: CourseIdentity) {
    function InDay(): int {
      value.inDay
    }
  }

  datatype Locate = Locate(section: nat, week: int, location: nat)

  function PeriodCount(c: CourseIdentity): nat {
    (if c.periodFrom < c.periodTo then c.periodTo - c.periodFrom else 0) + |c.inSpecial|
  }

  /** kind(of:with:) */
  function Kind(sno: Option<string>, key: Key): Keyname {
    if sno.None? then Mine
    else if sno.value == key.sno then (if key.kind != CustomKey then Mine else Custom)
    else Others
  }

  // ---------- Where a course goes ----------

  /** The row of a lesson, leaving rows 5 and 10 to noon and night. */
  function Row(period: nat): nat {
    var p := if period >= 9 then period + 1 else period;
    if p >= 5 then p + 1 else p
  }

  function SectionLocates(sections: seq<nat>, week: int, location: nat): seq<Locate> {
    seq(|sections|, i requires 0 <= i < |sections| => Locate(sections[i], week, location))
  }

  /** At one row a course is entered in each of its weeks and on the whole-term page. */
  function RowLocates(c: Course, location: nat): seq<Locate> {
    SectionLocates(c.inSections, c.identity.inDay, location) + [Locate(0, c.identity.inDay, location)]
  }

  function AllRowLocates(c: Course, rows: seq<nat>): seq<Locate> {
    if rows == [] then [] else AllRowLocates(c, rows[..|rows| - 1]) + RowLocates(c, rows[|rows| - 1])
  }

  function PeriodRows(from: nat, to: nat): seq<nat> {
    if from >= to then [] else PeriodRows(from, to - 1) + [Row(to - 1)]
  }

  function SpecialRows(specials: seq<SpecialTime>): seq<nat> {
    if specials == [] then [] else
    SpecialRows(specials[..|specials| - 1]) + [specials[|specials| - 1].RawValue()]
  }

  /** The rows of a course when its set of special times is visited in the given order. */
  function Rows(c: CourseIdentity, specials: seq<SpecialTime>): seq<nat> {
    PeriodRows(c.periodFrom, c.periodTo) + SpecialRows(specials)
  }

  /** A set visited in some order. */
  ghost predicate IsOrderOf<T>(s: seq<T>, elements: set<T>) {
    multiset(s) == multiset(elements)
  }

  /** An index set has no duplicates, and a Swift range does not run backwards. */
  ghost predicate IsCourse(c: Course) {
    && c.identity.periodFrom <= c.identity.periodTo
    && forall i, j | 0 <= i < j < |c.inSections| :: c.inSections[i] < c.inSections[j]
  }

  // ---------- Priority within a slot ----------

  datatype Rank = Rank(kind: nat, periodCount: nat)

  function RankOf(sno: Option<string>, n: Node): Rank {
    Rank(Kind(sno, n.key).RawValue(), PeriodCount(n.value))
  }

  /** a is shown before b, or ties with it. */
  predicate AtLeastAsHigh(a: Rank, b: Rank) {
    a.kind < b.kind || (a.kind == b.kind && a.periodCount >= b.periodCount)
  }

  function InsertIndex(sno: Option<string>, list: seq<Node>, n: Node): (i: nat)
    ensures i <= |list|
    ensures forall k | 0 <= k < i :: !AtLeastAsHigh(RankOf(sno, n), RankOf(sno, list[k]))
    ensures i < |list| ==> AtLeastAsHigh(RankOf(sno, n), RankOf(sno, list[i]))
  {
    if list == [] || AtLeastAsHigh(RankOf(sno, n), RankOf(sno, list[0])) then 0
    else
      1 + InsertIndex(sno, list[1..], n)
  }

  function Inserted(sno: Option<string>, list: seq<Node>, n: Node): seq<Node> {
    InsertAt(list, InsertIndex(sno, list, n), n)
  }

  ghost predicate Sorted(sno: Option<string>, list: seq<Node>) {
    forall i, j | 0 <= i < j < |list| :: AtLeastAsHigh(RankOf(sno, list[i]), RankOf(sno, list[j]))
  }

  lemma InsertedIsSorted(sno: Option<string>, list: seq<Node>, n: Node)
    requires Sorted(sno, list)
    ensures Sorted(sno, Inserted(sno, list, n))
  {
    hide RankOf;
    var k := InsertIndex(sno, list, n);
    var r := Inserted(sno, list, n);
    forall i, j | 0 <= i < j < |r| ensures AtLeastAsHigh(RankOf(sno, r[i]), RankOf(sno, r[j])) {
      if i < k && j >= k {
        assert !AtLeastAsHigh(RankOf(sno, n), RankOf(sno, list[i]));
        assert j > k ==> r[j] == list[j - 1];
      } else if i == k {
        assert r[j] == list[j - 1] && AtLeastAsHigh(RankOf(sno, n), RankOf(sno, list[k]));
        assert k < j - 1 ==> AtLeastAsHigh(RankOf(sno, list[k]), RankOf(sno, list[j - 1]));
      } else if i > k {
        assert r[i] == list[i - 1] && r[j] == list[j - 1];
      }
    }
  }

  lemma InsertedAdds(sno: Option<string>, list: seq<Node>, n: Node)
    ensures multiset(Inserted(sno, list, n)) == multiset(list) + multiset{n}
  {
    hide RankOf;
    hide InsertIndex;
    CountsWithin(list, InsertIndex(sno, list, n), n);
  }

  lemma CountsWithin<T>(s: seq<T>, k: nat, x: T)
    requires k <= |s|
    ensures multiset(s[..k] + [x] + s[k..]) == multiset(s) + multiset{x}
  {
    assert s == s[..k] + s[k..];
  }

  // ---------- The two dictionaries ----------

  datatype Insert = Insert(node: Node, at: Locate)

  /** pointMap and nodeMap. */
  datatype Index = Index(points: map<Locate, seq<Node>>, nodes: map<Node, seq<set<nat>>>)

  function Padded(sections: seq<set<nat>>, n: nat): (r: seq<set<nat>>)
    ensures |r| == if |sections| <= n then n + 1 else |sections|
    ensures sections <= r
    ensures forall i | |sections| <= i < |r| :: r[i] == {}
  {
    if |sections| <= n then sections + seq(n + 1 - |sections|, _ => {}) else sections
  }

  /** The old head's entry goes first ... */
  function Unlisted(nodes: map<Node, seq<set<nat>>>, n: Node, at: Locate): map<Node, seq<set<nat>>>
    requires n in nodes ==> at.section < |nodes[n]|
  {
    if n in nodes then nodes[n := nodes[n][at.section := nodes[n][at.section] - {at.location}]] else nodes
  }

  /** ... and the new head's is added, whoever it is. */
  function Relisted(nodes: map<Node, seq<set<nat>>>, n: Node, at: Locate): map<Node, seq<set<nat>>> {
    var sections := Padded(if n in nodes then nodes[n] else [], at.section);
    nodes[n := sections[at.section := sections[at.section] + {at.location}]]
  }

  /** Every slot has a head, and that head's sections reach up to the slot's: what the unchecked
      array access relies on. */
  ghost predicate Safe(x: Index) {
    forall at | at in x.points ::
      x.points[at] != [] && x.points[at][0] in x.nodes && at.section < |x.nodes[x.points[at][0]]|
  }

  /** insert(node:in:) */
  function AfterInsert(sno: Option<string>, x: Index, n: Node, at: Locate): Index
    requires Safe(x)
  {
    var was := if at in x.points then x.points[at] else [];
    var list := Inserted(sno, was, n);
    var nodes := if was != [] then Unlisted(x.nodes, was[0], at) else x.nodes;
    Index(x.points[at := list], Relisted(nodes, list[0], at))
  }

  lemma InsertKeepsSafe(sno: Option<string>, x: Index, n: Node, at: Locate)
    requires Safe(x)
    ensures Safe(AfterInsert(sno, x, n, at))
  {
    var y := AfterInsert(sno, x, n, at);
    forall m | m in x.nodes ensures m in y.nodes && |x.nodes[m]| <= |y.nodes[m]| {
    }
    forall p | p in y.points
      ensures y.points[p] != [] && y.points[p][0] in y.nodes && p.section < |y.nodes[y.points[p][0]]|
    {
      if p != at {
        assert p in x.points;
      }
    }
  }

  lemma PointsAfter(sno: Option<string>, x: Index, n: Node, at: Locate)
    requires Safe(x)
    ensures AfterInsert(sno, x, n, at).points
      == x.points[at := Inserted(sno, if at in x.points then x.points[at] else [], n)]
  {
  }

  /** The index after a sequence of insertions. */
  function After(sno: Option<string>, history: seq<Insert>): (x: Index)
    ensures Safe(x)
  {
    if history == [] then Index(map[], map[]) else
    var x := After(sno, history[..|history| - 1]);
    var last := history[|history| - 1];
    InsertKeepsSafe(sno, x, last.node, last.at);
    AfterInsert(sno, x, last.node, last.at)
  }

  // ---------- The inverse index ----------

  predicate Listed(x: Index, n: Node, section: nat, location: nat) {
    n in x.nodes && section < |x.nodes[n]| && location in x.nodes[n][section]
  }

  predicate Heads(x: Index, n: Node, at: Locate) {
    at in x.points && x.points[at] != [] && x.points[at][0] == n
  }

  ghost predicate Matches(x: Index, n: Node, section: nat, location: nat) {
    Listed(x, n, section, location) <==> Heads(x, n, Locate(section, n.InDay(), location))
  }

  ghost predicate DaysFit(x: Index) {
    forall at, i | at in x.points && 0 <= i < |x.points[at]| :: x.points[at][i].InDay() == at.week
  }

  /** nodeMap lists a location for a node exactly where the node is the visible head. */
  ghost predicate IsInverse(x: Index) {
    && Safe(x) && DaysFit(x)
    && forall n, section, location :: Matches(x, n, section, location)
  }

  lemma InsertKeepsDays(sno: Option<string>, x: Index, n: Node, at: Locate)
    requires Safe(x) && DaysFit(x) && n.InDay() == at.week
    ensures DaysFit(AfterInsert(sno, x, n, at))
  {
    var y := AfterInsert(sno, x, n, at);
    forall p, i | p in y.points && 0 <= i < |y.points[p]| ensures y.points[p][i].InDay() == p.week {
      if p == at {
        var was := if at in x.points then x.points[at] else [];
        var k := InsertIndex(sno, was, n);
        assert y.points[p][i] == if i < k then was[i] else if i == k then n else was[i - 1];
      }
    }
  }

  lemma UnlistedListing(x: Index, n: Node, at: Locate, m: Node, section: nat, location: nat)
    requires n in x.nodes ==> at.section < |x.nodes[n]|
    ensures Listed(x.(nodes := Unlisted(x.nodes, n, at)), m, section, location) <==>
      Listed(x, m, section, location) && (m, section, location) != (n, at.section, at.location)
  {
  }

  lemma RelistedListing(x: Index, n: Node, at: Locate, m: Node, section: nat, location: nat)
    ensures Listed(x.(nodes := Relisted(x.nodes, n, at)), m, section, location) <==>
      Listed(x, m, section, location) || (m, section, location) == (n, at.section, at.location)
  {
  }

  /** An insertion takes its slot from the old head and gives it to the new one, and changes no other listing. */
  lemma ListedAfter(sno: Option<string>, x: Index, n: Node, at: Locate, m: Node, section: nat, location: nat)
    requires Safe(x)
    ensures var y := AfterInsert(sno, x, n, at);
      var here := section == at.section && location == at.location;
      && at in y.points && y.points[at] != []
      && (Listed(y, m, section, location) <==>
        || (here && m == y.points[at][0])
        || (Listed(x, m, section, location) && !(here && at in x.points && m == x.points[at][0])))
  {
    hide Inserted;
    InsertedHasHead(sno, if at in x.points then x.points[at] else [], n);
    var y := AfterInsert(sno, x, n, at);
    var list, z := y.points[at], if at in x.points then x.(nodes := Unlisted(x.nodes, x.points[at][0], at)) else x;
    if at in x.points {
      UnlistedListing(x, x.points[at][0], at, m, section, location);
    }
    RelistedListing(z, list[0], at, m, section, location);
    assert y.nodes == Relisted(z.nodes, list[0], at);
  }

  lemma InsertedHasHead(sno: Option<string>, list: seq<Node>, n: Node)
    ensures Inserted(sno, list, n) != []
  {
  }

  /** Removing the old head, inserting, and adding the new head keep the two dictionaries
      inverse to each other, even for a node that is already in the slot. */
  lemma InsertKeepsInverse(sno: Option<string>, x: Index, n: Node, at: Locate)
    requires IsInverse(x) && n.InDay() == at.week
    ensures IsInverse(AfterInsert(sno, x, n, at))
  {
    InsertKeepsSafe(sno, x, n, at);
    InsertKeepsDays(sno, x, n, at);
    forall m: Node, section: nat, location: nat ensures Matches(AfterInsert(sno, x, n, at), m, section, location) {
      InsertMatches(sno, x, n, at, m, section, location);
    }
    hide AfterInsert, Matches, Safe, DaysFit;
  }

  lemma InsertMatches(sno: Option<string>, x: Index, n: Node, at: Locate, m: Node, section: nat, location: nat)
    requires IsInverse(x) && n.InDay() == at.week
    ensures Matches(AfterInsert(sno, x, n, at), m, section, location)
  {
    hide AfterInsert, Listed, Inserted;
    var y := AfterInsert(sno, x, n, at);
    InsertKeepsDays(sno, x, n, at);
    PointsAfter(sno, x, n, at);
    ListedAfter(sno, x, n, at, m, section, location);
    assert Matches(x, m, section, location);
    assert y.points[at][0].InDay() == at.week;
    if at in x.points {
      assert x.points[at][0].InDay() == at.week;
    }
  }

  ghost predicate AllFit(history: seq<Insert>) {
    forall i | 0 <= i < |history| :: history[i].node.InDay() == history[i].at.week
  }

  /** Main result: after any insertions made through insert(course:), nodeMap is the exact inverse of the heads. */
  lemma {:induction false} AlwaysInverse(sno: Option<string>, history: seq<Insert>)
    requires AllFit(history)
    ensures IsInverse(After(sno, history))
  {
    if history != [] {
      var before, last := history[..|history| - 1], history[|history| - 1];
      AlwaysInverse(sno, before);
      InsertKeepsInverse(sno, After(sno, before), last.node, last.at);
    }
  }

  // ---------- Slot lists ----------

  /** The nodes inserted at one slot, in order. */
  function InsertedAt(history: seq<Insert>, at: Locate): seq<Node> {
    if history == [] then [] else
    InsertedAt(history[..|history| - 1], at)
    + (if history[|history| - 1].at == at then [history[|history| - 1].node] else [])
  }

  /** The list that inserting these nodes into an empty slot gives. */
  function Slot(sno: Option<string>, nodes: seq<Node>): (r: seq<Node>)
    ensures |r| == |nodes|
  {
    if nodes == [] then [] else Inserted(sno, Slot(sno, nodes[..|nodes| - 1]), nodes[|nodes| - 1])
  }

  lemma AfterStep(sno: Option<string>, before: seq<Insert>, last: Insert)
    ensures var x := After(sno, before);
      After(sno, before + [last]).points
      == x.points[last.at := Inserted(sno, if last.at in x.points then x.points[last.at] else [], last.node)]
  {
    assert (before + [last])[..|before|] == before;
    PointsAfter(sno, After(sno, before), last.node, last.at);
  }

  lemma InsertedAtStep(before: seq<Insert>, last: Insert, at: Locate)
    ensures InsertedAt(before + [last], at) == InsertedAt(before, at) + (if last.at == at then [last.node] else [])
  {
    assert (before + [last])[..|before|] == before;
  }

  lemma NothingInserted(sno: Option<string>, at: Locate)
    ensures After(sno, []).points == map[] && InsertedAt([], at) == []
  {
  }

  lemma SlotStep(sno: Option<string>, nodes: seq<Node>, n: Node)
    ensures Slot(sno, nodes + [n]) == Inserted(sno, Slot(sno, nodes), n)
    ensures Slot(sno, []) == []
  {
    assert (nodes + [n])[..|nodes|] == nodes;
  }

  /** Each slot's list depends only on the insertions made there, and is the plain insertion fold of them. */
  lemma {:induction false} SlotIsFold(sno: Option<string>, history: seq<Insert>, at: Locate)
    ensures var x := After(sno, history);
      && (at in x.points <==> InsertedAt(history, at) != [])
      && (at in x.points ==> x.points[at] == Slot(sno, InsertedAt(history, at)))
  {
    hide After, InsertedAt, Slot, Inserted;
    if history == [] {
      NothingInserted(sno, at);
    } else {
      var before, last := history[..|history| - 1], history[|history| - 1];
      assert history == before + [last];
      SlotIsFold(sno, before, at);
      AfterStep(sno, before, last);
      InsertedAtStep(before, last, at);
      var nodes := InsertedAt(before, at);
      SlotStep(sno, nodes, last.node);
      assert at !in After(sno, before).points ==> nodes == [] && Slot(sno, nodes) == [];
      if last.at == at {
        assert InsertedAt(history, at) == nodes + [last.node];
        assert After(sno, history).points[at] == Inserted(sno, Slot(sno, nodes), last.node);
      } else {
        assert InsertedAt(history, at) == nodes;
      }
    }
  }

  lemma {:induction false} SlotIsSorted(sno: Option<string>, nodes: seq<Node>)
    ensures Sorted(sno, Slot(sno, nodes))
    ensures multiset(Slot(sno, nodes)) == multiset(nodes)
  {
    if nodes != [] {
      hide Sorted, Inserted;
      var before, last := nodes[..|nodes| - 1], nodes[|nodes| - 1];
      SlotIsSorted(sno, before);
      InsertedIsSorted(sno, Slot(sno, before), last);
      InsertedAdds(sno, Slot(sno, before), last);
      LastCounts(nodes);
    }
  }

  /** Node i is of best rank, and no later one ties with it. */
  ghost predicate IsLatestBest(sno: Option<string>, nodes: seq<Node>, i: nat) {
    && i < |nodes|
    && (forall k | 0 <= k < |nodes| :: AtLeastAsHigh(RankOf(sno, nodes[i]), RankOf(sno, nodes[k])))
    && (forall k | i < k < |nodes| :: RankOf(sno, nodes[k]) != RankOf(sno, nodes[i]))
  }

  /** The visible head is the latest-inserted node of best rank. */
  lemma {:induction false} HeadIsLatestBest(sno: Option<string>, nodes: seq<Node>) returns (i: nat)
    requires nodes != []
    ensures IsLatestBest(sno, nodes, i) && Slot(sno, nodes)[0] == nodes[i]
  {
    var before, last := nodes[..|nodes| - 1], nodes[|nodes| - 1];
    if before == [] {
      i := 0;
    } else {
      var j := HeadIsLatestBest(sno, before);
      if AtLeastAsHigh(RankOf(sno, last), RankOf(sno, before[j])) {
        i := |before|;
        forall k | 0 <= k < |nodes| ensures AtLeastAsHigh(RankOf(sno, nodes[i]), RankOf(sno, nodes[k])) {
          assert k < |before| ==> nodes[k] == before[k];
        }
      } else {
        i := j;
        forall k | 0 <= k < |nodes| ensures AtLeastAsHigh(RankOf(sno, nodes[i]), RankOf(sno, nodes[k]))
          ensures k > i ==> RankOf(sno, nodes[k]) != RankOf(sno, nodes[i])
        {
          assert k < |before| ==> nodes[k] == before[k];
        }
      }
    }
  }

  function Ranks(sno: Option<string>, list: seq<Node>): (r: seq<Rank>)
    ensures |r| == |list| && forall i | 0 <= i < |list| :: r[i] == RankOf(sno, list[i])
  {
    seq(|list|, i requires 0 <= i < |list| => RankOf(sno, list[i]))
  }

  ghost predicate SortedRanks(r: seq<Rank>) {
    forall i, j | 0 <= i < j < |r| :: AtLeastAsHigh(r[i], r[j])
  }

  lemma TailWithout<T>(a: seq<T>)
    requires a != []
    ensures multiset(a[1..]) == multiset(a) - multiset{a[0]}
  {
    assert a == [a[0]] + a[1..];
  }

  lemma BestComesFirst(a: seq<Rank>, b: seq<Rank>)
    requires SortedRanks(a) && SortedRanks(b) && a != [] && b != [] && a[0] in b && b[0] in a
    ensures a[0] == b[0]
  {
  }

  /** Ranks have only one sorted order. */
  lemma {:induction false} SortedIsUnique(a: seq<Rank>, b: seq<Rank>)
    requires SortedRanks(a) && SortedRanks(b) && multiset(a) == multiset(b)
    ensures a == b
  {
    hide AtLeastAsHigh;
    assert |multiset(a)| == |a| && |multiset(b)| == |b|;
    if a != [] {
      assert a[0] in multiset(b) && b[0] in multiset(a);
      BestComesFirst(a, b);
      TailWithout(a);
      TailWithout(b);
      SortedIsUnique(a[1..], b[1..]);
      assert a == [a[0]] + a[1..] && b == [b[0]] + b[1..];
    }
  }

  lemma CutCounts<T>(s: seq<T>, i: nat)
    requires i < |s|
    ensures |CutAt(s, i)| == |s| - 1 && multiset(CutAt(s, i)) == multiset(s) - multiset{s[i]}
    ensures multiset(s) == multiset(CutAt(s, i)) + multiset{s[i]}
  {
    assert s == s[..i] + [s[i]] + s[i + 1..];
  }

  /** Two sequences with the same elements, each without the first one's first element */
  lemma SameElement<T>(a: seq<T>, b: seq<T>) returns (i: nat)
    requires multiset(a) == multiset(b) && a != []
    ensures i < |b| && b[i] == a[0] && multiset(CutAt(a, 0)) == multiset(CutAt(b, i))
  {
    hide CutAt;
    assert a[0] in multiset(b);
    i :| 0 <= i < |b| && b[i] == a[0];
    CutCounts(a, 0);
    CutCounts(b, i);
  }

  lemma {:induction false} SameNodesSameRanks(sno: Option<string>, a: seq<Node>, b: seq<Node>)
    requires multiset(a) == multiset(b)
    ensures multiset(Ranks(sno, a)) == multiset(Ranks(sno, b))
    decreases |a|
  {
    if a == [] {
      assert |multiset(b)| == |b|;
    } else {
      hide Ranks, RankOf, CutAt;
      var i := SameElement(a, b);
      RanksWithout(sno, a, 0);
      RanksWithout(sno, b, i);
      SameNodesSameRanks(sno, CutAt(a, 0), CutAt(b, i));
    }
  }

  lemma RanksWithout(sno: Option<string>, a: seq<Node>, i: nat)
    requires i < |a|
    ensures |CutAt(a, i)| < |a|
    ensures multiset(Ranks(sno, a)) == multiset(Ranks(sno, CutAt(a, i))) + multiset{RankOf(sno, a[i])}
  {
    hide RankOf;
    CutCounts(Ranks(sno, a), i);
    assert Ranks(sno, CutAt(a, i)) == CutAt(Ranks(sno, a), i);
  }

  ghost predicate RanksDiffer(sno: Option<string>, nodes: seq<Node>) {
    forall i, j | 0 <= i < j < |nodes| :: RankOf(sno, nodes[i]) != RankOf(sno, nodes[j])
  }

  lemma {:induction false} InsertedAtCounts(history: seq<Insert>, at: Locate, n: Node)
    ensures multiset(InsertedAt(history, at))[n] == multiset(history)[Insert(n, at)]
  {
    if history != [] {
      hide InsertedAt;
      var before, last := history[..|history| - 1], history[|history| - 1];
      InsertedAtCounts(before, at, n);
      InsertedAtStep(before, last, at);
      LastCounts(history);
      assert history == before + [last];
      if last.at == at {
        LastCounts(InsertedAt(history, at));
        assert InsertedAt(history, at)[..|InsertedAt(history, at)| - 1] == InsertedAt(before, at);
      }
    }
  }

  lemma SameInsertsAt(a: seq<Insert>, b: seq<Insert>, at: Locate)
    requires multiset(a) == multiset(b)
    ensures multiset(InsertedAt(a, at)) == multiset(InsertedAt(b, at))
  {
    forall n: Node ensures multiset(InsertedAt(a, at))[n] == multiset(InsertedAt(b, at))[n] {
      InsertedAtCounts(a, at, n);
      InsertedAtCounts(b, at, n);
    }
  }

  /** Main result: the order of the insertions does not matter to what ranks a slot shows, and
      where its nodes' ranks differ not even to the list itself. */
  lemma OrderDoesNotMatter(sno: Option<string>, a: seq<Insert>, b: seq<Insert>, at: Locate)
    requires multiset(a) == multiset(b)
    ensures var x, y := After(sno, a), After(sno, b);
      && (at in x.points <==> at in y.points)
      && (at in x.points ==>
        && Ranks(sno, x.points[at]) == Ranks(sno, y.points[at])
        && (RanksDiffer(sno, x.points[at]) ==> x.points[at] == y.points[at]))
  {
    hide After, InsertedAt, Slot, RankOf;
    SlotIsFold(sno, a, at);
    SlotIsFold(sno, b, at);
    SameInsertsAt(a, b, at);
    var s, t := InsertedAt(a, at), InsertedAt(b, at);
    assert |multiset(s)| == |s| && |multiset(t)| == |t|;
    SlotIsSorted(sno, s);
    SlotIsSorted(sno, t);
    SameNodesSameRanks(sno, Slot(sno, s), Slot(sno, t));
    SortedIsUnique(Ranks(sno, Slot(sno, s)), Ranks(sno, Slot(sno, t)));
    if RanksDiffer(sno, Slot(sno, s)) {
      DifferingRanksPin(sno, Slot(sno, s), Slot(sno, t));
    }
  }

  lemma DifferingRanksPin(sno: Option<string>, a: seq<Node>, b: seq<Node>)
    requires multiset(a) == multiset(b) && Ranks(sno, a) == Ranks(sno, b) && RanksDiffer(sno, a)
    ensures a == b
  {
    assert |a| == |Ranks(sno, a)| == |b|;
    forall i | 0 <= i < |a| ensures a[i] == b[i] {
      assert b[i] in multiset(a);
      var j :| 0 <= j < |a| && a[j] == b[i];
      assert Ranks(sno, a)[i] == Ranks(sno, b)[i];
      assert RankOf(sno, a[j]) == RankOf(sno, a[i]);
    }
  }
}
