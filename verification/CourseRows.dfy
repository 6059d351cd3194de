/** Where courses go on a page, and which slots of the timetable they take: the meaning of a
    course's rows, said without the way they are computed. */
module CourseRows {
  import opened Collections
  import opened Timetable
  import opened TermPage

  // ---------- The rows of a page ----------

  /** Lessons come in the order of their periods. */
  lemma RowsAscend(p: nat, q: nat)
    requires p < q
    ensures Row(p) < Row(q)
  {
  }

  /** No lesson is on the row of a special time; noon is between the fourth and the fifth lesson, night
      between the eighth and the ninth. */
  lemma SpecialsLieBetween(p: nat, s: SpecialTime)
    ensures Row(p) != s.RawValue()
    ensures Row(4) < Noon.RawValue() < Row(5) && Row(8) < Night.RawValue() < Row(9)
  {
  }

  /** Every other row is that of a lesson. */
  lemma OtherRowsAreLessons(row: nat) returns (p: nat)
    requires row != Noon.RawValue() && row != Night.RawValue()
    ensures Row(p) == row && forall q: nat | Row(q) == row :: q == p
  {
    p := if row > Night.RawValue() then row - 2 else if row > Noon.RawValue() then row - 1 else row;
  }

  // ---------- The rows of a course ----------

  /** The course has a lesson or a special time on this row. */
  ghost predicate TakesRow(c: CourseIdentity, row: nat) {
    || (exists p: nat :: c.periodFrom <= p < c.periodTo && Row(p) == row)
    || (exists s :: s in c.inSpecial && s.RawValue() == row)
  }

  lemma {:induction false} PeriodRowAt(from: nat, to: nat)
    requires from <= to
    ensures |PeriodRows(from, to)| == to - from
    ensures forall i | 0 <= i < to - from :: PeriodRows(from, to)[i] == Row(from + i)
  {
    if from < to {
      PeriodRowAt(from, to - 1);
    }
  }

  lemma {:induction false} SpecialRowAt(specials: seq<SpecialTime>)
    ensures |SpecialRows(specials)| == |specials|
    ensures forall i | 0 <= i < |specials| :: SpecialRows(specials)[i] == specials[i].RawValue()
  {
    if specials != [] {
      SpecialRowAt(specials[..|specials| - 1]);
    }
  }

  lemma OrderIsDistinct<T>(s: seq<T>, elements: set<T>)
    requires IsOrderOf(s, elements)
    ensures |s| == |elements| && Distinct(s) && forall x :: x in s <==> x in elements
  {
    assert |multiset(s)| == |s|;
    forall x ensures x in s <==> x in elements {
      assert x in multiset(s) <==> x in multiset(elements);
    }
    forall i, j | 0 <= i < j < |s| ensures s[i] != s[j] {
      assert s == s[..j] + s[j..] && s[..j][i] == s[i] && s[j..][0] == s[j];
      assert s[i] in multiset(s[..j]) && s[j] in multiset(s[j..]);
      assert multiset(s)[s[i]] == multiset(elements)[s[i]] == 1;
    }
  }

  lemma LessonRows(c: CourseIdentity, row: nat)
    requires c.periodFrom <= c.periodTo
    ensures row in PeriodRows(c.periodFrom, c.periodTo) <==> exists p: nat :: c.periodFrom <= p < c.periodTo && Row(p) == row
  {
    PeriodRowAt(c.periodFrom, c.periodTo);
    hide Row, PeriodRows;
    if p: nat :| c.periodFrom <= p < c.periodTo && Row(p) == row {
      assert PeriodRows(c.periodFrom, c.periodTo)[p - c.periodFrom] == row;
    }
  }

  lemma SpecialTimeRows(specials: seq<SpecialTime>, elements: set<SpecialTime>, row: nat)
    requires IsOrderOf(specials, elements)
    ensures row in SpecialRows(specials) <==> exists s :: s in elements && s.RawValue() == row
  {
    SpecialRowAt(specials);
    OrderIsDistinct(specials, elements);
    hide SpecialRows, IsOrderOf;
    if row in SpecialRows(specials) {
      var i :| 0 <= i < |specials| && SpecialRows(specials)[i] == row;
      assert specials[i] in specials;
    }
    if s :| s in elements && s.RawValue() == row {
      var i :| 0 <= i < |specials| && specials[i] == s;
      assert SpecialRows(specials)[i] == row;
    }
  }

  /** The lessons and special times of a course have a row each, and no two of them share one. */
  lemma RowsAre(c: CourseIdentity, specials: seq<SpecialTime>)
    requires c.periodFrom <= c.periodTo && IsOrderOf(specials, c.inSpecial)
    ensures Distinct(Rows(c, specials)) && |Rows(c, specials)| == c.periodTo - c.periodFrom + |c.inSpecial| == PeriodCount(c)
    ensures forall row :: row in Rows(c, specials) <==> TakesRow(c, row)
  {
    PeriodRowAt(c.periodFrom, c.periodTo);
    SpecialRowAt(specials);
    OrderIsDistinct(specials, c.inSpecial);
    hide IsOrderOf, PeriodRows, SpecialRows;
    forall row ensures row in Rows(c, specials) <==> TakesRow(c, row) {
      LessonRows(c, row);
      SpecialTimeRows(specials, c.inSpecial, row);
    }
  }

  // ---------- The slots of a course ----------

  /** The course takes place at this slot; section 0 is the whole-term page. */
  ghost predicate Covers(c: Course, at: Locate) {
    at.week == c.identity.inDay && (at.section == 0 || at.section in c.inSections) && TakesRow(c.identity, at.location)
  }

  lemma RowLocatesAre(c: Course, row: nat, at: Locate)
    ensures at in RowLocates(c, row) <==>
      at.week == c.identity.inDay && (at.section == 0 || at.section in c.inSections) && at.location == row
  {
    var weeks := SectionLocates(c.inSections, c.identity.inDay, row);
    if at.section in c.inSections {
      var i :| 0 <= i < |c.inSections| && c.inSections[i] == at.section;
      assert weeks[i] == Locate(at.section, c.identity.inDay, row);
    }
    assert RowLocates(c, row)[|weeks|] == Locate(0, c.identity.inDay, row);
  }

  lemma {:induction false} AllRowLocatesAre(c: Course, rows: seq<nat>, at: Locate)
    ensures at in AllRowLocates(c, rows) <==>
      at.week == c.identity.inDay && (at.section == 0 || at.section in c.inSections) && at.location in rows
  {
    if rows != [] {
      hide RowLocates;
      var n := |rows| - 1;
      AllRowLocatesAre(c, rows[..n], at);
      RowLocatesAre(c, rows[n], at);
      assert rows == rows[..n] + [rows[n]];
    }
  }

  /** insert(course:with:) enters the course exactly where it takes place. */
  lemma CallLocatesAre(call: CourseCall, at: Locate)
    requires call.course.identity.periodFrom <= call.course.identity.periodTo
    requires IsOrderOf(call.specials, call.course.identity.inSpecial)
    ensures at in CallLocates(call) <==> Covers(call.course, at)
  {
    RowsAre(call.course.identity, call.specials);
    AllRowLocatesAre(call.course, Rows(call.course.identity, call.specials), at);
  }

  /** The calls are of courses whose special times are visited in some order. */
  ghost predicate AreCalls(calls: seq<CourseCall>) {
    forall i | 0 <= i < |calls| ::
      && calls[i].course.identity.periodFrom <= calls[i].course.identity.periodTo
      && IsOrderOf(calls[i].specials, calls[i].course.identity.inSpecial)
  }

  /** Some call inserts the node at this slot. */
  ghost predicate IsEntered(calls: seq<CourseCall>, n: Node, at: Locate) {
    exists i :: 0 <= i < |calls| && Node(calls[i].key, calls[i].course.identity) == n && Covers(calls[i].course, at)
  }

  lemma {:induction false} HistoryHolds(calls: seq<CourseCall>, n: Node, at: Locate)
    requires AreCalls(calls)
    ensures Insert(n, at) in HistoryOf(calls) <==> IsEntered(calls, n, at)
  {
    if calls != [] {
      hide Covers, IsOrderOf, CallInserts, IsEntered;
      var k := |calls| - 1;
      HistoryHolds(calls[..k], n, at);
      CallLocatesAre(calls[k], at);
      CallInsertsAre(calls[k], n, at);
      EnteredSnoc(calls, n, at);
    }
  }

  lemma EnteredSnoc(calls: seq<CourseCall>, n: Node, at: Locate)
    requires calls != []
    ensures var k := |calls| - 1;
      IsEntered(calls, n, at) <==>
        IsEntered(calls[..k], n, at) || (Node(calls[k].key, calls[k].course.identity) == n && Covers(calls[k].course, at))
  {
    hide Covers;
    assert forall i | 0 <= i < |calls| - 1 :: calls[..|calls| - 1][i] == calls[i];
  }

  lemma CallInsertsAre(call: CourseCall, n: Node, at: Locate)
    ensures Insert(n, at) in CallInserts(call) <==> Node(call.key, call.course.identity) == n && at in CallLocates(call)
  {
    var locates, inserts := CallLocates(call), CallInserts(call);
    if at in locates && Node(call.key, call.course.identity) == n {
      var i :| 0 <= i < |locates| && locates[i] == at;
      assert inserts[i] == Insert(n, at);
    }
  }

  /** Main result: after any courses, a slot holds exactly the courses that take place there. */
  lemma SlotHolds(sno: Option<string>, calls: seq<CourseCall>, n: Node, at: Locate)
    requires AreCalls(calls)
    ensures var points := After(sno, HistoryOf(calls)).points;
      (at in points && n in points[at]) <==> IsEntered(calls, n, at)
  {
    hide After, HistoryOf, IsEntered, AreCalls, Slot;
    var history := HistoryOf(calls);
    HistoryHolds(calls, n, at);
    SlotIsFold(sno, history, at);
    SlotIsSorted(sno, InsertedAt(history, at));
    InsertedAtCounts(history, at, n);
    assert n in InsertedAt(history, at) <==> n in multiset(InsertedAt(history, at));
    assert n in Slot(sno, InsertedAt(history, at)) <==> n in multiset(Slot(sno, InsertedAt(history, at)));
    assert Insert(n, at) in history <==> Insert(n, at) in multiset(history);
  }

  /** A slot is occupied if and only if some course takes place there. */
  lemma OccupiedIsCovered(sno: Option<string>, calls: seq<CourseCall>, at: Locate)
    requires AreCalls(calls)
    ensures at in After(sno, HistoryOf(calls)).points <==> exists i :: 0 <= i < |calls| && Covers(calls[i].course, at)
  {
    hide After, HistoryOf, Covers;
    var points := After(sno, HistoryOf(calls)).points;
    SlotIsFold(sno, HistoryOf(calls), at);
    if at in points {
      SlotHolds(sno, calls, points[at][0], at);
    }
    forall i | 0 <= i < |calls| && Covers(calls[i].course, at) ensures at in points {
      SlotHolds(sno, calls, Node(calls[i].key, calls[i].course.identity), at);
    }
  }

  // ---------- Who comes first ----------

  /** A timetable of the user, or any if there is no user */
  predicate IsOwn(sno: Option<string>, key: Key) {
    sno.None? || (sno.value == key.sno && key.kind != CustomKey)
  }

  predicate IsOwnCustom(sno: Option<string>, key: Key) {
    sno.Some? && sno.value == key.sno && key.kind == CustomKey
  }

  /** kind(of:with:) tells these apart. */
  lemma KindTells(sno: Option<string>, key: Key)
    ensures Kind(sno, key) == Mine <==> IsOwn(sno, key)
    ensures Kind(sno, key) == Custom <==> IsOwnCustom(sno, key)
  {
  }

  /** The user's own courses come before what the user has entered, these before anybody else's, and of
      one kind those with more lessons and special times come first. */
  predicate ComesBefore(sno: Option<string>, a: Node, b: Node) {
    || (IsOwn(sno, a.key) && !IsOwn(sno, b.key))
    || (IsOwnCustom(sno, a.key) && !IsOwn(sno, b.key) && !IsOwnCustom(sno, b.key))
    || (&& (IsOwn(sno, a.key) <==> IsOwn(sno, b.key)) && (IsOwnCustom(sno, a.key) <==> IsOwnCustom(sno, b.key))
        && PeriodCount(a.value) > PeriodCount(b.value))
  }

  lemma RankIsOrder(sno: Option<string>, a: Node, b: Node)
    ensures AtLeastAsHigh(RankOf(sno, a), RankOf(sno, b)) <==> !ComesBefore(sno, b, a)
  {
  }

  /** A slot's list is in this order. */
  lemma SlotIsInOrder(sno: Option<string>, nodes: seq<Node>, i: nat, j: nat)
    requires i < j < |Slot(sno, nodes)|
    ensures !ComesBefore(sno, Slot(sno, nodes)[j], Slot(sno, nodes)[i])
  {
    SlotIsSorted(sno, nodes);
    RankIsOrder(sno, Slot(sno, nodes)[i], Slot(sno, nodes)[j]);
    hide ComesBefore;
  }

  /** The head of a slot is a course that takes place there, and none that does comes before it. */
  lemma HeadIsFirst(sno: Option<string>, calls: seq<CourseCall>, at: Locate, n: Node)
    requires AreCalls(calls) && at in After(sno, HistoryOf(calls)).points && IsEntered(calls, n, at)
    ensures var list := After(sno, HistoryOf(calls)).points[at];
      list != [] && IsEntered(calls, list[0], at) && !ComesBefore(sno, n, list[0])
  {
    hide After, HistoryOf, IsEntered, AreCalls, ComesBefore, Slot;
    var list := After(sno, HistoryOf(calls)).points[at];
    SlotIsFold(sno, HistoryOf(calls), at);
    SlotHolds(sno, calls, n, at);
    SlotHolds(sno, calls, list[0], at);
    var i :| 0 <= i < |list| && list[i] == n;
    if i == 0 {
      NothingBeforeItself(sno, n);
    } else {
      SlotIsInOrder(sno, InsertedAt(HistoryOf(calls), at), 0, i);
    }
  }

  lemma NothingBeforeItself(sno: Option<string>, n: Node)
    ensures !ComesBefore(sno, n, n)
  {
  }
}
