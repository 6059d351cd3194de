/** Whole courses: the insertions insert(course:) makes, and what the whole-term page
    (section 0) owes to the pages of the weeks. */
module TermPage {
  import opened Collections
  import opened Timetable

  /** One call of insert(course:with:); specials is the order its special times were visited in. */
  datatype CourseCall = CourseCall(key: Key, course: Course, specials: seq<SpecialTime>)

  function NodeInserts(n: Node, locates: seq<Locate>): (r: seq<Insert>)
    ensures |r| == |locates| && forall i | 0 <= i < |r| :: r[i] == Insert(n, locates[i])
  {
    seq(|locates|, i requires 0 <= i < |locates| => Insert(n, locates[i]))
  }

  function CallLocates(c: CourseCall): seq<Locate> {
    AllRowLocates(c.course, Rows(c.course.identity, c.specials))
  }

  function CallInserts(c: CourseCall): seq<Insert> {
    NodeInserts(Node(c.key, c.course.identity), CallLocates(c))
  }

  function HistoryOf(calls: seq<CourseCall>): seq<Insert> {
    if calls == [] then [] else HistoryOf(calls[..|calls| - 1]) + CallInserts(calls[|calls| - 1])
  }

  lemma {:induction false} LocatesFitDay(c: Course, rows: seq<nat>)
    ensures forall i | 0 <= i < |AllRowLocates(c, rows)| :: AllRowLocates(c, rows)[i].week == c.identity.inDay
  {
    if rows != [] {
      LocatesFitDay(c, rows[..|rows| - 1]);
    }
  }

  lemma CallFits(c: CourseCall)
    ensures AllFit(CallInserts(c))
  {
    hide AllRowLocates;
    LocatesFitDay(c.course, Rows(c.course.identity, c.specials));
  }

  /** Course insertions always name the node's own day. */
  lemma {:induction false} HistoryFits(calls: seq<CourseCall>)
    ensures AllFit(HistoryOf(calls))
  {
    hide CallInserts;
    if calls != [] {
      HistoryFits(calls[..|calls| - 1]);
      CallFits(calls[|calls| - 1]);
    }
  }

  function TermLocate(at: Locate): Locate {
    at.(section := 0)
  }

  lemma {:induction false} SectionOnce(sections: seq<nat>, week: int, location: nat, at: Locate)
    requires forall i, j | 0 <= i < j < |sections| :: sections[i] < sections[j]
    ensures multiset(SectionLocates(sections, week, location))[at]
      <= (if at.week == week && at.location == location && at.section in sections then 1 else 0)
  {
    if sections != [] {
      var n := |sections| - 1;
      SectionOnce(sections[..n], week, location, at);
      assert sections == sections[..n] + [sections[n]];
      assert SectionLocates(sections, week, location)
        == SectionLocates(sections[..n], week, location) + [Locate(sections[n], week, location)];
    }
  }

  /** Every entry in a week comes with one on the whole-term page. */
  lemma {:induction false} RowsDominate(c: Course, rows: seq<nat>, at: Locate)
    requires IsCourse(c)
    ensures multiset(AllRowLocates(c, rows))[at] <= multiset(AllRowLocates(c, rows))[TermLocate(at)]
  {
    if rows != [] {
      var n := |rows| - 1;
      RowsDominate(c, rows[..n], at);
      SectionOnce(c.inSections, c.identity.inDay, rows[n], at);
      assert multiset(RowLocates(c, rows[n]))[at] <= multiset(RowLocates(c, rows[n]))[TermLocate(at)];
    }
  }

  lemma {:induction false} NodeInsertsCount(n: Node, locates: seq<Locate>, m: Node, at: Locate)
    ensures multiset(NodeInserts(n, locates))[Insert(m, at)] == if m == n then multiset(locates)[at] else 0
  {
    if locates != [] {
      var k := |locates| - 1;
      NodeInsertsCount(n, locates[..k], m, at);
      assert locates == locates[..k] + [locates[k]];
      assert NodeInserts(n, locates) == NodeInserts(n, locates[..k]) + [Insert(n, locates[k])];
    }
  }

  lemma {:induction false} HistoryDominates(calls: seq<CourseCall>, n: Node, at: Locate)
    requires forall i | 0 <= i < |calls| :: IsCourse(calls[i].course)
    ensures multiset(HistoryOf(calls))[Insert(n, at)] <= multiset(HistoryOf(calls))[Insert(n, TermLocate(at))]
  {
    if calls != [] {
      var last := calls[|calls| - 1];
      HistoryDominates(calls[..|calls| - 1], n, at);
      RowsDominate(last.course, Rows(last.course.identity, last.specials), at);
      NodeInsertsCount(Node(last.key, last.course.identity), CallLocates(last), n, at);
      NodeInsertsCount(Node(last.key, last.course.identity), CallLocates(last), n, TermLocate(at));
    }
  }

  /** Main result: a slot occupied in some week is occupied on the whole-term page, whose head
      ranks at least as high. */
  lemma TermPageDominates(sno: Option<string>, calls: seq<CourseCall>, at: Locate)
    requires forall i | 0 <= i < |calls| :: IsCourse(calls[i].course)
    requires at in After(sno, HistoryOf(calls)).points
    ensures var points := After(sno, HistoryOf(calls)).points;
      && TermLocate(at) in points
      && points[TermLocate(at)] != [] && points[at] != []
      && AtLeastAsHigh(RankOf(sno, points[TermLocate(at)][0]), RankOf(sno, points[at][0]))
  {
    hide After, HistoryOf, RankOf;
    var history, term := HistoryOf(calls), TermLocate(at);
    var here, there := InsertedAt(history, at), InsertedAt(history, term);
    SlotIsFold(sno, history, at);
    SlotIsFold(sno, history, term);
    SlotIsSorted(sno, here);
    SlotIsSorted(sno, there);
    var head := Slot(sno, here)[0];
    assert head in multiset(here);
    InsertedAtCounts(history, at, head);
    HistoryDominates(calls, head, at);
    InsertedAtCounts(history, term, head);
    assert head in multiset(there) && head in multiset(Slot(sno, there));
    var i :| 0 <= i < |Slot(sno, there)| && Slot(sno, there)[i] == head;
    assert AtLeastAsHigh(RankOf(sno, Slot(sno, there)[0]), RankOf(sno, head));
  }
}
