/** What the LRU cache means: its entries from oldest to newest, the effect of each critical
    section on them, and what holds over every run and every interleaving. */
module LRUSpec {
  import opened Collections

  datatype Entry<K, V> = Entry(key: K, value: V, cost: int)

  datatype Limits = Limits(totalCost: int, count: int)

  /** The entries of a state are those on the list; totalCost is the field. */
  datatype State<K, V> = State(entries: seq<Entry<K, V>>, totalCost: int)

  function WithoutKey<K(==), V>(es: seq<Entry<K, V>>, key: K): seq<Entry<K, V>> {
    if es == [] then [] else (if es[0].key == key then [] else [es[0]]) + WithoutKey(es[1..], key)
  }

  function Find<K(==), V>(es: seq<Entry<K, V>>, key: K): (r: Option<Entry<K, V>>)
    ensures r.Some? ==> r.value.key == key && r.value in es
    ensures r.None? ==> forall e | e in es :: e.key != key
  {
    if es == [] then None else if es[0].key == key then Some(es[0]) else Find(es[1..], key)
  }

  function Sum<K, V>(es: seq<Entry<K, V>>): int {
    if es == [] then 0 else es[0].cost + Sum(es[1..])
  }

  ghost predicate KeysDiffer<K, V>(es: seq<Entry<K, V>>) {
    forall i, j | 0 <= i < j < |es| :: es[i].key != es[j].key
  }

  // ---------- The critical sections ----------

  function AfterSet<K(==), V>(s: State<K, V>, key: K, value: V, cost: int): State<K, V> {
    var old' := Find(s.entries, key);
    State(WithoutKey(s.entries, key) + [Entry(key, value, cost)],
          s.totalCost + cost - (if old'.Some? then old'.value.cost else 0))
  }

  function AfterValue<K(==), V>(s: State<K, V>, key: K): State<K, V> {
    var found := Find(s.entries, key);
    if found.Some? then s.(entries := WithoutKey(s.entries, key) + [found.value]) else s
  }

  function AfterRemove<K(==), V>(s: State<K, V>, key: K): State<K, V> {
    var found := Find(s.entries, key);
    if found.Some? then State(WithoutKey(s.entries, key), s.totalCost - found.value.cost) else s
  }

  /** removeAllValues keeps totalCost as it is. */
  function AfterRemoveAll<K, V>(s: State<K, V>): State<K, V> {
    s.(entries := [])
  }

  predicate Fits<K, V>(s: State<K, V>, limits: Limits) {
    s.totalCost <= limits.totalCost && |s.entries| <= limits.count
  }

  function Evicted<K, V>(s: State<K, V>, n: nat): State<K, V>
    requires n <= |s.entries|
  {
    State(s.entries[n..], s.totalCost - Sum(s.entries[..n]))
  }

  /** n is the shortest prefix whose eviction meets both limits, or everything if none does. */
  ghost predicate IsShortest<K, V>(s: State<K, V>, limits: Limits, n: nat) {
    && n <= |s.entries|
    && (n < |s.entries| ==> s.totalCost - Sum(s.entries[..n]) <= limits.totalCost && |s.entries| - n <= limits.count)
    && forall m | 0 <= m < n :: s.totalCost - Sum(s.entries[..m]) > limits.totalCost || |s.entries| - m > limits.count
  }

  function CleanCount<K, V>(s: State<K, V>, limits: Limits): nat
    decreases |s.entries|
  {
    if s.entries == [] || Fits(s, limits) then 0 else 1 + CleanCount(Evicted(s, 1), limits)
  }

  lemma SumConcat<K, V>(a: seq<Entry<K, V>>, b: seq<Entry<K, V>>)
    ensures Sum(a + b) == Sum(a) + Sum(b)
  {
    if a == [] {
      assert a + b == b;
    } else {
      SumConcat(a[1..], b);
      assert (a + b)[1..] == a[1..] + b;
    }
  }

  lemma EvictedTwice<K, V>(s: State<K, V>, m: nat, n: nat)
    requires m + n <= |s.entries|
    ensures n <= |Evicted(s, m).entries| && Evicted(Evicted(s, m), n) == Evicted(s, m + n)
  {
    assert s.entries[m..][n..] == s.entries[m + n..];
    assert s.entries[..m + n] == s.entries[..m] + s.entries[m..][..n];
    SumConcat(s.entries[..m], s.entries[m..][..n]);
  }

  lemma {:induction false} CleanCountIsShortest<K, V>(s: State<K, V>, limits: Limits)
    ensures IsShortest(s, limits, CleanCount(s, limits))
    decreases |s.entries|
  {
    assert s.entries != [] ==> Sum(s.entries[..1]) == s.entries[0].cost + Sum(s.entries[..1][1..]);
    assert Evicted(s, 0) == s;
    if s.entries != [] && !Fits(s, limits) {
      var s', n := Evicted(s, 1), CleanCount(Evicted(s, 1), limits);
      CleanCountIsShortest(s', limits);
      EvictedTwice(s, 1, n);
      forall m | 0 <= m < 1 + n
        ensures s.totalCost - Sum(s.entries[..m]) > limits.totalCost || |s.entries| - m > limits.count
      {
        if m > 0 {
          EvictedTwice(s, 1, m - 1);
          assert Evicted(s, m).totalCost == s'.totalCost - Sum(s'.entries[..m - 1]);
        }
      }
    }
  }

  lemma NothingEvicted<K, V>(s: State<K, V>)
    ensures Evicted(s, 0) == s
  {
  }

  /** One round of clean: while a limit is exceeded the oldest entry goes. */
  lemma CleanRound<K, V>(s: State<K, V>, limits: Limits, n: nat)
    requires n < |s.entries| && !Fits(Evicted(s, n), limits)
    ensures CleanCount(Evicted(s, n), limits) == 1 + CleanCount(Evicted(s, n + 1), limits)
    ensures |Evicted(s, n + 1).entries| == |s.entries| - (n + 1)
    ensures Evicted(s, n + 1).entries == Evicted(s, n).entries[..0] + Evicted(s, n).entries[1..]
    ensures Evicted(s, n + 1).totalCost == Evicted(s, n).totalCost - Evicted(s, n).entries[0].cost
  {
    EvictedTwice(s, n, 1);
    var t := Evicted(s, n);
    assert t.entries[..1][1..] == [];
    assert Sum(t.entries[..1]) == t.entries[0].cost;
  }

  lemma CleanDone<K, V>(s: State<K, V>, limits: Limits)
    requires s.entries == [] || Fits(s, limits)
    ensures CleanCount(s, limits) == 0
  {
  }

  function AfterClean<K, V>(s: State<K, V>, limits: Limits): State<K, V> {
    CleanCountIsShortest(s, limits);
    Evicted(s, CleanCount(s, limits))
  }

  // ---------- Runs ----------

  datatype Section<K, V> =
    | Setting(key: K, value: V, cost: int)
    | Fetching(key: K)
    | Removing(key: K)
    | Clearing
    | Cleaning

  function Step<K(==), V>(s: State<K, V>, limits: Limits, section: Section<K, V>): State<K, V> {
    match section
    case Setting(k, v, c) => AfterSet(s, k, v, c)
    case Fetching(k) => AfterValue(s, k)
    case Removing(k) => AfterRemove(s, k)
    case Clearing => AfterRemoveAll(s)
    case Cleaning => AfterClean(s, limits)
  }

  /** Critical sections of any threads, in the order they held the lock. */
  function Run<K(==), V>(limits: Limits, run: seq<Section<K, V>>): State<K, V> {
    if run == [] then State([], 0) else Step(Run(limits, run[..|run| - 1]), limits, run[|run| - 1])
  }

  lemma {:induction false} WithoutKeyIsGone<K, V>(es: seq<Entry<K, V>>, key: K)
    ensures forall e | e in WithoutKey(es, key) :: e in es && e.key != key
    ensures KeysDiffer(es) ==> KeysDiffer(WithoutKey(es, key))
    ensures |WithoutKey(es, key)| <= |es|
  {
    if es != [] {
      WithoutKeyIsGone(es[1..], key);
      var rest := WithoutKey(es[1..], key);
      if KeysDiffer(es) && es[0].key != key {
        forall j | 0 < j < |WithoutKey(es, key)| ensures WithoutKey(es, key)[j].key != es[0].key {
          assert WithoutKey(es, key)[j] == rest[j - 1] && rest[j - 1] in es[1..];
        }
      }
    }
  }

  /** With distinct keys, dropping a key drops one entry from the middle. */
  lemma {:induction false} WithoutKeyIsCut<K, V>(es: seq<Entry<K, V>>, i: nat)
    requires KeysDiffer(es) && i < |es|
    ensures WithoutKey(es, es[i].key) == es[..i] + es[i + 1..]
    ensures Find(es, es[i].key) == Some(es[i])
    ensures Sum(es) == Sum(es[..i] + es[i + 1..]) + es[i].cost
  {
    if i == 0 {
      WithoutKeyAbsent(es[1..], es[0].key);
      assert es[..0] + es[1..] == es[1..];
    } else {
      WithoutKeyIsCut(es[1..], i - 1);
      assert es[..i] + es[i + 1..] == [es[0]] + (es[1..][..i - 1] + es[1..][i..]);
    }
  }

  lemma {:induction false} WithoutKeyAbsent<K, V>(es: seq<Entry<K, V>>, key: K)
    requires forall i | 0 <= i < |es| :: es[i].key != key
    ensures WithoutKey(es, key) == es && Find(es, key).None?
  {
    if es != [] {
      WithoutKeyAbsent(es[1..], key);
    }
  }

  lemma StepKeepsKeys<K, V>(s: State<K, V>, limits: Limits, section: Section<K, V>)
    requires KeysDiffer(s.entries)
    ensures KeysDiffer(Step(s, limits, section).entries)
  {
    match section {
      case Setting(k, _, _) => WithoutKeyIsGone(s.entries, k);
      case Fetching(k) => WithoutKeyIsGone(s.entries, k);
      case Removing(k) => WithoutKeyIsGone(s.entries, k);
      case Clearing =>
      case Cleaning => CleanCountIsShortest(s, limits);
    }
  }

  lemma {:induction false} RunKeepsKeys<K, V>(limits: Limits, run: seq<Section<K, V>>)
    ensures KeysDiffer(Run(limits, run).entries)
  {
    if run != [] {
      RunKeepsKeys(limits, run[..|run| - 1]);
      StepKeepsKeys(Run(limits, run[..|run| - 1]), limits, run[|run| - 1]);
    }
  }

  // ---------- Recency ----------

  /** The position in the run of the last section that set or fetched the key, or -1. */
  function LastAccess<K(==), V>(run: seq<Section<K, V>>, key: K): int {
    if run == [] then -1 else
    var last := run[|run| - 1];
    if (last.Setting? || last.Fetching?) && last.key == key then |run| - 1
    else LastAccess(run[..|run| - 1], key)
  }

  ghost predicate InOrderOfAccess<K, V>(run: seq<Section<K, V>>, es: seq<Entry<K, V>>) {
    forall i, j | 0 <= i < j < |es| :: LastAccess(run, es[i].key) < LastAccess(run, es[j].key)
  }

  lemma {:induction false} LastAccessIsPast<K, V>(run: seq<Section<K, V>>, key: K)
    ensures -1 <= LastAccess(run, key) < |run|
  {
    if run != [] {
      LastAccessIsPast(run[..|run| - 1], key);
    }
  }

  lemma {:induction false} WithoutKeyKeepsOrder<K, V>(run: seq<Section<K, V>>, es: seq<Entry<K, V>>, key: K)
    requires InOrderOfAccess(run, es)
    ensures InOrderOfAccess(run, WithoutKey(es, key))
  {
    if es != [] {
      WithoutKeyKeepsOrder(run, es[1..], key);
      WithoutKeyIsGone(es[1..], key);
      var rest := WithoutKey(es[1..], key);
      if es[0].key != key {
        forall j | 0 < j < |WithoutKey(es, key)|
          ensures LastAccess(run, es[0].key) < LastAccess(run, WithoutKey(es, key)[j].key)
        {
          assert WithoutKey(es, key)[j] == rest[j - 1] && rest[j - 1] in es[1..];
        }
      }
    }
  }

  /** The entries a section leaves are in order of last access, with the accessed one newest. */
  lemma AccessedComesLast<K, V>(run: seq<Section<K, V>>, section: Section<K, V>, es: seq<Entry<K, V>>, e: Entry<K, V>)
    requires InOrderOfAccess(run, es)
    requires (section.Setting? || section.Fetching?) && section.key == e.key
    ensures InOrderOfAccess(run + [section], WithoutKey(es, e.key) + [e])
  {
    WithoutKeyKeepsOrder(run, es, e.key);
    WithoutKeyIsGone(es, e.key);
    var rest, longer := WithoutKey(es, e.key), run + [section];
    assert longer[..|run|] == run;
    forall i, j | 0 <= i < j < |rest + [e]|
      ensures LastAccess(longer, (rest + [e])[i].key) < LastAccess(longer, (rest + [e])[j].key)
    {
      assert rest[i] in rest;
      LastAccessIsPast(run, rest[i].key);
      assert j < |rest| ==> rest[j] in rest;
    }
  }

  lemma OtherAccessKeepsOrder<K, V>(run: seq<Section<K, V>>, section: Section<K, V>, es: seq<Entry<K, V>>)
    requires InOrderOfAccess(run, es)
    requires section.Setting? || section.Fetching? ==> forall e | e in es :: e.key != section.key
    ensures InOrderOfAccess(run + [section], es)
  {
    assert (run + [section])[..|run|] == run;
    forall i | 0 <= i < |es| ensures LastAccess(run + [section], es[i].key) == LastAccess(run, es[i].key) {
      assert es[i] in es;
    }
  }

  lemma StepKeepsOrder<K, V>(limits: Limits, run: seq<Section<K, V>>, s: State<K, V>, section: Section<K, V>)
    requires InOrderOfAccess(run, s.entries)
    ensures InOrderOfAccess(run + [section], Step(s, limits, section).entries)
  {
    match section {
      case Setting(k, v, c) =>
        AccessedComesLast(run, section, s.entries, Entry(k, v, c));
      case Fetching(k) =>
        var found := Find(s.entries, k);
        if found.Some? {
          AccessedComesLast(run, section, s.entries, found.value);
        } else {
          OtherAccessKeepsOrder(run, section, s.entries);
        }
      case Removing(k) =>
        WithoutKeyKeepsOrder(run, s.entries, k);
        OtherAccessKeepsOrder(run, section, Step(s, limits, section).entries);
      case Clearing =>
      case Cleaning =>
        CleanCountIsShortest(s, limits);
        OtherAccessKeepsOrder(run, section, Step(s, limits, section).entries);
    }
  }

  /** Main result: in every run the list is in order of last access, oldest first. */
  lemma {:induction false} AlwaysInOrderOfAccess<K, V>(limits: Limits, run: seq<Section<K, V>>)
    ensures InOrderOfAccess(run, Run(limits, run).entries)
  {
    if run != [] {
      var before, last := run[..|run| - 1], run[|run| - 1];
      AlwaysInOrderOfAccess(limits, before);
      StepKeepsOrder(limits, before, Run(limits, before), last);
      assert before + [last] == run;
    }
  }

  // ---------- Cost ----------

  /** The costs that removeAllValues forgot to subtract. */
  function Discarded<K(==), V>(limits: Limits, run: seq<Section<K, V>>): int {
    if run == [] then 0 else
    var before := run[..|run| - 1];
    Discarded(limits, before) + (if run[|run| - 1].Clearing? then Sum(Run(limits, before).entries) else 0)
  }

  lemma CutSum<K, V>(es: seq<Entry<K, V>>, key: K)
    requires KeysDiffer(es)
    ensures Sum(WithoutKey(es, key)) == Sum(es) - (if Find(es, key).Some? then Find(es, key).value.cost else 0)
  {
    if exists i :: 0 <= i < |es| && es[i].key == key {
      var i :| 0 <= i < |es| && es[i].key == key;
      WithoutKeyIsCut(es, i);
    } else {
      WithoutKeyAbsent(es, key);
    }
  }

  lemma StepSum<K, V>(s: State<K, V>, limits: Limits, section: Section<K, V>)
    requires KeysDiffer(s.entries)
    ensures var t := Step(s, limits, section);
      t.totalCost - Sum(t.entries) == s.totalCost - Sum(s.entries) + (if section.Clearing? then Sum(s.entries) else 0)
  {
    match section {
      case Setting(k, v, c) =>
        CutSum(s.entries, k);
        SumConcat(WithoutKey(s.entries, k), [Entry(k, v, c)]);
      case Fetching(k) =>
        CutSum(s.entries, k);
        if Find(s.entries, k).Some? {
          SumConcat(WithoutKey(s.entries, k), [Find(s.entries, k).value]);
        }
      case Removing(k) =>
        CutSum(s.entries, k);
      case Clearing =>
      case Cleaning =>
        CleanCountIsShortest(s, limits);
        var n := CleanCount(s, limits);
        SumConcat(s.entries[..n], s.entries[n..]);
        assert s.entries == s.entries[..n] + s.entries[n..];
    }
  }

  /** totalCost is the sum of the live costs exactly when what removeAllValues discarded sums to
      zero; in particular in every run without it. */
  lemma {:induction false} TotalCostIsSum<K, V>(limits: Limits, run: seq<Section<K, V>>)
    ensures Run(limits, run).totalCost == Sum(Run(limits, run).entries) + Discarded(limits, run)
    ensures (forall i | 0 <= i < |run| :: !run[i].Clearing?) ==> Discarded(limits, run) == 0
  {
    if run != [] {
      TotalCostIsSum(limits, run[..|run| - 1]);
      RunKeepsKeys(limits, run[..|run| - 1]);
      StepSum(Run(limits, run[..|run| - 1]), limits, run[|run| - 1]);
    }
  }

  /** After a clear the forgotten cost can make a later value be evicted at once although the
      cache is otherwise empty and the value's own cost fits. */
  lemma ForgottenCostEvicts()
    ensures var limits := Limits(4, 10);
      Run<nat, nat>(limits, [Setting(1, 1, 4), Clearing, Setting(2, 2, 1), Cleaning]) == State([], 4)
  {
    var limits := Limits(4, 10);
    var r1: seq<Section<nat, nat>> := [Setting(1, 1, 4)];
    var r2, r3 := r1 + [Clearing], r1 + [Clearing, Setting(2, 2, 1)];
    var r4 := r3 + [Cleaning];
    assert r1[..0] == [] && r2[..1] == r1 && r3[..2] == r2 && r4[..3] == r3;
    assert Run(limits, r1) == State([Entry(1, 1, 4)], 4);
    assert Run(limits, r2) == State([], 4);
    assert Run(limits, r3) == State([Entry(2, 2, 1)], 5);
    var full := State([Entry(2, 2, 1)], 5);
    assert full.entries[..1] == full.entries;
    assert Evicted(full, 1) == State([], 4);
    assert CleanCount(full, limits) == 1 + CleanCount(Evicted(full, 1), limits);
    assert r4 == [Setting(1, 1, 4), Clearing, Setting(2, 2, 1), Cleaning];
  }

  /** Exactly when a value set in a cache without entries survives the clean that follows: the cost
      counted so far, live or forgotten, leaves room for it. */
  lemma KeptInEmptyCache<K, V>(limits: Limits, forgotten: int, key: K, value: V, cost: int)
    ensures var kept := [Entry(key, value, cost)];
      && AfterSet(State([], forgotten), key, value, cost) == State(kept, forgotten + cost)
      && AfterClean(State(kept, forgotten + cost), limits)
           == if forgotten + cost <= limits.totalCost && 1 <= limits.count then State(kept, forgotten + cost) else State([], forgotten)
  {
    var full := State([Entry(key, value, cost)], forgotten + cost);
    assert AfterSet(State([], forgotten), key, value, cost) == full;
    assert full.entries[..1] == full.entries && full.entries[1..] == [];
    assert Sum(full.entries) == cost;
    assert Evicted(full, 1) == State([], forgotten);
    NothingEvicted(full);
    if !Fits(full, limits) {
      assert CleanCount(full, limits) == 1 + CleanCount(Evicted(full, 1), limits);
    }
  }

  // ---------- Size under concurrency ----------

  /** Calls of setValue whose insertion has been unlocked and whose clean has not yet run. */
  datatype World<K, V> = World(state: State<K, V>, pending: nat)

  /** Each setValue is followed by its clean; the sections of other threads may come between. */
  predicate Enabled<K, V>(w: World<K, V>, section: Section<K, V>) {
    section.Cleaning? ==> w.pending > 0
  }

  function Interleave<K(==), V>(w: World<K, V>, limits: Limits, section: Section<K, V>): World<K, V>
    requires Enabled(w, section)
  {
    World(Step(w.state, limits, section),
          if section.Setting? then w.pending + 1 else if section.Cleaning? then w.pending - 1 else w.pending)
  }

  function Interleaving<K(==), V>(limits: Limits, run: seq<Section<K, V>>): Option<World<K, V>> {
    if run == [] then Some(World(State([], 0), 0)) else
    var w := Interleaving(limits, run[..|run| - 1]);
    if w.Some? && Enabled(w.value, run[|run| - 1]) then Some(Interleave(w.value, limits, run[|run| - 1])) else None
  }

  function Capacity(limits: Limits): nat {
    if limits.count < 0 then 0 else limits.count
  }

  lemma StepSize<K, V>(s: State<K, V>, limits: Limits, section: Section<K, V>)
    requires KeysDiffer(s.entries)
    ensures |Step(s, limits, section).entries| <= |s.entries| + (if section.Setting? then 1 else 0)
    ensures section.Cleaning? ==> |Step(s, limits, section).entries| <= Capacity(limits)
  {
    match section {
      case Setting(k, _, _) => WithoutKeyIsGone(s.entries, k);
      case Fetching(k) =>
        if Find(s.entries, k).Some? {
          var i :| 0 <= i < |s.entries| && s.entries[i] == Find(s.entries, k).value;
          WithoutKeyIsCut(s.entries, i);
        }
      case Removing(k) => WithoutKeyIsGone(s.entries, k);
      case Clearing =>
      case Cleaning => CleanCountIsShortest(s, limits);
    }
  }

  /** Main result: in every interleaving the cache exceeds its count limit by at most the number
      of insertions still to be cleaned up after. */
  lemma {:induction false} SizeIsBounded<K, V>(limits: Limits, run: seq<Section<K, V>>)
    requires Interleaving(limits, run).Some?
    ensures var w := Interleaving(limits, run).value;
      && w.state == Run(limits, run)
      && |w.state.entries| <= Capacity(limits) + w.pending
  {
    if run != [] {
      SizeIsBounded(limits, run[..|run| - 1]);
      RunKeepsKeys(limits, run[..|run| - 1]);
      StepSize(Run(limits, run[..|run| - 1]), limits, run[|run| - 1]);
    }
  }

  // ---------- What is found ----------

  /** The clean evicts the key. */
  ghost predicate Evicts<K, V>(s: State<K, V>, limits: Limits, key: K) {
    exists i :: 0 <= i < |s.entries| && i < CleanCount(s, limits) && s.entries[i].key == key
  }

  lemma {:induction false} FindAbsent<K, V>(es: seq<Entry<K, V>>, key: K)
    ensures Find(es, key).None? <==> forall i | 0 <= i < |es| :: es[i].key != key
  {
    if es != [] && es[0].key != key {
      FindAbsent(es[1..], key);
      assert forall i | 1 <= i < |es| :: es[i] == es[1..][i - 1];
    }
  }

  /** Dropping a key changes what is found for that key only. */
  lemma {:induction false} FindWithout<K, V>(es: seq<Entry<K, V>>, dropped: K, key: K)
    ensures Find(WithoutKey(es, dropped), key) == if key == dropped then None else Find(es, key)
  {
    if es != [] {
      var rest := WithoutKey(es[1..], dropped);
      FindWithout(es[1..], dropped, key);
      FindFirst(es[0], rest, key);
      assert WithoutKey(es, dropped) == (if es[0].key == dropped then [] else [es[0]]) + rest;
    }
  }

  lemma FindFirst<K, V>(e: Entry<K, V>, rest: seq<Entry<K, V>>, key: K)
    ensures Find([e] + rest, key) == if e.key == key then Some(e) else Find(rest, key)
    ensures [] + rest == rest
  {
    assert ([e] + rest)[1..] == rest;
  }

  lemma {:induction false} FindConcat<K, V>(a: seq<Entry<K, V>>, b: seq<Entry<K, V>>, key: K)
    ensures Find(a + b, key) == if Find(a, key).Some? then Find(a, key) else Find(b, key)
  {
    if a == [] {
      assert a + b == b;
    } else {
      FindConcat(a[1..], b, key);
      assert (a + b)[1..] == a[1..] + b;
    }
  }

  /** What one critical section does to what is found for any key: setting a key stores its value and
      cost, removing and clearing lose theirs, a clean loses what it evicts, and nothing else changes. */
  lemma StepFinds<K, V>(s: State<K, V>, limits: Limits, section: Section<K, V>, key: K)
    requires KeysDiffer(s.entries)
    ensures var found := Find(Step(s, limits, section).entries, key);
      match section
      case Setting(k, v, c) => found == if k == key then Some(Entry(k, v, c)) else Find(s.entries, key)
      case Fetching(_) => found == Find(s.entries, key)
      case Removing(k) => found == if k == key then None else Find(s.entries, key)
      case Clearing => found == None
      case Cleaning => found == if Evicts(s, limits, key) then None else Find(s.entries, key)
  {
    match section {
      case Setting(k, v, c) =>
        FindWithout(s.entries, k, key);
        FindConcat(WithoutKey(s.entries, k), [Entry(k, v, c)], key);
      case Fetching(k) =>
        FindWithout(s.entries, k, key);
        if Find(s.entries, k).Some? {
          FindConcat(WithoutKey(s.entries, k), [Find(s.entries, k).value], key);
        }
      case Removing(k) =>
        FindWithout(s.entries, k, key);
      case Clearing =>
      case Cleaning =>
        CleanFinds(s, limits, key);
    }
  }

  lemma CleanFinds<K, V>(s: State<K, V>, limits: Limits, key: K)
    requires KeysDiffer(s.entries)
    ensures Find(AfterClean(s, limits).entries, key) == if Evicts(s, limits, key) then None else Find(s.entries, key)
  {
    hide CleanCount, Find, IsShortest, KeysDiffer;
    CleanCountIsShortest(s, limits);
    ShortestIsPart(s, limits, CleanCount(s, limits));
    FindBehind(s.entries, CleanCount(s, limits), key);
  }

  /** Among the entries from n on, a key of an earlier one is not found. */
  lemma {:induction false} FindBehind<K, V>(es: seq<Entry<K, V>>, n: nat, key: K)
    requires KeysDiffer(es) && n <= |es|
    ensures Find(es[n..], key) ==
      if exists i :: 0 <= i < |es| && i < n && es[i].key == key then None else Find(es, key)
  {
    if n == 0 {
      assert es[0..] == es;
    } else if es[0].key == key {
      FindAbsent(es[n..], key);
    } else {
      FindBehind(es[1..], n - 1, key);
      assert es[1..][n - 1..] == es[n..];
      assert forall i | 1 <= i < |es| :: es[i] == es[1..][i - 1];
    }
  }

  lemma ShortestIsPart<K, V>(s: State<K, V>, limits: Limits, n: nat)
    requires IsShortest(s, limits, n)
    ensures n <= |s.entries|
  {
  }

  /** The position in the run of the last section that set the key, or -1. */
  function LastSetting<K(==), V>(run: seq<Section<K, V>>, key: K): (k: int)
    ensures -1 <= k < |run|
    ensures k >= 0 ==> run[k].Setting? && run[k].key == key
  {
    if run == [] then -1
    else if run[|run| - 1].Setting? && run[|run| - 1].key == key then |run| - 1
    else LastSetting(run[..|run| - 1], key)
  }

  /** Section j loses the key: it removes it, clears the cache, or is a clean that evicts it. */
  ghost predicate Loses<K, V>(limits: Limits, run: seq<Section<K, V>>, j: nat, key: K)
    requires j < |run|
  {
    match run[j]
    case Removing(k) => k == key
    case Clearing => true
    case Cleaning => Evicts(Run(limits, run[..j]), limits, key)
    case _ => false
  }

  ghost predicate LostSince<K, V>(limits: Limits, run: seq<Section<K, V>>, k: int, key: K) {
    exists j: nat :: k < j < |run| && Loses(limits, run, j, key)
  }

  lemma LostSinceSnoc<K, V>(limits: Limits, run: seq<Section<K, V>>, k: int, key: K)
    requires run != [] && k < |run| - 1
    ensures LostSince(limits, run, k, key) <==>
      LostSince(limits, run[..|run| - 1], k, key) || Loses(limits, run, |run| - 1, key)
  {
    hide Evicts, Run;
    var before := run[..|run| - 1];
    forall j: nat | j < |before| ensures Loses(limits, run, j, key) <==> Loses(limits, before, j, key) {
      assert before[..j] == run[..j];
    }
  }

  /** Main result: in every run a key is found with the value and cost set last, unless it has been removed,
      cleared or evicted since; then, and before it is set, it is not found. */
  lemma {:induction false} FoundIsLastSet<K, V>(limits: Limits, run: seq<Section<K, V>>, key: K)
    ensures var k, found := LastSetting(run, key), Find(Run(limits, run).entries, key);
      if k < 0 || LostSince(limits, run, k, key) then found == None
      else found == Some(Entry(key, run[k].value, run[k].cost))
  {
    if run != [] {
      hide Step, Evicts, Loses, LostSince;
      var n := |run| - 1;
      var before := run[..n];
      FoundIsLastSet(limits, before, key);
      RunKeepsKeys(limits, before);
      StepFinds(Run(limits, before), limits, run[n], key);
      LastLoses(limits, run, key);
      var k := LastSetting(run, key);
      if k < n {
        LostSinceSnoc(limits, run, k, key);
      } else {
        NotLostYet(limits, run, key);
      }
    }
  }

  lemma NotLostYet<K, V>(limits: Limits, run: seq<Section<K, V>>, key: K)
    ensures !LostSince(limits, run, |run| - 1, key)
  {
  }

  lemma LastLoses<K, V>(limits: Limits, run: seq<Section<K, V>>, key: K)
    requires run != []
    ensures var n := |run| - 1;
      Loses(limits, run, n, key) <==>
        match run[n]
        case Removing(k) => k == key
        case Clearing => true
        case Cleaning => Evicts(Run(limits, run[..n]), limits, key)
        case _ => false
  {
  }

  // ---------- Cost under concurrency ----------

  function CostCapacity(limits: Limits): nat {
    if limits.totalCost < 0 then 0 else limits.totalCost
  }

  /** What has been set since the last clean */
  function CostSinceClean<K, V>(run: seq<Section<K, V>>): int {
    if run == [] then 0 else
    match run[|run| - 1]
    case Cleaning => 0
    case Setting(_, _, cost) => CostSinceClean(run[..|run| - 1]) + cost
    case _ => CostSinceClean(run[..|run| - 1])
  }

  ghost predicate CostsAreNatural<K, V>(es: seq<Entry<K, V>>) {
    forall e | e in es :: e.cost >= 0
  }

  lemma {:induction false} SumIsNatural<K, V>(es: seq<Entry<K, V>>)
    requires CostsAreNatural(es)
    ensures Sum(es) >= 0
  {
    if es != [] {
      SumIsNatural(es[1..]);
    }
  }

  /** A section adds at most the cost it sets, and a clean leaves at most what its limit allows beyond
      the forgotten cost. */
  lemma StepCost<K, V>(s: State<K, V>, limits: Limits, section: Section<K, V>)
    requires KeysDiffer(s.entries) && CostsAreNatural(s.entries) && s.totalCost >= Sum(s.entries)
    requires section.Setting? ==> section.cost >= 0
    ensures var t := Step(s, limits, section);
      && CostsAreNatural(t.entries) && t.totalCost >= Sum(t.entries)
      && (section.Cleaning? ==> Sum(t.entries) <= CostCapacity(limits))
      && Sum(t.entries) <= Sum(s.entries) + (if section.Setting? then section.cost else 0)
  {
    StepSum(s, limits, section);
    SumIsNatural(s.entries);
    match section {
      case Setting(k, v, c) =>
        CutSum(s.entries, k);
        SumConcat(WithoutKey(s.entries, k), [Entry(k, v, c)]);
        WithoutKeyIsGone(s.entries, k);
      case Fetching(k) =>
        CutSum(s.entries, k);
        WithoutKeyIsGone(s.entries, k);
        if Find(s.entries, k).Some? {
          SumConcat(WithoutKey(s.entries, k), [Find(s.entries, k).value]);
        }
      case Removing(k) =>
        CutSum(s.entries, k);
        WithoutKeyIsGone(s.entries, k);
      case Clearing =>
      case Cleaning =>
        CleanCountIsShortest(s, limits);
        var n := CleanCount(s, limits);
        SumConcat(s.entries[..n], s.entries[n..]);
        assert s.entries == s.entries[..n] + s.entries[n..];
        SumIsNatural(s.entries[..n]);
    }
  }

  /** Main result: if no cost is negative, in every run the live costs exceed their limit by at most
      what has been set since the last clean. */
  lemma {:induction false} CostIsBounded<K, V>(limits: Limits, run: seq<Section<K, V>>)
    requires forall i | 0 <= i < |run| :: run[i].Setting? ==> run[i].cost >= 0
    ensures var s := Run(limits, run);
      && CostsAreNatural(s.entries) && s.totalCost >= Sum(s.entries)
      && Sum(s.entries) <= CostCapacity(limits) + CostSinceClean(run)
  {
    if run != [] {
      hide Step;
      var before := run[..|run| - 1];
      CostIsBounded(limits, before);
      RunKeepsKeys(limits, before);
      StepCost(Run(limits, before), limits, run[|run| - 1]);
    }
  }

  /** When no insertion still waits for its clean, nothing has been set since the last one. */
  lemma {:induction false} NothingPendingNothingSet<K, V>(limits: Limits, run: seq<Section<K, V>>)
    requires Interleaving(limits, run).Some? && Interleaving(limits, run).value.pending == 0
    ensures CostSinceClean(run) == 0
  {
    if run != [] && !run[|run| - 1].Cleaning? {
      NothingPendingNothingSet(limits, run[..|run| - 1]);
    }
  }

  /** ... so that then the costs are within the limit. */
  lemma CostIsWithinLimit<K, V>(limits: Limits, run: seq<Section<K, V>>)
    requires forall i | 0 <= i < |run| :: run[i].Setting? ==> run[i].cost >= 0
    requires Interleaving(limits, run).Some? && Interleaving(limits, run).value.pending == 0
    ensures Sum(Interleaving(limits, run).value.state.entries) <= CostCapacity(limits)
  {
    CostIsBounded(limits, run);
    NothingPendingNothingSet(limits, run);
    SizeIsBounded(limits, run);
  }
}
