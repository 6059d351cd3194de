/** The generated tables of parse.c: the packed action lookup and the certificate that
    ties the tables to a grammar. */
module LemonTables {
  import opened Collections
  import opened LemonGrammar

  const YYNOCODE: nat := 278
  const YYWILDCARD: nat := 91
  const YYSTACKDEPTH: nat := 100
  const YYNSTATE: nat := 528
  const YYNRULE: nat := 369
  const YYNTOKEN: nat := 155
  const YY_MAX_SHIFT: nat := 527
  const YY_MIN_SHIFTREDUCE: nat := 764
  const YY_MAX_SHIFTREDUCE: nat := 1132
  const YY_ERROR_ACTION: nat := 1133
  const YY_ACCEPT_ACTION: nat := 1134
  const YY_NO_ACTION: nat := 1135
  const YY_MIN_REDUCE: nat := 1136
  const YY_MAX_REDUCE: nat := 1504

  datatype Tables = Tables(
    yyAction: seq<nat>,
    yyLookahead: seq<nat>,
    yyShiftOfst: seq<nat>,
    yyReduceOfst: seq<int>,
    yyDefault: seq<nat>,
    yyFallback: seq<nat>,
    yyRuleInfoLhs: seq<nat>,
    yyRuleInfoNRhs: seq<int>)

  /** The sizes the array accesses rely on, and a fallback that has no fallback itself. */
  ghost predicate WellShaped(t: Tables) {
    && |t.yyShiftOfst| == |t.yyDefault| == YYNSTATE
    && |t.yyReduceOfst| <= YYNSTATE
    && |t.yyAction| <= |t.yyLookahead|
    && (forall i | |t.yyAction| <= i < |t.yyLookahead| :: t.yyLookahead[i] == YYNOCODE)
    && |t.yyRuleInfoLhs| == |t.yyRuleInfoNRhs| == YYNRULE
    && (forall r | 0 <= r < YYNRULE :: t.yyRuleInfoNRhs[r] <= 0)
    && |t.yyFallback| <= YYNTOKEN
    && (0 < |t.yyFallback| ==> t.yyFallback[0] == 0)
    && (forall k | 0 <= k < |t.yyFallback| && t.yyFallback[k] != 0 ::
          t.yyFallback[k] < |t.yyFallback| && t.yyFallback[t.yyFallback[k]] == 0)
  }

  // ---------- Packed lookup ----------

  /** The entry of the packed table that a row placed at offset ofst has for symbol x, if any. */
  function Entry(t: Tables, ofst: int, x: nat): Option<nat>
    requires WellShaped(t)
    requires x != YYNOCODE
  {
    var i := ofst + x;
    if 0 <= i < |t.yyLookahead| && t.yyLookahead[i] == x then Some(t.yyAction[i]) else None
  }

  function Fallback(t: Tables, x: nat): nat {
    if x < |t.yyFallback| then t.yyFallback[x] else 0
  }

  datatype Found = Hit(shown: nat, act: nat) | Miss(act: nat)

  /** What a shift state does on a terminal: its own entry, else its fallback's,
      else the wildcard's, else the default action. */
  function Lookup(t: Tables, s: nat, x: nat): Found
    requires WellShaped(t) && s <= YY_MAX_SHIFT && x < YYNTOKEN
  {
    var row := t.yyShiftOfst[s];
    var fb := Fallback(t, x);
    if Entry(t, row, x).Some? then
      Hit(x, Entry(t, row, x).value)
    else if fb != 0 && Entry(t, row, fb).Some? then
      Hit(fb, Entry(t, row, fb).value)
    else if x > 0 && Entry(t, row, YYWILDCARD).Some? then
      Hit(YYWILDCARD, Entry(t, row, YYWILDCARD).value)
    else
      Miss(t.yyDefault[s])
  }

  /** A pending reduce (and accept) acts without regard to the lookahead. */
  function ActionAt(t: Tables, code: nat, x: nat): nat
    requires WellShaped(t) && (code <= YY_MAX_SHIFT ==> x < YYNTOKEN)
  {
    if code > YY_MAX_SHIFT then code else Lookup(t, code, x).act
  }

  /** A sparse row of the unpacked table and the offset it is placed at. */
  datatype Row = Row(ofst: int, entries: map<nat, nat>)

  /** Every entry of every row is stored in the cell its symbol selects, and every
      used cell was filled by a row; rows at one offset are one row. */
  ghost predicate Packs(t: Tables, rows: set<Row>)
    requires WellShaped(t)
  {
    && (forall r, x | r in rows && x in r.entries ::
          x != YYNOCODE && Entry(t, r.ofst, x) == Some(r.entries[x]))
    && (forall i | 0 <= i < |t.yyLookahead| && t.yyLookahead[i] != YYNOCODE :: IsFilled(t, rows, i))
    && (forall r, q | r in rows && q in rows && r.ofst == q.ofst :: r == q)
  }

  ghost predicate IsFilled(t: Tables, rows: set<Row>, i: nat)
    requires i < |t.yyLookahead|
  {
    exists r :: r in rows && t.yyLookahead[i] in r.entries && r.ofst + t.yyLookahead[i] == i
  }

  /** Overlapping rows never alias: a lookup through a row's offset finds that row's
      entry, and finds nothing exactly where the row has none. */
  lemma PackedLookupIsExact(t: Tables, rows: set<Row>, r: Row, x: nat)
    requires WellShaped(t) && Packs(t, rows) && r in rows && x != YYNOCODE
    ensures Entry(t, r.ofst, x) == if x in r.entries then Some(r.entries[x]) else None
  {
    if Entry(t, r.ofst, x).Some? {
      assert IsFilled(t, rows, r.ofst + x);
    }
  }

  /** The action a state with this row has on a token: the row's entry for the token; without one the entry
      for the token's fallback, if it has one; without either the entry for the wildcard, unless the token
      ends the input; else the default. */
  predicate RowGives(t: Tables, r: Row, default': nat, x: nat, act: nat) {
    var fallback := if x < |t.yyFallback| then t.yyFallback[x] else 0;
    if x in r.entries then act == r.entries[x]
    else if fallback != 0 && fallback in r.entries then act == r.entries[fallback]
    else if x != 0 && YYWILDCARD in r.entries then act == r.entries[YYWILDCARD]
    else act == default'
  }

  /** The lookup in the packed tables does what the unpacked row says. */
  lemma LookupIsRow(t: Tables, rows: set<Row>, r: Row, s: nat, x: nat)
    requires WellShaped(t) && Packs(t, rows) && r in rows && s <= YY_MAX_SHIFT && x < YYNTOKEN && r.ofst == t.yyShiftOfst[s]
    ensures RowGives(t, r, t.yyDefault[s], x, ActionAt(t, s, x))
  {
    hide Packs;
    PackedLookupIsExact(t, rows, r, x);
    PackedLookupIsExact(t, rows, r, YYWILDCARD);
    if x < |t.yyFallback| && t.yyFallback[x] != 0 {
      PackedLookupIsExact(t, rows, r, t.yyFallback[x]);
    }
  }

  /** yy_find_shift_action */
  method FindShiftAction(t: Tables, lookAhead: nat, stateno: nat) returns (act: nat)
    requires WellShaped(t)
    requires stateno <= YY_MAX_SHIFT ==> lookAhead < YYNTOKEN
    ensures act == ActionAt(t, stateno, lookAhead)
    ensures stateno > YY_MAX_SHIFT ==> act == stateno
    ensures stateno <= YY_MAX_SHIFT ==> forall rows: set<Row>, r: Row | Packs(t, rows) && r in rows && r.ofst == t.yyShiftOfst[stateno] ::
      RowGives(t, r, t.yyDefault[stateno], lookAhead, act)
  {
    hide Packs, RowGives;
    if stateno <= YY_MAX_SHIFT {
      forall rows: set<Row>, r: Row | Packs(t, rows) && r in rows && r.ofst == t.yyShiftOfst[stateno]
        ensures RowGives(t, r, t.yyDefault[stateno], lookAhead, ActionAt(t, stateno, lookAhead))
      {
        LookupIsRow(t, rows, r, stateno, lookAhead);
      }
    }
    if stateno > YY_MAX_SHIFT {
      return stateno;
    }
    var iLookAhead := lookAhead;
    while true
      invariant iLookAhead < YYNTOKEN
      invariant iLookAhead != lookAhead ==>
        && iLookAhead == Fallback(t, lookAhead) != 0
        && Entry(t, t.yyShiftOfst[stateno], lookAhead).None?
      decreases if iLookAhead == lookAhead then 1 else 0
    {
      var i := t.yyShiftOfst[stateno] + iLookAhead;
      if i >= |t.yyLookahead| || t.yyLookahead[i] != iLookAhead {
        if iLookAhead < |t.yyFallback| {
          var iFallback := t.yyFallback[iLookAhead];
          if iFallback != 0 {
            iLookAhead := iFallback;
            continue;
          }
        }
        var j := i - iLookAhead + YYWILDCARD;
        if j < |t.yyLookahead| && t.yyLookahead[j] == YYWILDCARD && iLookAhead > 0 {
          return t.yyAction[j];
        }
        return t.yyDefault[stateno];
      } else {
        return t.yyAction[i];
      }
    }
  }

  /** yy_find_reduce_action; its preconditions are the function's own assertions. */
  method FindReduceAction(t: Tables, stateno: nat, lookAhead: nat) returns (act: nat)
    requires WellShaped(t) && lookAhead != YYNOCODE
    requires stateno < |t.yyReduceOfst|
    requires Entry(t, t.yyReduceOfst[stateno], lookAhead).Some?
    ensures Entry(t, t.yyReduceOfst[stateno], lookAhead) == Some(act)
  {
    var i := t.yyReduceOfst[stateno];
    i := i + lookAhead;
    act := t.yyAction[i];
  }

  // ---------- Certificate ----------

  /** What a stack entry's state code knows about one position below it: which
      symbols may be there and which codes may lie just under that symbol. */
  datatype Past = Past(symbols: set<nat>, codes: set<nat>)

  /** past[s] lists this knowledge from the top down for every code s that may be on the
      stack (shift states, pending reduces, accept); chain[p, x] holds the unit rules
      left out of the goto of state p on nonterminal x. */
  datatype Certificate = Certificate(
    past: map<nat, seq<Past>>,
    chain: map<(nat, nat), seq<nat>>,
    acyclicity: Acyclicity)

  /** Pushing symbol x with code s on top of code p is within what s knows. */
  ghost predicate StepOk(c: Certificate, p: nat, x: nat, s: nat) {
    && p in c.past && s in c.past && s != 0
    && |c.past[s]| <= |c.past[p]| + 1
    && (c.past[s] != [] ==> x in c.past[s][0].symbols && p in c.past[s][0].codes)
    && forall j | 1 <= j < |c.past[s]| ::
         c.past[p][j - 1].symbols <= c.past[s][j].symbols && c.past[p][j - 1].codes <= c.past[s][j].codes
  }

  /** State p has a goto on nonterminal x, which may have left-out unit rules folded in. */
  ghost predicate GotoOk<V(!new)>(t: Tables, l: Language<V>, c: Certificate, p: nat, x: nat)
    requires WellShaped(t)
  {
    && x != YYNOCODE
    && p < |t.yyReduceOfst|
    && Entry(t, t.yyReduceOfst[p], x).Some?
    && (p, x) in c.chain
    && IsChain(l.rules, x, c.chain[(p, x)])
    && (forall i | 0 <= i < |c.chain[(p, x)]| :: IsTransparent(l, c.chain[(p, x)][i]))
    && var act := Entry(t, t.yyReduceOfst[p], x).value;
       && (act <= YY_MAX_SHIFT || act == YY_ACCEPT_ACTION || act >= YY_MIN_REDUCE)
       && (act == YY_ACCEPT_ACTION ==> x == l.start)
       && StepOk(c, p, ChainTop(l.rules, x, c.chain[(p, x)]), act)
  }

  /** Where code s reduces by rule r, the rule's right-hand side is the known suffix of
      the stack, and every code that may be uncovered has a goto on the left-hand side. */
  ghost predicate ReduceOk<V(!new)>(t: Tables, l: Language<V>, c: Certificate, s: nat, r: nat)
    requires WellShaped(t)
  {
    && r < |l.rules| && s in c.past
    && var n := |l.rules[r].rhs|;
       && n <= |c.past[s]|
       && (forall j | 0 <= j < n :: c.past[s][j].symbols <= l.rules[r].rhs[n - 1 - j])
       && forall p | p in (if n == 0 then {s} else c.past[s][n - 1].codes) :: GotoOk(t, l, c, p, l.rules[r].lhs)
  }

  ghost predicate ReducesToStart<V>(l: Language<V>, r: nat) {
    r < |l.rules| && l.rules[r].lhs == l.start
  }

  /** Action act of state s on terminal x; the start symbol is only made at the end of the input. */
  ghost predicate ActionOk<V(!new)>(t: Tables, l: Language<V>, c: Certificate, s: nat, x: nat, act: nat)
    requires WellShaped(t)
  {
    if act <= YY_MAX_SHIFT then StepOk(c, s, x, act)
    else if YY_MIN_SHIFTREDUCE <= act <= YY_MAX_SHIFTREDUCE then
      StepOk(c, s, x, act + (YY_MIN_REDUCE - YY_MIN_SHIFTREDUCE))
    else if act >= YY_MIN_REDUCE then
      && ReduceOk(t, l, c, s, act - YY_MIN_REDUCE)
      && (ReducesToStart(l, act - YY_MIN_REDUCE) ==> x == 0)
    else act == YY_ERROR_ACTION
  }

  ghost predicate DefaultOk<V(!new)>(t: Tables, l: Language<V>, c: Certificate, s: nat, act: nat)
    requires WellShaped(t)
  {
    || act == YY_ERROR_ACTION
    || (&& act >= YY_MIN_REDUCE
        && ReduceOk(t, l, c, s, act - YY_MIN_REDUCE)
        && !ReducesToStart(l, act - YY_MIN_REDUCE))
  }

  ghost predicate CodeOk<V(!new)>(t: Tables, l: Language<V>, c: Certificate, s: nat)
    requires WellShaped(t)
  {
    if s <= YY_MAX_SHIFT then
      && (forall x | 0 <= x < YYNTOKEN && Entry(t, t.yyShiftOfst[s], x).Some? ::
            ActionOk(t, l, c, s, x, Entry(t, t.yyShiftOfst[s], x).value))
      && DefaultOk(t, l, c, s, t.yyDefault[s])
    else if s == YY_ACCEPT_ACTION then
      s in c.past && |c.past[s]| == 1 && c.past[s][0].symbols <= {l.start} && c.past[s][0].codes <= {0}
    else
      s >= YY_MIN_REDUCE && DefaultOk(t, l, c, s, s)
  }

  ghost predicate ProjectsRules<V>(t: Tables, l: Language<V>)
    requires WellShaped(t)
  {
    && |l.rules| == YYNRULE
    && forall r | 0 <= r < YYNRULE ::
         t.yyRuleInfoLhs[r] == l.rules[r].lhs && -t.yyRuleInfoNRhs[r] == |l.rules[r].rhs|
  }

  /** The tables implement the grammar. */
  ghost predicate Certified<V(!new)>(t: Tables, l: Language<V>, c: Certificate) {
    && WellShaped(t)
    && l.fallback == t.yyFallback && l.wildcard == YYWILDCARD
    && ProjectsRules(t, l)
    && 0 in c.past && c.past[0] == []
    && (forall s | s in c.past :: CodeOk(t, l, c, s))
    && IsAcyclic(l.rules, c.acyclicity)
  }

  /** Whatever the lookup of a certified state finds is one of the certified actions, taken for a
      terminal the token may be read as. */
  lemma LookupIsCertified<V(!new)>(t: Tables, l: Language<V>, c: Certificate, s: nat, x: nat)
    requires Certified(t, l, c) && s in c.past && s <= YY_MAX_SHIFT && x < YYNTOKEN
    ensures match Lookup(t, s, x)
            case Hit(shown, act) => ReadAs(l, x, shown) && ActionOk(t, l, c, s, shown, act) && (shown == 0 ==> x == 0)
            case Miss(act) => DefaultOk(t, l, c, s, act)
  {
    assert CodeOk(t, l, c, s);
  }
}
