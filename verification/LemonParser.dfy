/** The Lemon push-down engine of parse.c: a fixed stack array, its top index, and the
    shift/reduce loop run for each token.  Beside every stack entry above the bottom one a
    ghost parse tree records what the entry stands for. */
module LemonParser {
  import opened Collections
  import opened LemonGrammar
  import opened LemonTables

  /** yyStackEntry: stateno may also be a pending reduce or the accept code. */
  datatype StackEntry<V> = StackEntry(stateno: nat, major: nat, minor: V)

  /** What one call of the parser did, as the hooks in parse.c report it. */
  datatype Event<V> = Shifted | Accepted(value: V) | SyntaxError | Overflowed

  // ---------- The stack against its trees ----------

  ghost predicate EntryOk<V(!new)>(l: Language<V>, c: Certificate, stack: seq<StackEntry<V>>, forest: seq<Tree<V>>, k: nat)
    requires k < |stack| == |forest| + 1
  {
    && stack[k].stateno in c.past
    && (stack[k].stateno == 0 ==> k == 0)
    && |c.past[stack[k].stateno]| <= k
    && (forall j | 0 <= j < |c.past[stack[k].stateno]| ::
          && Symbol(l, forest[k - 1 - j]) in c.past[stack[k].stateno][j].symbols
          && stack[k - 1 - j].stateno in c.past[stack[k].stateno][j].codes)
    && (k > 0 ==>
          && WellFormed(l, forest[k - 1]) && stack[k].minor == Value(l, forest[k - 1])
          && StandsFor(l, forest[k - 1], stack[k].major))
  }

  /** Every entry's code tells the truth about what lies below it, and every entry
      above the bottom carries the symbol and the value of a well-formed tree. */
  ghost predicate Coherent<V(!new)>(l: Language<V>, c: Certificate, stack: seq<StackEntry<V>>, forest: seq<Tree<V>>) {
    && |stack| == |forest| + 1
    && stack[0].stateno == 0
    && forall k | 0 <= k < |stack| :: EntryOk(l, c, stack, forest, k)
  }

  lemma PopIsCoherent<V(!new)>(l: Language<V>, c: Certificate, stack: seq<StackEntry<V>>, forest: seq<Tree<V>>, n: nat)
    requires Coherent(l, c, stack, forest) && n <= |forest|
    ensures Coherent(l, c, stack[..n + 1], forest[..n])
  {
    var stack', forest' := stack[..n + 1], forest[..n];
    forall k | 0 <= k < |stack'| ensures EntryOk(l, c, stack', forest', k) {
      assert EntryOk(l, c, stack, forest, k);
    }
  }

  lemma PushIsCoherent<V(!new)>(l: Language<V>, c: Certificate, stack: seq<StackEntry<V>>, forest: seq<Tree<V>>,
                                e: StackEntry<V>, t: Tree<V>)
    requires Coherent(l, c, stack, forest)
    requires StepOk(c, stack[|stack| - 1].stateno, Symbol(l, t), e.stateno)
    requires WellFormed(l, t) && e.minor == Value(l, t) && StandsFor(l, t, e.major)
    ensures Coherent(l, c, stack + [e], forest + [t])
  {
    var stack', forest' := stack + [e], forest + [t];
    var n := |stack|;
    forall k | 0 <= k < n ensures EntryOk(l, c, stack', forest', k) {
      assert EntryOk(l, c, stack, forest, k);
    }
    assert EntryOk(l, c, stack, forest, n - 1);
    var below, here := c.past[stack[n - 1].stateno], c.past[e.stateno];
    forall j | 0 <= j < |here|
      ensures Symbol(l, forest'[n - 1 - j]) in here[j].symbols && stack'[n - 1 - j].stateno in here[j].codes
    {
      if j > 0 {
        assert forest'[n - 1 - j] == forest[n - 1 - 1 - (j - 1)];
        assert Symbol(l, forest[n - 1 - 1 - (j - 1)]) in below[j - 1].symbols;
      }
    }
    assert EntryOk(l, c, stack', forest', n);
  }

  function Minors<V>(es: seq<StackEntry<V>>): (vs: seq<V>)
    ensures |vs| == |es| && forall i | 0 <= i < |es| :: vs[i] == es[i].minor
  {
    seq(|es|, i requires 0 <= i < |es| => es[i].minor)
  }

  /** The tree a reduction by rule r makes of the top n trees, with the left-out unit rules put back. */
  ghost function Reduced<V>(c: Certificate, forest: seq<Tree<V>>, r: nat, n: nat, p: nat, lhs: nat): Tree<V>
    requires n <= |forest| && (p, lhs) in c.chain
  {
    Wrap(Node(r, forest[|forest| - n..]), c.chain[(p, lhs)])
  }

  /** The rule's right-hand side is no longer than the stack and the state it uncovers has a goto. */
  ghost predicate CanReduce<V(!new)>(t: Tables, l: Language<V>, c: Certificate, stack: seq<StackEntry<V>>, r: nat)
    requires WellShaped(t)
  {
    && r < |l.rules|
    && |l.rules[r].rhs| < |stack|
    && GotoOk(t, l, c, Uncovered(l, stack, r), l.rules[r].lhs)
  }

  function Uncovered<V>(l: Language<V>, stack: seq<StackEntry<V>>, r: nat): nat
    requires r < |l.rules| && |l.rules[r].rhs| < |stack|
  {
    stack[|stack| - 1 - |l.rules[r].rhs|].stateno
  }

  /** The values of the rule's right-hand side, left to right. */
  function RhsValues<V>(l: Language<V>, stack: seq<StackEntry<V>>, r: nat): seq<V>
    requires r < |l.rules| && |l.rules[r].rhs| < |stack|
  {
    Minors(stack[|stack| - |l.rules[r].rhs|..])
  }

  /** The stack after a reduction: the right-hand side gives way to one entry for the
      left-hand side, with the goto of the uncovered state and the value the action computes. */
  ghost function AfterReduce<V(!new)>(t: Tables, l: Language<V>, c: Certificate, stack: seq<StackEntry<V>>, r: nat)
    : seq<StackEntry<V>>
    requires WellShaped(t) && CanReduce(t, l, c, stack, r)
  {
    var lhs := l.rules[r].lhs;
    stack[..|stack| - |l.rules[r].rhs|]
    + [StackEntry(Entry(t, t.yyReduceOfst[Uncovered(l, stack, r)], lhs).value, lhs, l.action(r, RhsValues(l, stack, r)))]
  }

  ghost function ForestAfterReduce<V(!new)>(t: Tables, l: Language<V>, c: Certificate,
                                            stack: seq<StackEntry<V>>, forest: seq<Tree<V>>, r: nat): seq<Tree<V>>
    requires WellShaped(t) && CanReduce(t, l, c, stack, r) && |stack| == |forest| + 1
  {
    var n := |l.rules[r].rhs|;
    forest[..|forest| - n] + [Reduced(c, forest, r, n, Uncovered(l, stack, r), l.rules[r].lhs)]
  }

  lemma CertifiedCanReduce<V(!new)>(t: Tables, l: Language<V>, c: Certificate,
                                    stack: seq<StackEntry<V>>, forest: seq<Tree<V>>, r: nat)
    requires WellShaped(t) && Coherent(l, c, stack, forest)
    requires ReduceOk(t, l, c, stack[|stack| - 1].stateno, r)
    ensures CanReduce(t, l, c, stack, r)
  {
    assert EntryOk(l, c, stack, forest, |forest|);
  }

  /** The entry i places into the right-hand side holds a tree for a symbol that may stand there. */
  lemma RhsEntry<V(!new)>(t: Tables, l: Language<V>, c: Certificate,
                          stack: seq<StackEntry<V>>, forest: seq<Tree<V>>, r: nat, i: nat)
    requires WellShaped(t) && Coherent(l, c, stack, forest)
    requires ReduceOk(t, l, c, stack[|stack| - 1].stateno, r)
    requires i < |l.rules[r].rhs| <= |forest|
    ensures var k := |forest| - |l.rules[r].rhs| + i;
      WellFormed(l, forest[k]) && Symbol(l, forest[k]) in l.rules[r].rhs[i] && Value(l, forest[k]) == stack[k + 1].minor
  {
    hide GotoOk, WellShaped, WellFormed;
    var n, top := |l.rules[r].rhs|, |forest|;
    var k, j := top - n + i, n - 1 - i;
    assert EntryOk(l, c, stack, forest, top);
    assert EntryOk(l, c, stack, forest, k + 1);
    assert Symbol(l, forest[top - 1 - j]) in c.past[stack[top].stateno][j].symbols;
    assert c.past[stack[top].stateno][j].symbols <= l.rules[r].rhs[n - 1 - j];
  }

  /** At a certified reduction the top trees are an instance of the rule's right-hand side. */
  lemma RhsIsOnStack<V(!new)>(t: Tables, l: Language<V>, c: Certificate,
                              stack: seq<StackEntry<V>>, forest: seq<Tree<V>>, r: nat)
    requires WellShaped(t) && Coherent(l, c, stack, forest) && CanReduce(t, l, c, stack, r)
    requires ReduceOk(t, l, c, stack[|stack| - 1].stateno, r)
    ensures WellFormed(l, Node(r, forest[|forest| - |l.rules[r].rhs|..]))
    ensures Values(l, forest[|forest| - |l.rules[r].rhs|..]) == RhsValues(l, stack, r)
  {
    hide GotoOk, WellShaped, ReduceOk, EntryOk;
    var kids := forest[|forest| - |l.rules[r].rhs|..];
    forall i | 0 <= i < |kids|
      ensures WellFormed(l, kids[i]) && Symbol(l, kids[i]) in l.rules[r].rhs[i]
      ensures Value(l, kids[i]) == RhsValues(l, stack, r)[i]
    {
      RhsEntry(t, l, c, stack, forest, r, i);
    }
    assert Values(l, kids) == RhsValues(l, stack, r);
  }

  /** Replacing the top n trees by their reduction keeps the tokens, the meaning and adds a reduction. */
  lemma ReducedTree<V(!new)>(l: Language<V>, c: Certificate, forest: seq<Tree<V>>, r: nat, n: nat, p: nat)
    requires n <= |forest| && r < |l.rules|
    requires WellFormed(l, Node(r, forest[|forest| - n..]))
    requires var x := l.rules[r].lhs;
      && (p, x) in c.chain && IsChain(l.rules, x, c.chain[(p, x)])
      && (forall i | 0 <= i < |c.chain[(p, x)]| :: IsTransparent(l, c.chain[(p, x)][i]))
    ensures var tree := Reduced(c, forest, r, n, p, l.rules[r].lhs);
      && WellFormed(l, tree)
      && Symbol(l, tree) == ChainTop(l.rules, l.rules[r].lhs, c.chain[(p, l.rules[r].lhs)])
      && Value(l, tree) == l.action(r, Values(l, forest[|forest| - n..]))
      && YieldAll(forest[..|forest| - n] + [tree]) == YieldAll(forest)
      && ReductionsAll(forest[..|forest| - n] + [tree]) > ReductionsAll(forest)
  {
    var kids, below := forest[|forest| - n..], forest[..|forest| - n];
    var tree := Reduced(c, forest, r, n, p, l.rules[r].lhs);
    WrapKeeps(l, Node(r, kids), c.chain[(p, l.rules[r].lhs)]);
    assert forest == below + kids;
    YieldAllConcat(below, kids);
    YieldAllConcat(below, [tree]);
    assert YieldAll([tree]) == Yield(tree);
    ReductionsAllConcat(below, kids);
    ReductionsAllConcat(below, [tree]);
    assert ReductionsAll([tree]) == Reductions(tree);
  }

  /** A certified reduction keeps the stack coherent and the tokens below it unchanged, with
      one more reduction (or several, if unit rules are folded in) recorded. */
  lemma ReduceIsCoherent<V(!new)>(t: Tables, l: Language<V>, c: Certificate,
                                  stack: seq<StackEntry<V>>, forest: seq<Tree<V>>, r: nat)
    requires WellShaped(t) && Coherent(l, c, stack, forest)
    requires ReduceOk(t, l, c, stack[|stack| - 1].stateno, r)
    ensures CanReduce(t, l, c, stack, r)
    ensures var forest' := ForestAfterReduce(t, l, c, stack, forest, r);
      && Coherent(l, c, AfterReduce(t, l, c, stack, r), forest')
      && YieldAll(forest') == YieldAll(forest)
      && ReductionsAll(forest') > ReductionsAll(forest)
  {
    CertifiedCanReduce(t, l, c, stack, forest, r);
    var n, p, lhs := |l.rules[r].rhs|, Uncovered(l, stack, r), l.rules[r].lhs;
    RhsIsOnStack(t, l, c, stack, forest, r);
    hide WellFormed, ReduceOk;
    ReducedTree(l, c, forest, r, n, p);
    PopIsCoherent(l, c, stack, forest, |forest| - n);
    var tree := Reduced(c, forest, r, n, p, lhs);
    WrapStandsFor(l, Node(r, forest[|forest| - n..]), c.chain[(p, lhs)], lhs);
    var act := Entry(t, t.yyReduceOfst[p], lhs).value;
    PushIsCoherent(l, c, stack[..|stack| - n], forest[..|forest| - n],
                   StackEntry(act, lhs, l.action(r, RhsValues(l, stack, r))), tree);
  }

  /** A reduction written out. */
  lemma AfterReduceIs<V(!new)>(t: Tables, l: Language<V>, c: Certificate, stack: seq<StackEntry<V>>, r: nat)
    requires WellShaped(t) && CanReduce(t, l, c, stack, r)
    ensures r < |l.rules| && |l.rules[r].rhs| < |stack| && l.rules[r].lhs != YYNOCODE
    ensures var p, lhs := Uncovered(l, stack, r), l.rules[r].lhs;
      && p < |t.yyReduceOfst| && Entry(t, t.yyReduceOfst[p], lhs).Some?
      && (Entry(t, t.yyReduceOfst[p], lhs).value == YY_ACCEPT_ACTION ==> ReducesToStart(l, r))
      && AfterReduce(t, l, c, stack, r) == stack[..|stack| - |l.rules[r].rhs|]
           + [StackEntry(Entry(t, t.yyReduceOfst[p], lhs).value, lhs, l.action(r, RhsValues(l, stack, r)))]
  {
  }

  /** One round of the loop on lookahead x: reduce if that is the action, else stay. */
  ghost function Round<V(!new)>(t: Tables, l: Language<V>, c: Certificate, s: seq<StackEntry<V>>, x: nat)
    : (r: seq<StackEntry<V>>)
    requires WellShaped(t) && x < YYNTOKEN && s != []
    ensures r != []
  {
    var act := TopAction(t, s, x);
    if act >= YY_MIN_REDUCE && CanReduce(t, l, c, s, act - YY_MIN_REDUCE)
    then AfterReduce(t, l, c, s, act - YY_MIN_REDUCE) else s
  }

  function TopAction<V>(t: Tables, s: seq<StackEntry<V>>, x: nat): nat
    requires WellShaped(t) && x < YYNTOKEN && s != []
  {
    ActionAt(t, s[|s| - 1].stateno, x)
  }

  ghost function Rounds<V(!new)>(t: Tables, l: Language<V>, c: Certificate, s: seq<StackEntry<V>>, x: nat, k: nat)
    : (r: seq<StackEntry<V>>)
    requires WellShaped(t) && x < YYNTOKEN && s != []
    ensures r != []
  {
    if k == 0 then s else Round(t, l, c, Rounds(t, l, c, s, x, k - 1), x)
  }

  /** What a round that does not reduce leaves: a token shifted, the input accepted, an error
      with nothing changed, or a full stack destroyed from the top down. */
  ghost predicate Ends<V>(t: Tables, l: Language<V>, last: seq<StackEntry<V>>, token: Token<V>, event: Event<V>,
                          after: seq<StackEntry<V>>, gone: seq<StackEntry<V>>)
    requires WellShaped(t) && token.major < YYNTOKEN && last != []
  {
    var act := TopAction(t, last, token.major);
    match event
    case Shifted =>
      && act <= YY_MAX_SHIFTREDUCE && gone == []
      && after == last + [StackEntry(PushedCode(act), token.major, token.minor)]
    case Accepted(v) => act == YY_ACCEPT_ACTION && |last| == 2 && last[1].minor == v && after == last[..1] && gone == []
    case SyntaxError => act == YY_ERROR_ACTION && after == last && gone == []
    case Overflowed =>
      |last| == YYSTACKDEPTH && NeedsRoom(l, act) && after == last[..1] && gone == Reverse(last[1..])
  }

  /** The code a shift pushes: a fused shift-reduce action becomes the pending reduce of its rule. */
  function PushedCode(act: nat): nat {
    if act > YY_MAX_SHIFT then act + (YY_MIN_REDUCE - YY_MIN_SHIFTREDUCE) else act
  }

  /** Action act finds no room on a full stack. */
  predicate NeedsRoom<V>(l: Language<V>, act: nat) {
    || act <= YY_MAX_SHIFTREDUCE
    || (YY_MIN_REDUCE <= act < YY_MIN_REDUCE + |l.rules| && l.rules[act - YY_MIN_REDUCE].rhs == [])
  }

  /** With the accept code on top the stack holds nothing but one tree for the start symbol. */
  lemma AcceptHoldsSentence<V(!new)>(t: Tables, l: Language<V>, c: Certificate,
                                     stack: seq<StackEntry<V>>, forest: seq<Tree<V>>)
    requires Certified(t, l, c) && Coherent(l, c, stack, forest)
    requires stack[|stack| - 1].stateno == YY_ACCEPT_ACTION
    ensures |forest| == 1 && IsSentence(l, YieldAll(forest), stack[1].minor)
  {
    var top := |forest|;
    assert EntryOk(l, c, stack, forest, top);
    assert CodeOk(t, l, c, YY_ACCEPT_ACTION);
    assert stack[top - 1].stateno in c.past[YY_ACCEPT_ACTION][0].codes;
    assert EntryOk(l, c, stack, forest, top - 1);
    assert Symbol(l, forest[top - 1 - 0]) in c.past[YY_ACCEPT_ACTION][0].symbols;
    assert YieldAll(forest) == Yield(forest[0]) + [];
    assert IsParse(l, forest[0], YieldAll(forest), stack[1].minor);
  }

  /** What the certificate says about the code on top of a coherent stack. */
  lemma TopIsCertified<V(!new)>(t: Tables, l: Language<V>, c: Certificate,
                                stack: seq<StackEntry<V>>, forest: seq<Tree<V>>, x: nat)
    requires Certified(t, l, c) && Coherent(l, c, stack, forest) && x < YYNTOKEN
    ensures WellShaped(t)
    ensures var s := stack[|stack| - 1].stateno;
      if s <= YY_MAX_SHIFT then
        match Lookup(t, s, x)
        case Hit(shown, act) => ReadAs(l, x, shown) && ActionOk(t, l, c, s, shown, act) && (shown == 0 ==> x == 0)
        case Miss(act) => DefaultOk(t, l, c, s, act)
      else s == YY_ACCEPT_ACTION || (s >= YY_MIN_REDUCE && DefaultOk(t, l, c, s, s))
  {
    var s := stack[|stack| - 1].stateno;
    assert EntryOk(l, c, stack, forest, |forest|);
    assert CodeOk(t, l, c, s);
    if s <= YY_MAX_SHIFT {
      LookupIsCertified(t, l, c, s, x);
    }
  }

  /** The state is not waiting to reduce, and its row has nothing for the token, its fallback or the
      wildcard but the error action. */
  ghost predicate Refuses(t: Tables, s: nat, x: nat)
    requires WellShaped(t)
  {
    && s <= YY_MAX_SHIFT
    && forall rows: set<Row>, r: Row | Packs(t, rows) && r in rows && r.ofst == t.yyShiftOfst[s] ::
         RowGives(t, r, t.yyDefault[s], x, YY_ERROR_ACTION)
  }

  /** What a round does is what the unpacked row of the top state gives for the token. */
  lemma TopActionIsRow<V>(t: Tables, rows: set<Row>, r: Row, stack: seq<StackEntry<V>>, x: nat)
    requires WellShaped(t) && x < YYNTOKEN && stack != [] && stack[|stack| - 1].stateno <= YY_MAX_SHIFT
    requires Packs(t, rows) && r in rows && r.ofst == t.yyShiftOfst[stack[|stack| - 1].stateno]
    ensures RowGives(t, r, t.yyDefault[stack[|stack| - 1].stateno], x, TopAction(t, stack, x))
  {
    LookupIsRow(t, rows, r, stack[|stack| - 1].stateno, x);
  }

  /** A certified parser meets the error action only where the row refuses the token. */
  lemma ErrorIsRefusal<V(!new)>(t: Tables, l: Language<V>, c: Certificate,
                                stack: seq<StackEntry<V>>, forest: seq<Tree<V>>, x: nat)
    requires Certified(t, l, c) && Coherent(l, c, stack, forest) && x < YYNTOKEN
    requires WellShaped(t) && TopAction(t, stack, x) == YY_ERROR_ACTION
    ensures Refuses(t, stack[|stack| - 1].stateno, x)
  {
    TopIsCertified(t, l, c, stack, forest, x);
    hide Certified, Coherent, Packs, RowGives;
    forall rows: set<Row>, r: Row | Packs(t, rows) && r in rows && r.ofst == t.yyShiftOfst[stack[|stack| - 1].stateno]
      ensures RowGives(t, r, t.yyDefault[stack[|stack| - 1].stateno], x, YY_ERROR_ACTION)
    {
      TopActionIsRow(t, rows, r, stack, x);
    }
  }

  lemma RuleInfo<V(!new)>(t: Tables, l: Language<V>, c: Certificate, s: nat, r: nat)
    requires Certified(t, l, c) && ReduceOk(t, l, c, s, r)
    ensures WellShaped(t) && r < |t.yyRuleInfoLhs| == |t.yyRuleInfoNRhs| == |l.rules|
    ensures t.yyRuleInfoLhs[r] == l.rules[r].lhs && t.yyRuleInfoNRhs[r] == -|l.rules[r].rhs|
  {
  }

  lemma RuleShapes<V(!new)>(t: Tables, l: Language<V>, c: Certificate)
    requires Certified(t, l, c)
    ensures WellShaped(t) && |l.rules| == YYNRULE
  {
  }

  lemma ReduceOkShape<V(!new)>(t: Tables, l: Language<V>, c: Certificate, s: nat, r: nat)
    requires WellShaped(t) && ReduceOk(t, l, c, s, r)
    ensures r < |l.rules|
  {
  }

  function Reverse<T>(s: seq<T>): (r: seq<T>)
    ensures |r| == |s|
  {
    if s == [] then [] else Reverse(s[1..]) + [s[0]]
  }

  lemma {:induction false} ReverseAt<T>(s: seq<T>, i: nat)
    requires i < |s|
    ensures Reverse(s)[i] == s[|s| - 1 - i]
  {
    if i < |s| - 1 {
      ReverseAt(s[1..], i);
    }
  }

  /** A fused shift-reduce action saves a state: on any lookahead it goes on as a plain shift into a
      state that reduces by the same rule. */
  lemma FusedShiftSimulatesPlain<V(!new)>(t: Tables, l: Language<V>, c: Certificate, stack: seq<StackEntry<V>>,
                                          token: Token<V>, r: nat, s: nat, x: nat)
    requires WellShaped(t) && x < YYNTOKEN && r < YYNRULE == |l.rules| && l.rules[r].rhs != []
    requires s <= YY_MAX_SHIFT && Lookup(t, s, x).act == YY_MIN_REDUCE + r
    ensures var fused := stack + [StackEntry(PushedCode(YY_MIN_SHIFTREDUCE + r), token.major, token.minor)];
      var plain := stack + [StackEntry(s, token.major, token.minor)];
      && (forall y: nat | y < YYNTOKEN :: TopAction(t, fused, y) == YY_MIN_REDUCE + r)
      && (CanReduce(t, l, c, fused, r) <==> CanReduce(t, l, c, plain, r))
      && (CanReduce(t, l, c, fused, r) ==> Round(t, l, c, fused, x) == Round(t, l, c, plain, x))
  {
    hide WellShaped, CanReduce, AfterReduce, ActionAt;
    var fused := stack + [StackEntry(PushedCode(YY_MIN_SHIFTREDUCE + r), token.major, token.minor)];
    var plain := stack + [StackEntry(s, token.major, token.minor)];
    TopStateDoesNotMatter(t, l, c, fused, plain, r);
    ActionsAt(t, s, x);
    PendingActs(t, YY_MIN_REDUCE + r);
  }

  lemma ActionsAt(t: Tables, s: nat, x: nat)
    requires WellShaped(t) && x < YYNTOKEN
    ensures ActionAt(t, s, x) == if s <= YY_MAX_SHIFT then Lookup(t, s, x).act else s
  {
  }

  lemma PendingActs(t: Tables, code: nat)
    requires WellShaped(t) && code > YY_MAX_SHIFT
    ensures forall x: nat | x < YYNTOKEN :: ActionAt(t, code, x) == code
  {
  }

  /** A reduction by a rule that is not empty does not look at the top state. */
  lemma TopStateDoesNotMatter<V(!new)>(t: Tables, l: Language<V>, c: Certificate,
                                       a: seq<StackEntry<V>>, b: seq<StackEntry<V>>, r: nat)
    requires WellShaped(t) && r < |l.rules| && l.rules[r].rhs != []
    requires |a| == |b| > 0 && a[..|a| - 1] == b[..|b| - 1] && a[|a| - 1].minor == b[|b| - 1].minor
    ensures CanReduce(t, l, c, a, r) <==> CanReduce(t, l, c, b, r)
    ensures CanReduce(t, l, c, a, r) ==> AfterReduce(t, l, c, a, r) == AfterReduce(t, l, c, b, r)
  {
    var n := |l.rules[r].rhs|;
    if n < |a| {
      assert a[..|a| - 1][..|a| - n] == a[..|a| - n] && b[..|b| - 1][..|b| - n] == b[..|b| - n];
      assert Uncovered(l, a, r) == a[..|a| - n][|a| - n - 1].stateno;
      forall i | |a| - n <= i < |a| ensures a[i].minor == b[i].minor {
        assert i < |a| - 1 ==> a[i] == a[..|a| - 1][i] && b[i] == b[..|b| - 1][i];
      }
      assert RhsValues(l, a, r) == RhsValues(l, b, r);
    }
  }

  // ---------- The engine ----------

  class Parser<V(!new)> {
    const tables: Tables
    const action: (nat, seq<V>) -> V
    const yystack: array<StackEntry<V>>
    var yytos: nat

    ghost const language: Language<V>
    ghost const certificate: Certificate
    /** One parse tree for each entry above the bottom. */
    ghost var forest: seq<Tree<V>>
    /** The entries the destructor was called on, oldest call first. */
    ghost var destroyed: seq<StackEntry<V>>

    /** The stack and its trees agree and the top stays within the array. */
    ghost predicate Inv()
      reads this, yystack
    {
      && Certified(tables, language, certificate)
      && action == language.action
      && yystack.Length == YYSTACKDEPTH
      && yytos == |forest| < YYSTACKDEPTH
      && yystack[0].stateno == 0
      && Coherent(language, certificate, yystack[..yytos + 1], forest)
    }

    /** Between calls no accept is pending. */
    ghost predicate Valid()
      reads this, yystack
    {
      Inv() && yystack[yytos].stateno != YY_ACCEPT_ACTION
    }

    /** The tokens shifted since the stack was last empty. */
    ghost function Consumed(): seq<Token<V>>
      reads this
    {
      YieldAll(forest)
    }

    constructor (t: Tables, act: (nat, seq<V>) -> V, bottom: V, ghost l: Language<V>, ghost c: Certificate)
      requires Certified(t, l, c) && act == l.action
      ensures Valid() && fresh(yystack)
      ensures tables == t && language == l && certificate == c && action == act
      ensures yytos == 0 && Consumed() == [] && destroyed == []
    {
      tables, action, language, certificate := t, act, l, c;
      yystack := new StackEntry<V>[YYSTACKDEPTH](_ => StackEntry(0, 0, bottom));
      yytos := 0;
      forest, destroyed := [], [];
      new;
      assert EntryOk(language, certificate, yystack[..1], [], 0);
    }

    /** yy_pop_parser_stack */
    method PopParserStack()
      requires Inv() && yytos > 0
      modifies this`yytos, this`forest, this`destroyed
      ensures Inv() && yytos == old(yytos) - 1
      ensures forest == old(forest)[..yytos]
      ensures destroyed == old(destroyed) + [yystack[old(yytos)]]
    {
      PopIsCoherent(language, certificate, yystack[..yytos + 1], forest, yytos - 1);
      assert yystack[..yytos + 1][..yytos] == yystack[..yytos];
      destroyed := destroyed + [yystack[yytos]];
      forest := forest[..yytos - 1];
      yytos := yytos - 1;
    }

    /** yyStackOverflow, and the finalizer's loop: every entry above the bottom is
        destroyed exactly once, from the top down. */
    method PopAll()
      requires Inv()
      modifies this`yytos, this`forest, this`destroyed
      ensures Valid() && yytos == 0 && forest == []
      ensures destroyed == old(destroyed) + Reverse(yystack[1..old(yytos) + 1])
    {
      ghost var start := yytos;
      while yytos > 0
        invariant Inv() && yytos <= start
        invariant destroyed == old(destroyed) + Reverse(yystack[yytos + 1..start + 1])
      {
        ghost var gone := yystack[yytos + 1..start + 1];
        PopParserStack();
        assert yystack[yytos + 1..start + 1] == [yystack[yytos + 1]] + gone;
        assert Reverse(yystack[yytos + 1..start + 1]) == Reverse(gone) + [yystack[yytos + 1]];
      }
      assert EntryOk(language, certificate, yystack[..yytos + 1], forest, 0);
    }

    /** yy_shift: push the token, with a pending reduce in place of a fused shift-reduce action. */
    method Shift(yyNewState: nat, yyMajor: nat, yyMinor: V, ghost shown: nat)
      requires Inv() && yyNewState <= YY_MAX_SHIFTREDUCE
      requires ReadAs(language, yyMajor, shown)
      requires ActionOk(tables, language, certificate, yystack[yytos].stateno, shown, yyNewState)
      modifies this`yytos, this`forest, this`destroyed, yystack
      ensures Valid()
      ensures old(yytos) == YYSTACKDEPTH - 1 ==>
        && yytos == 0 && forest == [] && yystack[0] == old(yystack[0])
        && destroyed == old(destroyed) + Reverse(old(yystack[1..YYSTACKDEPTH]))
      ensures old(yytos) < YYSTACKDEPTH - 1 ==>
        && yytos == old(yytos) + 1
        && Consumed() == old(Consumed()) + [Token(yyMajor, yyMinor)]
        && yystack[..yytos] == old(yystack[..yytos + 1])
        && yystack[yytos] == StackEntry(PushedCode(yyNewState), yyMajor, yyMinor)
        && destroyed == old(destroyed)
    {
      hide Certified, Coherent, EntryOk;
      yytos := yytos + 1;
      if yytos > YYSTACKDEPTH - 1 {
        yytos := yytos - 1;
        PopAll();
        return;
      }
      var newState := yyNewState;
      if newState > YY_MAX_SHIFT {
        newState := newState + (YY_MIN_REDUCE - YY_MIN_SHIFTREDUCE);
      }
      ghost var before := yystack[..yytos];
      ghost var entry, leaf := StackEntry(newState, yyMajor, yyMinor), Leaf(Token(yyMajor, yyMinor), shown);
      PushIsCoherent(language, certificate, before, forest, entry, leaf);
      YieldAllConcat(forest, [leaf]);
      assert YieldAll([leaf]) == Yield(leaf);
      yystack[yytos] := StackEntry(newState, yyMajor, yyMinor);
      forest := forest + [leaf];
      assert yystack[..yytos + 1] == before + [entry];
    }

    /** yy_reduce: pop the right-hand side, run the rule's action on its values, and push the
        left-hand side with the state the goto names.  An empty right-hand side needs a free entry. */
    method Reduce(yyruleno: nat) returns (yyact: nat)
      requires Inv()
      requires ReduceOk(tables, language, certificate, yystack[yytos].stateno, yyruleno)
      modifies this`yytos, this`forest, this`destroyed, yystack
      ensures Inv()
      ensures old(language.rules[yyruleno].rhs == [] && yytos == YYSTACKDEPTH - 1) ==>
        && yytos == 0 && forest == [] && yystack[0] == old(yystack[0])
        && destroyed == old(destroyed) + Reverse(old(yystack[1..YYSTACKDEPTH]))
      ensures !old(language.rules[yyruleno].rhs == [] && yytos == YYSTACKDEPTH - 1) ==>
        && CanReduce(tables, language, certificate, old(yystack[..yytos + 1]), yyruleno)
        && yystack[..yytos + 1] == AfterReduce(tables, language, certificate, old(yystack[..yytos + 1]), yyruleno)
        && yytos == old(yytos) + 1 - |language.rules[yyruleno].rhs|
        && yyact == yystack[yytos].stateno
        && (yyact == YY_ACCEPT_ACTION ==> ReducesToStart(language, yyruleno))
        && Consumed() == old(Consumed())
        && ReductionsAll(forest) > old(ReductionsAll(forest))
        && destroyed == old(destroyed)
    {
      hide Certified, Coherent, EntryOk, WellShaped, ReduceOk, CanReduce, AfterReduce, YieldAll, ReductionsAll, ReducesToStart, Entry, Reverse;
      RuleInfo(tables, language, certificate, yystack[yytos].stateno, yyruleno);
      if tables.yyRuleInfoNRhs[yyruleno] == 0 {
        if yytos >= YYSTACKDEPTH - 1 {
          PopAll();
          return 0;
        }
      }
      yyact := ReplaceRhs(yyruleno);
    }

    /** The tail of yy_reduce, when there is room. */
    method ReplaceRhs(yyruleno: nat) returns (yyact: nat)
      requires Inv()
      requires ReduceOk(tables, language, certificate, yystack[yytos].stateno, yyruleno)
      requires language.rules[yyruleno].rhs == [] ==> yytos < YYSTACKDEPTH - 1
      modifies this`yytos, this`forest, yystack
      ensures Inv()
      ensures CanReduce(tables, language, certificate, old(yystack[..yytos + 1]), yyruleno)
      ensures yystack[..yytos + 1] == AfterReduce(tables, language, certificate, old(yystack[..yytos + 1]), yyruleno)
      ensures yytos == old(yytos) + 1 - |language.rules[yyruleno].rhs|
      ensures yyact == yystack[yytos].stateno
      ensures yyact == YY_ACCEPT_ACTION ==> ReducesToStart(language, yyruleno)
      ensures Consumed() == old(Consumed()) && ReductionsAll(forest) > old(ReductionsAll(forest))
    {
      hide Certified, Coherent, EntryOk, WellShaped, ReduceOk, CanReduce, AfterReduce, YieldAll, ReductionsAll, ReducesToStart, Entry;
      RuleInfo(tables, language, certificate, yystack[yytos].stateno, yyruleno);
      ghost var before := yystack[..yytos + 1];
      ReduceIsCoherent(tables, language, certificate, before, forest, yyruleno);
      AfterReduceIs(tables, language, certificate, before, yyruleno);
      var yygoto := tables.yyRuleInfoLhs[yyruleno];
      var yysize := tables.yyRuleInfoNRhs[yyruleno];
      assert yystack[yytos + yysize + 1..yytos + 1] == before[|before| + yysize..];
      var yylhsminor := action(yyruleno, Minors(yystack[yytos + yysize + 1..yytos + 1]));
      yyact := FindReduceAction(tables, yystack[yytos + yysize].stateno, yygoto);
      forest := ForestAfterReduce(tables, language, certificate, before, forest, yyruleno);
      yytos := yytos + yysize + 1;
      yystack[yytos] := StackEntry(yyact, yygoto, yylhsminor);
      assert yystack[..yytos + 1] == AfterReduce(tables, language, certificate, before, yyruleno);
    }

    /** Reductions left before the trees over the shifted tokens would outgrow the grammar's bound. */
    ghost function ReductionsLeft(): int
      reads this
    {
      (YYSTACKDEPTH - 1) * MaxReductions(certificate.acyclicity, |Consumed()|, certificate.acyclicity.maxRank)
        - ReductionsAll(forest)
    }

    lemma ReductionsRemain()
      requires Inv()
      ensures ReductionsLeft() >= 0
    {
      var a := certificate.acyclicity;
      forall i | 0 <= i < |forest| ensures WellFormed(language, forest[i]) {
        assert EntryOk(language, certificate, yystack[..yytos + 1], forest, i + 1);
      }
      ForestBounded(language, a, forest, |Consumed()|);
      MulMonotone(|forest|, YYSTACKDEPTH - 1, MaxReductions(a, |Consumed()|, a.maxRank));
    }

    /** One round of the loop of sqlite3Parser; None means that it reduced and the loop goes on. */
    method ParseRound(yymajor: nat, yyminor: V) returns (event: Option<Event<V>>, ghost gone: seq<StackEntry<V>>)
      requires Inv() && WellShaped(tables) && yymajor < YYNTOKEN
      requires yystack[yytos].stateno == YY_ACCEPT_ACTION ==> yymajor == 0
      modifies this`yytos, this`forest, this`destroyed, yystack
      ensures Inv() && destroyed == old(destroyed) + gone
      ensures event.None? ==>
        && yystack[..yytos + 1] == Round(tables, language, certificate, old(yystack[..yytos + 1]), yymajor)
        && Consumed() == old(Consumed()) && ReductionsAll(forest) > old(ReductionsAll(forest))
        && (yystack[yytos].stateno == YY_ACCEPT_ACTION ==> yymajor == 0)
        && gone == []
      ensures event.Some? ==>
        && Valid()
        && Ends(tables, language, old(yystack[..yytos + 1]), Token(yymajor, yyminor), event.value, yystack[..yytos + 1], gone)
        && match event.value
           case Shifted => Consumed() == old(Consumed()) + [Token(yymajor, yyminor)]
           case Accepted(v) => yymajor == 0 && forest == [] && IsSentence(language, old(Consumed()), v)
           case SyntaxError => Consumed() == old(Consumed()) && Refuses(tables, yystack[yytos].stateno, yymajor)
           case Overflowed => forest == []
    {
      hide Certified, Coherent, EntryOk, WellShaped, StepOk, Refuses, ReduceOk, GotoOk, CanReduce, AfterReduce, YieldAll;
      ghost var state, last := yystack[yytos].stateno, yystack[..yytos + 1];
      TopIsCertified(tables, language, certificate, last, forest, yymajor);
      RuleShapes(tables, language, certificate);
      var yyact := FindShiftAction(tables, yymajor, yystack[yytos].stateno);
      if yyact >= YY_MIN_REDUCE {
        event, gone := ReduceRound(yyact, yymajor, yyminor);
      } else if yyact <= YY_MAX_SHIFTREDUCE {
        event, gone := ShiftRound(yyact, yymajor, yyminor, Lookup(tables, state, yymajor).shown);
      } else if yyact == YY_ACCEPT_ACTION {
        var value := AcceptRound();
        return Some(Accepted(value)), [];
      } else {
        ErrorIsRefusal(tables, language, certificate, last, forest, yymajor);
        return Some(SyntaxError), [];
      }
    }

    /** The branch of a reduction. */
    method ReduceRound(yyact: nat, ghost yymajor: nat, ghost yyminor: V)
      returns (event: Option<Event<V>>, ghost gone: seq<StackEntry<V>>)
      requires Inv() && WellShaped(tables) && yymajor < YYNTOKEN && yyact >= YY_MIN_REDUCE
      requires yyact == TopAction(tables, yystack[..yytos + 1], yymajor)
      requires ReduceOk(tables, language, certificate, yystack[yytos].stateno, yyact - YY_MIN_REDUCE)
      requires ReducesToStart(language, yyact - YY_MIN_REDUCE) ==> yymajor == 0
      modifies this`yytos, this`forest, this`destroyed, yystack
      ensures Inv() && destroyed == old(destroyed) + gone
      ensures event.None? ==>
        && yystack[..yytos + 1] == Round(tables, language, certificate, old(yystack[..yytos + 1]), yymajor)
        && Consumed() == old(Consumed()) && ReductionsAll(forest) > old(ReductionsAll(forest))
        && (yystack[yytos].stateno == YY_ACCEPT_ACTION ==> yymajor == 0)
        && gone == []
      ensures event.Some? ==>
        && event.value == Overflowed && Valid() && forest == []
        && Ends(tables, language, old(yystack[..yytos + 1]), Token(yymajor, yyminor), Overflowed, yystack[..yytos + 1], gone)
    {
      hide Certified, Coherent, EntryOk, WellShaped, GotoOk, ReduceOk, AfterReduce, YieldAll, ReductionsAll;
      ghost var state, last := yystack[yytos].stateno, yystack[..yytos + 1];
      RuleShapes(tables, language, certificate);
      ReduceOkShape(tables, language, certificate, state, yyact - YY_MIN_REDUCE);
      gone := [];
      ghost var full := yytos == YYSTACKDEPTH - 1;
      assert full ==> yystack[1..YYSTACKDEPTH] == last[1..];
      var code := Reduce(yyact - YY_MIN_REDUCE);
      if yytos == 0 {
        gone := Reverse(last[1..]);
        return Some(Overflowed), gone;
      }
      return None, gone;
    }

    /** The branch of a shift. */
    method ShiftRound(yyact: nat, yymajor: nat, yyminor: V, ghost shown: nat)
      returns (event: Option<Event<V>>, ghost gone: seq<StackEntry<V>>)
      requires Inv() && WellShaped(tables) && yymajor < YYNTOKEN && yyact <= YY_MAX_SHIFTREDUCE
      requires yyact == TopAction(tables, yystack[..yytos + 1], yymajor)
      requires ReadAs(language, yymajor, shown)
      requires ActionOk(tables, language, certificate, yystack[yytos].stateno, shown, yyact)
      modifies this`yytos, this`forest, this`destroyed, yystack
      ensures Valid() && destroyed == old(destroyed) + gone
      ensures event == Some(Shifted) || event == Some(Overflowed)
      ensures Ends(tables, language, old(yystack[..yytos + 1]), Token(yymajor, yyminor), event.value, yystack[..yytos + 1], gone)
      ensures event.value == Shifted ==> Consumed() == old(Consumed()) + [Token(yymajor, yyminor)]
      ensures event.value == Overflowed ==> forest == []
    {
      hide Certified, Coherent, EntryOk, WellShaped, StepOk, YieldAll, ActionOk;
      ghost var last := yystack[..yytos + 1];
      ghost var full := yytos == YYSTACKDEPTH - 1;
      assert full ==> yystack[1..YYSTACKDEPTH] == last[1..];
      Shift(yyact, yymajor, yyminor, shown);
      if yytos == 0 {
        gone := Reverse(last[1..]);
        return Some(Overflowed), gone;
      }
      assert yystack[..yytos + 1] == last + [yystack[yytos]];
      return Some(Shifted), [];
    }

    /** The branch of accepting: what was read is a sentence and the stack is empty again. */
    method AcceptRound() returns (value: V)
      requires Inv() && yystack[yytos].stateno == YY_ACCEPT_ACTION
      modifies this`yytos, this`forest
      ensures Valid() && forest == [] && IsSentence(language, old(Consumed()), value)
      ensures |old(yystack[..yytos + 1])| == 2 && value == old(yystack[1].minor)
      ensures yystack[..yytos + 1] == old(yystack[..yytos + 1])[..1]
    {
      hide Certified, EntryOk, IsSentence;
      ghost var last := yystack[..yytos + 1];
      AcceptHoldsSentence(tables, language, certificate, last, forest);
      PopIsCoherent(language, certificate, last, forest, 0);
      assert last[..1] == yystack[..1];
      yytos := yytos - 1;
      forest := forest[..0];
      value := yystack[1].minor;
    }

    /** sqlite3Parser: reduce until the token is shifted, the input is accepted, or an error is
        found; `rounds` counts the reductions made, `gone` lists the entries destroyed. */
    method Parse(yymajor: nat, yyminor: V)
      returns (event: Event<V>, ghost rounds: nat, ghost gone: seq<StackEntry<V>>)
      requires Valid() && yymajor < YYNTOKEN
      modifies this`yytos, this`forest, this`destroyed, yystack
      ensures Valid() && WellShaped(tables) && destroyed == old(destroyed) + gone
      ensures var last := Rounds(tables, language, certificate, old(yystack[..yytos + 1]), yymajor, rounds);
        Ends(tables, language, last, Token(yymajor, yyminor), event, yystack[..yytos + 1], gone)
      ensures match event
        case Shifted => Consumed() == old(Consumed()) + [Token(yymajor, yyminor)]
        case Accepted(v) => yymajor == 0 && forest == [] && IsSentence(language, old(Consumed()), v)
        case SyntaxError => Consumed() == old(Consumed()) && Refuses(tables, yystack[yytos].stateno, yymajor)
        case Overflowed => forest == []
    {
      hide Certified, Coherent, EntryOk, WellShaped, Round, Ends, YieldAll, Refuses;
      RuleShapes(tables, language, certificate);
      rounds, gone := 0, [];
      ghost var first := yystack[..yytos + 1];
      var maybe: Option<Event<V>> := None;
      while maybe.None?
        invariant WellShaped(tables) && yymajor < YYNTOKEN && Inv()
        invariant maybe.None? ==>
          && Consumed() == old(Consumed()) && destroyed == old(destroyed)
          && (yystack[yytos].stateno == YY_ACCEPT_ACTION ==> yymajor == 0)
          && yystack[..yytos + 1] == Rounds(tables, language, certificate, first, yymajor, rounds)
        invariant maybe.Some? ==>
          && Valid() && destroyed == old(destroyed) + gone
          && Ends(tables, language, Rounds(tables, language, certificate, first, yymajor, rounds),
                  Token(yymajor, yyminor), maybe.value, yystack[..yytos + 1], gone)
          && match maybe.value
             case Shifted => Consumed() == old(Consumed()) + [Token(yymajor, yyminor)]
             case Accepted(v) => yymajor == 0 && forest == [] && IsSentence(language, old(Consumed()), v)
             case SyntaxError => Consumed() == old(Consumed()) && Refuses(tables, yystack[yytos].stateno, yymajor)
             case Overflowed => forest == []
        decreases maybe.None?, ReductionsLeft()
      {
        ReductionsRemain();
        maybe, gone := ParseRound(yymajor, yyminor);
        if maybe.None? {
          rounds := rounds + 1;
        }
      }
      event := maybe.value;
    }

    /** The tokenizer's loop: hand over token after token until the parser stops, or until the loop
        breaks off after `quota` tokens for a reason of its own (size limit, interrupt, illegal token,
        an error reported by an action).  What was accepted is a sentence, followed by the
        end-of-input token. */
    method ParseTokens(tokens: seq<Token<V>>, quota: nat) returns (event: Event<V>, at: nat)
      requires Valid() && yytos == 0
      requires forall i | 0 <= i < |tokens| :: tokens[i].major < YYNTOKEN
      modifies this`yytos, this`forest, this`destroyed, yystack
      ensures Valid() && at <= |tokens|
      ensures event.Accepted? ==>
        && at < |tokens| && at < quota && tokens[at].major == 0
        && IsSentence(language, tokens[..at], event.value)
        && yytos == 0
      ensures at <= quota && (event.Shifted? ==> (at == |tokens| || at == quota) && Consumed() == tokens[..at])
      ensures event.SyntaxError? ==> at < |tokens| && Consumed() == tokens[..at]
      ensures event.Overflowed? ==> at < |tokens| && yytos == 0
    {
      hide Certified, Coherent, EntryOk, WellFormed, YieldAll;
      at, event := 0, Shifted;
      assert Consumed() == [] by {
        assert YieldAll<V>([]) == [] by { EmptyForest(); }
      }
      while at < |tokens| && at < quota
        invariant at <= |tokens| && at <= quota && Valid()
        invariant Consumed() == tokens[..at]
      {
        ghost var rounds, gone;
        event, rounds, gone := Parse(tokens[at].major, tokens[at].minor);
        if !event.Shifted? {
          return;
        }
        at := at + 1;
      }
      event := Shifted;
    }

    lemma EmptyForest()
      ensures YieldAll<V>([]) == []
    {
    }
  }
}
