/** Grammars, parse trees and their yields, as the Lemon engine in parse.c uses them. */
module LemonGrammar {
  import opened Collections

  /** A production.  A right-hand-side position is a set of symbols: Lemon's
      multi-terminals ("ID|INDEXED") allow several tokens at one position. */
  datatype Rule = Rule(lhs: nat, rhs: seq<set<nat>>)

  /** A token as the tokenizer hands it over: its code and its semantic value. */
  datatype Token<V> = Token(major: nat, minor: V)

  /** A leaf keeps the token that was read and the terminal it was read as,
      which differ where a fallback or the wildcard applied. */
  datatype Tree<V> =
    | Leaf(token: Token<V>, shown: nat)
    | Node(rule: nat, kids: seq<Tree<V>>)

  /** The grammar, the replacements a token may undergo and what the rules' actions compute. */
  datatype Language<!V> = Language(
    rules: seq<Rule>,
    start: nat,
    fallback: seq<nat>,
    wildcard: nat,
    action: (nat, seq<V>) -> V)

  /** The terminals a token may be read as: itself, its fallback, or (unless it ends the input) the wildcard. */
  predicate ReadAs<V>(l: Language<V>, major: nat, shown: nat) {
    || shown == major
    || (major < |l.fallback| && l.fallback[major] != 0 && shown == l.fallback[major])
    || (major > 0 && shown == l.wildcard)
  }

  ghost predicate WellFormed<V>(l: Language<V>, t: Tree<V>) {
    match t
    case Leaf(token, shown) => ReadAs(l, token.major, shown)
    case Node(r, kids) =>
      && r < |l.rules|
      && |kids| == |l.rules[r].rhs|
      && forall i | 0 <= i < |kids| ::
        WellFormed(l, kids[i]) && Symbol(l, kids[i]) in l.rules[r].rhs[i]
  }

  /** The grammar symbol a tree stands for. */
  ghost function Symbol<V>(l: Language<V>, t: Tree<V>): nat {
    match t
    case Leaf(_, shown) => shown
    case Node(r, _) => if r < |l.rules| then l.rules[r].lhs else 0
  }

  ghost function Yield<V>(t: Tree<V>): seq<Token<V>>
    decreases t, 1
  {
    match t
    case Leaf(token, _) => [token]
    case Node(_, kids) => YieldAll(kids)
  }

  ghost function YieldAll<V>(ts: seq<Tree<V>>): seq<Token<V>>
    decreases ts, 0
  {
    if ts == [] then [] else Yield(ts[0]) + YieldAll(ts[1..])
  }

  /** The semantic value: token values at the leaves, folded by the rules' actions. */
  ghost function Value<V>(l: Language<V>, t: Tree<V>): V
    decreases t, 1
  {
    match t
    case Leaf(token, _) => token.minor
    case Node(r, kids) => l.action(r, Values(l, kids))
  }

  ghost function Values<V>(l: Language<V>, ts: seq<Tree<V>>): (vs: seq<V>)
    ensures |vs| == |ts|
    ensures forall i | 0 <= i < |ts| :: vs[i] == Value(l, ts[i])
    decreases ts, 0
  {
    if ts == [] then [] else [Value(l, ts[0])] + Values(l, ts[1..])
  }

  /** The tokens form a sentence whose meaning is v: some parse tree from the
      start symbol has exactly these tokens at its leaves and folds to v. */
  ghost predicate IsSentence<V(!new)>(l: Language<V>, tokens: seq<Token<V>>, v: V) {
    exists t: Tree<V> :: IsParse(l, t, tokens, v)
  }

  ghost predicate IsParse<V>(l: Language<V>, t: Tree<V>, tokens: seq<Token<V>>, v: V) {
    WellFormed(l, t) && Symbol(l, t) == l.start && Yield(t) == tokens && Value(l, t) == v
  }

  lemma {:induction false} YieldAllConcat<V>(a: seq<Tree<V>>, b: seq<Tree<V>>)
    ensures YieldAll(a + b) == YieldAll(a) + YieldAll(b)
  {
    if a == [] {
      assert a + b == b;
    } else {
      hide Yield, YieldAll;
      YieldAllConcat(a[1..], b);
      ConcatFirst(a, b);
      YieldAllFirst(a);
      YieldAllFirst(a + b);
      Associate(Yield(a[0]), YieldAll(a[1..]), YieldAll(b));
    }
  }

  lemma ConcatFirst<T>(a: seq<T>, b: seq<T>)
    requires a != []
    ensures (a + b)[0] == a[0] && (a + b)[1..] == a[1..] + b
  {
  }

  lemma YieldAllFirst<V>(ts: seq<Tree<V>>)
    requires ts != []
    ensures YieldAll(ts) == Yield(ts[0]) + YieldAll(ts[1..])
  {
  }

  // ---------- Unit chains ----------

  /** Lemon leaves out unit rules without an action; a chain lists those that
      take the symbol s up to the symbol the automaton goes on with. */
  ghost predicate IsChain(rules: seq<Rule>, s: nat, chain: seq<nat>)
    decreases |chain|
  {
    chain != [] ==>
      && chain[0] < |rules|
      && |rules[chain[0]].rhs| == 1
      && s in rules[chain[0]].rhs[0]
      && IsChain(rules, rules[chain[0]].lhs, chain[1..])
  }

  ghost function ChainTop(rules: seq<Rule>, s: nat, chain: seq<nat>): nat
    requires IsChain(rules, s, chain)
    decreases |chain|
  {
    if chain == [] then s else ChainTop(rules, rules[chain[0]].lhs, chain[1..])
  }

  ghost function Wrap<V>(t: Tree<V>, chain: seq<nat>): Tree<V>
    decreases |chain|
  {
    if chain == [] then t else Wrap(Node(chain[0], [t]), chain[1..])
  }

  /** A unit rule without an action hands its operand's value on. */
  ghost predicate IsTransparent<V(!new)>(l: Language<V>, r: nat) {
    forall v: V :: l.action(r, [v]) == v
  }

  /** The code a stack entry carries for a tree: the token's own, or the symbol made before left-out unit
      rules were put back. */
  ghost predicate StandsFor<V>(l: Language<V>, t: Tree<V>, major: nat) {
    match t
    case Leaf(token, _) => token.major == major
    case Node(r, kids) => (r < |l.rules| && l.rules[r].lhs == major) || (|kids| == 1 && StandsFor(l, kids[0], major))
  }

  lemma {:induction false} WrapStandsFor<V>(l: Language<V>, t: Tree<V>, chain: seq<nat>, major: nat)
    requires StandsFor(l, t, major)
    ensures StandsFor(l, Wrap(t, chain), major)
    decreases |chain|
  {
    if chain != [] {
      WrapStandsFor(l, Node(chain[0], [t]), chain[1..], major);
    }
  }

  /** Putting the left-out unit rules back changes the symbol only. */
  lemma {:induction false} WrapKeeps<V(!new)>(l: Language<V>, t: Tree<V>, chain: seq<nat>)
    requires WellFormed(l, t)
    requires IsChain(l.rules, Symbol(l, t), chain)
    requires forall i | 0 <= i < |chain| :: IsTransparent(l, chain[i])
    ensures var w := Wrap(t, chain);
      && WellFormed(l, w)
      && Symbol(l, w) == ChainTop(l.rules, Symbol(l, t), chain)
      && Yield(w) == Yield(t)
      && Value(l, w) == Value(l, t)
      && Reductions(w) == Reductions(t) + |chain|
    decreases |chain|
  {
    if chain != [] {
      var up := Node(chain[0], [t]);
      assert YieldAll([t]) == Yield(t) + YieldAll<V>([]);
      assert ReductionsAll([t]) == Reductions(t);
      assert Values(l, [t]) == [Value(l, t)];
      WrapKeeps(l, up, chain[1..]);
    }
  }

  // ---------- How many reductions can there be? ----------

  /** The number of inner nodes, one for each reduction. */
  ghost function Reductions<V>(t: Tree<V>): nat
    decreases t, 1
  {
    match t
    case Leaf(_, _) => 0
    case Node(_, kids) => 1 + ReductionsAll(kids)
  }

  ghost function ReductionsAll<V>(ts: seq<Tree<V>>): nat
    decreases ts, 0
  {
    if ts == [] then 0 else Reductions(ts[0]) + ReductionsAll(ts[1..])
  }

  lemma {:induction false} ReductionsAllConcat<V>(a: seq<Tree<V>>, b: seq<Tree<V>>)
    ensures ReductionsAll(a + b) == ReductionsAll(a) + ReductionsAll(b)
  {
    if a == [] {
      assert a + b == b;
    } else {
      ReductionsAllConcat(a[1..], b);
      assert (a + b)[1..] == a[1..] + b;
    }
  }

  /** Evidence that no symbol derives itself: which symbols may derive the empty
      string, and a rank that falls whenever a right-hand side can shrink to one
      of its positions. */
  datatype Acyclicity = Acyclicity(nullable: set<nat>, rank: map<nat, nat>, maxRank: nat, maxRhs: nat)

  ghost predicate SomeNullable(a: Acyclicity, symbols: set<nat>) {
    exists s :: s in symbols && s in a.nullable
  }

  ghost predicate IsAcyclic(rules: seq<Rule>, a: Acyclicity) {
    forall r | 0 <= r < |rules| :: RuleIsAcyclic(rules[r], a)
  }

  ghost function Rank(a: Acyclicity, s: nat): nat {
    if s in a.rank then a.rank[s] else 0
  }

  ghost predicate RuleIsAcyclic(rule: Rule, a: Acyclicity) {
    && |rule.rhs| <= a.maxRhs
    && Rank(a, rule.lhs) <= a.maxRank
    && ((forall i | 0 <= i < |rule.rhs| :: SomeNullable(a, rule.rhs[i])) ==> rule.lhs in a.nullable)
    && forall i | 0 <= i < |rule.rhs| && CanShrinkTo(rule, a, i) ::
         forall s | s in rule.rhs[i] :: Rank(a, s) < Rank(a, rule.lhs)
  }

  ghost predicate CanShrinkTo(rule: Rule, a: Acyclicity, i: nat) {
    forall j | 0 <= j < |rule.rhs| && j != i :: SomeNullable(a, rule.rhs[j])
  }

  lemma {:induction false} YieldAllEmpty<V>(ts: seq<Tree<V>>, i: nat)
    requires i < |ts|
    ensures |Yield(ts[i])| <= |YieldAll(ts)|
    ensures |Yield(ts[i])| == |YieldAll(ts)| ==> forall j | 0 <= j < |ts| && j != i :: Yield(ts[j]) == []
  {
    YieldAllConcat(ts[..i], ts[i..]);
    assert ts == ts[..i] + ts[i..];
    YieldAllConcat(ts[i..i + 1], ts[i + 1..]);
    assert ts[i..] == ts[i..i + 1] + ts[i + 1..];
    assert YieldAll(ts[i..i + 1]) == Yield(ts[i]);
    if |Yield(ts[i])| == |YieldAll(ts)| {
      AllEmpty(ts[..i]);
      AllEmpty(ts[i + 1..]);
      forall j | 0 <= j < |ts| && j != i ensures Yield(ts[j]) == [] {
        if j < i {
          assert ts[j] == ts[..i][j];
        } else {
          assert ts[j] == ts[i + 1..][j - i - 1];
        }
      }
    }
  }

  lemma {:induction false} AllEmpty<V>(ts: seq<Tree<V>>)
    requires YieldAll(ts) == []
    ensures forall j | 0 <= j < |ts| :: Yield(ts[j]) == []
  {
    if ts != [] {
      AllEmpty(ts[1..]);
      forall j | 0 <= j < |ts| ensures Yield(ts[j]) == [] {
        if j > 0 {
          assert ts[j] == ts[1..][j - 1];
        }
      }
    }
  }

  /** A tree without tokens stands for a symbol certified as nullable. */
  lemma {:induction false} EmptyIsNullable<V>(l: Language<V>, a: Acyclicity, t: Tree<V>)
    requires IsAcyclic(l.rules, a) && WellFormed(l, t) && Yield(t) == []
    ensures Symbol(l, t) in a.nullable
  {
    var rule := l.rules[t.rule];
    AllEmpty(t.kids);
    forall i | 0 <= i < |rule.rhs| ensures SomeNullable(a, rule.rhs[i]) {
      EmptyIsNullable(l, a, t.kids[i]);
    }
    assert RuleIsAcyclic(rule, a);
  }

  /** Bound on the reductions in a tree with at most m tokens and a root of rank at most k. */
  ghost function MaxReductions(a: Acyclicity, m: nat, k: nat): nat
    decreases m, k, 1
  {
    1 + a.maxRhs * KidBound(a, m, k)
  }

  /** In an acyclic grammar the tokens bound the size of every parse tree over them. */
  lemma {:induction false} ReductionsBounded<V>(l: Language<V>, a: Acyclicity, t: Tree<V>, m: nat, k: nat)
    requires IsAcyclic(l.rules, a) && WellFormed(l, t)
    requires |Yield(t)| <= m && (t.Node? ==> Rank(a, Symbol(l, t)) <= k)
    ensures Reductions(t) <= MaxReductions(a, m, k)
    decreases t, 1
  {
    if t.Node? {
      var rule := l.rules[t.rule];
      assert RuleIsAcyclic(rule, a);
      forall i | 0 <= i < |t.kids| ensures Reductions(t.kids[i]) <= KidBound(a, m, k) {
        KidBounded(l, a, t, m, k, i);
      }
      SumBounded(t.kids, KidBound(a, m, k));
      BoundAddsUp(a, m, k, |t.kids|);
    }
  }

  ghost function KidBound(a: Acyclicity, m: nat, k: nat): nat
    decreases m, k, 0
  {
    (if k > 0 then MaxReductions(a, m, k - 1) else 0) + (if m > 0 then MaxReductions(a, m - 1, a.maxRank) else 0)
  }

  lemma BoundAddsUp(a: Acyclicity, m: nat, k: nat, n: nat)
    requires n <= a.maxRhs
    ensures 1 + n * KidBound(a, m, k) <= MaxReductions(a, m, k)
  {
    MulMonotone(n, a.maxRhs, KidBound(a, m, k));
    hide KidBound;
  }

  /** A child with all the tokens has empty siblings, hence a lower rank. */
  lemma FullKidRanksLower<V>(l: Language<V>, a: Acyclicity, t: Tree<V>, i: nat)
    requires IsAcyclic(l.rules, a) && WellFormed(l, t) && t.Node? && i < |t.kids|
    requires |Yield(t.kids[i])| == |Yield(t)|
    ensures Rank(a, Symbol(l, t.kids[i])) < Rank(a, Symbol(l, t))
  {
    var rule := l.rules[t.rule];
    YieldAllEmpty(t.kids, i);
    forall j | 0 <= j < |rule.rhs| && j != i ensures SomeNullable(a, rule.rhs[j]) {
      EmptyIsNullable(l, a, t.kids[j]);
      assert Symbol(l, t.kids[j]) in rule.rhs[j];
    }
    assert RuleIsAcyclic(rule, a) && CanShrinkTo(rule, a, i);
    assert Symbol(l, t.kids[i]) in rule.rhs[i];
  }

  /** A child either has fewer tokens, or all of them and a lower rank. */
  lemma {:induction false} KidBounded<V>(l: Language<V>, a: Acyclicity, t: Tree<V>, m: nat, k: nat, i: nat)
    requires IsAcyclic(l.rules, a) && WellFormed(l, t) && t.Node? && i < |t.kids|
    requires |Yield(t)| <= m && Rank(a, Symbol(l, t)) <= k
    ensures Reductions(t.kids[i]) <= KidBound(a, m, k)
    decreases t, 0
  {
    hide WellFormed, IsAcyclic, Yield, YieldAll, MaxReductions;
    KidIsSmaller(l, a, t, i);
    if |Yield(t.kids[i])| < m {
      ReductionsBounded(l, a, t.kids[i], m - 1, a.maxRank);
    } else {
      ReductionsBounded(l, a, t.kids[i], m, k - 1);
    }
  }

  lemma KidIsSmaller<V>(l: Language<V>, a: Acyclicity, t: Tree<V>, i: nat)
    requires IsAcyclic(l.rules, a) && WellFormed(l, t) && t.Node? && i < |t.kids|
    ensures WellFormed(l, t.kids[i]) && |Yield(t.kids[i])| <= |Yield(t)|
    ensures Rank(a, Symbol(l, t.kids[i])) <= a.maxRank || t.kids[i].Leaf?
    ensures |Yield(t.kids[i])| == |Yield(t)| ==> Rank(a, Symbol(l, t.kids[i])) < Rank(a, Symbol(l, t))
  {
    var kid := t.kids[i];
    YieldAllEmpty(t.kids, i);
    if kid.Node? {
      assert RuleIsAcyclic(l.rules[kid.rule], a);
    }
    if |Yield(kid)| == |Yield(t)| {
      FullKidRanksLower(l, a, t, i);
    }
  }

  lemma MulMonotone(x: nat, y: nat, z: nat)
    requires x <= y
    ensures x * z <= y * z
  {
  }

  lemma {:induction false} SumBounded<V>(ts: seq<Tree<V>>, b: nat)
    requires forall i | 0 <= i < |ts| :: Reductions(ts[i]) <= b
    ensures ReductionsAll(ts) <= |ts| * b
  {
    if ts != [] {
      SumBounded(ts[1..], b);
      assert |ts| * b == b + |ts[1..]| * b;
    }
  }

  /** The same for a forest, whatever the symbols at its roots. */
  lemma ForestBounded<V>(l: Language<V>, a: Acyclicity, ts: seq<Tree<V>>, m: nat)
    requires IsAcyclic(l.rules, a)
    requires forall i | 0 <= i < |ts| :: WellFormed(l, ts[i])
    requires |YieldAll(ts)| <= m
    ensures ReductionsAll(ts) <= |ts| * MaxReductions(a, m, a.maxRank)
  {
    forall i | 0 <= i < |ts| ensures Reductions(ts[i]) <= MaxReductions(a, m, a.maxRank) {
      YieldAllEmpty(ts, i);
      if ts[i].Node? {
        assert RuleIsAcyclic(l.rules[ts[i].rule], a);
      }
      ReductionsBounded(l, a, ts[i], m, a.maxRank);
    }
    SumBounded(ts, MaxReductions(a, m, a.maxRank));
  }
}
