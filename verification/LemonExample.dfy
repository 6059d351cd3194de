/** A small grammar, "input ::= SEMI", with tables in the packed format.  It shows that the
    certificate the theorems assume can be met. */
module LemonExample {
  import opened Collections
  import opened LemonGrammar
  import opened LemonTables

  const INPUT: nat := 155
  const SEMI: nat := 1

  function Tiny(): Tables {
    Tables(
      [YY_MIN_REDUCE, YY_NO_ACTION, 1, YY_ACCEPT_ACTION],
      [0, YYNOCODE, SEMI, INPUT],
      seq(YYNSTATE, s => if s == 0 then 1 else 0),
      [3 - INPUT],
      seq(YYNSTATE, _ => YY_ERROR_ACTION),
      [],
      seq(YYNRULE, _ => INPUT),
      seq(YYNRULE, _ => -1))
  }

  function TinyLanguage(): Language<int> {
    Language(seq(YYNRULE, _ => Rule(INPUT, [{SEMI}])), INPUT, [], YYWILDCARD,
             (r, vs: seq<int>) => if vs == [] then 0 else vs[0])
  }

  function TinyCertificate(): Certificate {
    Certificate(
      map[0 := [], 1 := [Past({SEMI}, {0})], YY_ACCEPT_ACTION := [Past({INPUT}, {0})]],
      map[(0, INPUT) := []],
      Acyclicity({}, map[INPUT := 1], 1, 1))
  }

  lemma TinyIsCertified()
    ensures Certified(Tiny(), TinyLanguage(), TinyCertificate())
  {
    var t, l, c := Tiny(), TinyLanguage(), TinyCertificate();
    assert Entry(t, t.yyReduceOfst[0], INPUT) == Some(YY_ACCEPT_ACTION);
    assert GotoOk(t, l, c, 0, INPUT);
    assert ReduceOk(t, l, c, 1, 0);
    assert StepOk(c, 0, SEMI, 1);
    assert CodeOk(t, l, c, 0);
    assert CodeOk(t, l, c, 1);
    forall r | 0 <= r < |l.rules| ensures RuleIsAcyclic(l.rules[r], c.acyclicity) {
    }
  }
}
