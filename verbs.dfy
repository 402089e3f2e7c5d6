/**
 * Verb handlers become a `doVerb` method. Every clause `(verb ... code)` of every `verbs`
 * block of a class turns into a case of one switch on `theVerb`, keyed by the clause's first
 * verb and holding the clause's code (which leaves the clause); a default case passes the
 * call on to `super`. The method is added once, at the first handler, and only to a class
 * that has a handler.
 */
module Verbs {
  import opened Ast

  /** The single parameter of the `doVerb` signature, and the switch's subject. */
  const TheVerb := "theVerb"

  /** `_MakeVerbHandlerElse`: `(else (super doVerb: theVerb &rest))`. */
  function VerbElse(): (r: Node)
    ensures IsDefaultCase(r) && CaseValue(r) == Empty
  {
    Case(true, Empty, [Send("super", Empty, [SendParam("doVerb", true, [Tok(TheVerb), Rest])])])
  }

  /** The case one clause becomes: keyed by its first verb, holding its code. */
  function ClauseCase(cl: VerbClause): Node {
    Case(false, Tok(cl.verb), cl.body)
  }

  function ClauseCases(cls: seq<VerbClause>): (r: seq<Node>)
    ensures |r| == |cls|
  {
    if cls == [] then [] else [ClauseCase(cls[0])] + ClauseCases(cls[1..])
  }

  lemma {:induction false} ClauseCasesAt(cls: seq<VerbClause>, k: nat)
    requires k < |cls|
    ensures ClauseCases(cls)[k] == ClauseCase(cls[k])
    decreases k
  {
    if k > 0 {
      ClauseCasesAt(cls[1..], k - 1);
    }
  }

  lemma {:induction false} ClauseCasesAppend(xs: seq<VerbClause>, ys: seq<VerbClause>)
    ensures ClauseCases(xs + ys) == ClauseCases(xs) + ClauseCases(ys)
    decreases |xs|
  {
    if xs == [] {
      assert xs + ys == ys;
    } else {
      assert (xs + ys)[1..] == xs[1..] + ys;
      ClauseCasesAppend(xs[1..], ys);
    }
  }

  /** The clauses of all handlers of a class, in order. */
  function Clauses(hs: seq<seq<VerbClause>>): seq<VerbClause> {
    if hs == [] then [] else hs[0] + Clauses(hs[1..])
  }

  lemma {:induction false} ClausesSnoc(hs: seq<seq<VerbClause>>, h: seq<VerbClause>)
    ensures Clauses(hs + [h]) == Clauses(hs) + h
    decreases |hs|
  {
    if hs == [] {
      assert Clauses([h][1..]) == [];
    } else {
      assert (hs + [h])[1..] == hs[1..] + [h];
      ClausesSnoc(hs[1..], h);
    }
  }

  /** The clauses once their code has been handed to their cases. */
  function Emptied(cls: seq<VerbClause>): (r: seq<VerbClause>)
    ensures |r| == |cls|
  {
    if cls == [] then [] else [cls[0].(body := [])] + Emptied(cls[1..])
  }

  lemma {:induction false} EmptiedAt(cls: seq<VerbClause>, k: nat)
    requires k < |cls|
    ensures Emptied(cls)[k] == cls[k].(body := [])
    decreases k
  {
    if k > 0 {
      EmptiedAt(cls[1..], k - 1);
    }
  }

  lemma {:induction false} EmptiedAppend(xs: seq<VerbClause>, ys: seq<VerbClause>)
    ensures Emptied(xs + ys) == Emptied(xs) + Emptied(ys)
    decreases |xs|
  {
    if xs == [] {
      assert xs + ys == ys;
    } else {
      assert (xs + ys)[1..] == xs[1..] + ys;
      EmptiedAppend(xs[1..], ys);
    }
  }

  function EmptiedHandlers(hs: seq<seq<VerbClause>>): (r: seq<seq<VerbClause>>)
    ensures |r| == |hs|
  {
    if hs == [] then [] else [Emptied(hs[0])] + EmptiedHandlers(hs[1..])
  }

  lemma {:induction false} EmptiedHandlersSnoc(hs: seq<seq<VerbClause>>, h: seq<VerbClause>)
    ensures EmptiedHandlers(hs + [h]) == EmptiedHandlers(hs) + [Emptied(h)]
    decreases |hs|
  {
    if hs == [] {
      assert EmptiedHandlers([h][1..]) == [];
    } else {
      assert (hs + [h])[1..] == hs[1..] + [h];
      EmptiedHandlersSnoc(hs[1..], h);
    }
  }

  /** The `doVerb` method around its switch (`_CreateVerbHandlerSignature` gives one parameter). */
  function DoVerb(cases: seq<Node>): Function {
    Function("doVerb", [TheVerb], [], [Switch(Tok(TheVerb), cases)], false)
  }

  /** A class after `_ProcessClassForVerbHandlers`. */
  function WithVerbs(c: Class): Class {
    if c.verbHandlers == [] then c
    else
      c.(methods := c.methods + [DoVerb(ClauseCases(Clauses(c.verbHandlers)) + [VerbElse()])],
         verbHandlers := EmptiedHandlers(c.verbHandlers))
  }

  // ---------------------------------------------------------------------------------------
  // The passes as the source runs them

  /** `_ProcessVerbHandler`'s loop: one case per clause, the clause's code swapped out. */
  method ProcessVerbHandler(clauses: seq<VerbClause>) returns (emptied: seq<VerbClause>, cases: seq<Node>)
    ensures cases == ClauseCases(clauses)
    ensures emptied == Emptied(clauses)
  {
    emptied, cases := [], [];
    var j := 0;
    while j < |clauses|
      invariant 0 <= j <= |clauses|
      invariant cases == ClauseCases(clauses[..j])
      invariant emptied == Emptied(clauses[..j])
    {
      var clause := clauses[j];
      cases := cases + [Case(false, Tok(clause.verb), clause.body)];
      emptied := emptied + [clause.(body := [])];
      ClauseCasesAppend(clauses[..j], [clause]);
      EmptiedAppend(clauses[..j], [clause]);
      assert clauses[..j + 1] == clauses[..j] + [clause];
      j := j + 1;
    }
    assert clauses[..j] == clauses;
  }

  /**
   * `_ProcessClassForVerbHandlers`: the switch is made at the first handler (even one without
   * clauses), later handlers add their cases to it, and the default case closes it.
   */
  method ProcessClassForVerbHandlers(c: Class) returns (r: Class)
    ensures r == WithVerbs(c)
  {
    var handlers := c.verbHandlers;
    var done: seq<seq<VerbClause>> := [];
    var cases: seq<Node> := [];
    var hasSwitch := false;
    var i := 0;
    while i < |handlers|
      invariant 0 <= i <= |handlers|
      invariant hasSwitch == (i > 0)
      invariant done == EmptiedHandlers(handlers[..i])
      invariant cases == ClauseCases(Clauses(handlers[..i]))
    {
      hasSwitch := true;
      var emptied, more := ProcessVerbHandler(handlers[i]);
      ClausesSnoc(handlers[..i], handlers[i]);
      ClauseCasesAppend(Clauses(handlers[..i]), handlers[i]);
      EmptiedHandlersSnoc(handlers[..i], handlers[i]);
      assert handlers[..i + 1] == handlers[..i] + [handlers[i]];
      cases := cases + more;
      done := done + [emptied];
      i := i + 1;
    }
    assert handlers[..i] == handlers;
    r := c;
    if hasSwitch {
      r := c.(methods := c.methods + [DoVerb(cases + [VerbElse()])], verbHandlers := done);
    }
  }

  // ---------------------------------------------------------------------------------------
  // What the expansion promises

  /** The code of a run of clauses, in order. */
  function ClauseCode(cls: seq<VerbClause>): seq<Node> {
    if cls == [] then [] else cls[0].body + ClauseCode(cls[1..])
  }

  /** The code of a run of cases, in order. */
  function CaseCode(cases: seq<Node>): seq<Node> {
    if cases == [] then [] else CaseBody(cases[0]) + CaseCode(cases[1..])
  }

  lemma {:induction false} ClauseCasesCode(cls: seq<VerbClause>)
    ensures CaseCode(ClauseCases(cls)) == ClauseCode(cls)
    decreases |cls|
  {
    if cls != [] {
      ClauseCasesCode(cls[1..]);
      assert ClauseCases(cls)[1..] == ClauseCases(cls[1..]);
    }
  }

  lemma {:induction false} EmptiedCode(cls: seq<VerbClause>)
    ensures ClauseCode(Emptied(cls)) == []
    decreases |cls|
  {
    if cls != [] {
      EmptiedCode(cls[1..]);
      assert Emptied(cls)[1..] == Emptied(cls[1..]);
    }
  }

  lemma {:induction false} EmptiedHandlersClauses(hs: seq<seq<VerbClause>>)
    ensures Clauses(EmptiedHandlers(hs)) == Emptied(Clauses(hs))
    decreases |hs|
  {
    if hs != [] {
      EmptiedHandlersClauses(hs[1..]);
      assert EmptiedHandlers(hs)[1..] == EmptiedHandlers(hs[1..]);
      EmptiedAppend(hs[0], Clauses(hs[1..]));
    }
  }

  /**
   * A class gains a `doVerb` method exactly when it has a verb handler, appended after its
   * own methods; a class without handlers is left as it was.
   */
  lemma DoVerbAddedIffHandlers(c: Class)
    ensures var r := WithVerbs(c);
      && r.name == c.name && r.isPublic == c.isPublic && r.methodForwards == c.methodForwards
      && r.methods[..|c.methods|] == c.methods
      && |r.methods| == |c.methods| + (if c.verbHandlers == [] then 0 else 1)
      && (c.verbHandlers == [] ==> r == c)
  {
    if c.verbHandlers != [] {
      var r := WithVerbs(c);
      assert r.methods[..|c.methods|] == c.methods;
    }
  }

  /**
   * The `doVerb` switch holds one case per clause, in clause order, keyed by the clause's
   * first verb; its only default case is the last one, which forwards to `super`.
   */
  lemma DoVerbSwitch(c: Class)
    requires c.verbHandlers != []
    ensures var r := WithVerbs(c);
      var cls := Clauses(c.verbHandlers);
      var sw := r.methods[|c.methods|].body[0];
      && r.methods[|c.methods|].name == "doVerb" && r.methods[|c.methods|].params == [TheVerb]
      && sw.Switch? && sw.subject == Tok(TheVerb) && |sw.cases| == |cls| + 1
      && (forall k :: 0 <= k < |cls| ==>
            sw.cases[k].Case? && CaseValue(sw.cases[k]) == Tok(cls[k].verb)
            && CaseBody(sw.cases[k]) == cls[k].body)
      && (forall k :: 0 <= k < |sw.cases| ==> (IsDefaultCase(sw.cases[k]) <==> k == |cls|))
      && sw.cases[|cls|] == VerbElse()
  {
    var cls := Clauses(c.verbHandlers);
    forall k | 0 <= k < |cls|
      ensures ClauseCases(cls)[k] == ClauseCase(cls[k])
    {
      ClauseCasesAt(cls, k);
    }
  }

  /**
   * The clauses' code moves, in order, into the switch cases; every clause keeps its verbs
   * and is left without code.
   */
  lemma VerbCodeMoves(c: Class)
    requires c.verbHandlers != []
    ensures var r := WithVerbs(c);
      var sw := r.methods[|c.methods|].body[0];
      && sw.Switch?
      && CaseCode(sw.cases[..|sw.cases| - 1]) == ClauseCode(Clauses(c.verbHandlers))
      && ClauseCode(Clauses(r.verbHandlers)) == []
      && |Clauses(r.verbHandlers)| == |Clauses(c.verbHandlers)|
      && (forall k :: 0 <= k < |Clauses(c.verbHandlers)| ==>
            Clauses(r.verbHandlers)[k].verb == Clauses(c.verbHandlers)[k].verb
            && Clauses(r.verbHandlers)[k].otherVerbs == Clauses(c.verbHandlers)[k].otherVerbs)
  {
    var cls := Clauses(c.verbHandlers);
    var cases := ClauseCases(cls) + [VerbElse()];
    assert cases[..|cases| - 1] == ClauseCases(cls);
    ClauseCasesCode(cls);
    EmptiedHandlersClauses(c.verbHandlers);
    EmptiedCode(cls);
    forall k | 0 <= k < |cls|
      ensures Emptied(cls)[k] == cls[k].(body := [])
    {
      EmptiedAt(cls, k);
    }
  }
}
