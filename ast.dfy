/**
 * The script object model that the parse actions build and that post-processing reshapes:
 * a closed datatype of syntax nodes, plus the function, class and script records that hold
 * them.
 *
 * A null `unique_ptr` to a statement is the `Empty` node. `PropertyValue` and
 * `ComplexPropertyValue` are one `Value` node; a `ConditionalExpression` wrapper is left out,
 * so a condition is the statement it wraps. An `LValue` lives inside the `Assign` node that
 * owns it. Operators are their spellings (the operator tables are external).
 */
module Ast {
  import opened Wrappers

  datatype ValueKind = Number | Token | Str | Said | Selector | ArraySize

  datatype Node =
    | Empty
    | Value(kind: ValueKind, text: string, number: int, indexer: Node)
    | Rest
    | Assign(aop: string, target: string, targetIndexer: Node, value: Node)
    | Unary(uop: string, arg: Node)
    | Binary(bop: string, left: Node, right: Node)
    | Nary(nop: string, operands: seq<Node>)
    | Call(callee: string, args: seq<Node>)
      /**
       * A send to a named object, or to the object an expression gives (`[clients 4]`,
       * `(GetTheGuy)`): `receiver` is that expression, and `Empty` when the target is a name.
       */
    | Send(target: string, receiver: Node, params: seq<Node>)
      /** `selector: args` or `selector?` inside a send. */
    | SendParam(selector: string, isMethod: bool, args: seq<Node>)
    | Return(result: Node)
    | Block(stmts: seq<Node>)
    | If(cond: Node, thenPart: Node, elsePart: Node)
    | While(cond: Node, body: seq<Node>)
    | For(init: Node, cond: Node, looper: Node, body: seq<Node>)
    | ForEach(iterVar: string, collection: Node, body: seq<Node>, finalCode: seq<Node>)
    | Switch(subject: Node, cases: seq<Node>)
    | Cond(clauses: seq<Node>, lowered: Node)
      /** A `CaseStatement`: a switch case or a cond clause; `value` is `Empty` when it has none. */
    | Case(isDefault: bool, value: Node, body: seq<Node>)
    | Break(levels: Option<int>)
    | Continue(levels: Option<int>)

  /** A procedure, method or the `doVerb` method made from verb handlers. */
  datatype Function = Function(name: string, params: seq<string>, temps: seq<string>,
                               body: seq<Node>, isPublic: bool)

  /** One `(verb1 verb2 ... code)` clause of a `verbs` block; a clause has at least one verb. */
  datatype VerbClause = VerbClause(verb: string, otherVerbs: seq<string>, body: seq<Node>)

  datatype Class = Class(name: string, isPublic: bool, methods: seq<Function>,
                         verbHandlers: seq<seq<VerbClause>>, methodForwards: seq<string>)

  datatype Define = Define(name: string, value: int)

  datatype Script = Script(exports: seq<string>, scriptVars: seq<string>,
                           procedures: seq<Function>, classes: seq<Class>,
                           externs: seq<string>, globals: seq<string>, classDefs: seq<string>,
                           selectors: seq<string>, procedureForwards: seq<string>,
                           defines: seq<Define>)

  /** A `CompileResult` reported to the compile log. */
  datatype Diagnostic = Diagnostic(text: string, isWarning: bool)

  /** `_MakeTokenStatement`: a bare identifier. */
  function Tok(name: string): Node {
    Value(Token, name, 0, Empty)
  }

  /** `_MakeNumberStatement` and `PropertyValue(n)`: a number. */
  function Num(n: int): Node {
    Value(Number, "", n, Empty)
  }

  /** `CaseStatement::IsDefault`, read on any node: only a `Case` can be a default. */
  predicate IsDefaultCase(c: Node) {
    c.Case? && c.isDefault
  }

  /** A case's value, or `Empty` (a null value) on any other node. */
  function CaseValue(c: Node): Node {
    if c.Case? then c.value else Empty
  }

  /** A case's statements, or none on any other node. */
  function CaseBody(c: Node): seq<Node> {
    if c.Case? then c.body else []
  }

  // ---------------------------------------------------------------------------------------
  // Children, in the order `EnumScriptElements` visits them

  function Kids(n: Node): seq<Node> {
    match n
    case Empty => []
    case Value(_, _, _, ix) => [ix]
    case Rest => []
    case Assign(_, _, ix, v) => [ix, v]
    case Unary(_, a) => [a]
    case Binary(_, l, r) => [l, r]
    case Nary(_, xs) => xs
    case Call(_, xs) => xs
    case Send(_, o, ps) => [o] + ps
    case SendParam(_, _, xs) => xs
    case Return(x) => [x]
    case Block(xs) => xs
    case If(c, t, e) => [c, t, e]
    case While(c, b) => [c] + b
    case For(i, c, l, b) => [i, c, l] + b
    case ForEach(_, c, b, f) => [c] + b + f
    case Switch(s, cs) => [s] + cs
    case Cond(cs, l) => cs + [l]
    case Case(_, v, b) => [v] + b
    case Break(_) => []
    case Continue(_) => []
  }

  /** `n` with its children replaced, in order, by `ks`; its other fields are kept. */
  function Rebuild(n: Node, ks: seq<Node>): (r: Node)
    requires |ks| == |Kids(n)|
    ensures r.Assign? == n.Assign? && (r.Assign? ==> r.aop == n.aop && r.target == n.target)
    ensures r.Value? == n.Value? && (r.Value? ==> r.kind == n.kind && r.text == n.text && r.number == n.number)
    ensures r.Send? == n.Send? && (r.Send? ==> r.target == n.target)
    ensures r.ForEach? == n.ForEach? && (r.ForEach? ==> r.iterVar == n.iterVar && |r.body| == |n.body|)
    ensures r.Cond? == n.Cond? && (r.Cond? ==> |r.clauses| == |n.clauses|)
    ensures r.Case? == n.Case? && (r.Case? ==> r.isDefault == n.isDefault)
    ensures r.Switch? == n.Switch?
  {
    match n
    case Empty => n
    case Value(k, t, num, _) => Value(k, t, num, ks[0])
    case Rest => n
    case Assign(op, t, _, _) => Assign(op, t, ks[0], ks[1])
    case Unary(op, _) => Unary(op, ks[0])
    case Binary(op, _, _) => Binary(op, ks[0], ks[1])
    case Nary(op, _) => Nary(op, ks)
    case Call(f, _) => Call(f, ks)
    case Send(t, _, _) => Send(t, ks[0], ks[1..])
    case SendParam(s, m, _) => SendParam(s, m, ks)
    case Return(_) => Return(ks[0])
    case Block(_) => Block(ks)
    case If(_, _, _) => If(ks[0], ks[1], ks[2])
    case While(_, _) => While(ks[0], ks[1..])
    case For(_, _, _, _) => For(ks[0], ks[1], ks[2], ks[3..])
    case ForEach(v, _, b, _) => ForEach(v, ks[0], ks[1..1 + |b|], ks[1 + |b|..])
    case Switch(_, _) => Switch(ks[0], ks[1..])
    case Cond(cs, _) => Cond(ks[..|cs|], ks[|cs|])
    case Case(d, _, _) => Case(d, ks[0], ks[1..])
    case Break(_) => n
    case Continue(_) => n
  }

  lemma RebuildKids(n: Node)
    ensures Rebuild(n, Kids(n)) == n
  {
    match n
    case While(c, b) => assert ([c] + b)[1..] == b;
    case For(i, c, l, b) => assert ([i, c, l] + b)[3..] == b;
    case ForEach(_, c, b, f) =>
      var ks := [c] + b + f;
      assert ks[1..1 + |b|] == b && ks[1 + |b|..] == f;
    case Send(_, o, ps) => assert ([o] + ps)[1..] == ps;
    case Switch(s, cs) => assert ([s] + cs)[1..] == cs;
    case Cond(cs, l) => assert (cs + [l])[..|cs|] == cs;
    case Case(_, v, b) => assert ([v] + b)[1..] == b;
    case _ =>
  }

  /** The rebuilt node has the new children and keeps everything else of `n`. */
  lemma KidsOfRebuild(n: Node, ks: seq<Node>)
    requires |ks| == |Kids(n)|
    ensures Kids(Rebuild(n, ks)) == ks
    ensures Rebuild(Rebuild(n, ks), Kids(n)) == n
  {
    RebuildKids(n);
    if n.While? || n.For? || n.ForEach? {
      KidsOfRebuildLoop(n, ks);
    } else if n.Send? || n.Switch? || n.Cond? || n.Case? {
      KidsOfRebuildBranch(n, ks);
    }
  }

  lemma KidsOfRebuildLoop(n: Node, ks: seq<Node>)
    requires n.While? || n.For? || n.ForEach?
    requires |ks| == |Kids(n)| && Rebuild(n, Kids(n)) == n
    ensures Kids(Rebuild(n, ks)) == ks
    ensures Rebuild(Rebuild(n, ks), Kids(n)) == n
  {
    match n
    case While(c, b) => assert [ks[0]] + ks[1..] == ks;
    case For(i, c, l, b) => assert [ks[0], ks[1], ks[2]] + ks[3..] == ks;
    case ForEach(_, c, b, f) => assert [ks[0]] + ks[1..1 + |b|] + ks[1 + |b|..] == ks;
  }

  lemma KidsOfRebuildBranch(n: Node, ks: seq<Node>)
    requires n.Send? || n.Switch? || n.Cond? || n.Case?
    requires |ks| == |Kids(n)| && Rebuild(n, Kids(n)) == n
    ensures Kids(Rebuild(n, ks)) == ks
    ensures Rebuild(Rebuild(n, ks), Kids(n)) == n
  {
    match n
    case Send(_, o, ps) => assert [ks[0]] + ks[1..] == ks;
    case Switch(s, cs) => assert [ks[0]] + ks[1..] == ks;
    case Cond(cs, l) => assert ks[..|cs|] + [ks[|cs|]] == ks;
    case Case(_, v, b) => assert [ks[0]] + ks[1..] == ks;
  }

  // ---------------------------------------------------------------------------------------
  // Size, the measure the tree walks decrease

  /**
   * A node's own share of its size. Each clause of a cond adds 4, more than the if and the
   * blocks that lowering the cond makes from it.
   */
  function Weight(n: Node): nat {
    if n.Cond? then 1 + 4 * |n.clauses| else 1
  }

  function Size(n: Node): (r: nat)
    ensures r >= 1
  {
    match n
    case Empty => 1
    case Value(_, _, _, ix) => 1 + Size(ix)
    case Rest => 1
    case Assign(_, _, ix, v) => 1 + Size(ix) + Size(v)
    case Unary(_, a) => 1 + Size(a)
    case Binary(_, l, r) => 1 + Size(l) + Size(r)
    case Nary(_, xs) => 1 + SizeSeq(xs)
    case Call(_, xs) => 1 + SizeSeq(xs)
    case Send(_, o, ps) => 1 + Size(o) + SizeSeq(ps)
    case SendParam(_, _, xs) => 1 + SizeSeq(xs)
    case Return(x) => 1 + Size(x)
    case Block(xs) => 1 + SizeSeq(xs)
    case If(c, t, e) => 1 + Size(c) + Size(t) + Size(e)
    case While(c, b) => 1 + Size(c) + SizeSeq(b)
    case For(i, c, l, b) => 1 + Size(i) + Size(c) + Size(l) + SizeSeq(b)
    case ForEach(_, c, b, f) => 1 + Size(c) + SizeSeq(b) + SizeSeq(f)
    case Switch(s, cs) => 1 + Size(s) + SizeSeq(cs)
    case Cond(cs, l) => 1 + 4 * |cs| + SizeSeq(cs) + Size(l)
    case Case(_, v, b) => 1 + Size(v) + SizeSeq(b)
    case Break(_) => 1
    case Continue(_) => 1
  }

  function SizeSeq(ns: seq<Node>): nat {
    if ns == [] then 0 else Size(ns[0]) + SizeSeq(ns[1..])
  }

  lemma {:induction false} SizeSeqAppend(xs: seq<Node>, ys: seq<Node>)
    ensures SizeSeq(xs + ys) == SizeSeq(xs) + SizeSeq(ys)
    decreases |xs|
  {
    if xs != [] {
      assert (xs + ys)[1..] == xs[1..] + ys;
      SizeSeqAppend(xs[1..], ys);
    } else {
      assert xs + ys == ys;
    }
  }

  lemma SizeSeqOne(x: Node)
    ensures SizeSeq([x]) == Size(x)
  {
    assert [x][1..] == [];
  }

  /** A node's size is its own weight plus its children's. */
  lemma SizeKids(n: Node)
    ensures Size(n) == Weight(n) + SizeSeq(Kids(n))
  {
    if n.Value? || n.Assign? || n.Unary? || n.Binary? || n.Return? || n.If? {
      SizeKidsFixed(n);
    } else if n.While? || n.For? || n.ForEach? {
      SizeKidsLoop(n);
    } else if n.Send? || n.Switch? || n.Cond? || n.Case? {
      SizeKidsBranch(n);
    }
  }

  lemma SizeKidsFixed(n: Node)
    requires n.Value? || n.Assign? || n.Unary? || n.Binary? || n.Return? || n.If?
    ensures Size(n) == Weight(n) + SizeSeq(Kids(n))
  {
    match n
    case Value(_, _, _, ix) => SizeSeqOne(ix);
    case Assign(_, _, ix, v) => SizeSeqAppend([ix], [v]); SizeSeqOne(ix); SizeSeqOne(v);
    case Unary(_, a) => SizeSeqOne(a);
    case Binary(_, l, r) => SizeSeqAppend([l], [r]); SizeSeqOne(l); SizeSeqOne(r);
    case Return(x) => SizeSeqOne(x);
    case If(c, t, e) =>
      assert [c, t, e] == [c] + [t] + [e];
      SizeSeqAppend([c] + [t], [e]); SizeSeqAppend([c], [t]);
      SizeSeqOne(c); SizeSeqOne(t); SizeSeqOne(e);
  }

  lemma SizeKidsLoop(n: Node)
    requires n.While? || n.For? || n.ForEach?
    ensures Size(n) == Weight(n) + SizeSeq(Kids(n))
  {
    match n
    case While(c, b) => SizeSeqAppend([c], b); SizeSeqOne(c);
    case For(i, c, l, b) =>
      assert [i, c, l] + b == [i] + [c] + [l] + b;
      SizeSeqAppend([i] + [c] + [l], b); SizeSeqAppend([i] + [c], [l]); SizeSeqAppend([i], [c]);
      SizeSeqOne(i); SizeSeqOne(c); SizeSeqOne(l);
    case ForEach(_, c, b, f) => SizeSeqAppend([c] + b, f); SizeSeqAppend([c], b); SizeSeqOne(c);
  }

  lemma SizeKidsBranch(n: Node)
    requires n.Send? || n.Switch? || n.Cond? || n.Case?
    ensures Size(n) == Weight(n) + SizeSeq(Kids(n))
  {
    match n
    case Send(_, o, ps) => SizeSeqAppend([o], ps); SizeSeqOne(o);
    case Switch(s, cs) => SizeSeqAppend([s], cs); SizeSeqOne(s);
    case Cond(cs, l) => SizeSeqAppend(cs, [l]); SizeSeqOne(l);
    case Case(_, v, b) => SizeSeqAppend([v], b); SizeSeqOne(v);
  }

  lemma SizeRebuild(n: Node, ks: seq<Node>)
    requires |ks| == |Kids(n)|
    ensures Size(Rebuild(n, ks)) == Weight(n) + SizeSeq(ks)
  {
    KidsOfRebuild(n, ks);
    SizeKids(Rebuild(n, ks));
    assert Weight(Rebuild(n, ks)) == Weight(n);
  }

  // ---------------------------------------------------------------------------------------
  // Properties that hold at every node, and counts of nodes

  /** `p` holds at `n` and at every node below it. */
  predicate Everywhere(n: Node, p: Node -> bool)
    decreases Size(n), 0
  {
    SizeKids(n);
    p(n) && EverywhereSeq(Kids(n), p)
  }

  predicate EverywhereSeq(ns: seq<Node>, p: Node -> bool)
    decreases SizeSeq(ns), 1
  {
    ns == [] || (Everywhere(ns[0], p) && EverywhereSeq(ns[1..], p))
  }

  /** A rebuilt node satisfies `p` everywhere when it does at the top and its new children do. */
  lemma EverywhereRebuild(n: Node, ks: seq<Node>, p: Node -> bool)
    requires |ks| == |Kids(n)|
    requires p(Rebuild(n, ks)) && EverywhereSeq(ks, p)
    ensures Everywhere(Rebuild(n, ks), p)
  {
    KidsOfRebuild(n, ks);
  }

  lemma {:induction false} EverywhereSeqAppend(xs: seq<Node>, ys: seq<Node>, p: Node -> bool)
    ensures EverywhereSeq(xs + ys, p) <==> EverywhereSeq(xs, p) && EverywhereSeq(ys, p)
    decreases |xs|
  {
    if xs != [] {
      assert (xs + ys)[1..] == xs[1..] + ys;
      EverywhereSeqAppend(xs[1..], ys, p);
    } else {
      assert xs + ys == ys;
    }
  }

  lemma EverywhereSeqOne(x: Node, p: Node -> bool)
    ensures EverywhereSeq([x], p) == Everywhere(x, p)
  {
    assert [x][1..] == [];
  }

  lemma {:induction false} EverywhereSeqIndex(ns: seq<Node>, p: Node -> bool)
    ensures EverywhereSeq(ns, p) <==> forall k :: 0 <= k < |ns| ==> Everywhere(ns[k], p)
    decreases |ns|
  {
    if ns != [] {
      EverywhereSeqIndex(ns[1..], p);
      assert forall k :: 1 <= k < |ns| ==> ns[k] == ns[1..][k - 1];
    }
  }

  /**
   * `p` reads only what `Rebuild` keeps of a node (its kind, its own fields, how many
   * children of each sort it has), so it holds of a rebuilt node exactly when it holds of the
   * original.
   */
  ghost predicate Structural(p: Node -> bool) {
    forall x, ks {:trigger p(Rebuild(x, ks))} :: |ks| == |Kids(x)| ==> p(Rebuild(x, ks)) == p(x)
  }

  /** How many nodes at or below `n` satisfy `p`. */
  function Count(n: Node, p: Node -> bool): nat
    decreases Size(n), 0
  {
    SizeKids(n);
    (if p(n) then 1 else 0) + CountSeq(Kids(n), p)
  }

  function CountSeq(ns: seq<Node>, p: Node -> bool): nat
    decreases SizeSeq(ns), 1
  {
    if ns == [] then 0 else Count(ns[0], p) + CountSeq(ns[1..], p)
  }

  lemma {:induction false} CountSeqAppend(xs: seq<Node>, ys: seq<Node>, p: Node -> bool)
    ensures CountSeq(xs + ys, p) == CountSeq(xs, p) + CountSeq(ys, p)
    decreases |xs|
  {
    if xs != [] {
      assert (xs + ys)[1..] == xs[1..] + ys;
      CountSeqAppend(xs[1..], ys, p);
    } else {
      assert xs + ys == ys;
    }
  }

  // ---------------------------------------------------------------------------------------
  // Logs

  /** A log of `k` copies of one message. */
  function Repeat(d: Diagnostic, k: nat): (r: seq<Diagnostic>)
    ensures |r| == k && forall i :: 0 <= i < k ==> r[i] == d
  {
    if k == 0 then [] else Repeat(d, k - 1) + [d]
  }

  lemma {:induction false} RepeatAdd(d: Diagnostic, j: nat, k: nat)
    ensures Repeat(d, j) + Repeat(d, k) == Repeat(d, j + k)
    decreases k
  {
    if k > 0 {
      RepeatAdd(d, j, k - 1);
    }
  }

  /** No entry of the log is a warning. */
  predicate AllErrors(log: seq<Diagnostic>) {
    forall i :: 0 <= i < |log| ==> !log[i].isWarning
  }

  // ---------------------------------------------------------------------------------------
  // Properties of whole scripts

  /** `p` holds at every node of every one of these functions. */
  predicate InFunctions(fs: seq<Function>, p: Node -> bool) {
    forall i :: 0 <= i < |fs| ==> EverywhereSeq(fs[i].body, p)
  }

  /** `p` holds at every node of every procedure and every method of the script. */
  predicate InBodies(s: Script, p: Node -> bool) {
    && InFunctions(s.procedures, p)
    && forall i :: 0 <= i < |s.classes| ==> InFunctions(s.classes[i].methods, p)
  }
}
