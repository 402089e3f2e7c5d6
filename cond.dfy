/**
 * Lowering `cond` into an if/else chain, the pass of `PostProcessScript` that empties each
 * cond's clause list (`_clausesTemp`) into the statement it holds.
 *
 * A clause is a `Case` node, read through the case accessors of `Ast`.
 */
module CondLowering {
  import opened Ast

  const ElseNotLast: string := "The else clause must be the last clause in a cond."

  /** The diagnostic each misplaced `else` adds to the log. */
  function ElseNotLastError(): Diagnostic {
    Diagnostic(ElseNotLast, false)
  }

  /** Every clause is a `CaseStatement`, as the grammar builds them. */
  predicate AllCases(cs: seq<Node>) {
    forall i :: 0 <= i < |cs| ==> cs[i].Case?
  }

  /** Whether the last clause is an `else`. */
  predicate HasElse(cs: seq<Node>) {
    |cs| > 0 && IsDefaultCase(cs[|cs| - 1])
  }

  /** The clauses before the trailing `else`, or all of them when there is none. */
  function Guarded(cs: seq<Node>): (g: seq<Node>)
    ensures |g| <= |cs| && g == cs[..|g|]
    ensures HasElse(cs) ==> |g| == |cs| - 1
    ensures !HasElse(cs) ==> g == cs
  {
    if HasElse(cs) then cs[..|cs| - 1] else cs
  }

  /** The block the trailing `else` becomes, or `Empty` when there is none. */
  function ElseBlock(cs: seq<Node>): Node {
    if HasElse(cs) then Block(CaseBody(cs[|cs| - 1])) else Empty
  }

  /** The index of the last `else` clause, or -1. */
  function LastDefault(cs: seq<Node>): (k: int)
    ensures -1 <= k < |cs|
    ensures k >= 0 ==> IsDefaultCase(cs[k])
    ensures forall i :: k < i < |cs| ==> !IsDefaultCase(cs[i])
    decreases |cs|
  {
    if cs == [] then -1
    else if IsDefaultCase(cs[|cs| - 1]) then |cs| - 1
    else LastDefault(cs[..|cs| - 1])
  }

  /** The clauses that survive: those after the last misplaced `else`. */
  function Kept(cs: seq<Node>): seq<Node> {
    Guarded(cs)[LastDefault(Guarded(cs)) + 1..]
  }

  /** Ifs for `kept`, each in a block in the else-part of the one before; `e` is the innermost else. */
  function NestIfs(kept: seq<Node>, e: Node): (r: Node)
    requires |kept| >= 1
    ensures r.If? && r.cond == CaseValue(kept[0]) && r.thenPart == Block(CaseBody(kept[0]))
    decreases |kept|
  {
    if |kept| == 1 then If(CaseValue(kept[0]), Block(CaseBody(kept[0])), e)
    else If(CaseValue(kept[0]), Block(CaseBody(kept[0])), Block([NestIfs(kept[1..], e)]))
  }

  datatype Lowering = Lowering(lowered: Node, logged: bool)

  /**
   * The statement a non-empty cond becomes, and whether it reports a misplaced `else`: the
   * kept clauses as nested ifs around the trailing `else`, or that `else` alone.
   */
  function CondChain(cs: seq<Node>): Lowering
    requires |cs| > 0
  {
    var kept := Kept(cs);
    Lowering(if kept == [] then ElseBlock(cs) else NestIfs(kept, ElseBlock(cs)),
             LastDefault(Guarded(cs)) >= 0)
  }

  // ---------------------------------------------------------------------------------------
  // The fold as the source runs it

  /**
   * The body of the cond pass: walk the clauses from the last to the first, taking a
   * trailing `else` as the innermost else-block, and stop at any other `else`.
   */
  method FoldCond(cs: seq<Node>) returns (lowered: Node, logged: bool)
    requires |cs| > 0
    ensures lowered == CondChain(cs).lowered && logged == CondChain(cs).logged
  {
    var g := Guarded(cs);
    var e := ElseBlock(cs);
    var elseBlock := Empty;
    var i := |cs|;
    if IsDefaultCase(cs[i - 1]) {
      elseBlock := Block(CaseBody(cs[i - 1]));
      i := i - 1;
    }
    var currentIf := Empty;
    logged := false;
    while i > 0
      invariant 0 <= i <= |g|
      invariant forall j :: i <= j < |g| ==> !IsDefaultCase(g[j])
      invariant i == |g| ==> currentIf == Empty && elseBlock == e
      invariant i < |g| ==> currentIf == NestIfs(g[i..], e) && elseBlock == Empty
      invariant !logged
    {
      var clause := cs[i - 1];
      assert clause == g[i - 1];
      if IsDefaultCase(clause) {
        logged := true;
        break;
      }
      NestIfsStep(g, i, e);
      var newIf := If(Empty, Empty, Empty);
      if currentIf != Empty {
        newIf := newIf.(elsePart := Block([currentIf]));
      }
      currentIf := newIf.(cond := CaseValue(clause), thenPart := Block(CaseBody(clause)));
      if elseBlock != Empty {
        currentIf := currentIf.(elsePart := elseBlock);
        elseBlock := Empty;
      }
      assert currentIf == NestIfs(g[i - 1..], e);
      i := i - 1;
    }
    assert logged ==> LastDefault(g) == i - 1;
    assert !logged ==> LastDefault(g) == -1;
    if elseBlock != Empty {
      lowered := elseBlock;
    } else {
      lowered := currentIf;
    }
  }

  /** One step of the fold: the if for clause `i - 1` around what the clauses after it made. */
  lemma NestIfsStep(g: seq<Node>, i: nat, e: Node)
    requires 0 < i <= |g|
    ensures NestIfs(g[i - 1..], e)
            == If(CaseValue(g[i - 1]), Block(CaseBody(g[i - 1])),
                  if i == |g| then e else Block([NestIfs(g[i..], e)]))
  {
    if i < |g| {
      assert g[i - 1..][1..] == g[i..];
    }
  }

  // ---------------------------------------------------------------------------------------
  // What the chain holds

  /** A misplaced `else` is reported exactly when some clause other than the last is an `else`. */
  lemma CondLogsIff(cs: seq<Node>)
    requires |cs| > 0
    ensures CondChain(cs).logged <==> exists i :: 0 <= i < |cs| - 1 && IsDefaultCase(cs[i])
  {
    var g := Guarded(cs);
    var k := LastDefault(g);
    if k >= 0 {
      assert g[k] == cs[k];
    }
    if i :| 0 <= i < |cs| - 1 && IsDefaultCase(cs[i]) {
      assert i < |g| && g[i] == cs[i];
    }
  }

  /**
   * The kept clauses are the longest run of non-`else` clauses just before the trailing
   * `else` (or the end): every clause after the dropped ones is kept.
   */
  lemma KeptIsLongestElseFreeRun(cs: seq<Node>)
    requires |cs| > 0
    ensures var g := Guarded(cs); var kept := Kept(cs);
            |kept| <= |g| && kept == g[|g| - |kept|..] &&
            (forall i :: 0 <= i < |kept| ==> !IsDefaultCase(kept[i])) &&
            (|kept| < |g| ==> IsDefaultCase(g[|g| - |kept| - 1]))
  {
  }

  /** `k` nested ifs, each then-part a block and each outer else-part a block of one if. */
  predicate IfChain(n: Node, k: nat)
    decreases k
  {
    k >= 1 && n.If? && n.thenPart.Block? &&
    (k == 1 || (n.elsePart.Block? && |n.elsePart.stmts| == 1 && IfChain(n.elsePart.stmts[0], k - 1)))
  }

  datatype Unfolded = Unfolded(clauses: seq<Node>, innermostElse: Node)

  /** Reads the clauses back out of such a chain, outermost first. */
  function Unfold(n: Node, k: nat): (r: Unfolded)
    requires IfChain(n, k)
    ensures |r.clauses| == k
    decreases k
  {
    var c := Case(false, n.cond, n.thenPart.stmts);
    if k == 1 then Unfolded([c], n.elsePart)
    else
      var inner := Unfold(n.elsePart.stmts[0], k - 1);
      Unfolded([c] + inner.clauses, inner.innermostElse)
  }

  /** Folding non-`else` clauses into ifs and reading them back gives the clauses, in order. */
  lemma {:induction false} UnfoldNestIfs(kept: seq<Node>, e: Node)
    requires |kept| >= 1 && AllCases(kept)
    requires forall i :: 0 <= i < |kept| ==> !IsDefaultCase(kept[i])
    ensures IfChain(NestIfs(kept, e), |kept|)
    ensures Unfold(NestIfs(kept, e), |kept|) == Unfolded(kept, e)
    decreases |kept|
  {
    var k := kept[0];
    assert k == Case(false, CaseValue(k), CaseBody(k));
    if |kept| > 1 {
      var inner := NestIfs(kept[1..], e);
      assert NestIfs(kept, e) == If(CaseValue(k), Block(CaseBody(k)), Block([inner]));
      assert forall i :: 0 <= i < |kept[1..]| ==> kept[1..][i] == kept[i + 1];
      UnfoldNestIfs(kept[1..], e);
      assert [k] + kept[1..] == kept;
    } else {
      assert NestIfs(kept, e) == If(CaseValue(k), Block(CaseBody(k)), e);
    }
  }

  /**
   * The lowered cond is the kept clauses as ifs in source order, with the trailing `else`
   * as the innermost else-block; with no clause kept it is that `else` block alone.
   */
  lemma CondChainShape(cs: seq<Node>)
    requires |cs| > 0 && AllCases(cs)
    ensures var kept := Kept(cs); var r := CondChain(cs).lowered;
            (kept == [] ==> HasElse(cs) && r == Block(cs[|cs| - 1].body)) &&
            (kept != [] ==> IfChain(r, |kept|) && Unfold(r, |kept|) == Unfolded(kept, ElseBlock(cs)))
  {
    KeptIsLongestElseFreeRun(cs);
    if Kept(cs) != [] {
      KeptAreCases(cs);
      UnfoldNestIfs(Kept(cs), ElseBlock(cs));
    } else {
      NothingKept(cs);
    }
  }

  lemma KeptAreCases(cs: seq<Node>)
    requires |cs| > 0 && AllCases(cs)
    ensures AllCases(Kept(cs))
  {
    var g := Guarded(cs);
    var kept := Kept(cs);
    forall i | 0 <= i < |kept|
      ensures kept[i].Case?
    {
      assert kept[i] == g[LastDefault(g) + 1 + i] == cs[LastDefault(g) + 1 + i];
    }
  }

  /** With no clause kept, the last clause is an `else` and is all that remains. */
  lemma NothingKept(cs: seq<Node>)
    requires |cs| > 0 && AllCases(cs) && Kept(cs) == []
    ensures HasElse(cs) && CondChain(cs).lowered == Block(cs[|cs| - 1].body)
  {
    var g := Guarded(cs);
    assert !HasElse(cs) ==> LastDefault(g) == |cs| - 1;
  }

  // ---------------------------------------------------------------------------------------
  // The lowered chain is smaller than the cond

  lemma ClausePartsSize(c: Node)
    ensures Size(CaseValue(c)) + SizeSeq(CaseBody(c)) <= Size(c)
  {
  }

  lemma BlockOfClauseSize(c: Node)
    ensures Size(Block(CaseBody(c))) <= Size(c)
  {
    ClausePartsSize(c);
    assert Size(Block(CaseBody(c))) == 1 + SizeSeq(CaseBody(c));
  }

  lemma IfOfClauseSize(c: Node, inner: Node)
    ensures Size(If(CaseValue(c), Block(CaseBody(c)), inner)) <= 2 + Size(c) + Size(inner)
  {
    var v := CaseValue(c);
    var b := Block(CaseBody(c));
    BlockOfClauseSize(c);
    ClausePartsSize(c);
    assert Size(If(v, b, inner)) == 1 + Size(v) + Size(b) + Size(inner);
  }

  /** One more kept clause adds an if and a block around the ifs built from the rest. */
  lemma NestIfsSizeStep(kept: seq<Node>, e: Node)
    requires |kept| >= 2
    ensures Size(NestIfs(kept, e)) <= 3 + Size(kept[0]) + Size(NestIfs(kept[1..], e))
  {
    var k, inner := kept[0], NestIfs(kept[1..], e);
    assert NestIfs(kept, e) == If(CaseValue(k), Block(CaseBody(k)), Block([inner]));
    IfOfClauseSize(k, Block([inner]));
    BlockOne(inner);
  }

  /** A block of one statement: one more node, and the statement's misplaced `else`s. */
  lemma BlockOne(x: Node)
    ensures Size(Block([x])) == 1 + Size(x)
    ensures Count(Block([x]), MisplacedElse) == Count(x, MisplacedElse)
  {
    SizeSeqOne(x);
    CountBlock([x]);
    CountSeqOne(x);
  }

  lemma {:induction false} NestIfsSize(kept: seq<Node>, e: Node)
    requires |kept| >= 1
    ensures Size(NestIfs(kept, e)) <= 3 * |kept| + SizeSeq(kept) + Size(e)
    decreases |kept|
  {
    assert SizeSeq(kept) == Size(kept[0]) + SizeSeq(kept[1..]);
    if |kept| == 1 {
      IfOfClauseSize(kept[0], e);
    } else {
      NestIfsSize(kept[1..], e);
      NestIfsSizeStep(kept, e);
    }
  }

  lemma SizeSeqSplit(s: seq<Node>, i: nat)
    requires i <= |s|
    ensures SizeSeq(s) == SizeSeq(s[..i]) + SizeSeq(s[i..])
  {
    assert s == s[..i] + s[i..];
    SizeSeqAppend(s[..i], s[i..]);
  }

  lemma KeptSize(cs: seq<Node>)
    requires |cs| > 0
    ensures |Kept(cs)| <= |Guarded(cs)| && SizeSeq(Kept(cs)) <= SizeSeq(Guarded(cs))
  {
    SizeSeqSplit(Guarded(cs), LastDefault(Guarded(cs)) + 1);
  }

  /** The trailing `else` block is no larger than its clause, and the guarded clauses hold the rest. */
  lemma ElseBlockSize(cs: seq<Node>)
    requires |cs| > 0
    ensures HasElse(cs) ==> Size(ElseBlock(cs)) + SizeSeq(Guarded(cs)) <= SizeSeq(cs)
    ensures !HasElse(cs) ==> Size(ElseBlock(cs)) == 1 && SizeSeq(Guarded(cs)) == SizeSeq(cs)
  {
    if HasElse(cs) {
      var last := cs[|cs| - 1];
      SizeSeqLast(cs);
      BlockOfClauseSize(last);
      assert ElseBlock(cs) == Block(CaseBody(last));
    }
  }

  lemma SizeSeqLast(s: seq<Node>)
    requires |s| > 0
    ensures SizeSeq(s) == SizeSeq(s[..|s| - 1]) + Size(s[|s| - 1])
  {
    SizeSeqSplit(s, |s| - 1);
    SizeSeqOne(s[|s| - 1]);
    assert s[|s| - 1..] == [s[|s| - 1]];
  }

  lemma CondChainSize(cs: seq<Node>)
    requires |cs| > 0
    ensures Size(CondChain(cs).lowered) <= 4 * |cs| + SizeSeq(cs)
  {
    KeptSize(cs);
    ElseBlockSize(cs);
    if Kept(cs) != [] {
      NestIfsSize(Kept(cs), ElseBlock(cs));
    }
  }

  /** A cond outweighs its clauses by 4 per clause. */
  lemma CondSize(n: Node)
    requires n.Cond?
    ensures Size(n) > 4 * |n.clauses| + SizeSeq(n.clauses)
  {
    SizeKids(n);
    SizeSeqAppend(n.clauses, [n.lowered]);
  }

  // ---------------------------------------------------------------------------------------
  // The pass over a tree

  /** A cond that still holds clauses. */
  predicate HasClauses(n: Node) {
    n.Cond? && n.clauses != []
  }

  predicate NoClausesHere(n: Node) {
    !HasClauses(n)
  }

  /** `_clausesTemp` is empty in every cond at or below `n`. */
  predicate NoClauses(n: Node) {
    Everywhere(n, NoClausesHere)
  }

  /**
   * The cond pass over a statement, in the order `EnumScriptElements` visits nodes (a node,
   * then its children as they are after the visit): a cond with clauses becomes
   * `Cond([], chain)` and the walk continues into the chain, so clauses it dropped are never
   * visited. The count is the number of misplaced-`else` reports.
   */
  function LowerNode(n: Node): (r: (Node, nat))
    decreases Size(n), 0
  {
    if HasClauses(n) then
      var c := CondChain(n.clauses);
      CondChainSize(n.clauses);
      CondSize(n);
      var l := LowerNode(c.lowered);
      (Cond([], l.0), l.1 + (if c.logged then 1 else 0))
    else
      SizeKids(n);
      var w := LowerSeq(Kids(n));
      (Rebuild(n, w.0), w.1)
  }

  function LowerSeq(ns: seq<Node>): (r: (seq<Node>, nat))
    ensures |r.0| == |ns|
    decreases SizeSeq(ns), 1
  {
    if ns == [] then ([], 0)
    else
      var a := LowerNode(ns[0]);
      var b := LowerSeq(ns[1..]);
      ([a.0] + b.0, a.1 + b.1)
  }

  /** `_clausesTemp` is empty in every cond the pass leaves behind, however deeply nested. */
  lemma {:induction false} LowerNodeClears(n: Node)
    ensures NoClauses(LowerNode(n).0)
    decreases Size(n), 0
  {
    if HasClauses(n) {
      CondChainSize(n.clauses);
      CondSize(n);
      var chain := CondChain(n.clauses).lowered;
      var l := LowerNode(chain).0;
      LowerNodeClears(chain);
      assert LowerNode(n).0 == Cond([], l);
      EmptyCondClears(l);
    } else {
      SizeKids(n);
      var w := LowerSeq(Kids(n)).0;
      LowerSeqClears(Kids(n));
      assert LowerNode(n).0 == Rebuild(n, w);
      assert NoClausesHere(Rebuild(n, w));
      EverywhereRebuild(n, w, NoClausesHere);
    }
  }

  lemma EmptyCondClears(l: Node)
    requires NoClauses(l)
    ensures NoClauses(Cond([], l))
  {
    EverywhereSeqOne(l, NoClausesHere);
    assert Kids(Cond([], l)) == [l];
  }

  lemma {:induction false} LowerSeqClears(ns: seq<Node>)
    ensures EverywhereSeq(LowerSeq(ns).0, NoClausesHere)
    decreases SizeSeq(ns), 1
  {
    if ns != [] {
      LowerNodeClears(ns[0]);
      LowerSeqClears(ns[1..]);
      assert LowerSeq(ns).0[1..] == LowerSeq(ns[1..]).0;
    }
  }

  /** A tree with no clauses left is untouched by the pass, which then reports nothing. */
  lemma {:induction false} LowerNodeNoOp(n: Node)
    requires NoClauses(n)
    ensures LowerNode(n) == (n, 0)
    decreases Size(n), 0
  {
    SizeKids(n);
    LowerSeqNoOp(Kids(n));
    RebuildKids(n);
  }

  lemma {:induction false} LowerSeqNoOp(ns: seq<Node>)
    requires EverywhereSeq(ns, NoClausesHere)
    ensures LowerSeq(ns) == (ns, 0)
    decreases SizeSeq(ns), 1
  {
    if ns != [] {
      LowerNodeNoOp(ns[0]);
      LowerSeqNoOp(ns[1..]);
      assert [ns[0]] + ns[1..] == ns;
    }
  }

  /** Lowering twice is lowering once: the second pass changes nothing and reports nothing. */
  lemma LowerNodeIdempotent(n: Node)
    ensures LowerNode(LowerNode(n).0) == (LowerNode(n).0, 0)
  {
    LowerNodeClears(n);
    LowerNodeNoOp(LowerNode(n).0);
  }

  // ---------------------------------------------------------------------------------------
  // At most one report per cond with a misplaced `else`

  /** A cond the pass will find a misplaced `else` in. */
  predicate MisplacedElse(n: Node) {
    HasClauses(n) && CondChain(n.clauses).logged
  }

  lemma CountSeqOne(x: Node)
    ensures CountSeq([x], MisplacedElse) == Count(x, MisplacedElse)
  {
    assert [x][1..] == [];
  }

  lemma CountSeqSplit(s: seq<Node>, i: nat)
    requires i <= |s|
    ensures CountSeq(s, MisplacedElse) == CountSeq(s[..i], MisplacedElse) + CountSeq(s[i..], MisplacedElse)
  {
    assert s == s[..i] + s[i..];
    CountSeqAppend(s[..i], s[i..], MisplacedElse);
  }

  lemma ClausePartsCount(c: Node)
    ensures Count(CaseValue(c), MisplacedElse) + CountSeq(CaseBody(c), MisplacedElse) <= Count(c, MisplacedElse)
  {
    if c.Case? {
      CountSeqAppend([c.value], c.body, MisplacedElse);
      CountSeqOne(c.value);
    } else {
      CountEmpty();
    }
  }

  lemma CountIf(c: Node, t: Node, e: Node)
    ensures Count(If(c, t, e), MisplacedElse)
            == Count(c, MisplacedElse) + Count(t, MisplacedElse) + Count(e, MisplacedElse)
  {
    assert !MisplacedElse(If(c, t, e)) && Kids(If(c, t, e)) == [c, t, e];
    assert [c, t, e][1..] == [t, e] && [t, e][1..] == [e] && [e][1..] == [];
    assert CountSeq([e], MisplacedElse) == Count(e, MisplacedElse);
    assert CountSeq([t, e], MisplacedElse) == Count(t, MisplacedElse) + Count(e, MisplacedElse);
  }

  lemma IfOfClauseCount(c: Node, inner: Node)
    ensures Count(If(CaseValue(c), Block(CaseBody(c)), inner), MisplacedElse)
            <= Count(c, MisplacedElse) + Count(inner, MisplacedElse)
  {
    ClausePartsCount(c);
    CountBlock(CaseBody(c));
    CountIf(CaseValue(c), Block(CaseBody(c)), inner);
  }

  lemma {:induction false} NestIfsCount(kept: seq<Node>, e: Node)
    requires |kept| >= 1
    ensures Count(NestIfs(kept, e), MisplacedElse) <= CountSeq(kept, MisplacedElse) + Count(e, MisplacedElse)
    decreases |kept|
  {
    assert CountSeq(kept, MisplacedElse) == Count(kept[0], MisplacedElse) + CountSeq(kept[1..], MisplacedElse);
    if |kept| == 1 {
      IfOfClauseCount(kept[0], e);
    } else {
      NestIfsCount(kept[1..], e);
      NestIfsCountStep(kept, e);
    }
  }

  lemma NestIfsCountStep(kept: seq<Node>, e: Node)
    requires |kept| >= 2
    ensures Count(NestIfs(kept, e), MisplacedElse)
            <= Count(kept[0], MisplacedElse) + Count(NestIfs(kept[1..], e), MisplacedElse)
  {
    var k, inner := kept[0], NestIfs(kept[1..], e);
    assert NestIfs(kept, e) == If(CaseValue(k), Block(CaseBody(k)), Block([inner]));
    IfOfClauseCount(k, Block([inner]));
    BlockOne(inner);
  }

  lemma KeptCount(cs: seq<Node>)
    requires |cs| > 0
    ensures CountSeq(Kept(cs), MisplacedElse) <= CountSeq(Guarded(cs), MisplacedElse)
  {
    CountSeqSplit(Guarded(cs), LastDefault(Guarded(cs)) + 1);
  }

  lemma ElseBlockCount(cs: seq<Node>)
    requires |cs| > 0
    ensures Count(ElseBlock(cs), MisplacedElse) + CountSeq(Guarded(cs), MisplacedElse) <= CountSeq(cs, MisplacedElse)
  {
    if HasElse(cs) {
      var last := cs[|cs| - 1];
      CountSeqSplit(cs, |cs| - 1);
      assert cs[|cs| - 1..] == [last];
      CountSeqOne(last);
      ClausePartsCount(last);
      CountBlock(CaseBody(last));
    } else {
      CountEmpty();
    }
  }

  lemma CountBlock(xs: seq<Node>)
    ensures Count(Block(xs), MisplacedElse) == CountSeq(xs, MisplacedElse)
  {
    assert !MisplacedElse(Block(xs)) && Kids(Block(xs)) == xs;
  }

  lemma CountEmpty()
    ensures Count(Empty, MisplacedElse) == 0
  {
    assert !MisplacedElse(Empty) && Kids(Empty) == [];
  }

  lemma CondChainCount(cs: seq<Node>)
    requires |cs| > 0
    ensures Count(CondChain(cs).lowered, MisplacedElse) <= CountSeq(cs, MisplacedElse)
  {
    KeptCount(cs);
    ElseBlockCount(cs);
    if Kept(cs) != [] {
      NestIfsCount(Kept(cs), ElseBlock(cs));
    }
  }

  /**
   * The pass logs "else must be last" at most once per cond holding a misplaced `else`, so a
   * tree without one gets no report.
   */
  lemma {:induction false} LowerNodeReports(n: Node)
    ensures LowerNode(n).1 <= Count(n, MisplacedElse)
    decreases Size(n), 0
  {
    SizeKids(n);
    if HasClauses(n) {
      CondChainSize(n.clauses);
      CondSize(n);
      CondChainCount(n.clauses);
      LowerNodeReports(CondChain(n.clauses).lowered);
      CountSeqAppend(n.clauses, [n.lowered], MisplacedElse);
    } else {
      LowerSeqReports(Kids(n));
    }
  }

  lemma {:induction false} LowerSeqReports(ns: seq<Node>)
    ensures LowerSeq(ns).1 <= CountSeq(ns, MisplacedElse)
    decreases SizeSeq(ns), 1
  {
    if ns != [] {
      LowerNodeReports(ns[0]);
      LowerSeqReports(ns[1..]);
    }
  }

  // ---------------------------------------------------------------------------------------
  // Which misplaced `else`s the pass reports

  /**
   * The conds holding a misplaced `else` that the pass reaches, counted on the tree before
   * the pass. Outside a cond with clauses every node is reached. Inside one, only the values
   * and code of the clauses it keeps and the code of a trailing `else` are: the clauses before
   * its last misplaced `else` are dropped before the walk gets to them.
   */
  function Reached(n: Node): nat
    decreases Size(n), 1
  {
    if HasClauses(n) then
      CondSize(n);
      CondReached(n.clauses)
    else
      SizeKids(n);
      ReachedSeq(Kids(n))
  }

  /** A cond's clauses: its own report, the clauses it keeps and the code of a trailing `else`. */
  function CondReached(cs: seq<Node>): nat
    requires |cs| > 0
    decreases 4 * |cs| + SizeSeq(cs) + 1, 0
  {
    KeptSize(cs);
    ElseBlockSize(cs);
    (if CondChain(cs).logged then 1 else 0) + ReachedClauses(Kept(cs)) + Reached(ElseBlock(cs))
  }

  function ReachedSeq(ns: seq<Node>): nat
    decreases SizeSeq(ns), 2
  {
    if ns == [] then 0 else Reached(ns[0]) + ReachedSeq(ns[1..])
  }

  /** The reached conds in the values and code of the clauses `ks`. */
  function ReachedClauses(ks: seq<Node>): nat
    decreases SizeSeq(ks), 3
  {
    if ks == [] then 0
    else
      ClausePartsSize(ks[0]);
      Reached(CaseValue(ks[0])) + ReachedSeq(CaseBody(ks[0])) + ReachedClauses(ks[1..])
  }

  lemma ReachedBlock(xs: seq<Node>)
    ensures Reached(Block(xs)) == ReachedSeq(xs)
  {
    assert !HasClauses(Block(xs)) && Kids(Block(xs)) == xs;
  }

  lemma ReachedIf(c: Node, t: Node, e: Node)
    ensures Reached(If(c, t, e)) == Reached(c) + Reached(t) + Reached(e)
  {
    assert !HasClauses(If(c, t, e)) && Kids(If(c, t, e)) == [c, t, e];
    assert [c, t, e][1..] == [t, e] && [t, e][1..] == [e] && [e][1..] == [];
    assert ReachedSeq([e]) == Reached(e);
    assert ReachedSeq([t, e]) == Reached(t) + Reached(e);
  }

  /** The ifs built from kept clauses reach exactly what the clauses' values and code hold. */
  lemma {:induction false} ReachedNestIfs(kept: seq<Node>, e: Node)
    requires |kept| >= 1
    ensures Reached(NestIfs(kept, e)) == ReachedClauses(kept) + Reached(e)
    decreases |kept|
  {
    NestIfsStep(kept, 1, e);
    assert kept[0..] == kept;
    var k := kept[0];
    var inner := if |kept| == 1 then e else Block([NestIfs(kept[1..], e)]);
    ReachedIf(CaseValue(k), Block(CaseBody(k)), inner);
    ReachedBlock(CaseBody(k));
    if |kept| > 1 {
      ReachedNestIfs(kept[1..], e);
      ReachedBlock([NestIfs(kept[1..], e)]);
      assert [NestIfs(kept[1..], e)][1..] == [];
    } else {
      assert kept[1..] == [];
    }
  }

  lemma {:induction false} LowerNodeReachedCount(n: Node)
    ensures LowerNode(n).1 == Reached(n)
    decreases Size(n), 0
  {
    if HasClauses(n) {
      CondChainSize(n.clauses);
      CondSize(n);
      LowerNodeReachedCount(CondChain(n.clauses).lowered);
      CondChainReached(n.clauses);
    } else {
      SizeKids(n);
      LowerSeqReachedCount(Kids(n));
    }
  }

  /** The chain that replaces a cond reaches what the cond's kept clauses and `else` hold. */
  lemma CondChainReached(cs: seq<Node>)
    requires |cs| > 0
    ensures Reached(CondChain(cs).lowered) + (if CondChain(cs).logged then 1 else 0) == CondReached(cs)
  {
    if Kept(cs) != [] {
      ReachedNestIfs(Kept(cs), ElseBlock(cs));
    }
  }

  lemma {:induction false} LowerSeqReachedCount(ns: seq<Node>)
    ensures LowerSeq(ns).1 == ReachedSeq(ns)
    decreases SizeSeq(ns), 1
  {
    if ns != [] {
      LowerNodeReachedCount(ns[0]);
      LowerSeqReachedCount(ns[1..]);
    }
  }

  /**
   * The pass reports "else must be last" exactly once for every cond with a misplaced `else`
   * that it reaches, so a visited cond with an `else` before its last clause is always
   * reported, and a tree never gets more reports than it has such conds.
   */
  lemma LowerNodeReached(n: Node)
    ensures LowerNode(n).1 == Reached(n) <= Count(n, MisplacedElse)
    ensures MisplacedElse(n) ==> LowerNode(n).1 >= 1
  {
    LowerNodeReachedCount(n);
    LowerNodeReports(n);
  }

  // ---------------------------------------------------------------------------------------
  // What the pass leaves alone

  /**
   * A property the pass cannot break: it reads only what rebuilding a node keeps, and every
   * if, block, empty statement and emptied cond has it (those are all the pass makes).
   */
  ghost predicate KeptByLowering(p: Node -> bool) {
    && Structural(p) && p(Empty)
    && (forall c, t, e :: p(If(c, t, e)))
    && (forall xs :: p(Block(xs)))
    && (forall l :: p(Cond([], l)))
  }

  lemma ClauseKeeps(c: Node, p: Node -> bool)
    requires p(Empty) && Everywhere(c, p)
    ensures Everywhere(CaseValue(c), p) && EverywhereSeq(CaseBody(c), p)
  {
    if c.Case? {
      EverywhereSeqAppend([c.value], c.body, p);
      EverywhereSeqOne(c.value, p);
    }
  }

  lemma IfKeeps(c: Node, t: Node, e: Node, p: Node -> bool)
    requires p(If(c, t, e))
    requires Everywhere(c, p) && Everywhere(t, p) && Everywhere(e, p)
    ensures Everywhere(If(c, t, e), p)
  {
    assert [c, t, e] == [c] + [t] + [e];
    EverywhereSeqOne(c, p);
    EverywhereSeqOne(t, p);
    EverywhereSeqOne(e, p);
    EverywhereSeqAppend([c], [t], p);
    EverywhereSeqAppend([c] + [t], [e], p);
  }

  lemma IfOfClauseKeeps(c: Node, inner: Node, p: Node -> bool)
    requires KeptByLowering(p) && Everywhere(c, p) && Everywhere(inner, p)
    ensures Everywhere(If(CaseValue(c), Block(CaseBody(c)), inner), p)
  {
    ClauseKeeps(c, p);
    IfKeeps(CaseValue(c), Block(CaseBody(c)), inner, p);
  }

  lemma {:induction false} NestIfsKeeps(kept: seq<Node>, e: Node, p: Node -> bool)
    requires |kept| >= 1 && KeptByLowering(p) && Everywhere(e, p)
    requires forall i :: 0 <= i < |kept| ==> Everywhere(kept[i], p)
    ensures Everywhere(NestIfs(kept, e), p)
    decreases |kept|
  {
    if |kept| == 1 {
      IfOfClauseKeeps(kept[0], e, p);
    } else {
      var inner := NestIfs(kept[1..], e);
      NestIfsKeeps(kept[1..], e, p);
      EverywhereSeqOne(inner, p);
      IfOfClauseKeeps(kept[0], Block([inner]), p);
    }
  }

  lemma ElseBlockKeeps(cs: seq<Node>, p: Node -> bool)
    requires KeptByLowering(p)
    requires forall i :: 0 <= i < |cs| ==> Everywhere(cs[i], p)
    ensures Everywhere(ElseBlock(cs), p)
  {
    if HasElse(cs) {
      ClauseKeeps(cs[|cs| - 1], p);
    }
  }

  lemma KeptKeeps(cs: seq<Node>, p: Node -> bool)
    requires |cs| > 0
    requires forall i :: 0 <= i < |cs| ==> Everywhere(cs[i], p)
    ensures forall i :: 0 <= i < |Kept(cs)| ==> Everywhere(Kept(cs)[i], p)
  {
    var g := Guarded(cs);
    var off := LastDefault(g) + 1;
    var kept := g[off..];
    forall i | 0 <= i < |kept|
      ensures Everywhere(kept[i], p)
    {
      assert kept[i] == g[off + i] == cs[off + i];
    }
  }

  lemma CondChainKeeps(cs: seq<Node>, p: Node -> bool)
    requires |cs| > 0 && KeptByLowering(p) && EverywhereSeq(cs, p)
    ensures Everywhere(CondChain(cs).lowered, p)
  {
    EverywhereSeqIndex(cs, p);
    ElseBlockKeeps(cs, p);
    if Kept(cs) != [] {
      KeptKeeps(cs, p);
      NestIfsKeeps(Kept(cs), ElseBlock(cs), p);
    }
  }

  /** The pass keeps every property of that kind (a foreach having no body is one). */
  lemma {:induction false} LowerNodeKeeps(n: Node, p: Node -> bool)
    requires KeptByLowering(p) && Everywhere(n, p)
    ensures Everywhere(LowerNode(n).0, p)
    decreases Size(n), 0
  {
    SizeKids(n);
    if HasClauses(n) {
      CondChainSize(n.clauses);
      CondSize(n);
      EverywhereSeqAppend(n.clauses, [n.lowered], p);
      CondChainKeeps(n.clauses, p);
      var l := LowerNode(CondChain(n.clauses).lowered).0;
      LowerNodeKeeps(CondChain(n.clauses).lowered, p);
      EverywhereSeqOne(l, p);
      assert Kids(Cond([], l)) == [l];
    } else {
      var w := LowerSeq(Kids(n)).0;
      LowerSeqKeeps(Kids(n), p);
      EverywhereRebuild(n, w, p);
    }
  }

  lemma {:induction false} LowerSeqKeeps(ns: seq<Node>, p: Node -> bool)
    requires KeptByLowering(p) && EverywhereSeq(ns, p)
    ensures EverywhereSeq(LowerSeq(ns).0, p)
    decreases SizeSeq(ns), 1
  {
    if ns != [] {
      LowerNodeKeeps(ns[0], p);
      LowerSeqKeeps(ns[1..], p);
      assert LowerSeq(ns).0[1..] == LowerSeq(ns[1..]).0;
    }
  }
}
