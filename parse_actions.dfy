/**
 * Parse actions that reshape the node under construction or number enum entries, run by the
 * grammar when a rule matches. Each action here is its effect on a successful match; on a
 * failed match the source's actions do nothing.
 */
module ParseActions {
  import opened Wrappers
  import opened Ast

  /** `IfDefDefineState`: whether the parser is inside an `#ifdef` whose symbol is undefined. */
  datatype IfDefState = Outside | True | False

  // ---------------------------------------------------------------------------------------
  // N-ary associative operators

  /** `(op a b c d)` as `(op a (op b (op c d)))`: the right-nested chain of binary nodes. */
  function RightNest(op: string, xs: seq<Node>): (r: Node)
    requires |xs| >= 2
    ensures r.Binary? && r.bop == op && r.left == xs[0]
    decreases |xs|
  {
    if |xs| == 2 then Binary(op, xs[0], xs[1]) else Binary(op, xs[0], RightNest(op, xs[1..]))
  }

  /** `n` starts with `k - 1` binary nodes of `op`, each nested in the right operand of the last. */
  predicate ChainOf(op: string, n: Node, k: nat)
    requires k >= 1
    decreases k
  {
    k == 1 || (n.Binary? && n.bop == op && ChainOf(op, n.right, k - 1))
  }

  /** The `k` operands of such a chain, read left to right. */
  function Leaves(op: string, n: Node, k: nat): (r: seq<Node>)
    requires k >= 1 && ChainOf(op, n, k)
    ensures |r| == k
    decreases k
  {
    if k == 1 then [n] else [n.left] + Leaves(op, n.right, k - 1)
  }

  /** The nested chain has `|xs| - 1` binary nodes of `op` whose operands are `xs`, in order. */
  lemma {:induction false} RightNestChain(op: string, xs: seq<Node>)
    requires |xs| >= 2
    ensures ChainOf(op, RightNest(op, xs), |xs|)
    ensures Leaves(op, RightNest(op, xs), |xs|) == xs
    decreases |xs|
  {
    if |xs| > 2 {
      RightNestChain(op, xs[1..]);
      assert [xs[0]] + xs[1..] == xs;
    } else {
      assert [xs[0]] + [xs[1]] == xs;
    }
  }

  /** Conversely, every such chain is the nesting of its own operands. */
  lemma {:induction false} ChainIsRightNest(op: string, n: Node, k: nat)
    requires k >= 2 && ChainOf(op, n, k)
    ensures RightNest(op, Leaves(op, n, k)) == n
    decreases k
  {
    var xs := Leaves(op, n, k);
    if k > 2 {
      ChainIsRightNest(op, n.right, k - 1);
      assert xs[1..] == Leaves(op, n.right, k - 1);
    }
  }

  // ---------------------------------------------------------------------------------------
  // Enum numbering

  /** The defines an enum adds for `names` when the first one gets `first`. */
  function EnumDefines(names: seq<string>, first: int): (r: seq<Define>)
    ensures |r| == |names|
    decreases |names|
  {
    if names == [] then [] else [Define(names[0], first)] + EnumDefines(names[1..], first + 1)
  }

  /** The i-th name gets `first + i`: consecutive values in source order. */
  lemma {:induction false} EnumDefinesValues(names: seq<string>, first: int)
    ensures forall i :: 0 <= i < |names| ==> EnumDefines(names, first)[i] == Define(names[i], first + i)
    decreases |names|
  {
    if names != [] {
      EnumDefinesValues(names[1..], first + 1);
      var r := EnumDefines(names, first);
      forall i | 0 <= i < |names|
        ensures r[i] == Define(names[i], first + i)
      {
        if i > 0 {
          assert r[i] == EnumDefines(names[1..], first + 1)[i - 1];
        }
      }
    }
  }

  lemma {:induction false} EnumDefinesSnoc(names: seq<string>, name: string, first: int)
    ensures EnumDefines(names + [name], first) == EnumDefines(names, first) + [Define(name, first + |names|)]
    decreases |names|
  {
    if names != [] {
      assert (names + [name])[1..] == names[1..] + [name];
      EnumDefinesSnoc(names[1..], name, first + 1);
    } else {
      assert EnumDefines([name], first) == [Define(name, first)];
    }
  }

  // ---------------------------------------------------------------------------------------
  // break/continue in an if

  /** The statement a `breakif`/`contif` puts in its if: a `break` or `continue` with default levels. */
  function Jump(isBreak: bool): (r: Node)
    ensures r.Break? <==> isBreak
    ensures r.Break? || r.Continue?
  {
    if isBreak then Break(None) else Continue(None)
  }

  /** `GetBreakContinueInIf`: the first statement of the if's then-block, where that exists. */
  function BreakContinueInIf(n: Node): (r: Option<Node>)
    ensures r.Some? ==> n.If? && n.thenPart.Block? && |n.thenPart.stmts| > 0
  {
    if n.If? && n.thenPart.Block? && |n.thenPart.stmts| > 0 then Some(n.thenPart.stmts[0]) else None
  }

  // ---------------------------------------------------------------------------------------
  // The parse context

  /** The part of `SyntaxContext` the actions above read and write. */
  class SyntaxContext {
    /** `Integer`: the last integer parsed, reused as the enum counter. */
    var integer: int
    var ifDefState: IfDefState
    /** The script's defines, in the order they were added. */
    var defines: seq<Define>
    /** The syntax node currently being built. */
    var node: Node
    /** `StatementPtrReturn`: the statement most recently parsed. */
    var statementReturn: Node

    constructor (ifDefState: IfDefState)
      ensures this.ifDefState == ifDefState && integer == 0 && defines == []
      ensures node == Empty && statementReturn == Empty
    {
      this.ifDefState := ifDefState;
      integer := 0;
      defines := [];
      node := Empty;
      statementReturn := Empty;
    }

    /** `InitEnumStartA`: an enum counts from 0 unless a start value follows. */
    method InitEnumStart()
      modifies this
      ensures integer == 0
      ensures ifDefState == old(ifDefState) && defines == old(defines)
      ensures node == old(node) && statementReturn == old(statementReturn)
    {
      integer := 0;
    }

    /**
     * `CreateEnumDefineA`: define `name` as the counter and advance it, unless an `#ifdef`
     * whose symbol is undefined is in force; then neither happens.
     */
    method CreateEnumDefine(name: string)
      modifies this
      ensures ifDefState != False ==> defines == old(defines) + [Define(name, old(integer))] && integer == old(integer) + 1
      ensures ifDefState == False ==> defines == old(defines) && integer == old(integer)
      ensures ifDefState == old(ifDefState) && node == old(node) && statementReturn == old(statementReturn)
    {
      if ifDefState != False {
        defines := defines + [Define(name, integer)];
        integer := integer + 1;
      }
    }

    /**
     * The `enum` rule: `enum` [InitEnumStartA], an optional start integer, then names, each
     * run through `CreateEnumDefineA`.
     */
    method ParseEnum(start: Option<int>, names: seq<string>)
      modifies this
      ensures var first := if start.Some? then start.value else 0;
              if ifDefState == False then defines == old(defines) && integer == first
              else defines == old(defines) + EnumDefines(names, first) && integer == first + |names|
      ensures ifDefState == old(ifDefState) && node == old(node) && statementReturn == old(statementReturn)
    {
      InitEnumStart();
      if start.Some? {
        integer := start.value;
      }
      ghost var first := integer;
      ghost var before := defines;
      var i := 0;
      while i < |names|
        invariant 0 <= i <= |names|
        invariant ifDefState == old(ifDefState) && node == old(node) && statementReturn == old(statementReturn)
        invariant ifDefState == False ==> defines == before && integer == first
        invariant ifDefState != False ==> defines == before + EnumDefines(names[..i], first) && integer == first + i
      {
        CreateEnumDefine(names[i]);
        if ifDefState != False {
          EnumDefinesSnoc(names[..i], names[i], first);
          assert names[..i + 1] == names[..i] + [names[i]];
        }
        i := i + 1;
      }
      assert names[..i] == names;
    }

    /** `SetRepeatStatementA`: a `repeat` loop is a `while` whose condition is the constant 1. */
    method SetRepeatStatement()
      modifies this
      ensures node == While(Num(1), [])
      ensures integer == old(integer) && ifDefState == old(ifDefState) && defines == old(defines)
      ensures statementReturn == old(statementReturn)
    {
      node := While(Num(1), []);
    }

    /**
     * `FinishBreakContinueIfA`: the if being built takes the statement just parsed as its
     * condition and a block holding one `break` (or `continue`) as its then-part.
     */
    method FinishBreakContinueIf(isBreak: bool)
      requires node.If?
      modifies this
      ensures node == old(node).(cond := old(statementReturn), thenPart := Block([Jump(isBreak)]))
      ensures BreakContinueInIf(node) == Some(Jump(isBreak))
      ensures statementReturn == Empty
      ensures integer == old(integer) && ifDefState == old(ifDefState) && defines == old(defines)
    {
      node := node.(cond := statementReturn, thenPart := Block([Jump(isBreak)]));
      statementReturn := Empty;
    }

    /**
     * `RestructureNaryAssociativeOpA`: walk the operands from the last to the first, filling
     * the left operand of the current binary node or wrapping it in a new one.
     */
    method RestructureNaryAssociativeOp()
      requires node.Nary? && |node.operands| >= 2
      requires forall i :: 0 <= i < |node.operands| ==> node.operands[i] != Empty
      modifies this
      ensures node == RightNest(old(node).nop, old(node).operands)
      ensures integer == old(integer) && ifDefState == old(ifDefState) && defines == old(defines)
      ensures statementReturn == old(statementReturn)
    {
      var op := node.nop;
      var xs := node.operands;
      var n := |xs|;
      var binaryOp := Binary(op, Empty, xs[n - 1]);
      var i := n - 1;
      while i > 0
        invariant 0 <= i <= n - 1
        invariant i == n - 1 ==> binaryOp == Binary(op, Empty, xs[n - 1])
        invariant i < n - 1 ==> binaryOp == RightNest(op, xs[i..])
      {
        i := i - 1;
        if binaryOp.left == Empty {
          binaryOp := binaryOp.(left := xs[i]);
          assert xs[i..] == [xs[i], xs[n - 1]];
        } else {
          assert xs[i..][1..] == xs[i + 1..];
          binaryOp := Binary(op, xs[i], binaryOp);
        }
      }
      node := binaryOp;
    }
  }
}
