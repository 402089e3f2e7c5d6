/**
 * `switchto` statements. A switch none of whose cases is a default or has a value is a
 * `switchto`: its cases are numbered 0, 1, 2, ... in order, with the count kept in a 16-bit
 * unsigned integer.
 *
 * The walk numbers a switch after the nodes below it, where the source numbers it before
 * visiting them. Both give the same tree: whether a switch is a `switchto` depends only on
 * which of its cases are defaults and which have a value, and the walk below never changes
 * either; the numbers it gives are plain numbers with nothing left to visit.
 */
module SwitchTo {
  import opened Ast

  /** The wrap-around of `uint16_t`. */
  const Uint16Range := 65536

  /** The `all_of` test: no case is a default and no case has a value. */
  predicate IsSwitchTo(cases: seq<Node>) {
    forall k :: 0 <= k < |cases| ==> !IsDefaultCase(cases[k]) && CaseValue(cases[k]) == Empty
  }

  /** `SetCaseValue(PropertyValue(value))` on a case. */
  function NumberCase(c: Node, value: nat): Node {
    if c.Case? then c.(value := Num(value)) else c
  }

  /** The cases, numbered from 0 in order, modulo 2^16. */
  function Numbered(cases: seq<Node>): (r: seq<Node>)
    ensures |r| == |cases|
    ensures forall k :: 0 <= k < |cases| ==> r[k] == NumberCase(cases[k], k % Uint16Range)
  {
    seq(|cases|, k requires 0 <= k < |cases| => NumberCase(cases[k], k % Uint16Range))
  }

  /** The switch visitor of `PostProcessScript`: the `all_of` scan, then the numbering loop. */
  method NumberSwitchCases(cases: seq<Node>) returns (r: seq<Node>)
    ensures r == if IsSwitchTo(cases) then Numbered(cases) else cases
  {
    var all := ScanSwitchTo(cases);
    r := cases;
    if all {
      r := NumberCases(cases);
    }
  }

  method ScanSwitchTo(cases: seq<Node>) returns (all: bool)
    ensures all == IsSwitchTo(cases)
  {
    all := true;
    var i := 0;
    while i < |cases|
      invariant 0 <= i <= |cases|
      invariant all == IsSwitchTo(cases[..i])
    {
      all := all && !IsDefaultCase(cases[i]) && CaseValue(cases[i]) == Empty;
      assert cases[..i + 1] == cases[..i] + [cases[i]];
      i := i + 1;
    }
    assert cases[..i] == cases;
  }

  /** The numbering loop, with `value` a `uint16_t` that wraps. */
  method NumberCases(cases: seq<Node>) returns (r: seq<Node>)
    ensures r == Numbered(cases)
  {
    r := [];
    var value := 0;
    var i := 0;
    while i < |cases|
      invariant 0 <= i <= |cases| && |r| == i
      invariant value == i % Uint16Range
      invariant forall k :: 0 <= k < i ==> r[k] == NumberCase(cases[k], k % Uint16Range)
    {
      r := r + [NumberCase(cases[i], value)];
      value := (value + 1) % Uint16Range;
      i := i + 1;
    }
  }

  // ---------------------------------------------------------------------------------------
  // What numbering gives

  /**
   * The numbered cases of a `switchto` are its cases with values 0, 1, 2, ... (modulo 2^16) in
   * order; they keep their statements, are not defaults, and no longer form a `switchto`
   * unless there were none.
   */
  lemma NumberedCases(cases: seq<Node>)
    requires IsSwitchTo(cases)
    ensures var r := Numbered(cases);
      && (forall k :: 0 <= k < |cases| && cases[k].Case? ==>
            r[k] == Case(false, Num(k % Uint16Range), cases[k].body))
      && (IsSwitchTo(r) <==> forall k :: 0 <= k < |cases| ==> !cases[k].Case?)
  {
    var r := Numbered(cases);
    if IsSwitchTo(r) {
      forall k | 0 <= k < |cases|
        ensures !cases[k].Case?
      {
        assert CaseValue(r[k]) == Empty;
      }
    }
  }

  /** A switch the walk has finished with: not a `switchto` still waiting for its numbers. */
  predicate Settled(n: Node) {
    n.Switch? && IsSwitchTo(n.cases) ==> Numbered(n.cases) == n.cases
  }

  lemma NumberedSettles(cases: seq<Node>)
    ensures IsSwitchTo(Numbered(cases)) ==> Numbered(Numbered(cases)) == Numbered(cases)
  {
    var r := Numbered(cases);
    if IsSwitchTo(r) {
      forall k | 0 <= k < |cases|
        ensures !cases[k].Case?
      {
        assert CaseValue(r[k]) == Empty;
      }
      assert Numbered(r) == r;
    }
  }

  // ---------------------------------------------------------------------------------------
  // The walk

  /** The switch visitor applied to every switch at or below `n`. */
  function NumberNode(n: Node): (r: Node)
    decreases Size(n), 0
  {
    SizeKids(n);
    var m := Rebuild(n, NumberSeq(Kids(n)));
    if m.Switch? && IsSwitchTo(m.cases) then m.(cases := Numbered(m.cases)) else m
  }

  function NumberSeq(ns: seq<Node>): (r: seq<Node>)
    ensures |r| == |ns|
    decreases SizeSeq(ns), 1
  {
    if ns == [] then [] else [NumberNode(ns[0])] + NumberSeq(ns[1..])
  }

  // ---------------------------------------------------------------------------------------
  // What the walk gives

  /** A numbered switch keeps a property its parts have, when numbers and numbered cases have it. */
  lemma NumberedSwitchKeeps(m: Node, p: Node -> bool)
    requires m.Switch? && EverywhereSeq(Kids(m), p)
    requires p(m.(cases := Numbered(m.cases))) && p(Empty)
    requires forall v: nat {:trigger Num(v)} :: p(Num(v))
    requires forall k :: 0 <= k < |m.cases| ==> p(NumberCase(m.cases[k], k % Uint16Range))
    ensures Everywhere(m.(cases := Numbered(m.cases)), p)
  {
    var cs := m.cases;
    var ncs := Numbered(cs);
    EverywhereSeqAppend([m.subject], cs, p);
    EverywhereSeqIndex(cs, p);
    forall k | 0 <= k < |cs|
      ensures Everywhere(ncs[k], p)
    {
      var c, v := cs[k], k % Uint16Range;
      if c.Case? {
        assert Everywhere(Num(v), p) by {
          EverywhereSeqOne(Empty, p);
        }
        EverywhereSeqAppend([c.value], c.body, p);
        EverywhereSeqOne(c.value, p);
        EverywhereSeqAppend([Num(v)], c.body, p);
        EverywhereSeqOne(Num(v), p);
        EverywhereRebuild(c, [Num(v)] + c.body, p);
        assert ncs[k] == Rebuild(c, [Num(v)] + c.body);
      }
    }
    EverywhereSeqIndex(ncs, p);
    EverywhereSeqAppend([m.subject], ncs, p);
    EverywhereRebuild(m, [m.subject] + ncs, p);
    assert Rebuild(m, [m.subject] + ncs) == m.(cases := ncs);
  }

  /** After the walk no switch below `n` is a `switchto` still waiting for its numbers. */
  lemma {:induction false} NumberNodeSettles(n: Node)
    ensures Everywhere(NumberNode(n), Settled)
    decreases Size(n), 0
  {
    SizeKids(n);
    var ks := NumberSeq(Kids(n));
    NumberSeqSettles(Kids(n));
    var m := Rebuild(n, ks);
    KidsOfRebuild(n, ks);
    if m.Switch? && IsSwitchTo(m.cases) {
      NumberedSwitchSettles(m);
    } else {
      EverywhereRebuild(n, ks, Settled);
    }
  }

  /** Numbering a `switchto` whose children are settled settles it. */
  lemma NumberedSwitchSettles(m: Node)
    requires m.Switch? && IsSwitchTo(m.cases) && EverywhereSeq(Kids(m), Settled)
    ensures Everywhere(m.(cases := Numbered(m.cases)), Settled)
  {
    NumberedSettles(m.cases);
    forall k | 0 <= k < |m.cases|
      ensures Settled(NumberCase(m.cases[k], k % Uint16Range))
    {
      EverywhereSeqAppend([m.subject], m.cases, Settled);
      EverywhereSeqIndex(m.cases, Settled);
    }
    NumberedSwitchKeeps(m, Settled);
  }

  lemma {:induction false} NumberSeqSettles(ns: seq<Node>)
    ensures EverywhereSeq(NumberSeq(ns), Settled)
    decreases SizeSeq(ns), 1
  {
    if ns != [] {
      NumberNodeSettles(ns[0]);
      NumberSeqSettles(ns[1..]);
      assert NumberSeq(ns)[1..] == NumberSeq(ns[1..]);
    }
  }

  /** The walk changes nothing where every switch is settled. */
  lemma {:induction false} NumberNodeNoOp(n: Node)
    requires Everywhere(n, Settled)
    ensures NumberNode(n) == n
    decreases Size(n), 0
  {
    SizeKids(n);
    NumberSeqNoOp(Kids(n));
    RebuildKids(n);
  }

  lemma {:induction false} NumberSeqNoOp(ns: seq<Node>)
    requires EverywhereSeq(ns, Settled)
    ensures NumberSeq(ns) == ns
    decreases SizeSeq(ns), 1
  {
    if ns != [] {
      NumberNodeNoOp(ns[0]);
      NumberSeqNoOp(ns[1..]);
      assert [ns[0]] + ns[1..] == ns;
    }
  }

  /** Numbering twice numbers nothing more. */
  lemma NumberNodeIdempotent(n: Node)
    ensures NumberNode(NumberNode(n)) == NumberNode(n)
  {
    NumberNodeSettles(n);
    NumberNodeNoOp(NumberNode(n));
  }

  /**
   * The walk keeps any property that reads only what numbering leaves alone: the kind and
   * shape of each node. (Whether a cond still has clauses, or a foreach still has a body, are
   * such properties.)
   */
  lemma {:induction false} NumberNodeKeeps(n: Node, p: Node -> bool)
    requires Structural(p) && p(Empty) && forall v: nat {:trigger Num(v)} :: p(Num(v))
    requires Everywhere(n, p)
    ensures Everywhere(NumberNode(n), p)
    decreases Size(n), 0
  {
    SizeKids(n);
    var ks := NumberSeq(Kids(n));
    NumberSeqKeeps(Kids(n), p);
    var m := Rebuild(n, ks);
    KidsOfRebuild(n, ks);
    assert p(m);
    if m.Switch? && IsSwitchTo(m.cases) {
      NumberedPartsKeep(m, p);
      NumberedSwitchKeeps(m, p);
      assert NumberNode(n) == m.(cases := Numbered(m.cases));
    } else {
      EverywhereRebuild(n, ks, p);
      assert NumberNode(n) == m;
    }
  }

  /** The numbered cases, and the switch holding them, keep a structural property of the switch. */
  lemma NumberedPartsKeep(m: Node, p: Node -> bool)
    requires Structural(p) && m.Switch? && p(m) && EverywhereSeq(Kids(m), p)
    ensures forall k :: 0 <= k < |m.cases| ==> p(NumberCase(m.cases[k], k % Uint16Range))
    ensures p(m.(cases := Numbered(m.cases)))
  {
    EverywhereSeqAppend([m.subject], m.cases, p);
    EverywhereSeqIndex(m.cases, p);
    forall k | 0 <= k < |m.cases|
      ensures p(NumberCase(m.cases[k], k % Uint16Range))
    {
      var c := m.cases[k];
      if c.Case? {
        assert NumberCase(c, k % Uint16Range) == Rebuild(c, [Num(k % Uint16Range)] + c.body);
      }
    }
    assert m.(cases := Numbered(m.cases)) == Rebuild(m, [m.subject] + Numbered(m.cases));
  }

  lemma {:induction false} NumberSeqKeeps(ns: seq<Node>, p: Node -> bool)
    requires Structural(p) && p(Empty) && forall v: nat {:trigger Num(v)} :: p(Num(v))
    requires EverywhereSeq(ns, p)
    ensures EverywhereSeq(NumberSeq(ns), p)
    decreases SizeSeq(ns), 1
  {
    if ns != [] {
      NumberNodeKeeps(ns[0], p);
      NumberSeqKeeps(ns[1..], p);
      assert NumberSeq(ns)[1..] == NumberSeq(ns[1..]);
    }
  }
}
