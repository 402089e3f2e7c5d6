/**
 * Lowering `foreach` loops, the pass `_ProcessForEaches` that `PostProcessScript` runs when a
 * compile log is present. Each foreach of a function, taken in the order the tree walk meets
 * them, gets a fresh iteration variable and its statements move into a generated loop placed
 * in the foreach's final code: a `for` over an array that is a declared temp or script
 * variable, or a `while` over the nodes of a list object otherwise.
 */
module ForEachLowering {
  import opened Ast
  import opened Chars

  const IndexedIterationVar: string := "An iteration variable can not be indexed."
  const CollectionNotToken: string := "The collection must be a temp or local array."
  const CollectionNotValue: string := "The collection must be a temp or local array!"

  // ---------------------------------------------------------------------------------------
  // Generated names

  /** The suffix the n-th foreach of a function gives its names: a letter, then decimal. */
  function HintSuffix(h: nat): (s: string)
    ensures |s| >= 1
  {
    if h < 26 then [('A' as int + h) as char] else DecimalString(h)
  }

  lemma DecimalStringLong(n: nat)
    requires n >= 10
    ensures |DecimalString(n)| >= 2
  {
  }

  /** Different foreaches of a function get different suffixes. */
  lemma HintSuffixInjective(h1: nat, h2: nat)
    requires HintSuffix(h1) == HintSuffix(h2)
    ensures h1 == h2
  {
    if h1 >= 26 && h2 >= 26 {
      DecimalRoundTrip(h1);
      DecimalRoundTrip(h2);
    } else if h1 >= 26 {
      DecimalStringLong(h1);
    } else if h2 >= 26 {
      DecimalStringLong(h2);
    }
  }

  /** `boop__A`: the renamed iteration variable. */
  function IterName(v: string, h: nat): string {
    v + "__" + HintSuffix(h)
  }

  function IndexName(h: nat): string {
    "i_" + HintSuffix(h)
  }

  function CurName(h: nat): string {
    "curNode_" + HintSuffix(h)
  }

  function NextName(h: nat): string {
    "nextNode_" + HintSuffix(h)
  }

  /** The renamed iteration variable is never the original one, and differs per foreach. */
  lemma IterNameFresh(v: string, h1: nat, h2: nat)
    ensures IterName(v, h1) != v
    ensures IterName(v, h1) == IterName(v, h2) ==> h1 == h2
  {
    if IterName(v, h1) == IterName(v, h2) {
      assert IterName(v, h1)[|v| + 2..] == HintSuffix(h1);
      assert IterName(v, h2)[|v| + 2..] == HintSuffix(h2);
      HintSuffixInjective(h1, h2);
    }
  }

  // ---------------------------------------------------------------------------------------
  // Renaming the iteration variable

  /**
   * Whether `n` names `x` where `_ReplaceIterationVariable` looks: an assignment's target,
   * a token value, or a send's target.
   */
  predicate Mentions(n: Node, x: string) {
    (n.Assign? && n.target == x) || (n.Value? && n.kind == Token && n.text == x) || (n.Send? && n.target == x)
  }

  function Avoids(x: string): Node -> bool {
    n => !Mentions(n, x)
  }

  /** `from` renamed to `to` at this node alone. */
  function RenameHere(n: Node, from: string, to: string): (r: Node)
    ensures Kids(r) == Kids(n) && Weight(r) == Weight(n)
    ensures r.ForEach? == n.ForEach?
  {
    if !Mentions(n, from) then n
    else if n.Value? then n.(text := to)
    else n.(target := to)
  }

  /** Renaming back restores the node when `to` was not named there. */
  lemma RenameHereBack(n: Node, from: string, to: string)
    requires !Mentions(n, to)
    ensures RenameHere(RenameHere(n, from, to), to, from) == n
  {
  }

  /** Renaming at a node and replacing its children do not interfere. */
  lemma RenameHereRebuild(n: Node, ks: seq<Node>, from: string, to: string)
    requires |ks| == |Kids(n)|
    ensures |ks| == |Kids(RenameHere(n, from, to))|
    ensures RenameHere(Rebuild(n, ks), from, to) == Rebuild(RenameHere(n, from, to), ks)
  {
    if n.Assign? || n.Value? || n.Send? {
      match n
      case Assign(_, _, _, _) =>
      case Value(_, _, _, _) =>
      case Send(_, _, _) =>
    }
  }

  /** `_ReplaceIterationVariable` over a tree: every mention of `from` becomes `to`. */
  function Rename(n: Node, from: string, to: string): (r: Node)
    decreases Size(n), 0
  {
    SizeKids(n);
    Rebuild(RenameHere(n, from, to), RenameSeq(Kids(n), from, to))
  }

  function RenameSeq(ns: seq<Node>, from: string, to: string): (r: seq<Node>)
    ensures |r| == |ns|
    decreases SizeSeq(ns), 1
  {
    if ns == [] then [] else [Rename(ns[0], from, to)] + RenameSeq(ns[1..], from, to)
  }

  lemma {:induction false} RenameSeqAppend(xs: seq<Node>, ys: seq<Node>, from: string, to: string)
    ensures RenameSeq(xs + ys, from, to) == RenameSeq(xs, from, to) + RenameSeq(ys, from, to)
    decreases |xs|
  {
    if xs != [] {
      assert (xs + ys)[1..] == xs[1..] + ys;
      RenameSeqAppend(xs[1..], ys, from, to);
    } else {
      assert xs + ys == ys;
    }
  }

  /** Renaming leaves the shape alone: same size. */
  lemma {:induction false} SizeRename(n: Node, from: string, to: string)
    ensures Size(Rename(n, from, to)) == Size(n)
    decreases Size(n), 0
  {
    SizeKids(n);
    SizeRenameSeq(Kids(n), from, to);
    SizeRebuild(RenameHere(n, from, to), RenameSeq(Kids(n), from, to));
  }

  lemma {:induction false} SizeRenameSeq(ns: seq<Node>, from: string, to: string)
    ensures SizeSeq(RenameSeq(ns, from, to)) == SizeSeq(ns)
    decreases SizeSeq(ns), 1
  {
    if ns != [] {
      SizeRename(ns[0], from, to);
      SizeRenameSeq(ns[1..], from, to);
    }
  }

  /** After the rename nothing names `from` any more. */
  lemma {:induction false} RenameRemoves(n: Node, from: string, to: string)
    requires from != to
    ensures Everywhere(Rename(n, from, to), Avoids(from))
    decreases Size(n), 0
  {
    SizeKids(n);
    var ks := RenameSeq(Kids(n), from, to);
    RenameSeqRemoves(Kids(n), from, to);
    EverywhereRebuild(RenameHere(n, from, to), ks, Avoids(from));
  }

  lemma {:induction false} RenameSeqRemoves(ns: seq<Node>, from: string, to: string)
    requires from != to
    ensures EverywhereSeq(RenameSeq(ns, from, to), Avoids(from))
    decreases SizeSeq(ns), 1
  {
    if ns != [] {
      RenameRemoves(ns[0], from, to);
      RenameSeqRemoves(ns[1..], from, to);
      assert RenameSeq(ns, from, to)[1..] == RenameSeq(ns[1..], from, to);
    }
  }

  /**
   * The rename reaches into a send on every side: a send to `from` is sent to `to`, and the
   * expression a send is made to (`[v 2]` in `([v 2] foo:)`) is renamed like its parameters.
   */
  lemma SendRenamed(target: string, o: Node, ps: seq<Node>, from: string, to: string)
    ensures var r := Rename(Send(target, o, ps), from, to);
            && r.Send?
            && r.target == (if target == from then to else target)
            && r.receiver == Rename(o, from, to)
            && r.params == RenameSeq(ps, from, to)
  {
    var n := Send(target, o, ps);
    SizeKids(n);
    RenameSeqAppend([o], ps, from, to);
    assert RenameSeq([o], from, to) == [Rename(o, from, to)];
  }

  /** An indexed use of `v` as the object of a send is counted among the reports. */
  lemma IndexedSendObjectReported(target: string, v: string, number: int, ix: Node, ps: seq<Node>)
    requires ix != Empty
    ensures Count(Send(target, Value(Token, v, number, ix), ps), IndexedUseOf(v)) >= 1
  {
    var o := Value(Token, v, number, ix);
    var n := Send(target, o, ps);
    assert IndexedUseOf(v)(o);
    assert Count(o, IndexedUseOf(v)) >= 1;
    assert Kids(n) == [o] + ps && ([o] + ps)[0] == o;
    assert CountSeq(Kids(n), IndexedUseOf(v)) >= Count(o, IndexedUseOf(v));
  }

  /** Renaming to a name the tree does not use, then back, gives the tree again. */
  lemma {:induction false} RenameRoundTrip(n: Node, from: string, to: string)
    requires Everywhere(n, Avoids(to))
    ensures Rename(Rename(n, from, to), to, from) == n
    decreases Size(n), 0
  {
    SizeKids(n);
    var h := RenameHere(n, from, to);
    var ks := RenameSeq(Kids(n), from, to);
    RenameSeqRoundTrip(Kids(n), from, to);
    KidsOfRebuild(h, ks);
    var r := Rebuild(h, ks);
    RenameHereRebuild(h, ks, to, from);
    RenameHereBack(n, from, to);
    KidsOfRebuild(RenameHere(h, to, from), ks);
    RebuildKids(n);
  }

  lemma {:induction false} RenameSeqRoundTrip(ns: seq<Node>, from: string, to: string)
    requires EverywhereSeq(ns, Avoids(to))
    ensures RenameSeq(RenameSeq(ns, from, to), to, from) == ns
    decreases SizeSeq(ns), 1
  {
    if ns != [] {
      RenameRoundTrip(ns[0], from, to);
      RenameSeqRoundTrip(ns[1..], from, to);
      var r := RenameSeq(ns, from, to);
      assert r[0] == Rename(ns[0], from, to) && r[1..] == RenameSeq(ns[1..], from, to);
      assert [ns[0]] + ns[1..] == ns;
    }
  }

  /** Where the rename would report: a renamed target or token that carries an index. */
  predicate IndexedUse(n: Node, v: string) {
    (n.Assign? && n.target == v && n.targetIndexer != Empty) ||
    (n.Value? && n.kind == Token && n.text == v && n.indexer != Empty)
  }

  function IndexedUseOf(v: string): Node -> bool {
    n => IndexedUse(n, v)
  }

  predicate IsForEach(n: Node) {
    n.ForEach?
  }

  /** Renaming keeps every foreach. */
  lemma {:induction false} RenameForEachCount(n: Node, from: string, to: string)
    ensures Count(Rename(n, from, to), IsForEach) == Count(n, IsForEach)
    decreases Size(n), 0
  {
    SizeKids(n);
    var ks := RenameSeq(Kids(n), from, to);
    RenameSeqForEachCount(Kids(n), from, to);
    KidsOfRebuild(RenameHere(n, from, to), ks);
  }

  lemma {:induction false} RenameSeqForEachCount(ns: seq<Node>, from: string, to: string)
    ensures CountSeq(RenameSeq(ns, from, to), IsForEach) == CountSeq(ns, IsForEach)
    decreases SizeSeq(ns), 1
  {
    if ns != [] {
      RenameForEachCount(ns[0], from, to);
      RenameSeqForEachCount(ns[1..], from, to);
      assert RenameSeq(ns, from, to)[1..] == RenameSeq(ns[1..], from, to);
    }
  }

  // ---------------------------------------------------------------------------------------
  // One foreach

  /** The walk's state within one function: its temps, the log, and `variableGenHint`. */
  datatype Walk = Walk(temps: seq<string>, log: seq<Diagnostic>, hint: nat)

  /** What the collection tells the lowering: the buffer's name, whether it is an array, and reports. */
  datatype Collection = Collection(buffer: string, isBuffer: bool, log: seq<Diagnostic>)

  /**
   * A token naming a temp (including the iteration variable just added) or a script variable
   * is an array; any other token a list object; a collection that is not a token is reported.
   */
  function CheckCollection(c: Node, temps: seq<string>, scriptVars: seq<string>): (r: Collection)
    ensures r.log == [] <==> c.Value? && c.kind == Token
    ensures r.log == [] ==> r.buffer == c.text && (r.isBuffer <==> c.text in temps || c.text in scriptVars)
    ensures r.log != [] ==> r.buffer == "INVALID" && r.isBuffer && |r.log| == 1
  {
    if c.Value? then
      if c.kind == Token then Collection(c.text, c.text in temps || c.text in scriptVars, [])
      else Collection("INVALID", true, [Diagnostic(CollectionNotToken, false)])
    else Collection("INVALID", true, [Diagnostic(CollectionNotValue, false)])
  }

  /** `(= i_A 0)`, `(< i_A &sizeof buf)`, `(++ i_A)` and `(= boop__A [buf i_A])` around the body. */
  function ArrayLoop(buffer: string, newVar: string, h: nat, body: seq<Node>): Node {
    var i := IndexName(h);
    For(Block([Assign("=", i, Empty, Num(0))]),
        Binary("<", Tok(i), Value(ArraySize, buffer, 0, Empty)),
        Block([Unary("++", Tok(i))]),
        [Assign("=", newVar, Empty, Value(Token, buffer, 0, Tok(i)))] + body)
  }

  /** `(= curNode_A (FirstNode (buf elements?)))`, placed before the while loop. */
  function FirstNodeAssign(buffer: string, h: nat): Node {
    Assign("=", CurName(h), Empty, Call("FirstNode", [Send(buffer, Empty, [SendParam("elements", false, [])])]))
  }

  /** `(= nextNode_A (NextNode curNode_A)) (= boop__A (NodeValue curNode_A)) (= curNode_A nextNode_A)` */
  function ListSteps(newVar: string, h: nat): seq<Node> {
    var cur, next := CurName(h), NextName(h);
    [Assign("=", next, Empty, Call("NextNode", [Tok(cur)])),
     Assign("=", newVar, Empty, Call("NodeValue", [Tok(cur)])),
     Assign("=", cur, Empty, Tok(next))]
  }

  /** `(while curNode_A ...)`: the three steps, then the body. */
  function ListLoop(newVar: string, h: nat, body: seq<Node>): Node {
    While(Tok(CurName(h)), ListSteps(newVar, h) + body)
  }

  /**
   * A foreach after `_ProcessForEach`, before the walk goes on below it: its pieces with the
   * iteration variable renamed, the statements the lowering adds to the final code ahead of
   * the loop, and the state afterwards.
   */
  datatype Prepared = Prepared(collection: Node, finalCode: seq<Node>, body: seq<Node>,
                               before: seq<Node>, buffer: string, isBuffer: bool,
                               newVar: string, h: nat, walk: Walk)

  /** `_ProcessForEach` up to building the loop. */
  function Prepare(n: Node, w: Walk, scriptVars: seq<string>): (p: Prepared)
    requires n.ForEach?
    ensures p.h == w.hint && p.walk.hint == w.hint + 1
    ensures p.newVar == IterName(n.iterVar, w.hint)
    ensures p.collection == Rename(n.collection, n.iterVar, p.newVar)
    ensures p.finalCode == RenameSeq(n.finalCode, n.iterVar, p.newVar)
    ensures p.body == RenameSeq(n.body, n.iterVar, p.newVar)
  {
    var v, h := n.iterVar, w.hint;
    var newVar := IterName(v, h);
    var temps := w.temps + [newVar];
    var c := CheckCollection(n.collection, temps, scriptVars);
    var first := if c.isBuffer then [] else [FirstNodeAssign(c.buffer, h)];
    var loopTemps := if c.isBuffer then [IndexName(h)] else [CurName(h), NextName(h)];
    var indexed := Count(n.collection, IndexedUseOf(v)) + CountSeq(n.body, IndexedUseOf(v))
                   + CountSeq(n.finalCode + first, IndexedUseOf(v));
    Prepared(Rename(n.collection, v, newVar), RenameSeq(n.finalCode, v, newVar),
             RenameSeq(n.body, v, newVar), RenameSeq(first, v, newVar), c.buffer, c.isBuffer,
             newVar, h,
             Walk(temps + loopTemps, w.log + c.log + Repeat(Diagnostic(IndexedIterationVar, false), indexed), h + 1))
  }

  /** The final code the foreach ends with: what it had, then the lowering's statements and loop. */
  function Finish(p: Prepared, finalCode: seq<Node>, body: seq<Node>): seq<Node> {
    finalCode + p.before +
    [if p.isBuffer then ArrayLoop(p.buffer, p.newVar, p.h, body) else ListLoop(p.newVar, p.h, body)]
  }

  /** The renamed pieces of a foreach are each smaller than it. */
  lemma PiecesSmaller(n: Node, newVar: string)
    requires n.ForEach?
    ensures Size(Rename(n.collection, n.iterVar, newVar)) < Size(n)
    ensures SizeSeq(RenameSeq(n.finalCode, n.iterVar, newVar)) < Size(n)
    ensures SizeSeq(RenameSeq(n.body, n.iterVar, newVar)) < Size(n)
  {
    SizeRename(n.collection, n.iterVar, newVar);
    SizeRenameSeq(n.finalCode, n.iterVar, newVar);
    SizeRenameSeq(n.body, n.iterVar, newVar);
  }

  /** A foreach counts itself and the foreaches of its renamed pieces. */
  lemma PiecesCount(n: Node, newVar: string)
    requires n.ForEach?
    ensures Count(n, IsForEach) == 1 + Count(Rename(n.collection, n.iterVar, newVar), IsForEach)
            + CountSeq(RenameSeq(n.finalCode, n.iterVar, newVar), IsForEach)
            + CountSeq(RenameSeq(n.body, n.iterVar, newVar), IsForEach)
  {
    RenameForEachCount(n.collection, n.iterVar, newVar);
    RenameSeqForEachCount(n.finalCode, n.iterVar, newVar);
    RenameSeqForEachCount(n.body, n.iterVar, newVar);
    CountSeqAppend([n.collection] + n.body, n.finalCode, IsForEach);
    CountSeqAppend([n.collection], n.body, IsForEach);
    assert CountSeq([n.collection], IsForEach) == Count(n.collection, IsForEach);
  }

  // ---------------------------------------------------------------------------------------
  // The walk over a function

  /**
   * The foreach pass over a statement, in the order `EnumScriptElements` visits nodes: a
   * foreach is lowered first, then the walk goes on into its renamed collection, final code
   * and statements (the statements now inside the generated loop). The statements the
   * lowering generates hold no foreach and are not walked.
   */
  function ExpandNode(n: Node, w: Walk, scriptVars: seq<string>): (r: (Node, Walk))
    decreases Size(n), 1
  {
    if n.ForEach? then ExpandForEach(n, w, scriptVars)
    else
      SizeKids(n);
      var k := ExpandSeq(Kids(n), w, scriptVars);
      (Rebuild(n, k.0), k.1)
  }

  /** One foreach met by the walk, and the walk below it. */
  function ExpandForEach(n: Node, w: Walk, scriptVars: seq<string>): (r: (Node, Walk))
    requires n.ForEach?
    decreases Size(n), 0
  {
    var p := Prepare(n, w, scriptVars);
    PiecesSmaller(n, p.newVar);
    var c := ExpandNode(p.collection, p.walk, scriptVars);
    var f := ExpandSeq(p.finalCode, c.1, scriptVars);
    var b := ExpandSeq(p.body, f.1, scriptVars);
    (ForEach(n.iterVar, c.0, [], Finish(p, f.0, b.0)), b.1)
  }

  function ExpandSeq(ns: seq<Node>, w: Walk, scriptVars: seq<string>): (r: (seq<Node>, Walk))
    ensures |r.0| == |ns|
    decreases SizeSeq(ns), 2
  {
    if ns == [] then ([], w)
    else
      var a := ExpandNode(ns[0], w, scriptVars);
      var b := ExpandSeq(ns[1..], a.1, scriptVars);
      ([a.0] + b.0, b.1)
  }

  /** `_ProcessForEaches` for one function: the hint starts at 0; new temps go to its list. */
  function ExpandFunction(f: Function, scriptVars: seq<string>): (r: (Function, seq<Diagnostic>))
  {
    var e := ExpandSeq(f.body, Walk(f.temps, [], 0), scriptVars);
    (f.(body := e.0, temps := e.1.temps), e.1.log)
  }

  function ExpandFunctions(fs: seq<Function>, scriptVars: seq<string>): (r: (seq<Function>, seq<Diagnostic>))
    ensures |r.0| == |fs|
  {
    if fs == [] then ([], [])
    else
      var a := ExpandFunction(fs[0], scriptVars);
      var b := ExpandFunctions(fs[1..], scriptVars);
      ([a.0] + b.0, a.1 + b.1)
  }

  function ExpandClasses(cs: seq<Class>, scriptVars: seq<string>): (r: (seq<Class>, seq<Diagnostic>))
    ensures |r.0| == |cs|
  {
    if cs == [] then ([], [])
    else
      var a := ExpandFunctions(cs[0].methods, scriptVars);
      var b := ExpandClasses(cs[1..], scriptVars);
      ([cs[0].(methods := a.0)] + b.0, a.1 + b.1)
  }

  /** The pass over a script: its procedures, then its classes' methods. */
  function ExpandScript(s: Script): (r: (Script, seq<Diagnostic>))
  {
    var p := ExpandFunctions(s.procedures, s.scriptVars);
    var c := ExpandClasses(s.classes, s.scriptVars);
    (s.(procedures := p.0, classes := c.0), p.1 + c.1)
  }

  // ---------------------------------------------------------------------------------------
  // What the walk does

  /** Each foreach met takes the next hint: the walk ends `Count` foreaches further on. */
  lemma {:induction false} ExpandHint(n: Node, w: Walk, scriptVars: seq<string>)
    ensures ExpandNode(n, w, scriptVars).1.hint == w.hint + Count(n, IsForEach)
    decreases Size(n), 1
  {
    if n.ForEach? {
      ExpandForEachHint(n, w, scriptVars);
    } else {
      SizeKids(n);
      ExpandSeqHint(Kids(n), w, scriptVars);
    }
  }

  lemma {:induction false} ExpandForEachHint(n: Node, w: Walk, scriptVars: seq<string>)
    requires n.ForEach?
    ensures ExpandForEach(n, w, scriptVars).1.hint == w.hint + Count(n, IsForEach)
    decreases Size(n), 0
  {
    var p := Prepare(n, w, scriptVars);
    PiecesSmaller(n, p.newVar);
    var c := ExpandNode(p.collection, p.walk, scriptVars);
    var f := ExpandSeq(p.finalCode, c.1, scriptVars);
    ExpandHint(p.collection, p.walk, scriptVars);
    ExpandSeqHint(p.finalCode, c.1, scriptVars);
    ExpandSeqHint(p.body, f.1, scriptVars);
    PiecesCount(n, p.newVar);
  }

  lemma {:induction false} ExpandSeqHint(ns: seq<Node>, w: Walk, scriptVars: seq<string>)
    ensures ExpandSeq(ns, w, scriptVars).1.hint == w.hint + CountSeq(ns, IsForEach)
    decreases SizeSeq(ns), 2
  {
    if ns != [] {
      var a := ExpandNode(ns[0], w, scriptVars);
      ExpandHint(ns[0], w, scriptVars);
      ExpandSeqHint(ns[1..], a.1, scriptVars);
    }
  }

  /** A tree without foreach is left as it is, and so is the walk's state. */
  lemma {:induction false} ExpandNoForEach(n: Node, w: Walk, scriptVars: seq<string>)
    requires Count(n, IsForEach) == 0
    ensures ExpandNode(n, w, scriptVars) == (n, w)
    decreases Size(n), 1
  {
    SizeKids(n);
    ExpandSeqNoForEach(Kids(n), w, scriptVars);
    RebuildKids(n);
  }

  lemma {:induction false} ExpandSeqNoForEach(ns: seq<Node>, w: Walk, scriptVars: seq<string>)
    requires CountSeq(ns, IsForEach) == 0
    ensures ExpandSeq(ns, w, scriptVars) == (ns, w)
    decreases SizeSeq(ns), 2
  {
    if ns != [] {
      ExpandNoForEach(ns[0], w, scriptVars);
      ExpandSeqNoForEach(ns[1..], w, scriptVars);
      assert [ns[0]] + ns[1..] == ns;
    }
  }

  // ---------------------------------------------------------------------------------------
  // One foreach, lowered

  /**
   * A foreach whose collection is a declared temp or script variable `buf`, met with hint `h`:
   * the function gains the temps `v__X` and `i_X`, each indexed use of `v` is reported, the
   * foreach is left without statements, and its final code ends with the `for` loop over
   * `buf` whose body is `(= v__X [buf i_X])` and then the foreach's statements with `v`
   * renamed (as the walk below leaves them).
   */
  lemma ArrayForEachLowered(n: Node, w: Walk, scriptVars: seq<string>)
    requires n.ForEach? && n.collection.Value? && n.collection.kind == Token
    requires n.collection.text in w.temps + [IterName(n.iterVar, w.hint)] || n.collection.text in scriptVars
    ensures var v, h := n.iterVar, w.hint;
            var x := IterName(v, h);
            var p := Prepare(n, w, scriptVars);
            var r := ExpandForEach(n, w, scriptVars).0;
            && p.walk.temps == w.temps + [x, IndexName(h)]
            && p.walk.log == w.log + Repeat(Diagnostic(IndexedIterationVar, false),
                 Count(n.collection, IndexedUseOf(v)) + CountSeq(n.body, IndexedUseOf(v))
                 + CountSeq(n.finalCode, IndexedUseOf(v)))
            && r.ForEach? && r.iterVar == v && r.body == [] && |r.finalCode| == |n.finalCode| + 1
            && var loop := r.finalCode[|n.finalCode|];
               && loop.For? && |loop.body| == |n.body| + 1
               && loop == ArrayLoop(n.collection.text, x, h, loop.body[1..])
               && (CountSeq(n.finalCode, IsForEach) == 0 ==> r.finalCode[..|n.finalCode|] == RenameSeq(n.finalCode, v, x))
               && (CountSeq(n.body, IsForEach) == 0 ==> loop.body[1..] == RenameSeq(n.body, v, x))
  {
    var p := Prepare(n, w, scriptVars);
    PrepareArray(n, w, scriptVars);
    var parts := ExpandForEachParts(n, w, scriptVars);
    var loop := ArrayLoop(p.buffer, p.newVar, p.h, parts.1);
    assert parts.0 + [] + [loop] == parts.0 + [loop];
    assert loop.body[1..] == parts.1;
    assert (parts.0 + [loop])[..|n.finalCode|] == parts.0;
  }

  /** What `_ProcessForEach` records for an array: two temps, and the reports of the rename. */
  lemma PrepareArray(n: Node, w: Walk, scriptVars: seq<string>)
    requires n.ForEach? && n.collection.Value? && n.collection.kind == Token
    requires n.collection.text in w.temps + [IterName(n.iterVar, w.hint)] || n.collection.text in scriptVars
    ensures var v, h := n.iterVar, w.hint;
            var p := Prepare(n, w, scriptVars);
            && p.isBuffer && p.before == [] && p.buffer == n.collection.text
            && p.walk.temps == w.temps + [IterName(v, h), IndexName(h)]
            && p.walk.log == w.log + Repeat(Diagnostic(IndexedIterationVar, false),
                 Count(n.collection, IndexedUseOf(v)) + CountSeq(n.body, IndexedUseOf(v))
                 + CountSeq(n.finalCode, IndexedUseOf(v)))
  {
    assert n.finalCode + [] == n.finalCode;
  }

  /** What `_ProcessForEach` records for a list: three temps, and the reports of the rename. */
  lemma PrepareList(n: Node, w: Walk, scriptVars: seq<string>)
    requires n.ForEach? && n.collection.Value? && n.collection.kind == Token
    requires n.collection.text !in w.temps + [IterName(n.iterVar, w.hint)] && n.collection.text !in scriptVars
    ensures var v, h := n.iterVar, w.hint;
            var first := FirstNodeAssign(n.collection.text, h);
            var p := Prepare(n, w, scriptVars);
            && !p.isBuffer && p.before == [Rename(first, v, IterName(v, h))] && p.buffer == n.collection.text
            && p.walk.temps == w.temps + [IterName(v, h), CurName(h), NextName(h)]
            && p.walk.log == w.log + Repeat(Diagnostic(IndexedIterationVar, false),
                 Count(n.collection, IndexedUseOf(v)) + CountSeq(n.body, IndexedUseOf(v))
                 + CountSeq(n.finalCode + [first], IndexedUseOf(v)))
  {
  }

  /**
   * The lowered foreach: the walk's final code and statements (unchanged where they hold no
   * foreach) around what the lowering adds.
   */
  lemma ExpandForEachParts(n: Node, w: Walk, scriptVars: seq<string>) returns (parts: (seq<Node>, seq<Node>))
    requires n.ForEach?
    ensures var p := Prepare(n, w, scriptVars);
            && ExpandForEach(n, w, scriptVars).0
               == ForEach(n.iterVar, ExpandForEach(n, w, scriptVars).0.collection, [], Finish(p, parts.0, parts.1))
            && |parts.0| == |n.finalCode| && |parts.1| == |n.body|
            && (CountSeq(n.finalCode, IsForEach) == 0 ==> parts.0 == p.finalCode)
            && (CountSeq(n.body, IsForEach) == 0 ==> parts.1 == p.body)
  {
    var p := Prepare(n, w, scriptVars);
    var c := ExpandNode(p.collection, p.walk, scriptVars);
    var f := ExpandSeq(p.finalCode, c.1, scriptVars);
    var b := ExpandSeq(p.body, f.1, scriptVars);
    parts := (f.0, b.0);
    if CountSeq(n.finalCode, IsForEach) == 0 {
      RenameSeqForEachCount(n.finalCode, n.iterVar, p.newVar);
      ExpandSeqNoForEach(p.finalCode, c.1, scriptVars);
    }
    if CountSeq(n.body, IsForEach) == 0 {
      RenameSeqForEachCount(n.body, n.iterVar, p.newVar);
      ExpandSeqNoForEach(p.body, f.1, scriptVars);
    }
  }

  /**
   * A foreach whose collection is any other token `lst` (a list object): the function gains
   * `v__X`, `curNode_X` and `nextNode_X`; the final code gets `(= curNode_X (FirstNode (lst
   * elements?)))` (renamed like the rest) and then the `while curNode_X` loop whose body is the
   * three steps and then the renamed statements.
   */
  lemma ListForEachLowered(n: Node, w: Walk, scriptVars: seq<string>)
    requires n.ForEach? && n.collection.Value? && n.collection.kind == Token
    requires n.collection.text !in w.temps + [IterName(n.iterVar, w.hint)] && n.collection.text !in scriptVars
    ensures var v, h := n.iterVar, w.hint;
            var x := IterName(v, h);
            var first := FirstNodeAssign(n.collection.text, h);
            var p := Prepare(n, w, scriptVars);
            var r := ExpandForEach(n, w, scriptVars).0;
            && p.walk.temps == w.temps + [x, CurName(h), NextName(h)]
            && p.walk.log == w.log + Repeat(Diagnostic(IndexedIterationVar, false),
                 Count(n.collection, IndexedUseOf(v)) + CountSeq(n.body, IndexedUseOf(v))
                 + CountSeq(n.finalCode + [first], IndexedUseOf(v)))
            && r.ForEach? && r.iterVar == v && r.body == [] && |r.finalCode| == |n.finalCode| + 2
            && r.finalCode[|n.finalCode|] == Rename(first, v, x)
            && var loop := r.finalCode[|n.finalCode| + 1];
               && loop.While? && |loop.body| == |n.body| + 3
               && loop == ListLoop(x, h, loop.body[3..])
               && (CountSeq(n.finalCode, IsForEach) == 0 ==> r.finalCode[..|n.finalCode|] == RenameSeq(n.finalCode, v, x))
               && (CountSeq(n.body, IsForEach) == 0 ==> loop.body[3..] == RenameSeq(n.body, v, x))
  {
    var p := Prepare(n, w, scriptVars);
    PrepareList(n, w, scriptVars);
    var parts := ExpandForEachParts(n, w, scriptVars);
    var loop := ListLoop(p.newVar, p.h, parts.1);
    assert loop.body[3..] == parts.1;
    assert (parts.0 + p.before + [loop])[..|n.finalCode|] == parts.0;
  }

  /**
   * A collection that is not a token is reported, first among the foreach's reports, and
   * lowered as an array named `INVALID`.
   */
  lemma BadCollectionReported(n: Node, w: Walk, scriptVars: seq<string>)
    requires n.ForEach? && !(n.collection.Value? && n.collection.kind == Token)
    ensures var p := Prepare(n, w, scriptVars);
            && p.isBuffer && p.buffer == "INVALID"
            && |p.walk.log| > |w.log| && p.walk.log[..|w.log|] == w.log
            && p.walk.log[|w.log|] == Diagnostic(if n.collection.Value? then CollectionNotToken else CollectionNotValue, false)
  {
  }

  /** `w2` holds every temp and report of `w1`, in front, and maybe more after them. */
  predicate Extends(w1: Walk, w2: Walk) {
    |w1.temps| <= |w2.temps| && w2.temps[..|w1.temps|] == w1.temps &&
    |w1.log| <= |w2.log| && w2.log[..|w1.log|] == w1.log
  }

  lemma ExtendsTrans(w1: Walk, w2: Walk, w3: Walk)
    requires Extends(w1, w2) && Extends(w2, w3)
    ensures Extends(w1, w3)
  {
    assert w3.temps[..|w1.temps|] == w3.temps[..|w2.temps|][..|w1.temps|];
    assert w3.log[..|w1.log|] == w3.log[..|w2.log|][..|w1.log|];
  }

  /** The walk only adds temps and reports: what it started with stays in front. */
  lemma {:induction false} ExpandGrows(n: Node, w: Walk, scriptVars: seq<string>)
    ensures Extends(w, ExpandNode(n, w, scriptVars).1)
    decreases Size(n), 1
  {
    if n.ForEach? {
      ExpandForEachGrows(n, w, scriptVars);
    } else {
      SizeKids(n);
      ExpandSeqGrows(Kids(n), w, scriptVars);
    }
  }

  lemma {:induction false} ExpandForEachGrows(n: Node, w: Walk, scriptVars: seq<string>)
    requires n.ForEach?
    ensures Extends(w, ExpandForEach(n, w, scriptVars).1)
    decreases Size(n), 0
  {
    var p := Prepare(n, w, scriptVars);
    PiecesSmaller(n, p.newVar);
    var c := ExpandNode(p.collection, p.walk, scriptVars);
    var f := ExpandSeq(p.finalCode, c.1, scriptVars);
    var b := ExpandSeq(p.body, f.1, scriptVars);
    ExpandGrows(p.collection, p.walk, scriptVars);
    ExpandSeqGrows(p.finalCode, c.1, scriptVars);
    ExpandSeqGrows(p.body, f.1, scriptVars);
    assert Extends(w, p.walk);
    ExtendsTrans(w, p.walk, c.1);
    ExtendsTrans(w, c.1, f.1);
    ExtendsTrans(w, f.1, b.1);
  }

  lemma {:induction false} ExpandSeqGrows(ns: seq<Node>, w: Walk, scriptVars: seq<string>)
    ensures Extends(w, ExpandSeq(ns, w, scriptVars).1)
    decreases SizeSeq(ns), 2
  {
    if ns != [] {
      var a := ExpandNode(ns[0], w, scriptVars);
      ExpandGrows(ns[0], w, scriptVars);
      ExpandSeqGrows(ns[1..], a.1, scriptVars);
      ExtendsTrans(w, a.1, ExpandSeq(ns[1..], a.1, scriptVars).1);
    } else {
      assert w.temps[..|w.temps|] == w.temps && w.log[..|w.log|] == w.log;
    }
  }

  // ---------------------------------------------------------------------------------------
  // Every foreach ends up with no statements of its own

  predicate ForEachEmptied(n: Node) {
    n.ForEach? ==> n.body == []
  }

  lemma EverywhereOne(k: Node)
    ensures EverywhereSeq([k], ForEachEmptied) == Everywhere(k, ForEachEmptied)
  {
    assert [k][1..] == [];
  }

  lemma EverywhereTwo(a: Node, b: Node)
    ensures EverywhereSeq([a, b], ForEachEmptied) == (Everywhere(a, ForEachEmptied) && Everywhere(b, ForEachEmptied))
  {
    assert [a, b][1..] == [b];
    EverywhereOne(b);
  }

  lemma EmptyEmptied()
    ensures Everywhere(Empty, ForEachEmptied)
  {
    assert Kids(Empty) == [];
  }

  lemma ValueEmptied(k: ValueKind, text: string, num: int, ix: Node)
    requires Everywhere(ix, ForEachEmptied)
    ensures Everywhere(Value(k, text, num, ix), ForEachEmptied)
  {
    EverywhereOne(ix);
  }

  lemma TokEmptied(name: string)
    ensures Everywhere(Tok(name), ForEachEmptied)
  {
    EmptyEmptied();
    ValueEmptied(Token, name, 0, Empty);
  }

  lemma AssignEmptied(t: string, v: Node)
    requires Everywhere(v, ForEachEmptied)
    ensures Everywhere(Assign("=", t, Empty, v), ForEachEmptied)
  {
    EmptyEmptied();
    EverywhereTwo(Empty, v);
  }

  lemma OneKidEmptied(n: Node, k: Node)
    requires !n.ForEach? && Kids(n) == [k] && Everywhere(k, ForEachEmptied)
    ensures Everywhere(n, ForEachEmptied)
  {
    EverywhereOne(k);
  }

  lemma FirstNodeEmptied(buffer: string, h: nat)
    ensures Everywhere(FirstNodeAssign(buffer, h), ForEachEmptied)
  {
    var sp := SendParam("elements", false, []);
    assert Kids(sp) == [];
    var send := Send(buffer, Empty, [sp]);
    EmptyEmptied();
    EverywhereTwo(Empty, sp);
    assert Kids(send) == [Empty, sp];
    var call := Call("FirstNode", [send]);
    OneKidEmptied(call, send);
    AssignEmptied(CurName(h), call);
  }

  lemma ArrayLoopEmptied(buffer: string, newVar: string, h: nat, body: seq<Node>)
    requires EverywhereSeq(body, ForEachEmptied)
    ensures Everywhere(ArrayLoop(buffer, newVar, h, body), ForEachEmptied)
  {
    var i := IndexName(h);
    EmptyEmptied();
    ValueEmptied(Number, "", 0, Empty);
    TokEmptied(i);
    ValueEmptied(ArraySize, buffer, 0, Empty);
    ValueEmptied(Token, buffer, 0, Tok(i));
    var init := Assign("=", i, Empty, Num(0));
    AssignEmptied(i, Num(0));
    OneKidEmptied(Block([init]), init);
    var cond := Binary("<", Tok(i), Value(ArraySize, buffer, 0, Empty));
    EverywhereTwo(Tok(i), Value(ArraySize, buffer, 0, Empty));
    var inc := Unary("++", Tok(i));
    OneKidEmptied(inc, Tok(i));
    OneKidEmptied(Block([inc]), inc);
    var first := Assign("=", newVar, Empty, Value(Token, buffer, 0, Tok(i)));
    AssignEmptied(newVar, Value(Token, buffer, 0, Tok(i)));
    EverywhereOne(first);
    EverywhereSeqAppend([first], body, ForEachEmptied);
    var loop := ArrayLoop(buffer, newVar, h, body);
    assert Kids(loop) == [Block([init]), cond, Block([inc])] + ([first] + body);
    EverywhereSeqAppend([Block([init]), cond, Block([inc])], [first] + body, ForEachEmptied);
    assert [Block([init]), cond, Block([inc])] == [Block([init])] + [cond, Block([inc])];
    EverywhereSeqAppend([Block([init])], [cond, Block([inc])], ForEachEmptied);
    EverywhereOne(Block([init]));
    EverywhereTwo(cond, Block([inc]));
  }

  /** The three statements that open each pass of the list loop. */
  lemma ListStepsEmptied(newVar: string, h: nat)
    ensures EverywhereSeq(ListSteps(newVar, h), ForEachEmptied)
  {
    var cur, next := CurName(h), NextName(h);
    TokEmptied(cur);
    TokEmptied(next);
    var c1 := Call("NextNode", [Tok(cur)]);
    OneKidEmptied(c1, Tok(cur));
    var c2 := Call("NodeValue", [Tok(cur)]);
    OneKidEmptied(c2, Tok(cur));
    var a1 := Assign("=", next, Empty, c1);
    var a2 := Assign("=", newVar, Empty, c2);
    var a3 := Assign("=", cur, Empty, Tok(next));
    AssignEmptied(next, c1);
    AssignEmptied(newVar, c2);
    AssignEmptied(cur, Tok(next));
    assert ListSteps(newVar, h) == [a1] + [a2, a3];
    EverywhereOne(a1);
    EverywhereTwo(a2, a3);
    EverywhereSeqAppend([a1], [a2, a3], ForEachEmptied);
  }

  lemma ListLoopEmptied(newVar: string, h: nat, body: seq<Node>)
    requires EverywhereSeq(body, ForEachEmptied)
    ensures Everywhere(ListLoop(newVar, h, body), ForEachEmptied)
  {
    var steps, cur := ListSteps(newVar, h), Tok(CurName(h));
    ListStepsEmptied(newVar, h);
    EverywhereSeqAppend(steps, body, ForEachEmptied);
    TokEmptied(CurName(h));
    EverywhereOne(cur);
    EverywhereSeqAppend([cur], steps + body, ForEachEmptied);
    var loop := While(cur, steps + body);
    assert Kids(loop) == [cur] + (steps + body);
    assert ForEachEmptied(loop);
  }

  /** Renaming keeps foreach statement lists as they were, so emptied ones stay empty. */
  lemma {:induction false} RenameKeepsEmptied(n: Node, from: string, to: string)
    requires Everywhere(n, ForEachEmptied)
    ensures Everywhere(Rename(n, from, to), ForEachEmptied)
    decreases Size(n), 0
  {
    SizeKids(n);
    var ks := RenameSeq(Kids(n), from, to);
    RenameSeqKeepsEmptied(Kids(n), from, to);
    EverywhereRebuild(RenameHere(n, from, to), ks, ForEachEmptied);
  }

  lemma {:induction false} RenameSeqKeepsEmptied(ns: seq<Node>, from: string, to: string)
    requires EverywhereSeq(ns, ForEachEmptied)
    ensures EverywhereSeq(RenameSeq(ns, from, to), ForEachEmptied)
    decreases SizeSeq(ns), 1
  {
    if ns != [] {
      RenameKeepsEmptied(ns[0], from, to);
      RenameSeqKeepsEmptied(ns[1..], from, to);
      assert RenameSeq(ns, from, to)[1..] == RenameSeq(ns[1..], from, to);
    }
  }

  /** What the lowering adds to a foreach's final code holds no foreach with statements. */
  lemma FinishEmptied(p: Prepared, finalCode: seq<Node>, body: seq<Node>, iterVar: string)
    requires p.isBuffer ==> p.before == []
    requires !p.isBuffer ==> p.before == RenameSeq([FirstNodeAssign(p.buffer, p.h)], iterVar, p.newVar)
    requires EverywhereSeq(finalCode, ForEachEmptied) && EverywhereSeq(body, ForEachEmptied)
    ensures EverywhereSeq(Finish(p, finalCode, body), ForEachEmptied)
  {
    var loop := if p.isBuffer then ArrayLoop(p.buffer, p.newVar, p.h, body) else ListLoop(p.newVar, p.h, body);
    if p.isBuffer {
      ArrayLoopEmptied(p.buffer, p.newVar, p.h, body);
    } else {
      ListLoopEmptied(p.newVar, p.h, body);
      FirstNodeEmptied(p.buffer, p.h);
      EverywhereOne(FirstNodeAssign(p.buffer, p.h));
      RenameSeqKeepsEmptied([FirstNodeAssign(p.buffer, p.h)], iterVar, p.newVar);
    }
    EverywhereOne(loop);
    EverywhereSeqAppend(finalCode, p.before, ForEachEmptied);
    EverywhereSeqAppend(finalCode + p.before, [loop], ForEachEmptied);
  }

  /**
   * After the pass every foreach has handed its statements over to the loop in its final
   * code, however deeply foreaches nest.
   */
  lemma {:induction false} ExpandEmptied(n: Node, w: Walk, scriptVars: seq<string>)
    ensures Everywhere(ExpandNode(n, w, scriptVars).0, ForEachEmptied)
    decreases Size(n), 1
  {
    if n.ForEach? {
      ExpandForEachEmptied(n, w, scriptVars);
    } else {
      SizeKids(n);
      var k := ExpandSeq(Kids(n), w, scriptVars).0;
      ExpandSeqEmptied(Kids(n), w, scriptVars);
      EverywhereRebuild(n, k, ForEachEmptied);
    }
  }

  lemma {:induction false} ExpandForEachEmptied(n: Node, w: Walk, scriptVars: seq<string>)
    requires n.ForEach?
    ensures Everywhere(ExpandForEach(n, w, scriptVars).0, ForEachEmptied)
    decreases Size(n), 0
  {
    var p := Prepare(n, w, scriptVars);
    PiecesSmaller(n, p.newVar);
    var c := ExpandNode(p.collection, p.walk, scriptVars);
    var f := ExpandSeq(p.finalCode, c.1, scriptVars);
    var b := ExpandSeq(p.body, f.1, scriptVars);
    ExpandEmptied(p.collection, p.walk, scriptVars);
    ExpandSeqEmptied(p.finalCode, c.1, scriptVars);
    ExpandSeqEmptied(p.body, f.1, scriptVars);
    FinishEmptied(p, f.0, b.0, n.iterVar);
    LoweredForEachEmptied(n.iterVar, c.0, Finish(p, f.0, b.0));
  }

  /** A foreach with no statements, whose pieces hold none either. */
  lemma LoweredForEachEmptied(v: string, c: Node, fin: seq<Node>)
    requires Everywhere(c, ForEachEmptied) && EverywhereSeq(fin, ForEachEmptied)
    ensures Everywhere(ForEach(v, c, [], fin), ForEachEmptied)
  {
    assert Kids(ForEach(v, c, [], fin)) == [c] + fin;
    EverywhereOne(c);
    EverywhereSeqAppend([c], fin, ForEachEmptied);
  }

  lemma {:induction false} ExpandSeqEmptied(ns: seq<Node>, w: Walk, scriptVars: seq<string>)
    ensures EverywhereSeq(ExpandSeq(ns, w, scriptVars).0, ForEachEmptied)
    decreases SizeSeq(ns), 2
  {
    if ns != [] {
      var a := ExpandNode(ns[0], w, scriptVars);
      ExpandEmptied(ns[0], w, scriptVars);
      ExpandSeqEmptied(ns[1..], a.1, scriptVars);
      assert ExpandSeq(ns, w, scriptVars).0[1..] == ExpandSeq(ns[1..], a.1, scriptVars).0;
    }
  }

  // ---------------------------------------------------------------------------------------
  // Every report is an error

  lemma PrepareErrors(n: Node, w: Walk, scriptVars: seq<string>)
    requires n.ForEach? && AllErrors(w.log)
    ensures AllErrors(Prepare(n, w, scriptVars).walk.log)
  {
    var temps := w.temps + [IterName(n.iterVar, w.hint)];
    var c := CheckCollection(n.collection, temps, scriptVars);
    assert AllErrors(c.log);
  }

  /** The walk adds errors and no warnings to the log. */
  lemma {:induction false} ExpandErrors(n: Node, w: Walk, scriptVars: seq<string>)
    requires AllErrors(w.log)
    ensures AllErrors(ExpandNode(n, w, scriptVars).1.log)
    decreases Size(n), 1
  {
    if n.ForEach? {
      ExpandForEachErrors(n, w, scriptVars);
    } else {
      SizeKids(n);
      ExpandSeqErrors(Kids(n), w, scriptVars);
    }
  }

  lemma {:induction false} ExpandForEachErrors(n: Node, w: Walk, scriptVars: seq<string>)
    requires n.ForEach? && AllErrors(w.log)
    ensures AllErrors(ExpandForEach(n, w, scriptVars).1.log)
    decreases Size(n), 0
  {
    var p := Prepare(n, w, scriptVars);
    PiecesSmaller(n, p.newVar);
    PrepareErrors(n, w, scriptVars);
    var c := ExpandNode(p.collection, p.walk, scriptVars);
    var f := ExpandSeq(p.finalCode, c.1, scriptVars);
    ExpandErrors(p.collection, p.walk, scriptVars);
    ExpandSeqErrors(p.finalCode, c.1, scriptVars);
    ExpandSeqErrors(p.body, f.1, scriptVars);
  }

  lemma {:induction false} ExpandSeqErrors(ns: seq<Node>, w: Walk, scriptVars: seq<string>)
    requires AllErrors(w.log)
    ensures AllErrors(ExpandSeq(ns, w, scriptVars).1.log)
    decreases SizeSeq(ns), 2
  {
    if ns != [] {
      var a := ExpandNode(ns[0], w, scriptVars);
      ExpandErrors(ns[0], w, scriptVars);
      ExpandSeqErrors(ns[1..], a.1, scriptVars);
    }
  }

  // ---------------------------------------------------------------------------------------
  // The pass over a script

  /** Each function is expanded on its own: its statements, with its temps extended. */
  lemma {:induction false} ExpandFunctionsAt(fs: seq<Function>, scriptVars: seq<string>, k: nat)
    requires k < |fs|
    ensures ExpandFunctions(fs, scriptVars).0[k] == ExpandFunction(fs[k], scriptVars).0
  {
    if k > 0 {
      ExpandFunctionsAt(fs[1..], scriptVars, k - 1);
    }
  }

  lemma {:induction false} ExpandClassesAt(cs: seq<Class>, scriptVars: seq<string>, k: nat)
    requires k < |cs|
    ensures ExpandClasses(cs, scriptVars).0[k] == cs[k].(methods := ExpandFunctions(cs[k].methods, scriptVars).0)
  {
    if k > 0 {
      ExpandClassesAt(cs[1..], scriptVars, k - 1);
    }
  }

  /** Everything the pass logs for these functions is an error. */
  lemma {:induction false} ExpandFunctionsErrors(fs: seq<Function>, scriptVars: seq<string>)
    ensures AllErrors(ExpandFunctions(fs, scriptVars).1)
  {
    if fs != [] {
      ExpandSeqErrors(fs[0].body, Walk(fs[0].temps, [], 0), scriptVars);
      ExpandFunctionsErrors(fs[1..], scriptVars);
    }
  }

  lemma {:induction false} ExpandClassesErrors(cs: seq<Class>, scriptVars: seq<string>)
    ensures AllErrors(ExpandClasses(cs, scriptVars).1)
  {
    if cs != [] {
      ExpandFunctionsErrors(cs[0].methods, scriptVars);
      ExpandClassesErrors(cs[1..], scriptVars);
    }
  }

  lemma ExpandFunctionsEmptied(fs: seq<Function>, scriptVars: seq<string>)
    ensures InFunctions(ExpandFunctions(fs, scriptVars).0, ForEachEmptied)
  {
    var r := ExpandFunctions(fs, scriptVars).0;
    forall k | 0 <= k < |fs|
      ensures EverywhereSeq(r[k].body, ForEachEmptied)
    {
      ExpandFunctionsAt(fs, scriptVars, k);
      ExpandSeqEmptied(fs[k].body, Walk(fs[k].temps, [], 0), scriptVars);
    }
  }

  /**
   * After the pass over a script no foreach in any procedure or method has statements of its
   * own, every report is an error, and the procedures and classes keep their names and marks.
   */
  lemma ExpandScriptShape(s: Script)
    ensures var (r, log) := ExpandScript(s);
      && InBodies(r, ForEachEmptied) && AllErrors(log)
      && |r.procedures| == |s.procedures| && |r.classes| == |s.classes|
      && (forall k :: 0 <= k < |s.procedures| ==>
            r.procedures[k] == s.procedures[k].(body := r.procedures[k].body, temps := r.procedures[k].temps))
      && (forall k :: 0 <= k < |s.classes| ==>
            r.classes[k] == s.classes[k].(methods := r.classes[k].methods)
            && |r.classes[k].methods| == |s.classes[k].methods|
            && forall j :: 0 <= j < |s.classes[k].methods| ==>
                 r.classes[k].methods[j].name == s.classes[k].methods[j].name
                 && r.classes[k].methods[j].isPublic == s.classes[k].methods[j].isPublic)
  {
    var r := ExpandScript(s).0;
    ExpandFunctionsEmptied(s.procedures, s.scriptVars);
    ExpandFunctionsErrors(s.procedures, s.scriptVars);
    ExpandClassesErrors(s.classes, s.scriptVars);
    forall k | 0 <= k < |s.procedures|
      ensures r.procedures[k] == s.procedures[k].(body := r.procedures[k].body, temps := r.procedures[k].temps)
    {
      ExpandFunctionsAt(s.procedures, s.scriptVars, k);
    }
    forall k | 0 <= k < |s.classes|
      ensures r.classes[k] == s.classes[k].(methods := r.classes[k].methods)
      ensures |r.classes[k].methods| == |s.classes[k].methods|
      ensures InFunctions(r.classes[k].methods, ForEachEmptied)
      ensures forall j :: 0 <= j < |s.classes[k].methods| ==>
                r.classes[k].methods[j].name == s.classes[k].methods[j].name
                && r.classes[k].methods[j].isPublic == s.classes[k].methods[j].isPublic
    {
      ExpandClassesAt(s.classes, s.scriptVars, k);
      ExpandFunctionsEmptied(s.classes[k].methods, s.scriptVars);
      forall j | 0 <= j < |s.classes[k].methods|
        ensures r.classes[k].methods[j].name == s.classes[k].methods[j].name
        ensures r.classes[k].methods[j].isPublic == s.classes[k].methods[j].isPublic
      {
        ExpandFunctionsAt(s.classes[k].methods, s.scriptVars, j);
      }
    }
  }
}
