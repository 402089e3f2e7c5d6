/**
 * `PostProcessScript`, which reshapes a parsed script before it is compiled: it pushes the
 * `public` mark from the exports down to procedures and classes, turns verb handlers into
 * `doVerb` methods, lowers foreach loops (only when a compile log is present), lowers conds
 * into if/else chains, numbers the cases of `switchto` statements, and warns about
 * constructs the compiler does not implement.
 *
 * The compile log is a flag, `hasLog`, and the list of results it would receive; the script
 * number and line that each result carries are left out.
 */
module Desugar {
  import opened Ast
  import opened Verbs
  import opened ForEachLowering
  import opened CondLowering
  import opened SwitchTo

  // ---------------------------------------------------------------------------------------
  // Public marks and verb handlers

  /** Procedures, each public exactly when its name is exported. */
  function PublicProcedures(fs: seq<Function>, exports: seq<string>): (r: seq<Function>)
    ensures |r| == |fs|
  {
    seq(|fs|, i requires 0 <= i < |fs| => fs[i].(isPublic := fs[i].name in exports))
  }

  /** A class marked public or not from the exports, then with its verb handlers expanded. */
  function PreparedClass(c: Class, exports: seq<string>): Class {
    WithVerbs(c.(isPublic := c.name in exports))
  }

  function PreparedClasses(cs: seq<Class>, exports: seq<string>): (r: seq<Class>)
    ensures |r| == |cs|
  {
    seq(|cs|, i requires 0 <= i < |cs| => PreparedClass(cs[i], exports))
  }

  /** The first two visits of `PostProcessScript`. */
  function Published(s: Script): Script {
    s.(procedures := PublicProcedures(s.procedures, s.exports),
       classes := PreparedClasses(s.classes, s.exports))
  }

  // ---------------------------------------------------------------------------------------
  // The cond and switch passes over every function of a script

  function LowerFunction(f: Function): Function {
    f.(body := LowerSeq(f.body).0)
  }

  function LowerFunctions(fs: seq<Function>): (r: seq<Function>)
    ensures |r| == |fs|
  {
    seq(|fs|, i requires 0 <= i < |fs| => LowerFunction(fs[i]))
  }

  /** How many misplaced `else`s the cond pass reports in these functions. */
  function Reports(fs: seq<Function>): nat {
    if fs == [] then 0 else LowerSeq(fs[0].body).1 + Reports(fs[1..])
  }

  function LowerClasses(cs: seq<Class>): (r: seq<Class>)
    ensures |r| == |cs|
  {
    seq(|cs|, i requires 0 <= i < |cs| => cs[i].(methods := LowerFunctions(cs[i].methods)))
  }

  function ClassReports(cs: seq<Class>): nat {
    if cs == [] then 0 else Reports(cs[0].methods) + ClassReports(cs[1..])
  }

  /** The cond pass over a script, and how many misplaced `else`s it reports. */
  function CondScript(s: Script): (Script, nat) {
    (s.(procedures := LowerFunctions(s.procedures), classes := LowerClasses(s.classes)),
     Reports(s.procedures) + ClassReports(s.classes))
  }

  function NumberFunctions(fs: seq<Function>): (r: seq<Function>)
    ensures |r| == |fs|
  {
    seq(|fs|, i requires 0 <= i < |fs| => fs[i].(body := NumberSeq(fs[i].body)))
  }

  /** The switch pass over a script. */
  function NumberScript(s: Script): Script {
    s.(procedures := NumberFunctions(s.procedures),
       classes := seq(|s.classes|, i requires 0 <= i < |s.classes| =>
                        s.classes[i].(methods := NumberFunctions(s.classes[i].methods))))
  }

  // ---------------------------------------------------------------------------------------
  // Warnings about constructs that are parsed but not compiled

  /** How many kinds of construct are checked. */
  const WarningCount: nat := 6

  /**
   * The text of warning `k`, in the order the checks are made; the missing space before
   * "ignored" is the source's.
   */
  function WarningText(k: nat): string {
    match k
    case 0 => "extern statements(s)"
    case 1 => "global statements(s)"
    case 2 => "classdef statements(s)"
    case 3 => "selectors statements(s)"
    case 4 => "procedure fwd declaration(s)"
    case _ => "methods fwd declaration(s)"
  }

  const NotImplemented: string := "ignored - not implemented"

  /** Which of the constructs behind the warnings the script uses, in the order checked. */
  function UsedConstructs(s: Script): (used: seq<bool>)
    ensures |used| == WarningCount
  {
    [s.externs != [], s.globals != [], s.classDefs != [], s.selectors != [],
     s.procedureForwards != [],
     exists i :: 0 <= i < |s.classes| && s.classes[i].methodForwards != []]
  }

  /** The numbers of the warnings from the `k`-th on that are called for. */
  function UsedFrom(used: seq<bool>, k: nat): (r: seq<nat>)
    requires k <= |used|
    ensures forall i :: 0 <= i < |r| ==> k <= r[i] < |used|
    decreases |used| - k
  {
    if k == |used| then []
    else (if used[k] then [k] else []) + UsedFrom(used, k + 1)
  }

  lemma {:induction false} UsedFromSpec(used: seq<bool>, k: nat)
    requires k <= |used|
    ensures var ks := UsedFrom(used, k);
      && (forall j :: k <= j < |used| ==> (j in ks <==> used[j]))
      && (forall i, i' :: 0 <= i < i' < |ks| ==> ks[i] < ks[i'])
    decreases |used| - k
  {
    if k < |used| {
      UsedFromSpec(used, k + 1);
    }
  }

  function Texts(ks: seq<nat>): (r: seq<string>)
    ensures |r| == |ks|
  {
    seq(|ks|, i requires 0 <= i < |ks| => WarningText(ks[i]))
  }

  /** The warnings the script calls for, in the order checked. */
  function Warnings(s: Script): seq<string> {
    Texts(UsedFrom(UsedConstructs(s), 0))
  }

  /** The log entries for the warnings: the text, then "ignored - not implemented". */
  function WarningLog(ws: seq<string>): (r: seq<Diagnostic>)
    ensures |r| == |ws|
    ensures forall i :: 0 <= i < |ws| ==> r[i] == Diagnostic(ws[i] + NotImplemented, true)
  {
    seq(|ws|, i requires 0 <= i < |ws| => Diagnostic(ws[i] + NotImplemented, true))
  }

  /** The number of warning `k`, when its construct is used. */
  function Pick(b: bool, k: nat): seq<nat> {
    if b then [k] else []
  }

  /** The six checks one after another. */
  lemma UsedFromChecks(used: seq<bool>)
    requires |used| == WarningCount
    ensures UsedFrom(used, 0) == Pick(used[0], 0) + (Pick(used[1], 1) + (Pick(used[2], 2)
                                 + (Pick(used[3], 3) + (Pick(used[4], 4) + Pick(used[5], 5)))))
  {
    assert UsedFrom(used, 6) == [];
    var r5 := UsedFrom(used, 5);
    assert r5 == Pick(used[5], 5);
    var r4 := UsedFrom(used, 4);
    assert r4 == Pick(used[4], 4) + r5;
    var r3 := UsedFrom(used, 3);
    assert r3 == Pick(used[3], 3) + r4;
    var r2 := UsedFrom(used, 2);
    assert r2 == Pick(used[2], 2) + r3;
    var r1 := UsedFrom(used, 1);
    assert r1 == Pick(used[1], 1) + r2;
    assert UsedFrom(used, 0) == Pick(used[0], 0) + r1;
  }

  lemma TextsAppend(xs: seq<nat>, ys: seq<nat>)
    ensures Texts(xs + ys) == Texts(xs) + Texts(ys)
  {
  }

  lemma ReassociateTexts(a: seq<string>, b: seq<string>, c: seq<string>, d: seq<string>,
                         e: seq<string>, f: seq<string>)
    ensures a + b + c + d + e + f == a + (b + (c + (d + (e + f))))
  {
  }

  /** The scan of the classes for forward declarations of methods. */
  method HasMethodForwards(classes: seq<Class>) returns (found: bool)
    ensures found <==> exists i :: 0 <= i < |classes| && classes[i].methodForwards != []
  {
    found := false;
    for i := 0 to |classes|
      invariant found <==> exists j :: 0 <= j < i && classes[j].methodForwards != []
    {
      found := found || classes[i].methodForwards != [];
    }
  }

  /** One check: the `k`-th text is pushed when its construct is used. */
  method PushWarning(ws: seq<string>, used: bool, k: nat) returns (r: seq<string>)
    ensures r == ws + Texts(Pick(used, k))
  {
    r := ws;
    if used {
      r := ws + [WarningText(k)];
    }
  }

  /** The warning checks as the source makes them: five lists, then a scan of the classes. */
  method CollectWarnings(s: Script) returns (ws: seq<string>)
    ensures ws == Warnings(s)
  {
    var used := UsedConstructs(s);
    var p0, p1, p2, p3, p4, p5 :=
      Pick(used[0], 0), Pick(used[1], 1), Pick(used[2], 2), Pick(used[3], 3), Pick(used[4], 4), Pick(used[5], 5);
    ws := [];
    assert used[0] == (s.externs != []);
    ws := PushWarning(ws, s.externs != [], 0);
    assert ws == Texts(p0);
    assert used[1] == (s.globals != []);
    ws := PushWarning(ws, s.globals != [], 1);
    assert ws == Texts(p0) + Texts(p1);
    assert used[2] == (s.classDefs != []);
    ws := PushWarning(ws, s.classDefs != [], 2);
    assert used[3] == (s.selectors != []);
    ws := PushWarning(ws, s.selectors != [], 3);
    assert used[4] == (s.procedureForwards != []);
    ws := PushWarning(ws, s.procedureForwards != [], 4);
    assert ws == Texts(p0) + Texts(p1) + Texts(p2) + Texts(p3) + Texts(p4);
    var hasMethodFwd := HasMethodForwards(s.classes);
    assert used[5] == hasMethodFwd;
    ws := PushWarning(ws, hasMethodFwd, 5);
    assert ws == Texts(p0) + Texts(p1) + Texts(p2) + Texts(p3) + Texts(p4) + Texts(p5);
    UsedFromChecks(used);
    TextsAppend(p4, p5);
    TextsAppend(p3, p4 + p5);
    TextsAppend(p2, p3 + (p4 + p5));
    TextsAppend(p1, p2 + (p3 + (p4 + p5)));
    TextsAppend(p0, p1 + (p2 + (p3 + (p4 + p5))));
    ReassociateTexts(Texts(p0), Texts(p1), Texts(p2), Texts(p3), Texts(p4), Texts(p5));
  }

  /**
   * The warnings: one for each construct the script uses and none for one it does not, in
   * the order they are checked.
   */
  lemma WarningsSpec(s: Script)
    ensures var ws := Warnings(s); var ks := UsedFrom(UsedConstructs(s), 0);
      && |ws| == |ks|
      && (forall k :: 0 <= k < WarningCount ==> (k in ks <==> UsedConstructs(s)[k]))
      && (forall i :: 0 <= i < |ks| ==> ks[i] < WarningCount && ws[i] == WarningText(ks[i]))
      && (forall i, i' :: 0 <= i < i' < |ks| ==> ks[i] < ks[i'])
  {
    UsedFromSpec(UsedConstructs(s), 0);
  }

  // ---------------------------------------------------------------------------------------
  // The whole post-processing

  datatype Processed = Processed(script: Script, log: seq<Diagnostic>)

  /** `PostProcessScript`, pass by pass. */
  function PostProcessed(hasLog: bool, s: Script): Processed {
    var a := Published(s);
    var b := if hasLog then ExpandScript(a) else (a, []);
    var c := CondScript(b.0);
    var d := NumberScript(c.0);
    Processed(d, if hasLog then b.1 + Repeat(ElseNotLastError(), c.1) + WarningLog(Warnings(d)) else [])
  }

  method PostProcessScript(hasLog: bool, s: Script) returns (r: Script, log: seq<Diagnostic>)
    ensures Processed(r, log) == PostProcessed(hasLog, s)
  {
    var procedures: seq<Function> := [];
    for i := 0 to |s.procedures|
      invariant |procedures| == i
      invariant forall k :: 0 <= k < i ==>
        procedures[k] == s.procedures[k].(isPublic := s.procedures[k].name in s.exports)
    {
      var proc := s.procedures[i];
      procedures := procedures + [proc.(isPublic := proc.name in s.exports)];
    }
    var classes: seq<Class> := [];
    for i := 0 to |s.classes|
      invariant |classes| == i
      invariant forall k :: 0 <= k < i ==> classes[k] == PreparedClass(s.classes[k], s.exports)
    {
      var instance := s.classes[i].(isPublic := s.classes[i].name in s.exports);
      instance := ProcessClassForVerbHandlers(instance);
      classes := classes + [instance];
    }
    r := s.(procedures := procedures, classes := classes);
    assert r == Published(s);
    log := [];
    if hasLog {
      var e := ExpandScript(r);
      r, log := e.0, e.1;
    }
    var c := CondScript(r);
    r := c.0;
    if hasLog {
      log := log + Repeat(ElseNotLastError(), c.1);
    }
    r := NumberScript(r);
    var warnings := CollectWarnings(r);
    if hasLog {
      log := log + WarningLog(warnings);
    }
  }

  // ---------------------------------------------------------------------------------------
  // What each pass keeps

  predicate SameFunction(f: Function, g: Function) {
    g.name == f.name && g.isPublic == f.isPublic
  }

  predicate SameClass(c: Class, d: Class) {
    && d.name == c.name && d.isPublic == c.isPublic && |d.methods| == |c.methods|
    && forall j :: 0 <= j < |c.methods| ==> SameFunction(c.methods[j], d.methods[j])
  }

  /** `b` has the procedures, classes and methods of `a`, in order, with their names and marks. */
  predicate SameOutline(a: Script, b: Script) {
    && |b.procedures| == |a.procedures| && |b.classes| == |a.classes|
    && (forall k :: 0 <= k < |a.procedures| ==> SameFunction(a.procedures[k], b.procedures[k]))
    && (forall k :: 0 <= k < |a.classes| ==> SameClass(a.classes[k], b.classes[k]))
  }

  lemma SameOutlineTrans(a: Script, b: Script, c: Script)
    requires SameOutline(a, b) && SameOutline(b, c)
    ensures SameOutline(a, c)
  {
    forall k | 0 <= k < |a.classes|
      ensures SameClass(a.classes[k], c.classes[k])
    {
      assert SameClass(a.classes[k], b.classes[k]) && SameClass(b.classes[k], c.classes[k]);
    }
  }

  /**
   * The first two visits: a procedure or class is public exactly when its name is exported,
   * and a class gains one method, `doVerb`, after its own, exactly when it has verb handlers.
   */
  lemma PublishedShape(s: Script)
    ensures var r := Published(s);
      && |r.procedures| == |s.procedures| && |r.classes| == |s.classes|
      && (forall k :: 0 <= k < |s.procedures| ==>
            r.procedures[k] == s.procedures[k].(isPublic := s.procedures[k].name in s.exports))
      && (forall k :: 0 <= k < |s.classes| ==>
            var c, d := s.classes[k], r.classes[k];
            && d.name == c.name && (d.isPublic <==> c.name in s.exports)
            && d.methods[..|c.methods|] == c.methods
            && |d.methods| == |c.methods| + (if c.verbHandlers == [] then 0 else 1))
  {
    forall k | 0 <= k < |s.classes|
      ensures var c, d := s.classes[k], Published(s).classes[k];
        && d.name == c.name && (d.isPublic <==> c.name in s.exports)
        && d.methods[..|c.methods|] == c.methods
        && |d.methods| == |c.methods| + (if c.verbHandlers == [] then 0 else 1)
    {
      DoVerbAddedIffHandlers(s.classes[k].(isPublic := s.classes[k].name in s.exports));
    }
  }

  /** The foreach pass keeps the outline of the script. */
  lemma ExpandScriptOutline(s: Script)
    ensures SameOutline(s, ExpandScript(s).0)
  {
    ExpandScriptShape(s);
    var r := ExpandScript(s).0;
    forall k | 0 <= k < |s.classes|
      ensures SameClass(s.classes[k], r.classes[k])
    {
      assert r.classes[k] == s.classes[k].(methods := r.classes[k].methods);
    }
  }

  lemma LowerFunctionsClear(fs: seq<Function>)
    ensures InFunctions(LowerFunctions(fs), NoClausesHere)
  {
    forall k | 0 <= k < |fs|
      ensures EverywhereSeq(LowerFunctions(fs)[k].body, NoClausesHere)
    {
      LowerSeqClears(fs[k].body);
    }
  }

  lemma LowerFunctionsKeep(fs: seq<Function>, p: Node -> bool)
    requires KeptByLowering(p) && InFunctions(fs, p)
    ensures InFunctions(LowerFunctions(fs), p)
  {
    forall k | 0 <= k < |fs|
      ensures EverywhereSeq(LowerFunctions(fs)[k].body, p)
    {
      LowerSeqKeeps(fs[k].body, p);
    }
  }

  /**
   * After the cond pass no cond in any procedure or method holds clauses; the pass keeps the
   * outline of the script and every property the lowering keeps.
   */
  lemma CondScriptShape(s: Script, p: Node -> bool)
    requires KeptByLowering(p)
    ensures var r := CondScript(s).0;
      && InBodies(r, NoClausesHere) && SameOutline(s, r)
      && (InBodies(s, p) ==> InBodies(r, p))
  {
    var r := CondScript(s).0;
    LowerFunctionsClear(s.procedures);
    if InBodies(s, p) {
      LowerFunctionsKeep(s.procedures, p);
    }
    forall k | 0 <= k < |s.classes|
      ensures InFunctions(r.classes[k].methods, NoClausesHere)
      ensures InBodies(s, p) ==> InFunctions(r.classes[k].methods, p)
    {
      LowerFunctionsClear(s.classes[k].methods);
      if InBodies(s, p) {
        LowerFunctionsKeep(s.classes[k].methods, p);
      }
    }
  }

  lemma NumberFunctionsSettle(fs: seq<Function>)
    ensures InFunctions(NumberFunctions(fs), Settled)
  {
    forall k | 0 <= k < |fs|
      ensures EverywhereSeq(NumberFunctions(fs)[k].body, Settled)
    {
      NumberSeqSettles(fs[k].body);
    }
  }

  lemma NumberFunctionsKeep(fs: seq<Function>, p: Node -> bool)
    requires Structural(p) && p(Empty) && forall v: nat {:trigger Num(v)} :: p(Num(v))
    requires InFunctions(fs, p)
    ensures InFunctions(NumberFunctions(fs), p)
  {
    forall k | 0 <= k < |fs|
      ensures EverywhereSeq(NumberFunctions(fs)[k].body, p)
    {
      NumberSeqKeeps(fs[k].body, p);
    }
  }

  /**
   * After the switch pass no `switchto` anywhere is left unnumbered; the pass keeps the
   * outline of the script and every property that reads only the shape of nodes.
   */
  lemma NumberScriptShape(s: Script, p: Node -> bool)
    requires Structural(p) && p(Empty) && forall v: nat {:trigger Num(v)} :: p(Num(v))
    ensures var r := NumberScript(s);
      && InBodies(r, Settled) && SameOutline(s, r)
      && (InBodies(s, p) ==> InBodies(r, p))
  {
    var r := NumberScript(s);
    NumberFunctionsSettle(s.procedures);
    if InBodies(s, p) {
      NumberFunctionsKeep(s.procedures, p);
    }
    forall k | 0 <= k < |s.classes|
      ensures InFunctions(r.classes[k].methods, Settled)
      ensures InBodies(s, p) ==> InFunctions(r.classes[k].methods, p)
    {
      NumberFunctionsSettle(s.classes[k].methods);
      if InBodies(s, p) {
        NumberFunctionsKeep(s.classes[k].methods, p);
      }
    }
  }

  lemma ForEachEmptiedKept()
    ensures KeptByLowering(ForEachEmptied)
    ensures forall v: nat {:trigger Num(v)} :: ForEachEmptied(Num(v))
  {
    forall x, ks | |ks| == |Kids(x)|
      ensures ForEachEmptied(Rebuild(x, ks)) == ForEachEmptied(x)
    {
    }
  }

  lemma NoClausesHereKept()
    ensures Structural(NoClausesHere) && NoClausesHere(Empty)
    ensures forall v: nat {:trigger Num(v)} :: NoClausesHere(Num(v))
  {
    forall x, ks | |ks| == |Kids(x)|
      ensures NoClausesHere(Rebuild(x, ks)) == NoClausesHere(x)
    {
    }
  }

  /**
   * The script `PostProcessScript` leaves: every procedure and class is public exactly when
   * it is exported, classes with verb handlers have gained a `doVerb` method, no cond holds
   * clauses, no `switchto` is left unnumbered, and, when there is a compile log, no foreach
   * holds statements of its own.
   */
  lemma PostProcessedScript(hasLog: bool, s: Script)
    ensures var r := PostProcessed(hasLog, s).script;
      && InBodies(r, NoClausesHere) && InBodies(r, Settled)
      && (hasLog ==> InBodies(r, ForEachEmptied))
      && |r.procedures| == |s.procedures| && |r.classes| == |s.classes|
      && (forall k :: 0 <= k < |s.procedures| ==>
            r.procedures[k].name == s.procedures[k].name
            && (r.procedures[k].isPublic <==> s.procedures[k].name in s.exports))
      && (forall k :: 0 <= k < |s.classes| ==>
            r.classes[k].name == s.classes[k].name
            && (r.classes[k].isPublic <==> s.classes[k].name in s.exports)
            && |r.classes[k].methods| ==
                 |s.classes[k].methods| + (if s.classes[k].verbHandlers == [] then 0 else 1))
  {
    var a := Published(s);
    var b := if hasLog then ExpandScript(a).0 else a;
    var c := CondScript(b).0;
    var d := NumberScript(c);
    PublishedShape(s);
    ForEachEmptiedKept();
    NoClausesHereKept();
    if hasLog {
      ExpandScriptShape(a);
      ExpandScriptOutline(a);
    }
    CondScriptShape(b, ForEachEmptied);
    NumberScriptShape(c, NoClausesHere);
    NumberScriptShape(c, ForEachEmptied);
    if hasLog {
      SameOutlineTrans(a, b, c);
    }
    SameOutlineTrans(a, c, d);
    forall k | 0 <= k < |s.classes|
      ensures d.classes[k].name == s.classes[k].name
      ensures d.classes[k].isPublic <==> s.classes[k].name in s.exports
      ensures |d.classes[k].methods| == |s.classes[k].methods| + (if s.classes[k].verbHandlers == [] then 0 else 1)
    {
      assert SameClass(a.classes[k], d.classes[k]);
    }
  }

  /**
   * The compile log: empty without one; otherwise the reports of the foreach and cond passes,
   * all of them errors, then one warning per unimplemented construct, in order.
   */
  lemma PostProcessedLog(hasLog: bool, s: Script)
    ensures var P := PostProcessed(hasLog, s); var ws := Warnings(P.script);
      && (!hasLog ==> P.log == [])
      && (hasLog ==> |ws| <= |P.log|)
      && (hasLog ==> forall i :: 0 <= i < |P.log| ==> (P.log[i].isWarning <==> |P.log| - |ws| <= i))
      && (hasLog ==> forall j :: 0 <= j < |ws| ==>
            P.log[|P.log| - |ws| + j] == Diagnostic(ws[j] + NotImplemented, true))
  {
    if hasLog {
      var a := Published(s);
      var b := ExpandScript(a);
      var c := CondScript(b.0);
      var P := PostProcessed(hasLog, s);
      var ws := Warnings(P.script);
      ExpandScriptShape(a);
      var errors := b.1 + Repeat(ElseNotLastError(), c.1);
      assert AllErrors(errors);
      assert P.log == errors + WarningLog(ws);
    }
  }
}
