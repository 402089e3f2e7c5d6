/**
 * The operator trie: a set of operator spellings encoded as a flat table of small integers,
 * one level per character position, and the matcher that walks it over the input.
 *
 * A level is laid out as
 *   (c1, off1) (c2, off2) ... (cn, offn) [(' ', 0)] 0  sub-level(c1) sub-level(c2) ... sub-level(cn)
 * with c1 < c2 < ... < cn the distinct first characters of the spellings at that level, each
 * offset relative to the start of the level, the optional (' ', 0) pair present when some
 * spelling ends at that level, and 0 closing the header.
 */
module OperatorTrie {
  import opened Wrappers
  import opened Chars

  /** Longest operator spelling the parser registers. */
  const MaxOpLength: nat := 4

  /** The operator groups that the grammar registers. */
  const BinaryOps: set<string> := {">>", "<<", "-", "/", "mod"}
  const NaryAssocOps: set<string> := {"*", "+", "&", "|", "^", "and", "or"}
  const NaryCompareOps: set<string> := {"u>=", ">=", "u>", ">", "u<=", "<=", "u<", "!=", "<", "=="}
  const UnaryOps: set<string> := {"~", "not", "-", "++", "--"}
  const AssignmentOps: set<string> := {"+=", "-=", "*=", "/=", "mod=", "&=", "|=", "^=", ">>=", "<<=", "="}

  // ---------------------------------------------------------------------------------------
  // Operator sets

  /** Spellings the matcher can recognise: no NUL and no whitespace in any of them. */
  predicate WellFormedOps(ops: set<string>) {
    forall o :: o in ops ==> forall i :: 0 <= i < |o| ==> o[i] != '\0' && !IsSpace(o[i])
  }

  /** Every spelling has at most `depth` characters. */
  predicate Bounded(ops: set<string>, depth: nat) {
    forall o :: o in ops ==> |o| <= depth
  }

  /**
   * A spelling the encoder counts as finished at this level: the test `!op[0]` holds for the
   * empty string and for one that starts with NUL alike.
   */
  predicate Ended(o: string) {
    o == [] || o[0] == '\0'
  }

  /** Some spelling is finished at this level: the level gets the space terminal. */
  predicate HasEnded(ops: set<string>) {
    exists o :: o in ops && Ended(o)
  }

  /** For spellings without NUL, a finished spelling is exactly the empty one. */
  lemma HasEndedIff(ops: set<string>)
    requires WellFormedOps(ops)
    ensures HasEnded(ops) <==> "" in ops
  {
    if HasEnded(ops) {
      var o :| o in ops && Ended(o);
      assert o == [];
    }
    if "" in ops {
      assert Ended("");
    }
  }

  /**
   * The distinct first characters of the spellings that are not finished (the keys of the
   * per-level `std::map`).
   */
  function Firsts(ops: set<string>): set<char> {
    set o {:trigger o in ops} | o in ops && |o| > 0 && o[0] != '\0' :: o[0]
  }

  /** What remains of the spellings that start with `c`, once `c` is taken off. */
  function Tails(ops: set<string>, c: char): set<string> {
    set o {:trigger o in ops} | o in ops && |o| > 0 && o[0] == c :: o[1..]
  }

  /** A character that starts some spelling needs room for at least one character. */
  lemma FirstsNeedDepth(ops: set<string>, depth: nat, c: char)
    requires Bounded(ops, depth) && c in Firsts(ops)
    ensures depth > 0
  {
    var o :| o in ops && |o| > 0 && o[0] == c;
  }

  lemma TailsBounded(ops: set<string>, depth: nat, c: char)
    requires Bounded(ops, depth) && depth > 0
    ensures Bounded(Tails(ops, c), depth - 1)
  {
    forall t | t in Tails(ops, c) ensures |t| <= depth - 1 {
      var o :| o in ops && |o| > 0 && o[0] == c && t == o[1..];
    }
  }

  lemma TailsWellFormed(ops: set<string>, c: char)
    requires WellFormedOps(ops)
    ensures WellFormedOps(Tails(ops, c))
    ensures c in Firsts(ops) ==> c != '\0' && !IsSpace(c)
  {
    if c in Firsts(ops) {
      var o :| o in ops && |o| > 0 && o[0] == c;
    }
    forall t, i | t in Tails(ops, c) && 0 <= i < |t| ensures t[i] != '\0' && !IsSpace(t[i]) {
      var o :| o in ops && |o| > 0 && o[0] == c && t == o[1..];
      assert t[i] == o[i + 1];
    }
  }

  /** A spelling and a string made of `c` followed by one of its tails. */
  lemma TailsMembership(ops: set<string>, c: char, w: string)
    ensures [c] + w in ops <==> w in Tails(ops, c)
  {
    if w in Tails(ops, c) {
      var o :| o in ops && |o| > 0 && o[0] == c && w == o[1..];
      assert o == [c] + w;
    }
    if [c] + w in ops {
      assert ([c] + w)[1..] == w;
    }
  }

  // ---------------------------------------------------------------------------------------
  // The ascending order of `std::map<char, ...>`

  /** The smallest character of a non-empty set. */
  ghost function MinChar(cs: set<char>): (m: char)
    requires cs != {}
    ensures m in cs
    decreases |cs|
  {
    var x :| x in cs;
    if cs == {x} then x
    else
      var m := MinChar(cs - {x});
      if x < m then x else m
  }

  lemma {:induction false} MinCharIsMin(cs: set<char>, c: char)
    requires c in cs
    ensures MinChar(cs) <= c
    decreases |cs|
  {
    var x :| x in cs && MinChar(cs) == (if cs == {x} then x else if x < MinChar(cs - {x}) then x else MinChar(cs - {x}));
    if cs != {x} && c != x {
      MinCharIsMin(cs - {x}, c);
    }
  }

  lemma MinCharLeast(cs: set<char>)
    requires cs != {}
    ensures forall c :: c in cs ==> MinChar(cs) <= c
  {
    forall c | c in cs ensures MinChar(cs) <= c {
      MinCharIsMin(cs, c);
    }
  }

  /** The characters of `cs` in ascending order, each once. */
  ghost function SortedChars(cs: set<char>): (r: seq<char>)
    ensures |r| == |cs|
    decreases |cs|
  {
    if cs == {} then []
    else
      var m := MinChar(cs);
      [m] + SortedChars(cs - {m})
  }


  /** Every character `SortedChars` lists is one of the set's. */
  lemma {:induction false} SortedCharsIn(cs: set<char>)
    ensures forall i :: 0 <= i < |SortedChars(cs)| ==> SortedChars(cs)[i] in cs
    decreases |cs|
  {
    if cs != {} {
      var m := MinChar(cs);
      var rest := cs - {m};
      SortedCharsIn(rest);
      var t := SortedChars(rest);
      var r := SortedChars(cs);
      assert r == [m] + t;
      forall i | 0 <= i < |r| ensures r[i] in cs {
        if i > 0 { assert r[i] == t[i - 1]; }
      }
    }
  }

  /** Every character of the set is listed. */
  lemma {:induction false} SortedCharsAll(cs: set<char>)
    ensures forall c :: c in cs ==> c in SortedChars(cs)
    decreases |cs|
  {
    if cs != {} {
      var m := MinChar(cs);
      var rest := cs - {m};
      SortedCharsAll(rest);
      var t := SortedChars(rest);
      var r := SortedChars(cs);
      assert r == [m] + t;
      forall c | c in cs ensures c in r {
        if c != m {
          assert c in rest;
        }
      }
    }
  }

  /** The listing is strictly ascending, so each character appears once. */
  lemma {:induction false} SortedCharsAscending(cs: set<char>)
    ensures forall i, j :: 0 <= i < j < |SortedChars(cs)| ==> SortedChars(cs)[i] < SortedChars(cs)[j]
    decreases |cs|
  {
    if cs != {} {
      var m := MinChar(cs);
      var rest := cs - {m};
      SortedCharsAscending(rest);
      SortedCharsIn(rest);
      MinCharLeast(cs);
      var t := SortedChars(rest);
      var r := SortedChars(cs);
      assert r == [m] + t;
      forall i, j | 0 <= i < j < |r| ensures r[i] < r[j] {
        assert r[j] == t[j - 1];
        if i > 0 { assert r[i] == t[i - 1]; }
      }
    }
  }

  /** Taking the smallest character off the front. */
  lemma SortedCharsMin(cs: set<char>, c: char)
    requires c in cs && forall x :: x in cs ==> c <= x
    ensures SortedChars(cs) == [c] + SortedChars(cs - {c})
  {
    var m := MinChar(cs);
    MinCharIsMin(cs, c);
    assert m == c;
  }


  // ---------------------------------------------------------------------------------------
  // Tries

  /** One level of the trie: whether some spelling ends here, and one branch per next character. */
  datatype Trie = Trie(hasEmpty: bool, branches: seq<Branch>)
  datatype Branch = Branch(key: char, sub: Trie)

  /** The characters of the branches, in order. */
  function Keys(bs: seq<Branch>): seq<char> {
    seq(|bs|, i requires 0 <= i < |bs| => bs[i].key)
  }

  /** The first branch for `ch`, as the scan over a header finds it. */
  function FindKey(bs: seq<Branch>, ch: char): (r: Option<nat>)
    ensures r.Some? ==> r.value < |bs| && bs[r.value].key == ch
    decreases |bs|
  {
    if bs == [] then None
    else if bs[0].key == ch then Some(0)
    else
      match FindKey(bs[1..], ch)
      case None => None
      case Some(i) => Some(i + 1)
  }

  /** `FindKey` finds the first branch for `ch`, and finds none exactly when no branch has `ch`. */
  lemma {:induction false} FindKeyFirst(bs: seq<Branch>, ch: char)
    ensures FindKey(bs, ch).Some? ==> forall i :: 0 <= i < FindKey(bs, ch).value ==> bs[i].key != ch
    ensures FindKey(bs, ch).None? <==> forall i :: 0 <= i < |bs| ==> bs[i].key != ch
    decreases |bs|
  {
    if bs != [] && bs[0].key != ch {
      FindKeyFirst(bs[1..], ch);
      assert forall i :: 1 <= i < |bs| ==> bs[i] == bs[1..][i - 1];
    }
  }

  /** The branch characters can be told apart from the end of the input and from the terminal pair. */
  predicate ValidTrie(t: Trie)
    decreases t
  {
    forall i :: 0 <= i < |t.branches| ==>
      t.branches[i].key != '\0' && !IsSpace(t.branches[i].key) && ValidTrie(t.branches[i].sub)
  }

  /**
   * The walk the table encodes: at a whitespace character the match ends if some spelling ends
   * at this level; at any other character it follows that character's branch; NUL (the end of
   * the input) and a character without a branch fail.
   */
  function MatchTrie(t: Trie, input: string, pos: nat): Option<string>
    decreases |input| - pos
  {
    var ch := Peek(input, pos);
    if ch == '\0' then None
    else if IsSpace(ch) then (if t.hasEmpty then Some("") else None)
    else
      match FindKey(t.branches, ch)
      case None => None
      case Some(i) => Prepend([ch], MatchTrie(t.branches[i].sub, input, pos + 1))
  }

  // ---------------------------------------------------------------------------------------
  // The table layout

  /** Length of a level's header: one pair per character, the terminal pair, the sentinel. */
  function HeaderSize(n: nat, hasEmpty: bool): nat {
    2 * (n + if hasEmpty then 1 else 0) + 1
  }

  /** The sub-levels laid out one after the other. */
  function Flatten(subs: seq<seq<int>>): seq<int>
    decreases |subs|
  {
    if subs == [] then [] else Flatten(subs[..|subs| - 1]) + subs[|subs| - 1]
  }

  /** The (character, offset) pairs of a header whose sub-levels start at `start`. */
  function Pairs(cs: seq<char>, subs: seq<seq<int>>, start: int): (r: seq<int>)
    requires |cs| == |subs|
    ensures |r| == 2 * |cs|
    decreases |cs|
  {
    if cs == [] then []
    else
      var n := |cs| - 1;
      Pairs(cs[..n], subs[..n], start) + [cs[n] as int, start + |Flatten(subs[..n])|]
  }

  /** The end of a header: the terminal pair when some spelling ends at this level, then the sentinel. */
  function HeaderEnd(hasEmpty: bool): seq<int> {
    (if hasEmpty then [' ' as int, 0] else []) + [0]
  }

  /** A level laid out from its first characters and their sub-levels. */
  function Level(cs: seq<char>, subs: seq<seq<int>>, hasEmpty: bool): seq<int>
    requires |cs| == |subs|
  {
    Pairs(cs, subs, HeaderSize(|cs|, hasEmpty)) + HeaderEnd(hasEmpty) + Flatten(subs)
  }

  /** The table of a trie: its header, then the tables of its branches' sub-tries in order. */
  function Serialize(t: Trie): seq<int>
    decreases t, |t.branches| + 1
  {
    Level(Keys(t.branches), SubTables(t, 0), t.hasEmpty)
  }

  /** The tables of the sub-tries of the branches from `k` on, in order. */
  function SubTables(t: Trie, k: nat): (subs: seq<seq<int>>)
    requires k <= |t.branches|
    ensures |subs| == |t.branches| - k
    decreases t, |t.branches| - k
  {
    if k == |t.branches| then [] else [Serialize(t.branches[k].sub)] + SubTables(t, k + 1)
  }

  /** The tables of the branches' sub-tries, in order. */
  function SerializeAll(bs: seq<Branch>): (subs: seq<seq<int>>)
    ensures |subs| == |bs|
  {
    seq(|bs|, i requires 0 <= i < |bs| => Serialize(bs[i].sub))
  }

  lemma SerializeIsLevel(t: Trie)
    ensures Serialize(t) == Level(Keys(t.branches), SerializeAll(t.branches), t.hasEmpty)
  {
    SubTablesAll(t, 0);
    assert SerializeAll(t.branches)[0..] == SerializeAll(t.branches);
  }

  lemma {:induction false} SubTablesAll(t: Trie, k: nat)
    requires k <= |t.branches|
    ensures SubTables(t, k) == SerializeAll(t.branches)[k..]
    decreases |t.branches| - k
  {
    if k < |t.branches| {
      SubTablesAll(t, k + 1);
      assert SerializeAll(t.branches)[k..] == [SerializeAll(t.branches)[k]] + SerializeAll(t.branches)[k + 1..];
    }
  }

  lemma {:induction false} FlattenAppend(a: seq<seq<int>>, b: seq<seq<int>>)
    ensures Flatten(a + b) == Flatten(a) + Flatten(b)
    decreases |b|
  {
    if b != [] {
      var n := |b| - 1;
      assert (a + b)[..|a + b| - 1] == a + b[..n];
      FlattenAppend(a, b[..n]);
    } else {
      assert a + b == a;
    }
  }

  lemma FlattenSnoc(subs: seq<seq<int>>, sub: seq<int>)
    ensures Flatten(subs + [sub]) == Flatten(subs) + sub
  {
    assert (subs + [sub])[..|subs|] == subs;
  }

  /** Sub-level `j` sits right after the sub-levels before it. */
  lemma FlattenSlice(subs: seq<seq<int>>, j: nat)
    requires j < |subs|
    ensures |Flatten(subs[..j])| + |subs[j]| <= |Flatten(subs)|
    ensures Flatten(subs)[|Flatten(subs[..j])|..|Flatten(subs[..j])| + |subs[j]|] == subs[j]
  {
    assert subs == subs[..j] + ([subs[j]] + subs[j + 1..]);
    FlattenAppend(subs[..j], [subs[j]] + subs[j + 1..]);
    FlattenAppend([subs[j]], subs[j + 1..]);
    assert Flatten([subs[j]]) == subs[j] by {
      assert [subs[j]][..0] == [];
    }
  }

  lemma PairsSnoc(cs: seq<char>, subs: seq<seq<int>>, c: char, sub: seq<int>, start: int)
    requires |cs| == |subs|
    ensures Pairs(cs + [c], subs + [sub], start) == Pairs(cs, subs, start) + [c as int, start + |Flatten(subs)|]
  {
    assert (cs + [c])[..|cs|] == cs;
    assert (subs + [sub])[..|subs|] == subs;
  }

  lemma {:induction false} PairsAt(cs: seq<char>, subs: seq<seq<int>>, start: int, j: nat)
    requires |cs| == |subs| && j < |cs|
    ensures Pairs(cs, subs, start)[2 * j] == cs[j] as int
    ensures Pairs(cs, subs, start)[2 * j + 1] == start + |Flatten(subs[..j])|
    decreases |cs|
  {
    var n := |cs| - 1;
    if j < n {
      PairsAt(cs[..n], subs[..n], start, j);
      assert subs[..n][..j] == subs[..j];
    }
  }

  /** The end of a level's header: the optional terminal pair, then the sentinel. */
  lemma LevelHeaderEnd(cs: seq<char>, subs: seq<seq<int>>, hasEmpty: bool)
    requires |cs| == |subs|
    ensures var n := |cs|;
            var e := if hasEmpty then 1 else 0;
            var E := Level(cs, subs, hasEmpty);
            && |E| > 2 * (n + e)
            && E[2 * (n + e)] == 0
            && (hasEmpty ==> E[2 * n] == ' ' as int && E[2 * n + 1] == 0)
  {
  }

  /** Entry `i` of a level's header: its character, and where its sub-level sits. */
  lemma LevelEntry(cs: seq<char>, subs: seq<seq<int>>, hasEmpty: bool, i: nat)
    requires |cs| == |subs| && i < |cs|
    ensures var E := Level(cs, subs, hasEmpty);
            && |E| > 2 * i + 1
            && E[2 * i] == cs[i] as int
            && 0 < E[2 * i + 1]
            && E[2 * i + 1] + |subs[i]| <= |E|
            && E[E[2 * i + 1]..E[2 * i + 1] + |subs[i]|] == subs[i]
  {
    var H := HeaderSize(|cs|, hasEmpty);
    var P := Pairs(cs, subs, H);
    PairsAt(cs, subs, H, i);
    FlattenSlice(subs, i);
    var E := (P + HeaderEnd(hasEmpty)) + Flatten(subs);
    assert |P + HeaderEnd(hasEmpty)| == H;
    var off := H + |Flatten(subs[..i])|;
    assert E[off..off + |subs[i]|] == Flatten(subs)[|Flatten(subs[..i])|..|Flatten(subs[..i])| + |subs[i]|];
  }

  // ---------------------------------------------------------------------------------------
  // The trie of an operator set

  /** The trie the encoder lays out: the sorted first characters, each with the trie of its tails. */
  ghost function Build(ops: set<string>, depth: nat): Trie
    requires Bounded(ops, depth)
    decreases depth, 2
  {
    Trie(HasEnded(ops), Branches(ops, SortedChars(Firsts(ops)), depth))
  }

  /**
   * A spelling that starts with NUL is finished where it stands, like the empty one: it gives
   * the level its space terminal and no branch, at the top and one level down.
   */
  lemma NulSpellingEnds()
    ensures Build({"\0+"}, 2) == Build({""}, 2) == Trie(true, [])
    ensures Build({"+\0"}, 2) == Trie(false, [Branch('+', Trie(true, []))])
  {
    assert Firsts({"\0+"}) == {} && Firsts({""}) == {};
    assert Ended("\0+") && Ended("");
    assert Firsts({"+\0"}) == {'+'};
    assert Tails({"+\0"}, '+') == {"\0"};
    assert Firsts({"\0"}) == {} && Ended("\0");
    MinCharLeast({'+'});
    assert SortedChars({'+'}) == ['+'];
    assert Child({"+\0"}, '+', 2) == Build({"\0"}, 1) == Trie(true, []);
  }

  /** The branches for the characters `cs`, in that order. */
  ghost function Branches(ops: set<string>, cs: seq<char>, depth: nat): (bs: seq<Branch>)
    requires Bounded(ops, depth)
    ensures |bs| == |cs|
    decreases depth, 1
  {
    seq(|cs|, i requires 0 <= i < |cs| => Branch(cs[i], Child(ops, cs[i], depth)))
  }

  /** The sub-trie of the character `c`: the trie of the tails of the spellings that start with it. */
  ghost function Child(ops: set<string>, c: char, depth: nat): Trie
    requires Bounded(ops, depth)
    decreases depth, 0
  {
    if depth == 0 then Trie(false, [])
    else
      TailsBounded(ops, depth, c);
      Build(Tails(ops, c), depth - 1)
  }

  lemma BranchesAt(ops: set<string>, cs: seq<char>, depth: nat, i: nat)
    requires Bounded(ops, depth) && depth > 0 && i < |cs|
    ensures Bounded(Tails(ops, cs[i]), depth - 1)
    ensures Branches(ops, cs, depth)[i] == Branch(cs[i], Build(Tails(ops, cs[i]), depth - 1))
    ensures SerializeAll(Branches(ops, cs, depth))[i] == Serialize(Build(Tails(ops, cs[i]), depth - 1))
  {
    TailsBounded(ops, depth, cs[i]);
  }

  /** A table is the level built from its sorted first characters and their sub-levels. */
  lemma BuildIsLevel(ops: set<string>, depth: nat)
    requires Bounded(ops, depth)
    ensures var cs := SortedChars(Firsts(ops));
            Serialize(Build(ops, depth)) == Level(cs, SerializeAll(Branches(ops, cs, depth)), HasEnded(ops))
  {
    var cs := SortedChars(Firsts(ops));
    assert Keys(Branches(ops, cs, depth)) == cs;
    SerializeIsLevel(Build(ops, depth));
  }

  /** Branch `i` of the trie of a set: a first character and the trie of its tails. */
  lemma BuildBranch(ops: set<string>, depth: nat, i: nat)
    requires Bounded(ops, depth) && i < |Build(ops, depth).branches|
    ensures var c := Build(ops, depth).branches[i].key;
            && c in Firsts(ops) && depth > 0 && Bounded(Tails(ops, c), depth - 1)
            && Build(ops, depth).branches[i].sub == Build(Tails(ops, c), depth - 1)
  {
    var cs := SortedChars(Firsts(ops));
    SortedCharsIn(Firsts(ops));
    FirstsNeedDepth(ops, depth, cs[i]);
    BranchesAt(ops, cs, depth, i);
  }

  /** The branches of the trie of a set, in the ascending order of their characters. */
  lemma BuildKeys(ops: set<string>, depth: nat)
    requires Bounded(ops, depth)
    ensures Keys(Build(ops, depth).branches) == SortedChars(Firsts(ops))
  {
    var cs := SortedChars(Firsts(ops));
    assert Keys(Branches(ops, cs, depth)) == cs;
  }

  /** The trie of a set has a branch for `ch` exactly when some spelling starts with `ch`. */
  lemma BuildFind(ops: set<string>, depth: nat, ch: char)
    requires Bounded(ops, depth)
    ensures FindKey(Build(ops, depth).branches, ch).Some? <==> ch in Firsts(ops)
  {
    var bs := Build(ops, depth).branches;
    var cs := SortedChars(Firsts(ops));
    FindKeyFirst(bs, ch);
    if ch in Firsts(ops) {
      SortedCharsAll(Firsts(ops));
      BuildKeys(ops, depth);
      var k :| 0 <= k < |cs| && cs[k] == ch;
      assert Keys(bs)[k] == ch;
    } else if FindKey(bs, ch).Some? {
      BuildBranch(ops, depth, FindKey(bs, ch).value);
    }
  }

  /** The trie of well-formed spellings has no NUL or whitespace branch. */
  lemma {:induction false} BuildValid(ops: set<string>, depth: nat)
    requires Bounded(ops, depth) && WellFormedOps(ops)
    ensures ValidTrie(Build(ops, depth))
    decreases depth
  {
    var t := Build(ops, depth);
    forall i | 0 <= i < |t.branches|
      ensures t.branches[i].key != '\0' && !IsSpace(t.branches[i].key) && ValidTrie(t.branches[i].sub)
    {
      var c := t.branches[i].key;
      BuildBranch(ops, depth, i);
      TailsWellFormed(ops, c);
      BuildValid(Tails(ops, c), depth - 1);
    }
  }

  /** Walking the trie of a set matches what the set itself says. */
  lemma {:induction false} BuildMatches(ops: set<string>, depth: nat, input: string, pos: nat)
    requires Bounded(ops, depth) && WellFormedOps(ops)
    ensures MatchTrie(Build(ops, depth), input, pos) == MatchOps(ops, input, pos)
    decreases |input| - pos, 1
  {
    var ch := Peek(input, pos);
    if ch != '\0' && !IsSpace(ch) {
      BuildFind(ops, depth, ch);
      if ch in Firsts(ops) {
        BuildMatchesBranch(ops, depth, input, pos);
      }
    }
  }

  /** The step of `BuildMatches` at a character that starts some spelling. */
  lemma {:induction false} BuildMatchesBranch(ops: set<string>, depth: nat, input: string, pos: nat)
    requires Bounded(ops, depth) && WellFormedOps(ops)
    requires Peek(input, pos) != '\0' && !IsSpace(Peek(input, pos)) && Peek(input, pos) in Firsts(ops)
    ensures MatchTrie(Build(ops, depth), input, pos) == MatchOps(ops, input, pos)
    decreases |input| - pos, 0
  {
    var ch := Peek(input, pos);
    var t := Build(ops, depth);
    BuildFind(ops, depth, ch);
    var i := FindKey(t.branches, ch).value;
    BuildBranch(ops, depth, i);
    TailsWellFormed(ops, ch);
    BuildMatches(Tails(ops, ch), depth - 1, input, pos + 1);
    MatchStep(t, ops, input, pos, i);
  }

  /** A trie and a set that agree after `ch` agree at `ch`. */
  lemma MatchStep(t: Trie, ops: set<string>, input: string, pos: nat, i: nat)
    requires Peek(input, pos) != '\0' && !IsSpace(Peek(input, pos)) && Peek(input, pos) in Firsts(ops)
    requires FindKey(t.branches, Peek(input, pos)) == Some(i)
    requires MatchTrie(t.branches[i].sub, input, pos + 1) == MatchOps(Tails(ops, Peek(input, pos)), input, pos + 1)
    ensures MatchTrie(t, input, pos) == MatchOps(ops, input, pos)
  {
    MatchTrieBranch(t, input, pos, i);
  }

  /** Matching at a character with branch `i` continues in that branch. */
  lemma MatchTrieBranch(t: Trie, input: string, pos: nat, i: nat)
    requires Peek(input, pos) != '\0' && !IsSpace(Peek(input, pos))
    requires FindKey(t.branches, Peek(input, pos)) == Some(i)
    ensures MatchTrie(t, input, pos) == Prepend([Peek(input, pos)], MatchTrie(t.branches[i].sub, input, pos + 1))
  {
  }

  /**
   * The table built for a set, walked by the matcher, finds `w` exactly when `w` is a registered
   * spelling written at `pos` and followed by whitespace; such a `w` is at most `maxLength` long.
   */
  lemma OperatorTableMatches(ops: set<string>, maxLength: nat, input: string, pos: nat, w: string)
    requires WellFormedOps(ops) && Bounded(ops, maxLength)
    ensures ValidTrie(Build(ops, maxLength))
    ensures MatchTrie(Build(ops, maxLength), input, pos) == Some(w) <==> w in ops && OperatorAt(w, input, pos)
    ensures MatchTrie(Build(ops, maxLength), input, pos) == Some(w) ==> |w| <= maxLength
  {
    BuildValid(ops, maxLength);
    BuildMatches(ops, maxLength, input, pos);
    MatchOpsIff(ops, input, pos, w);
  }
  // ---------------------------------------------------------------------------------------
  // What matching means

  /**
   * The matcher's outcome, stated on the operator set: at a whitespace character the match
   * ends if some spelling ends here; at any other character it follows the spellings that
   * continue with that character; NUL (the end of the input) fails.
   */
  function MatchOps(ops: set<string>, input: string, pos: nat): Option<string>
    decreases |input| - pos
  {
    var ch := Peek(input, pos);
    if ch == '\0' then None
    else if IsSpace(ch) then (if "" in ops then Some("") else None)
    else if ch !in Firsts(ops) then None
    else Prepend([ch], MatchOps(Tails(ops, ch), input, pos + 1))
  }

  /** `w` is spelled at `pos` and is followed by whitespace. */
  predicate OperatorAt(w: string, input: string, pos: nat) {
    && (forall i :: 0 <= i < |w| ==> Peek(input, pos + i) == w[i])
    && IsSpace(Peek(input, pos + |w|))
  }

  /** Matching finds `w` exactly when `w` is a registered spelling written at `pos` and followed by whitespace. */
  lemma {:induction false} MatchOpsIff(ops: set<string>, input: string, pos: nat, w: string)
    requires WellFormedOps(ops)
    ensures MatchOps(ops, input, pos) == Some(w) <==> w in ops && OperatorAt(w, input, pos)
    decreases |input| - pos
  {
    var ch := Peek(input, pos);
    if ch != '\0' && !IsSpace(ch) && ch in Firsts(ops) {
      TailsWellFormed(ops, ch);
      if w != [] {
        MatchOpsIff(Tails(ops, ch), input, pos + 1, w[1..]);
        TailsMembership(ops, ch, w[1..]);
        assert w == [w[0]] + w[1..];
        if OperatorAt(w, input, pos) {
          assert Peek(input, pos + 0) == w[0];
          assert OperatorAt(w[1..], input, pos + 1) by {
            forall i | 0 <= i < |w[1..]| ensures Peek(input, pos + 1 + i) == w[1..][i] {
              assert Peek(input, pos + (i + 1)) == w[i + 1];
            }
          }
        }
        if w[0] == ch && OperatorAt(w[1..], input, pos + 1) {
          forall i | 0 <= i < |w| ensures Peek(input, pos + i) == w[i] {
            if i > 0 { assert Peek(input, pos + 1 + (i - 1)) == w[1..][i - 1]; }
          }
        }
      } else {
        assert !OperatorAt(w, input, pos);
      }
    } else {
      OperatorAtStart(w, input, pos);
      FirstsMember(ops, w);
    }
  }

  /** What a spelling written at `pos` says about the character at `pos`. */
  lemma OperatorAtStart(w: string, input: string, pos: nat)
    ensures OperatorAt(w, input, pos) && w == [] ==> IsSpace(Peek(input, pos))
    ensures OperatorAt(w, input, pos) && w != [] ==> Peek(input, pos) == w[0]
  {
    if OperatorAt(w, input, pos) && w != [] {
      assert Peek(input, pos + 0) == w[0];
    }
  }

  lemma FirstsMember(ops: set<string>, w: string)
    ensures w in ops && w != [] && w[0] != '\0' ==> w[0] in Firsts(ops)
  {
  }

  /** At most one registered spelling can be written at a position: the match is the longest one. */
  lemma OperatorAtUnique(ops: set<string>, input: string, pos: nat, w1: string, w2: string)
    requires WellFormedOps(ops)
    requires w1 in ops && OperatorAt(w1, input, pos)
    requires w2 in ops && OperatorAt(w2, input, pos)
    ensures w1 == w2
  {
    MatchOpsIff(ops, input, pos, w1);
    MatchOpsIff(ops, input, pos, w2);
  }

  /** Round trip: every registered spelling followed by whitespace is matched as itself. */
  lemma RoundTrip(ops: set<string>, w: string, ws: char, rest: string)
    requires WellFormedOps(ops) && w in ops && IsSpace(ws)
    ensures MatchOps(ops, w + [ws] + rest, 0) == Some(w)
  {
    var input := w + [ws] + rest;
    assert OperatorAt(w, input, 0) by {
      assert Peek(input, |w|) == ws;
      forall i | 0 <= i < |w| ensures Peek(input, 0 + i) == w[i] { }
    }
    MatchOpsIff(ops, input, 0, w);
  }

  /** The example of longest match: with both `-` and `--` registered, `-- ` is `--`. */
  lemma UnaryLongestMatch()
    ensures MatchOps(UnaryOps, "-- ", 0) == Some("--")
  {
    assert WellFormedOps(UnaryOps);
    RoundTrip(UnaryOps, "--", ' ', "");
    assert "--" + [' '] + "" == "-- ";
  }


  // ---------------------------------------------------------------------------------------
  // The encoder

  /** The first loop of `GenerateOperatorStringWorker`: groups the spellings by first character. */
  method GroupByFirstChar(ops: set<string>) returns (temp: map<char, set<string>>, hasEmpty: bool)
    ensures temp.Keys == Firsts(ops)
    ensures forall c :: c in temp ==> temp[c] == Tails(ops, c)
    ensures hasEmpty <==> HasEnded(ops)
  {
    temp := map[];
    hasEmpty := false;
    var rest := ops;
    ghost var seen: set<string> := {};
    while rest != {}
      invariant seen + rest == ops && seen !! rest
      invariant temp.Keys == Firsts(seen)
      invariant forall c :: c in temp ==> temp[c] == Tails(seen, c)
      invariant hasEmpty <==> HasEnded(seen)
      decreases rest
    {
      var op :| op in rest;
      hasEmpty := hasEmpty || Ended(op);
      if !Ended(op) {
        var c := op[0];
        temp := temp[c := (if c in temp then temp[c] else {}) + {op[1..]}];
      }
      FirstsTailsInsert(seen, op);
      rest := rest - {op};
      seen := seen + {op};
    }
  }

  lemma FirstsTailsInsert(seen: set<string>, op: string)
    ensures Firsts(seen + {op}) == if Ended(op) then Firsts(seen) else Firsts(seen) + {op[0]}
    ensures forall c :: Tails(seen + {op}, c) == if op != "" && op[0] == c then Tails(seen, c) + {op[1..]} else Tails(seen, c)
    ensures HasEnded(seen + {op}) <==> HasEnded(seen) || Ended(op)
  {
  }

  /** The last loop of `GenerateOperatorStringWorker`: the sub-levels appended after the header. */
  method AppendSubEntries(header: seq<int>, subEntries: seq<seq<int>>) returns (result: seq<int>)
    ensures result == header + Flatten(subEntries)
  {
    result := header;
    var i := 0;
    while i < |subEntries|
      invariant 0 <= i <= |subEntries|
      invariant result == header + Flatten(subEntries[..i])
    {
      assert subEntries[..i + 1] == subEntries[..i] + [subEntries[i]];
      FlattenSnoc(subEntries[..i], subEntries[i]);
      result := result + subEntries[i];
      i := i + 1;
    }
    assert subEntries[..i] == subEntries;
  }

  /**
   * `GenerateOperatorStringWorker`: groups the spellings by first character, then, in ascending
   * order of that character, encodes each group's tails one level down and records a pair for it.
   * `depth` bounds the spellings' length and so the recursion.
   */
  method GenerateOperatorStringWorker(ops: set<string>, ghost depth: nat) returns (result: seq<int>)
    requires Bounded(ops, depth)
    ensures result == Serialize(Build(ops, depth))
    decreases depth, 3
  {
    // Organize these by group
    var temp, hasEmpty := GroupByFirstChar(ops);
    ghost var cs := SortedChars(Firsts(ops));
    assert |temp| == |temp.Keys| == |cs|;
    // The size of our current level, plus an extra for the terminal pair and the sentinel.
    var H := HeaderSize(|temp|, hasEmpty);
    var pairs, subEntries := EncodeGroups(temp, ops, depth, H);
    // A space, indicating the end, and no offset to a next level; then the sentinel ending this level.
    var header := pairs + (if hasEmpty then [' ' as int, 0] else []) + [0];
    result := AppendSubEntries(header, subEntries);
    LevelAssembled(ops, depth, hasEmpty, pairs, subEntries, header, result);
  }

  /** The header, then the sub-levels: the table of the set. */
  lemma LevelAssembled(ops: set<string>, depth: nat, hasEmpty: bool, pairs: seq<int>, subEntries: seq<seq<int>>,
                       header: seq<int>, result: seq<int>)
    requires Bounded(ops, depth) && (hasEmpty <==> HasEnded(ops))
    requires var cs := SortedChars(Firsts(ops));
             && subEntries == SerializeAll(Branches(ops, cs, depth))
             && pairs == Pairs(cs, subEntries, HeaderSize(|cs|, hasEmpty))
    requires header == pairs + (if hasEmpty then [' ' as int, 0] else []) + [0]
    requires result == header + Flatten(subEntries)
    ensures result == Serialize(Build(ops, depth))
  {
    var cs := SortedChars(Firsts(ops));
    LevelConcat(cs, subEntries, hasEmpty, pairs, header, result);
    BuildIsLevel(ops, depth);
  }

  lemma LevelConcat(cs: seq<char>, subs: seq<seq<int>>, hasEmpty: bool, pairs: seq<int>, header: seq<int>, result: seq<int>)
    requires |cs| == |subs| && pairs == Pairs(cs, subs, HeaderSize(|cs|, hasEmpty))
    requires header == pairs + (if hasEmpty then [' ' as int, 0] else []) + [0]
    requires result == header + Flatten(subs)
    ensures result == Level(cs, subs, hasEmpty)
  {
    var x := if hasEmpty then [' ' as int, 0] else [];
    assert pairs + x + [0] == pairs + (x + [0]);
  }

  /** The middle loop of `GenerateOperatorStringWorker`: one pair and one sub-level per group, in ascending order. */
  method EncodeGroups(temp: map<char, set<string>>, ghost ops: set<string>, ghost depth: nat, H: int)
    returns (pairs: seq<int>, subEntries: seq<seq<int>>)
    requires Bounded(ops, depth)
    requires temp.Keys == Firsts(ops) && forall c :: c in temp ==> temp[c] == Tails(ops, c)
    ensures subEntries == SerializeAll(Branches(ops, SortedChars(Firsts(ops)), depth))
    ensures pairs == Pairs(SortedChars(Firsts(ops)), subEntries, H)
    decreases depth, 2
  {
    ghost var cs := SortedChars(Firsts(ops));
    ghost var subs := SerializeAll(Branches(ops, cs, depth));
    var relativeOffsetToNext := H;
    subEntries := [];
    var keys := temp.Keys;
    pairs := [];
    assert cs[..0] == [];
    while keys != {}
      invariant |subEntries| <= |cs| && keys <= Firsts(ops)
      invariant SortedChars(keys) == cs[|subEntries|..]
      invariant subEntries == subs[..|subEntries|]
      invariant pairs == Pairs(cs[..|subEntries|], subEntries, H)
      invariant relativeOffsetToNext == H + |Flatten(subEntries)|
      decreases keys
    {
      pairs, subEntries, relativeOffsetToNext, keys :=
        EncodeNext(temp, ops, depth, cs, subs, H, pairs, subEntries, relativeOffsetToNext, keys);
    }
    assert |subEntries| == |cs|;
    assert cs[..|subEntries|] == cs && subs[..|subEntries|] == subs;
  }

  /** One turn of the middle loop: the group of the smallest remaining first character. */
  method EncodeNext(temp: map<char, set<string>>, ghost ops: set<string>, ghost depth: nat, ghost cs: seq<char>,
                    ghost subs: seq<seq<int>>, H: int, pairs: seq<int>, subEntries: seq<seq<int>>, offset: int, keys: set<char>)
    returns (pairs': seq<int>, subEntries': seq<seq<int>>, offset': int, keys': set<char>)
    requires Bounded(ops, depth) && cs == SortedChars(Firsts(ops)) && subs == SerializeAll(Branches(ops, cs, depth))
    requires temp.Keys == Firsts(ops) && forall c :: c in temp ==> temp[c] == Tails(ops, c)
    requires keys != {} && |subEntries| <= |cs| && keys <= Firsts(ops)
    requires SortedChars(keys) == cs[|subEntries|..]
    requires subEntries == subs[..|subEntries|]
    requires pairs == Pairs(cs[..|subEntries|], subEntries, H)
    requires offset == H + |Flatten(subEntries)|
    ensures keys' < keys
    ensures |subEntries'| <= |cs| && keys' <= Firsts(ops)
    ensures SortedChars(keys') == cs[|subEntries'|..]
    ensures subEntries' == subs[..|subEntries'|]
    ensures pairs' == Pairs(cs[..|subEntries'|], subEntries', H)
    ensures offset' == H + |Flatten(subEntries')|
    decreases depth, 1
  {
    ghost var k := |subEntries|;
    MinCharLeast(keys);
    var c :| c in keys && forall x :: x in keys ==> c <= x;
    NextSmallest(keys, c, cs, k);
    var subEntry := EncodeGroup(temp[c], ops, c, depth);
    BranchesAt(ops, cs, depth, k);
    GroupsStep(cs, subs, k, c, pairs, subEntries, subEntry, H, offset);
    pairs' := pairs + [c as int, offset];
    offset' := offset + |subEntry|;
    subEntries' := subEntries + [subEntry];
    keys' := keys - {c};
  }


  /** The smallest remaining key is the next character of the ascending listing. */
  lemma NextSmallest(keys: set<char>, c: char, cs: seq<char>, k: nat)
    requires k <= |cs| && SortedChars(keys) == cs[k..]
    requires c in keys && forall x :: x in keys ==> c <= x
    ensures k < |cs| && c == cs[k] && SortedChars(keys - {c}) == cs[k + 1..]
  {
    SortedCharsMin(keys, c);
    var tail := cs[k..];
    assert tail == [c] + SortedChars(keys - {c});
    assert cs[k] == tail[0];
    assert cs[k + 1..] == tail[1..];
  }

  /** Appending one group's pair and sub-level keeps the pairs and sub-levels in step with the listing. */
  lemma GroupsStep(cs: seq<char>, subs: seq<seq<int>>, k: nat, c: char, pairs: seq<int>, subEntries: seq<seq<int>>,
                   subEntry: seq<int>, H: int, offset: int)
    requires |cs| == |subs| && k < |cs| && c == cs[k]
    requires subEntries == subs[..k] && subEntry == subs[k]
    requires pairs == Pairs(cs[..k], subEntries, H)
    requires offset == H + |Flatten(subEntries)|
    ensures subEntries + [subEntry] == subs[..k + 1]
    ensures pairs + [c as int, offset] == Pairs(cs[..k + 1], subEntries + [subEntry], H)
    ensures |Flatten(subEntries + [subEntry])| == |Flatten(subEntries)| + |subEntry|
  {
    PairsSnoc(cs[..k], subEntries, cs[k], subEntry, H);
    assert cs[..k + 1] == cs[..k] + [cs[k]];
    assert subs[..k + 1] == subs[..k] + [subEntry];
    FlattenSnoc(subEntries, subEntry);
  }

  /** The recursive step of `GenerateOperatorStringWorker`: the sub-level of one group. */
  method EncodeGroup(group: set<string>, ghost ops: set<string>, ghost c: char, ghost depth: nat)
    returns (subEntry: seq<int>)
    requires Bounded(ops, depth) && c in Firsts(ops) && group == Tails(ops, c)
    ensures depth > 0 && Bounded(group, depth - 1)
    ensures subEntry == Serialize(Build(group, depth - 1))
    decreases depth, 0
  {
    FirstsNeedDepth(ops, depth, c);
    TailsBounded(ops, depth, c);
    subEntry := GenerateOperatorStringWorker(group, depth - 1);
  }

  // ---------------------------------------------------------------------------------------
  // The matcher

  /** The table `S` sits at `start` in `table`. */
  predicate Contains(table: seq<int>, start: int, S: seq<int>) {
    0 <= start && start + |S| <= |table| && forall i {:trigger S[i]} :: 0 <= i < |S| ==> table[start + i] == S[i]
  }

  /** The header of a trie's level, where its table sits in a larger table. */
  lemma SerializeHeader(t: Trie, table: seq<int>, start: int)
    requires ValidTrie(t) && Contains(table, start, Serialize(t))
    ensures Header(table, start, t.branches, if t.hasEmpty then 1 else 0)
  {
    SerializeHeaderEnd(t);
    forall i | 0 <= i < |t.branches|
      ensures table[start + 2 * i] == t.branches[i].key as int
    {
      TrieEntryAt(t, table, start, i);
    }
  }

  /** The end of a trie's header: the optional terminal pair, then the sentinel. */
  lemma SerializeHeaderEnd(t: Trie)
    ensures var n := |t.branches|;
            var e := if t.hasEmpty then 1 else 0;
            var S := Serialize(t);
            && |S| > 2 * (n + e)
            && S[2 * (n + e)] == 0
            && (t.hasEmpty ==> S[2 * n] == ' ' as int)
  {
    SerializeIsLevel(t);
    LevelHeaderEnd(Keys(t.branches), SerializeAll(t.branches), t.hasEmpty);
  }

  /** Pair `j` of a trie's table, and the table of its sub-trie, where it sits in a larger table. */
  lemma TrieEntryAt(t: Trie, table: seq<int>, start: int, j: nat)
    requires Contains(table, start, Serialize(t)) && j < |t.branches|
    ensures table[start + 2 * j] == t.branches[j].key as int && 0 < table[start + 2 * j + 1]
    ensures Contains(table, start + table[start + 2 * j + 1], Serialize(t.branches[j].sub))
  {
    SerializeIsLevel(t);
    LevelEntryAt(table, start, Keys(t.branches), SerializeAll(t.branches), t.hasEmpty, j);
  }

  /** Pair `j` of a level, and its sub-level, where the level sits in a larger table. */
  lemma LevelEntryAt(table: seq<int>, start: int, cs: seq<char>, subs: seq<seq<int>>, hasEmpty: bool, j: nat)
    requires |cs| == |subs| && j < |cs| && Contains(table, start, Level(cs, subs, hasEmpty))
    ensures table[start + 2 * j] == cs[j] as int && 0 < table[start + 2 * j + 1]
    ensures Contains(table, start + table[start + 2 * j + 1], subs[j])
  {
    LevelEntry(cs, subs, hasEmpty, j);
    ContainsEntry(table, start, Level(cs, subs, hasEmpty), 2 * j);
    var off := table[start + 2 * j + 1];
    ContainsShift(table, start, Level(cs, subs, hasEmpty), off, subs[j]);
  }

  /** The pair at `k` of a table held inside a larger one. */
  lemma ContainsEntry(table: seq<int>, start: int, S: seq<int>, k: nat)
    requires Contains(table, start, S) && k + 1 < |S|
    ensures table[start + k] == S[k] && table[start + k + 1] == S[k + 1]
  {
  }

  /** A slice of a table held inside a larger one is held there too, further on. */
  lemma ContainsShift(table: seq<int>, start: int, S: seq<int>, off: int, sub: seq<int>)
    requires Contains(table, start, S) && 0 <= off && off + |sub| <= |S| && S[off..off + |sub|] == sub
    ensures Contains(table, start + off, sub)
  {
    forall i | 0 <= i < |sub| ensures table[start + off + i] == sub[i] {
      assert S[off..off + |sub|][i] == sub[i];
    }
  }


  /** The facts about a level's header, at `start` in the table, that the scan over it relies on. */
  predicate Header(table: seq<int>, start: int, bs: seq<Branch>, e: nat) {
    && e <= 1
    && 0 <= start && start + 2 * (|bs| + e) < |table|
    && table[start + 2 * (|bs| + e)] == 0
    && (e == 1 ==> table[start + 2 * |bs|] == ' ' as int)
    && (forall i :: 0 <= i < |bs| ==> table[start + 2 * i] == bs[i].key as int && bs[i].key != '\0' && !IsSpace(bs[i].key))
  }

  /**
   * The inner loop of `SCIOptimizedOperatorP`: steps over the header's pairs until the entry for
   * `ch`, the terminal pair when `ch` is whitespace, or the sentinel. `j` counts the pairs passed.
   */
  method ScanLevel(table: seq<int>, start: int, ch: char, ghost bs: seq<Branch>, ghost e: nat) returns (idx: int, ghost j: nat)
    requires Header(table, start, bs, e)
    ensures idx == start + 2 * j && 0 <= idx < |table|
    ensures table[idx] == ' ' as int ==> j == |bs| && e == 1 && IsSpace(ch)
    ensures table[idx] != 0 && table[idx] != ' ' as int ==>
              j < |bs| && bs[j].key == ch && forall i :: 0 <= i < j ==> bs[i].key != ch
    ensures table[idx] == 0 ==> (forall i :: 0 <= i < |bs| ==> bs[i].key != ch) && (e == 1 ==> !IsSpace(ch))
  {
    idx := start;
    j := 0;
    //   not at end        not equal to char        and isn't end of op
    while table[idx] != 0 && ch as int != table[idx] && (table[idx] != ' ' as int || !IsSpace(ch))
      invariant j <= |bs| + e && idx == start + 2 * j
      invariant table[idx] == if j < |bs| then bs[j].key as int else if j == |bs| && e == 1 then ' ' as int else 0
      invariant forall i :: 0 <= i < j && i < |bs| ==> bs[i].key != ch
      invariant j == |bs| + 1 ==> !IsSpace(ch)
      decreases |bs| + e - j
    {
      idx := idx + 2;
      j := j + 1;
    }
  }

  /** One step down the table: the facts the matcher keeps, for the branch of `ch`. */
  lemma AdvanceLevel(table: seq<int>, start: int, t: Trie, j: nat, ch: char, idx: int,
                     input: string, p: nat, prefix: string, goal: Option<string>)
    returns (next: Trie)
    requires Scanning(table, start, t, input, p, prefix, goal)
    requires j < |t.branches| && t.branches[j].key == ch && idx == start + 2 * j
    requires forall i :: 0 <= i < j ==> t.branches[i].key != ch
    requires ch == Peek(input, p)
    ensures next == t.branches[j].sub
    ensures 0 <= idx + 1 < |table| && Scanning(table, start + table[idx + 1], next, input, p + 1, prefix + [ch], goal)
  {
    next := t.branches[j].sub;
    TrieEntryAt(t, table, start, j);
    MatchTrieStep(t, j, ch, input, p, prefix);
  }

  /** Whitespace where some spelling ends: the match is what has been read so far. */
  /**
   * The matcher's state: the table of the trie level `t` sits at `start`, `prefix` is what has
   * been matched so far, and the overall result `goal` is `prefix` followed by what `t` matches.
   */
  ghost predicate Scanning(table: seq<int>, start: int, t: Trie, input: string, p: nat, prefix: string, goal: Option<string>) {
    ValidTrie(t) && Contains(table, start, Serialize(t)) && goal == Prepend(prefix, MatchTrie(t, input, p))
  }

  lemma MatchTrieTerminal(t: Trie, ch: char, input: string, p: nat, prefix: string, goal: Option<string>)
    requires ch == Peek(input, p) && ch != '\0' && IsSpace(ch) && t.hasEmpty
    requires goal == Prepend(prefix, MatchTrie(t, input, p))
    ensures goal == Some(prefix)
  {
    assert prefix + "" == prefix;
  }

  /** A character with no branch, and no terminal pair for it: no match. */
  lemma MatchTrieMiss(t: Trie, ch: char, input: string, p: nat, prefix: string, goal: Option<string>)
    requires ch == Peek(input, p)
    requires forall i :: 0 <= i < |t.branches| ==> t.branches[i].key != ch
    requires t.hasEmpty ==> !IsSpace(ch)
    requires goal == Prepend(prefix, MatchTrie(t, input, p))
    ensures goal == None
  {
    FindKeyFirst(t.branches, ch);
  }

  /** The end of the input: no match. */
  lemma MatchTrieEnd(t: Trie, input: string, p: nat, prefix: string, goal: Option<string>)
    requires Peek(input, p) == '\0' && goal == Prepend(prefix, MatchTrie(t, input, p))
    ensures goal == None
  {
  }

  /** Matching at a character with a branch continues in that branch. */
  lemma MatchTrieStep(t: Trie, j: nat, ch: char, input: string, p: nat, prefix: string)
    requires j < |t.branches| && t.branches[j].key == ch
    requires forall i :: 0 <= i < j ==> t.branches[i].key != ch
    requires ch == Peek(input, p) && ch != '\0' && !IsSpace(ch)
    ensures Prepend(prefix, MatchTrie(t, input, p)) == Prepend(prefix + [ch], MatchTrie(t.branches[j].sub, input, p + 1))
  {
    FindKeyFirst(t.branches, ch);
    assert FindKey(t.branches, ch) == Some(j);
    var rest := MatchTrie(t.branches[j].sub, input, p + 1);
    if rest.Some? {
      assert prefix + ([ch] + rest.value) == (prefix + [ch]) + rest.value;
    }
  }

  /**
   * `SCIOptimizedOperatorP`: walks the table of `t` over the input from `pos`. On success the
   * scratch register holds the operator and the cursor stops on the whitespace after it;
   * on failure the scratch register keeps `scratchIn` and the cursor stays on the character
   * where matching stopped.
   */
  method SCIOptimizedOperatorP(table: seq<int>, ghost t: Trie, input: string, pos: nat, scratchIn: string)
    returns (ok: bool, scratch: string, end: nat)
    requires ValidTrie(t) && Contains(table, 0, Serialize(t))
    ensures ok <==> MatchTrie(t, input, pos).Some?
    ensures ok ==> scratch == MatchTrie(t, input, pos).value && end == pos + |scratch|
    ensures !ok ==> scratch == scratchIn && pos <= end
  {
    var currentdb := 0;
    var buildOperator := "";
    var p := pos;
    ghost var level := t;
    ghost var goal := MatchTrie(t, input, pos);
    PrependNothing(goal);
    while Peek(input, p) != '\0'
      invariant p == pos + |buildOperator|
      // Compared with `true` so the state is kept as one fact rather than split into its parts.
      invariant Scanning(table, currentdb, level, input, p, buildOperator, goal) == true
      decreases |input| - p
    {
      var ch := Peek(input, p);
      var currentDbStart := currentdb;
      SerializeHeader(level, table, currentDbStart);
      ghost var j;
      currentdb, j := ScanLevel(table, currentDbStart, ch, level.branches, if level.hasEmpty then 1 else 0);
      if table[currentdb] != 0 {
        if table[currentdb] == ' ' as int {
          MatchTrieTerminal(level, ch, input, p, buildOperator, goal);
          return true, buildOperator, p;
        }
        level := AdvanceLevel(table, currentDbStart, level, j, ch, currentdb, input, p, buildOperator, goal);
        buildOperator := buildOperator + [ch];
        // Adjust offset and continue with the next character
        var offset := table[currentdb + 1];
        currentdb := currentDbStart + offset;
      } else {
        // Not a match
        MatchTrieMiss(level, ch, input, p, buildOperator, goal);
        return false, scratchIn, p;
      }
      p := p + 1;
    }
    MatchTrieEnd(level, input, p, buildOperator, goal);
    return false, scratchIn, p;
  }

  /**
   * An operator parser as the grammar sets one up: `operator_p` over the table that
   * `GenerateOperatorString` makes from a set of spellings. It succeeds exactly when one of
   * the spellings is written at `pos` and followed by whitespace; it then holds that spelling
   * in the scratch register and stops on the whitespace after it.
   */
  method GeneratedOperatorP(ops: set<string>, input: string, pos: nat, scratchIn: string)
    returns (ok: bool, scratch: string, end: nat)
    requires WellFormedOps(ops) && Bounded(ops, MaxOpLength)
    ensures ok <==> exists w :: w in ops && OperatorAt(w, input, pos)
    ensures ok ==> scratch in ops && OperatorAt(scratch, input, pos) && end == pos + |scratch|
    ensures !ok ==> scratch == scratchIn
  {
    var table := GenerateOperatorStringWorker(ops, MaxOpLength);
    ghost var t := Build(ops, MaxOpLength);
    OperatorTableMatches(ops, MaxOpLength, input, pos, "");
    ok, scratch, end := SCIOptimizedOperatorP(table, t, input, pos, scratchIn);
    if ok {
      OperatorTableMatches(ops, MaxOpLength, input, pos, scratch);
    } else if w :| w in ops && OperatorAt(w, input, pos) {
      OperatorTableMatches(ops, MaxOpLength, input, pos, w);
      assert false;
    }
  }
}
