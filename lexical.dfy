/**
 * The hand-written recognisers of the SCI script grammar: selectors (identifiers), the
 * keyword-filtering name parsers built on them, `name:`/`name?` send selectors, non-zero
 * integers and single operator literals. A recogniser reads the text `input` from the cursor
 * `pos` (the stream iterator), and returns whether it matched, the scratch string it left
 * behind and where it left the cursor.
 */
module Lexical {
  import opened Chars
  import opened Wrappers
  import OperatorTrie

  // ---------------------------------------------------------------------------------------
  // Selectors

  /** A selector may start with a letter, `_` or `-`. */
  predicate SelectorStart(c: char) {
    IsAlpha(c) || c == '_' || c == '-'
  }

  /** After the first character, letters, digits, `_` and `-`. */
  predicate SelectorChar(c: char) {
    IsAlnum(c) || c == '_' || c == '-'
  }

  /** The end of the run of selector characters that starts at `p`. */
  function RunEnd(input: string, p: nat): (e: nat)
    ensures p <= e && (p <= |input| ==> e <= |input|)
    decreases |input| - p
  {
    if SelectorChar(Peek(input, p)) then RunEnd(input, p + 1) else p
  }

  /** Where `SelectorP` leaves the cursor: past the whole run, or where it was if the first character cannot start one. */
  function SelectorEnd(input: string, pos: nat): (e: nat)
    ensures pos <= e && (pos <= |input| ==> e <= |input|)
  {
    if SelectorStart(Peek(input, pos)) then RunEnd(input, pos + 1) else pos
  }

  predicate HasAlpha(s: string) {
    exists i :: 0 <= i < |s| && IsAlpha(s[i])
  }

  lemma HasAlphaSnoc(s: string, c: char)
    ensures HasAlpha(s + [c]) <==> HasAlpha(s) || IsAlpha(c)
  {
    var t := s + [c];
    if IsAlpha(c) {
      assert t[|s|] == c;
    }
    if HasAlpha(s) {
      var i :| 0 <= i < |s| && IsAlpha(s[i]);
      assert t[i] == s[i];
    }
    if HasAlpha(t) {
      var i :| 0 <= i < |t| && IsAlpha(t[i]);
      if i < |s| { assert s[i] == t[i]; }
    }
  }

  /**
   * `e` ends the selector that starts at `pos`: a start character and then selector characters,
   * with the character at `e` not one of them; or nothing at all if no selector starts at `pos`.
   */
  predicate SelectorSpan(input: string, pos: nat, e: nat) {
    && pos <= e <= |input|
    && (e == pos ==> !SelectorStart(Peek(input, pos)))
    && (e > pos ==>
          && SelectorStart(input[pos])
          && (forall i :: pos < i < e ==> SelectorChar(input[i]))
          && !SelectorChar(Peek(input, e)))
  }

  /** The run's end is the one position after which no selector character follows. */
  lemma {:induction false} RunEndIff(input: string, p: nat, e: nat)
    requires p <= |input|
    ensures RunEnd(input, p) == e <==>
              p <= e <= |input| && (forall i :: p <= i < e ==> SelectorChar(input[i])) && !SelectorChar(Peek(input, e))
    decreases |input| - p
  {
    if SelectorChar(Peek(input, p)) {
      RunEndIff(input, p + 1, e);
      if p <= e <= |input| && (forall i :: p <= i < e ==> SelectorChar(input[i])) && !SelectorChar(Peek(input, e)) {
        assert e != p;
      }
    } else {
      assert p < |input| ==> Peek(input, p) == input[p];
    }
  }

  /** `SelectorEnd` is exactly the end of the maximal selector run. */
  lemma SelectorEndIff(input: string, pos: nat, e: nat)
    requires pos <= |input|
    ensures SelectorEnd(input, pos) == e <==> SelectorSpan(input, pos, e)
  {
    if SelectorStart(Peek(input, pos)) {
      assert pos < |input|;
      RunEndIff(input, pos + 1, e);
    }
  }

  /** `SelectorP`: scan a selector into the scratch string; it must contain a letter. */
  method SelectorP(input: string, pos: nat) returns (ok: bool, scratch: string, end: nat)
    requires pos <= |input|
    ensures end == SelectorEnd(input, pos) && pos <= end <= |input|
    ensures scratch == input[pos..end]
    ensures ok <==> HasAlpha(scratch)
  {
    var fRet := false;
    scratch := "";
    end := pos;
    var ch := Peek(input, end);
    var hadAlpha := IsAlpha(ch);
    if hadAlpha || ch == '_' || ch == '-' {
      fRet := true;
      HasAlphaSnoc(scratch, ch);
      scratch := scratch + [ch];
      end := end + 1;
      ch := Peek(input, end);
      while IsAlnum(ch) || ch == '_' || ch == '-'
        invariant pos < end <= |input| && scratch == input[pos..end] && ch == Peek(input, end)
        invariant RunEnd(input, pos + 1) == RunEnd(input, end)
        invariant hadAlpha <==> HasAlpha(scratch)
        decreases |input| - end
      {
        hadAlpha := hadAlpha || IsAlpha(ch);
        fRet := true;
        assert input[pos..end + 1] == scratch + [ch];
        HasAlphaSnoc(scratch, ch);
        scratch := scratch + [ch];
        end := end + 1;
        ch := Peek(input, end);
      }
    }
    ok := fRet && hadAlpha;
  }

  // ---------------------------------------------------------------------------------------
  // Keyword lists

  /**
   * The statement keywords, used to improve syntax error messages. The source keeps both lists
   * as vectors searched with `std::find`; only membership matters, so they are sets here.
   */
  const SCIStatementKeywords: set<string> :=
    {"if", "asm", "break", "breakif", "continue", "contif", "repeat", "switch", "switchto",
     "for", "return", "cond", "while", "define"}

  /**
   * The reserved words as the C++ compiler builds the list, assuming a build that defines
   * `ENABLE_FOREACH` and `ENABLE_VERBS` but not `ENABLE_EXISTS` or `ENABLE_GETPOLY` (so `foreach`
   * and `verbs` are reserved, `&exists` and `&getpoly` are not). Five entries lack their comma, so adjacent literals are joined:
   * `"class#classdefcond"`, `"externfile#for"`, `"globalif"`, `"methodsmod"` and
   * `"selectorssuper#super"` are entries, and `cond`, `for`, `if`, `mod` and `super` are not.
   */
  const SCIKeywords: set<string> :=
    {"&tmp", "&rest", "&sizeof", "and", "asm", "break", "breakif", "class#classdefcond",
     "continue", "contif", "define", "else", "externfile#for", "foreach", "globalif", "method",
     "methodsmod", "not", "of", "or", "procedure", "properties", "public", "repeat", "return",
     "script#", "selectorssuper#super", "switch", "switchto", "text#", "verbs", "while"}

  /** The joined literals: five words meant to be reserved are not. */
  lemma KeywordListAsCompiled()
    ensures "class#classdefcond" in SCIKeywords && "selectorssuper#super" in SCIKeywords
    ensures "externfile#for" in SCIKeywords && "globalif" in SCIKeywords && "methodsmod" in SCIKeywords
    ensures "cond" !in SCIKeywords && "for" !in SCIKeywords && "if" !in SCIKeywords
    ensures "mod" !in SCIKeywords && "super" !in SCIKeywords
  {
  }

  // ---------------------------------------------------------------------------------------
  // Keyword-filtering name parsers

  /** The character after the selector is not a send terminator. */
  predicate Unterminated(input: string, e: nat) {
    Peek(input, e) != ':' && Peek(input, e) != '?'
  }

  /** Neither a reserved word nor one of the context's extra keywords, when it has a set of them. */
  predicate NotKeyword(s: string, extraKeywords: Option<set<string>>) {
    s !in SCIKeywords && (extraKeywords.Some? ==> s !in extraKeywords.value)
  }

  /** What `AlphanumPNoKeywordOrTerm` accepts. */
  predicate NoKeywordOrTerm(input: string, pos: nat, extraKeywords: Option<set<string>>)
    requires pos <= |input|
  {
    var e := SelectorEnd(input, pos);
    HasAlpha(input[pos..e]) && Unterminated(input, e) && NotKeyword(input[pos..e], extraKeywords)
  }

  /** What `AlphanumPSendTokenOrTerm` accepts: `send` and `super` pass the keyword check. */
  predicate SendTokenOrTerm(input: string, pos: nat, extraKeywords: Option<set<string>>)
    requires pos <= |input|
  {
    var e := SelectorEnd(input, pos);
    var s := input[pos..e];
    HasAlpha(s) && Unterminated(input, e) && (s == "send" || s == "super" || NotKeyword(s, extraKeywords))
  }

  method AlphanumPNoKeywordOrTerm(input: string, pos: nat, extraKeywords: Option<set<string>>)
    returns (ok: bool, scratch: string, end: nat)
    requires pos <= |input|
    ensures end == SelectorEnd(input, pos) && scratch == input[pos..end]
    ensures ok <==> NoKeywordOrTerm(input, pos, extraKeywords)
  {
    ok, scratch, end := SelectorP(input, pos);
    if ok {
      var chTerm := Peek(input, end);
      ok := chTerm != ':' && chTerm != '?';
      if ok {
        ok := scratch !in SCIKeywords;
        if ok && extraKeywords.Some? {
          ok := scratch !in extraKeywords.value;
        }
      }
    }
  }

  /** The same, ignoring the extra keywords. */
  method AlphanumPNoKeywordOrTerm2(input: string, pos: nat) returns (ok: bool, scratch: string, end: nat)
    requires pos <= |input|
    ensures end == SelectorEnd(input, pos) && scratch == input[pos..end]
    ensures ok <==> NoKeywordOrTerm(input, pos, None)
  {
    ok, scratch, end := SelectorP(input, pos);
    if ok {
      var chTerm := Peek(input, end);
      ok := chTerm != ':' && chTerm != '?';
      if ok {
        ok := scratch !in SCIKeywords;
      }
    }
  }

  method AlphanumPSendTokenOrTerm(input: string, pos: nat, extraKeywords: Option<set<string>>)
    returns (ok: bool, scratch: string, end: nat)
    requires pos <= |input|
    ensures end == SelectorEnd(input, pos) && scratch == input[pos..end]
    ensures ok <==> SendTokenOrTerm(input, pos, extraKeywords)
  {
    ok, scratch, end := SelectorP(input, pos);
    if ok {
      var chTerm := Peek(input, end);
      ok := chTerm != ':' && chTerm != '?';
      if ok {
        if scratch != "send" && scratch != "super" {
          ok := scratch !in SCIKeywords;
          if ok && extraKeywords.Some? {
            ok := scratch !in extraKeywords.value;
          }
        }
      }
    }
  }

  /**
   * The send-token parser accepts everything the plain one does, and differs from it only on
   * `send` or `super` listed among the extra keywords: neither word is in `SCIKeywords`.
   */
  lemma SendTokenOnlyAddsSendSuper(input: string, pos: nat, extraKeywords: Option<set<string>>)
    requires pos <= |input|
    ensures NoKeywordOrTerm(input, pos, extraKeywords) ==> SendTokenOrTerm(input, pos, extraKeywords)
    ensures SendTokenOrTerm(input, pos, extraKeywords) != NoKeywordOrTerm(input, pos, extraKeywords) ==>
              var s := input[pos..SelectorEnd(input, pos)];
              (s == "send" || s == "super") && extraKeywords.Some? && s in extraKeywords.value
  {
    KeywordListAsCompiled();
    assert "send" !in SCIKeywords;
  }

  // ---------------------------------------------------------------------------------------
  // Send selectors: `foo:` and `foo?`

  /** What `SelectorP_Term<terminator>` accepts: a selector immediately followed by the terminator. */
  predicate SelectorTerm(input: string, pos: nat, terminator: char)
    requires pos <= |input|
  {
    var e := SelectorEnd(input, pos);
    HasAlpha(input[pos..e]) && Peek(input, e) == terminator
  }

  method SelectorP_Term(terminator: char, input: string, pos: nat) returns (ok: bool, scratch: string, end: nat)
    requires pos <= |input| && terminator != '\0'
    ensures scratch == input[pos..SelectorEnd(input, pos)]
    ensures ok <==> SelectorTerm(input, pos, terminator)
    ensures end == if ok then SelectorEnd(input, pos) + 1 else SelectorEnd(input, pos)
    ensures ok ==> end <= |input| && input[pos..end] == scratch + [terminator]
  {
    ok, scratch, end := SelectorP(input, pos);
    ok := ok && Peek(input, end) == terminator;
    if ok {
      assert input[pos..end + 1] == input[pos..end] + [input[end]];
      end := end + 1; // Skip over our terminator
    }
  }

  /** A name, a `name:` send selector and a `name?` property get never match at the same place. */
  lemma NameFormsExclusive(input: string, pos: nat, extraKeywords: Option<set<string>>)
    requires pos <= |input|
    ensures !(SelectorTerm(input, pos, ':') && SelectorTerm(input, pos, '?'))
    ensures SelectorTerm(input, pos, ':') || SelectorTerm(input, pos, '?') ==>
              !NoKeywordOrTerm(input, pos, extraKeywords) && !SendTokenOrTerm(input, pos, extraKeywords)
  {
  }

  // ---------------------------------------------------------------------------------------
  // Integers and operator literals

  /**
   * `IntegerNonZeroP`, given the outcome of the integer parser it wraps (not part of this
   * model): it succeeds on a non-zero value, and reports an error on zero.
   */
  function IntegerNonZeroP(parsed: Option<int>): (r: (bool, Option<string>))
    ensures r.0 <==> parsed.Some? && parsed.value != 0
    ensures r.1.Some? <==> parsed == Some(0)
    ensures r.1.Some? ==> r.1.value == "Expected non-zero integer."
  {
    if parsed.None? then (false, None)
    else if parsed.value != 0 then (true, None)
    else (false, Some("Expected non-zero integer."))
  }

  /** How many leading characters of `lit` are spelled at `pos`, counting on from `k`. */
  function AgreeFrom(lit: string, input: string, pos: nat, k: nat): (n: nat)
    requires k <= |lit|
    ensures k <= n <= |lit|
    decreases |lit| - k
  {
    if k < |lit| && Peek(input, pos + k) == lit[k] then AgreeFrom(lit, input, pos, k + 1) else k
  }

  /** The length of the longest prefix of `lit` spelled at `pos`. */
  function Agree(lit: string, input: string, pos: nat): nat {
    AgreeFrom(lit, input, pos, 0)
  }

  /** `Agree` counts exactly the matching prefix: all of it matches, and the next character (if any) does not. */
  lemma {:induction false} AgreeFromIff(lit: string, input: string, pos: nat, k: nat)
    requires k <= |lit| && forall i :: 0 <= i < k ==> Peek(input, pos + i) == lit[i]
    ensures var n := AgreeFrom(lit, input, pos, k);
            && (forall i :: 0 <= i < n ==> Peek(input, pos + i) == lit[i])
            && (n < |lit| ==> Peek(input, pos + n) != lit[n])
    decreases |lit| - k
  {
    if k < |lit| && Peek(input, pos + k) == lit[k] {
      AgreeFromIff(lit, input, pos, k + 1);
    }
  }

  /**
   * `SCIOperatorP` for one operator literal `lit` (a C string: no NUL inside): the cursor moves
   * over the agreeing prefix; on a full match the scratch string becomes `lit` and the result
   * is whether whitespace follows.
   */
  method SCIOperatorP(lit: string, input: string, pos: nat, scratchIn: string)
    returns (ok: bool, scratch: string, end: nat)
    requires forall i :: 0 <= i < |lit| ==> lit[i] != '\0'
    ensures end == pos + Agree(lit, input, pos)
    ensures scratch == if Agree(lit, input, pos) == |lit| then lit else scratchIn
    ensures ok <==> OperatorTrie.OperatorAt(lit, input, pos)
  {
    var k := 0;
    end := pos;
    while k < |lit| && Peek(input, end) == lit[k]
      invariant k <= |lit| && end == pos + k
      invariant AgreeFrom(lit, input, pos, k) == Agree(lit, input, pos)
      decreases |lit| - k
    {
      end := end + 1;
      k := k + 1;
    }
    AgreeFromIff(lit, input, pos, 0);
    if k == |lit| {
      scratch := lit;
      ok := IsSpace(Peek(input, end));
    } else {
      scratch := scratchIn;
      ok := false;
      assert Peek(input, pos + k) != lit[k];
    }
  }

  /** A literal operator matches exactly where the operator table holding only that spelling matches it. */
  lemma LiteralAgreesWithTable(lit: string, input: string, pos: nat)
    requires forall i :: 0 <= i < |lit| ==> lit[i] != '\0' && !IsSpace(lit[i])
    ensures OperatorTrie.MatchOps({lit}, input, pos) == Some(lit) <==> OperatorTrie.OperatorAt(lit, input, pos)
  {
    OperatorTrie.MatchOpsIff({lit}, input, pos, lit);
  }

  // ---------------------------------------------------------------------------------------
  // Tokens for error messages

  /** `ExtractSomeToken` stops at NUL, whitespace and parentheses. */
  predicate TokenChar(c: char) {
    c != '\0' && !IsSpace(c) && c != '(' && c != ')'
  }

  function TokenEnd(input: string, p: nat): (e: nat)
    ensures p <= e && (p <= |input| ==> e <= |input|)
    decreases |input| - p
  {
    if TokenChar(Peek(input, p)) then TokenEnd(input, p + 1) else p
  }

  /** The token's end is the first position from `p` whose character stops it. */
  lemma {:induction false} TokenEndIff(input: string, p: nat, e: nat)
    requires p <= |input|
    ensures TokenEnd(input, p) == e <==>
              p <= e <= |input| && (forall i :: p <= i < e ==> TokenChar(input[i])) && !TokenChar(Peek(input, e))
    decreases |input| - p
  {
    if TokenChar(Peek(input, p)) {
      TokenEndIff(input, p + 1, e);
      if p <= e <= |input| && (forall i :: p <= i < e ==> TokenChar(input[i])) && !TokenChar(Peek(input, e)) {
        assert e != p;
      }
    } else {
      assert p < |input| ==> Peek(input, p) == input[p];
    }
  }

  /** `ExtractSomeToken`: append the characters up to the next stop to `str`. */
  method ExtractSomeToken(str: string, input: string, pos: nat) returns (str': string, end: nat)
    requires pos <= |input|
    ensures end == TokenEnd(input, pos) && pos <= end <= |input|
    ensures str' == str + input[pos..end]
  {
    str' := str;
    end := pos;
    var ch := Peek(input, end);
    while ch != '\0' && !IsSpace(ch) && ch != '(' && ch != ')'
      invariant pos <= end <= |input| && ch == Peek(input, end)
      invariant str' == str + input[pos..end]
      invariant TokenEnd(input, end) == TokenEnd(input, pos)
      decreases |input| - end
    {
      assert input[pos..end + 1] == input[pos..end] + [ch];
      str' := str' + [ch];
      end := end + 1;
      ch := Peek(input, end);
    }
  }
}
