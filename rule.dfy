/** The recursive-descent parser. A rule is tried at a token position and
    either fails or builds the tree of the tokens it covers: a terminal
    covers one token its pattern matches, a choice the first alternative
    that succeeds, a sequence each part in turn, every part starting where
    the previous one's leaves end. A condition picks its shape by looking
    ahead instead of trying alternatives. The parser is a specification
    function; the methods mirror the loops of `Rule.java` and are proved equal
    to it. */
module Rules {
  import opened Base
  import opened Grammar
  import opened ParseTree

  // ---------------------------------------------------------------------
  // The look-ahead for a boolean operator outside brackets

  /** The change a token makes to the bracket depth. */
  function Delta(t: string): int
  {
    if t == "(" then 1 else if t == ")" then -1 else 0
  }

  predicate IsBracket(t: string) { t == "(" || t == ")" }

  /** The scan from position `k` with bracket count `cnt`: a non-bracket
      token seen at negative depth ends it with false, an AND/OR token at
      depth zero with true, and the end of the tokens with false. */
  function NakedBoolFrom(tokens: seq<string>, k: nat, cnt: int): bool
    decreases |tokens| - k
  {
    if k >= |tokens| then false
    else
      var t := tokens[k];
      var cnt' := cnt + Delta(t);
      if !IsBracket(t) && cnt < 0 then false
      else if TermMatches(T(BoolOperator), t) && cnt' == 0 then true
      else NakedBoolFrom(tokens, k + 1, cnt')
  }

  /** Whether an AND/OR token not enclosed by brackets follows `start`. */
  function NakedBool(tokens: seq<string>, start: nat): bool
  {
    NakedBoolFrom(tokens, start, 0)
  }

  method FindNakedBool(tokens: seq<string>, start: nat) returns (found: bool)
    ensures found == NakedBool(tokens, start)
  {
    var bracketCnt := 0;
    var tokCnt := start;
    while tokCnt < |tokens|
      invariant NakedBoolFrom(tokens, tokCnt, bracketCnt) == NakedBool(tokens, start)
      decreases |tokens| - tokCnt
    {
      var t := tokens[tokCnt];
      if t == "(" {
        bracketCnt := bracketCnt + 1;
      } else if t == ")" {
        bracketCnt := bracketCnt - 1;
      } else if bracketCnt < 0 {
        return false;
      }
      if TermMatches(T(BoolOperator), t) {
        if bracketCnt == 0 {
          return true;
        }
      }
      tokCnt := tokCnt + 1;
    }
    return false;
  }

  /** The bracket depth just before position `k`, counted from `start`. */
  function Depth(tokens: seq<string>, start: nat, k: nat): int
    requires start <= k <= |tokens|
    decreases k - start
  {
    if k == start then 0 else Depth(tokens, start, k - 1) + Delta(tokens[k - 1])
  }

  /** A non-bracket token at negative depth: the end of the enclosing
      bracket. */
  predicate Blocked(tokens: seq<string>, start: nat, k: nat)
    requires start <= k < |tokens|
  {
    !IsBracket(tokens[k]) && Depth(tokens, start, k) < 0
  }

  /** An AND/OR token at depth zero. */
  predicate NakedAt(tokens: seq<string>, start: nat, j: nat)
    requires start <= j < |tokens|
  {
    TermMatches(T(BoolOperator), tokens[j]) && Depth(tokens, start, j) == 0
  }

  /** No token in `start..j` ends the scan. */
  predicate Unblocked(tokens: seq<string>, start: nat, k: nat, j: nat)
    requires start <= k <= j <= |tokens|
  {
    forall m :: k <= m < j ==> !Blocked(tokens, start, m)
  }

  /** No keyword AND/OR is a bracket. */
  lemma {:induction false} BoolOperatorNotBracket(t: string)
    requires TermMatches(T(BoolOperator), t)
    ensures !IsBracket(t) && Delta(t) == 0
  {
    KeywordIsUpper(t, "AND");
    KeywordIsUpper(t, "OR");
    assert |Upper(t)| == |t|;
  }

  /** The scan from `k` is true exactly when some AND/OR token at depth zero
      lies ahead with no blocking token before it. */
  lemma {:induction false} NakedBoolFromMeans(tokens: seq<string>, start: nat, k: nat)
    requires start <= k <= |tokens|
    ensures NakedBoolFrom(tokens, k, Depth(tokens, start, k)) <==>
              exists j :: k <= j < |tokens| && NakedAt(tokens, start, j) && Unblocked(tokens, start, k, j)
    decreases |tokens| - k
  {
    if k < |tokens| {
      var t := tokens[k];
      assert Depth(tokens, start, k + 1) == Depth(tokens, start, k) + Delta(t);
      NakedBoolFromMeans(tokens, start, k + 1);
      if Blocked(tokens, start, k) {
        forall j | k <= j < |tokens| && NakedAt(tokens, start, j)
          ensures !Unblocked(tokens, start, k, j)
        {
          if j == k {
            BoolOperatorNotBracket(t);
          }
        }
      } else if TermMatches(T(BoolOperator), t) && Depth(tokens, start, k + 1) == 0 {
        BoolOperatorNotBracket(t);
        assert NakedAt(tokens, start, k) && Unblocked(tokens, start, k, k);
      } else {
        forall j | k <= j < |tokens| && NakedAt(tokens, start, j) && Unblocked(tokens, start, k, j)
          ensures k + 1 <= j && Unblocked(tokens, start, k + 1, j)
        {
          if j == k {
            BoolOperatorNotBracket(t);
          }
        }
        forall j | k + 1 <= j < |tokens| && Unblocked(tokens, start, k + 1, j)
          ensures Unblocked(tokens, start, k, j)
        {
        }
      }
    }
  }

  /** The look-ahead is true exactly when an AND/OR token at depth zero
      follows `start` before any non-bracket token at negative depth. */
  lemma {:induction false} NakedBoolMeans(tokens: seq<string>, start: nat)
    requires start <= |tokens|
    ensures NakedBool(tokens, start) <==>
              exists j :: start <= j < |tokens| && NakedAt(tokens, start, j) && Unblocked(tokens, start, start, j)
  {
    NakedBoolFromMeans(tokens, start, start);
  }

  // ---------------------------------------------------------------------
  // The parser as a function

  /** The shape a condition starting at `pos` takes: at `(` a compound
      condition opening with a bracket exactly when an AND/OR token outside
      brackets follows, else a bracketed condition; otherwise, with at least
      four tokens left, a compound condition exactly when the fourth token is
      AND/OR, else a simple one; nothing with fewer tokens. */
  function ConditionShape(tokens: seq<string>, pos: nat): (s: Option<RuleName>)
    requires pos < |tokens|
    ensures s.Some? ==> IsConditionShape(s.value) && Rank(s.value) < Rank(O(Condition))
  {
    if tokens[pos] == "(" then
      Some(if NakedBool(tokens, pos) then S(CompWithBracket) else S(BracketCond))
    else if pos + 3 >= |tokens| then None
    else if TermMatches(T(BoolOperator), tokens[pos + 3]) then Some(S(CompWithSimp))
    else Some(S(SimpleCond))
  }

  /** A leaf tagged with terminal `k` holds a text that `k`'s pattern
      matches (stated for every `k` so that the pattern is looked at only
      for the terminal in question). */
  predicate LeafMatches(r: RuleName, text: string)
  {
    forall k {:trigger TermMatches(T(k), text)} :: r == T(k) ==> TermMatches(T(k), text)
  }

  /** Every leaf's text matches the pattern of the terminal it is tagged with. */
  predicate LeavesMatch(n: Node)
    decreases n
  {
    match n
    case Leaf(r, text) => LeafMatches(r, text)
    case Branch(_, cs) => forall i :: 0 <= i < |cs| ==> LeavesMatch(cs[i])
  }

  /** `n` is a tree built by rule `r` covering the tokens from `pos`: at
      least one leaf, each leaf matching its terminal, the leaves spelling
      those tokens in order, and no further than the last token. */
  predicate Spans(tokens: seq<string>, pos: nat, r: RuleName, n: Node)
  {
    && n.rule == r
    && Formed(n)
    && LeavesMatch(n)
    && 1 <= NumberOfLeaves(n) == |LeafTexts(n)|
    && TextsAt(tokens, pos, LeafTexts(n))
  }

  /** `cs` are trees built by `rules`, one each, covering the tokens from
      `pos` one after another. */
  predicate SpansAll(tokens: seq<string>, pos: nat, rules: seq<RuleName>, cs: seq<Node>)
    decreases |cs|
  {
    if cs == [] then rules == [] && pos <= |tokens|
    else
      && rules != []
      && Spans(tokens, pos, rules[0], cs[0])
      && SpansAll(tokens, pos + NumberOfLeaves(cs[0]), rules[1..], cs[1..])
  }

  /** Trees spanning consecutive tokens, one per rule: each is formed and
      tagged with its rule, and their leaves together are the next tokens. */
  lemma {:induction false} SpansAllMeans(tokens: seq<string>, pos: nat, rules: seq<RuleName>, cs: seq<Node>)
    requires SpansAll(tokens, pos, rules, cs)
    ensures |cs| == |rules|
    ensures forall j :: 0 <= j < |cs| ==> cs[j].rule == rules[j] && Formed(cs[j]) && LeavesMatch(cs[j])
    ensures cs != [] ==> 1 <= SumLeaves(cs)
    ensures SumLeaves(cs) == |AllLeafTexts(cs)|
    ensures TextsAt(tokens, pos, AllLeafTexts(cs))
  {
    SpansAllShape(tokens, pos, rules, cs);
    SpansAllTexts(tokens, pos, rules, cs);
  }

  lemma {:induction false} SpansAllShape(tokens: seq<string>, pos: nat, rules: seq<RuleName>, cs: seq<Node>)
    requires SpansAll(tokens, pos, rules, cs)
    ensures |cs| == |rules|
    ensures forall j :: 0 <= j < |cs| ==> cs[j].rule == rules[j] && Formed(cs[j]) && LeavesMatch(cs[j])
    decreases |cs|
  {
    if cs != [] {
      var rest := cs[1..];
      assert Spans(tokens, pos, rules[0], cs[0]);
      SpansAllShape(tokens, pos + NumberOfLeaves(cs[0]), rules[1..], rest);
      forall j | 0 <= j < |cs|
        ensures cs[j].rule == rules[j] && Formed(cs[j]) && LeavesMatch(cs[j])
      {
        if j > 0 {
          var k := j - 1;
          assert cs[j] == rest[k];
          assert rules[j] == rules[1..][k];
        }
      }
    }
  }

  lemma {:induction false} SpansAllTexts(tokens: seq<string>, pos: nat, rules: seq<RuleName>, cs: seq<Node>)
    requires SpansAll(tokens, pos, rules, cs)
    ensures cs != [] ==> 1 <= SumLeaves(cs)
    ensures SumLeaves(cs) == |AllLeafTexts(cs)|
    ensures TextsAt(tokens, pos, AllLeafTexts(cs))
    decreases |cs|
  {
    if cs != [] {
      var t := cs[0];
      var rest := cs[1..];
      SpansAllTexts(tokens, pos + NumberOfLeaves(t), rules[1..], rest);
      assert cs == [t] + rest;
      LeavesCons(t, rest);
      TextsAtAppend(tokens, pos, LeafTexts(t), AllLeafTexts(rest));
    }
  }

  /** The texts `xs` are the tokens from `pos` on, in order. */
  predicate TextsAt(tokens: seq<string>, pos: nat, xs: seq<string>)
    decreases |xs|
  {
    if xs == [] then pos <= |tokens|
    else pos < |tokens| && tokens[pos] == xs[0] && TextsAt(tokens, pos + 1, xs[1..])
  }

  lemma {:induction false} TextsAtSlice(tokens: seq<string>, pos: nat, xs: seq<string>)
    ensures TextsAt(tokens, pos, xs) <==> pos + |xs| <= |tokens| && xs == tokens[pos..pos + |xs|]
    decreases |xs|
  {
    if xs != [] {
      TextsAtSlice(tokens, pos + 1, xs[1..]);
      if pos + |xs| <= |tokens| {
        var window := tokens[pos..pos + |xs|];
        assert window[0] == tokens[pos] && window[1..] == tokens[pos + 1..pos + |xs|];
        if xs == window {
          assert xs[0] == tokens[pos] && xs[1..] == window[1..];
        }
        if TextsAt(tokens, pos, xs) {
          assert xs == [xs[0]] + xs[1..] && window == [window[0]] + window[1..];
        }
      }
    }
  }

  lemma {:induction false} TextsAtBound(tokens: seq<string>, pos: nat, xs: seq<string>)
    requires TextsAt(tokens, pos, xs)
    ensures pos + |xs| <= |tokens|
    decreases |xs|
  {
    if xs != [] {
      TextsAtBound(tokens, pos + 1, xs[1..]);
    }
  }

  lemma {:induction false} TextsAtAppend(tokens: seq<string>, pos: nat, xs: seq<string>, ys: seq<string>)
    requires TextsAt(tokens, pos, xs) && TextsAt(tokens, pos + |xs|, ys)
    ensures TextsAt(tokens, pos, xs + ys)
    decreases |xs|
  {
    if xs == [] {
      assert xs + ys == ys;
    } else {
      TextsAtAppend(tokens, pos + 1, xs[1..], ys);
      assert (xs + ys)[0] == xs[0] && (xs + ys)[1..] == xs[1..] + ys;
    }
  }

  /** The tree rule `r` builds from position `pos`, if any: nothing past the
      last token; a condition's chosen shape under a CONDITION node; the
      first alternative of a choice that succeeds under the choice's node; a
      leaf for a terminal whose pattern the token matches; the parts of a
      sequence one after another. */
  function ParseRule(tokens: seq<string>, pos: nat, r: RuleName): (res: Option<Node>)
    ensures res.Some? ==> pos < |tokens| && res.value.rule == r && 1 <= NumberOfLeaves(res.value)
    decreases |tokens| - pos, Rank(r), 1, 0, 0
  {
    if pos >= |tokens| then None
    else if r == O(Condition) then
      match ParseCondition(tokens, pos)
      case None => None
      case Some(t) =>
        OneChildLeaves(O(Condition), t);
        Some(Branch(O(Condition), [t]))
    else if Type(r) == Or then
      OrRanks(r);
      match ParseOr(tokens, pos, r, SubRules(r))
      case None => None
      case Some(t) =>
        OneChildLeaves(r, t);
        Some(Branch(r, [t]))
    else if Type(r) == Term then
      if LeafMatches(r, tokens[pos]) then Some(Leaf(r, tokens[pos])) else None
    else
      SeqRank(r);
      match ParseParts(tokens, pos, pos, r, SubRules(r))
      case None => None
      case Some(cs) =>
        PartsLeaves(cs);
        Some(Branch(r, cs))
  }

  /** A condition parsed in the shape its look-ahead picks. */
  function ParseCondition(tokens: seq<string>, pos: nat): (res: Option<Node>)
    requires pos < |tokens|
    ensures res.Some? ==> IsConditionShape(res.value.rule) && 1 <= NumberOfLeaves(res.value)
    decreases |tokens| - pos, Rank(O(Condition)), 0, 0, 0
  {
    match ConditionShape(tokens, pos)
    case None => None
    case Some(shape) => ParseRule(tokens, pos, shape)
  }

  /** The first of the alternatives `alts` that succeeds at `pos`. */
  function ParseOr(tokens: seq<string>, pos: nat, r: RuleName, alts: seq<RuleName>): (res: Option<Node>)
    requires pos < |tokens| && forall j :: 0 <= j < |alts| ==> Rank(alts[j]) < Rank(r)
    ensures res.Some? ==> res.value.rule in alts && 1 <= NumberOfLeaves(res.value)
    decreases |tokens| - pos, Rank(r), 0, |alts|, 0
  {
    if alts == [] then None
    else
      match ParseRule(tokens, pos, alts[0])
      case Some(t) => Some(t)
      case None => ParseOr(tokens, pos, r, alts[1..])
  }

  /** The parts `rules` of sequence `r`, the first starting at `pos`;
      `origin` is where the whole sequence starts. */
  function ParseParts(tokens: seq<string>, origin: nat, pos: nat, r: RuleName, rules: seq<RuleName>): (res: Option<seq<Node>>)
    requires origin < |tokens| && origin <= pos
    requires pos == origin ==> rules != [] && Rank(rules[0]) < Rank(r)
    ensures res.Some? ==> |res.value| == |rules| && forall j :: 0 <= j < |rules| ==> 1 <= NumberOfLeaves(res.value[j])
    decreases |tokens| - origin, Rank(r), 0, |rules|, 1
  {
    if rules == [] then Some([])
    else if pos >= |tokens| then None
    else PartsAfter(tokens, origin, pos, r, rules, ParseRule(tokens, pos, rules[0]))
  }

  /** The parts `rules` once the first of them has given `first` at `pos`:
      the first tree, then the rest parsed after its leaves. */
  function PartsAfter(tokens: seq<string>, origin: nat, pos: nat, r: RuleName, rules: seq<RuleName>,
                      first: Option<Node>): (res: Option<seq<Node>>)
    requires origin < |tokens| && origin <= pos && rules != []
    requires first.Some? ==> 1 <= NumberOfLeaves(first.value)
    ensures res.Some? ==> |res.value| == |rules| && forall j :: 0 <= j < |rules| ==> 1 <= NumberOfLeaves(res.value[j])
    decreases |tokens| - origin, Rank(r), 0, |rules|, 0
  {
    match first
    case None => None
    case Some(t) =>
      match ParseParts(tokens, origin, pos + NumberOfLeaves(t), r, rules[1..])
      case None => None
      case Some(rest) => Some([t] + rest)
  }

  /** Every alternative of a choice ranks below it. */
  lemma {:induction false} OrRanks(r: RuleName)
    requires Type(r) == Or
    ensures forall j :: 0 <= j < |SubRules(r)| ==> Rank(SubRules(r)[j]) < Rank(r)
  {
    forall j | 0 <= j < |SubRules(r)|
      ensures Rank(SubRules(r)[j]) < Rank(r)
    {
      OrRank(r, j);
    }
  }

  lemma {:induction false} OneChildLeaves(r: RuleName, t: Node)
    ensures NumberOfLeaves(Branch(r, [t])) == NumberOfLeaves(t)
    ensures LeafTexts(Branch(r, [t])) == LeafTexts(t)
  {
    LeavesCons(t, []);
    assert [t] + [] == [t];
  }

  /** Trees with a leaf each have at least as many leaves as trees. */
  lemma {:induction false} PartsLeaves(cs: seq<Node>)
    requires forall j :: 0 <= j < |cs| ==> 1 <= NumberOfLeaves(cs[j])
    ensures |cs| <= SumLeaves(cs)
  {
    if cs != [] {
      PartsLeaves(cs[..|cs| - 1]);
    }
  }

  // ---------------------------------------------------------------------
  // What a successful parse covers

  /** A successful parse of `r` from `pos` is a formed tree tagged `r` whose
      leaves are the next tokens, in order. */
  lemma {:induction false} ParseRuleSpans(tokens: seq<string>, pos: nat, r: RuleName)
    ensures ParseRule(tokens, pos, r).Some? ==> Spans(tokens, pos, r, ParseRule(tokens, pos, r).value)
    decreases |tokens| - pos, Rank(r), 1, 0
  {
    var res := ParseRule(tokens, pos, r);
    if pos < |tokens| && res.Some? {
      var n := res.value;
      if r == O(Condition) {
        var sub := ParseCondition(tokens, pos);
        assert sub.Some? && n.children[0] == sub.value;
        var shape := ConditionShape(tokens, pos).value;
        ParseRuleSpans(tokens, pos, shape);
        OneChild(tokens, pos, O(Condition), n.children[0]);
      } else if Type(r) == Or {
        OrRanks(r);
        ParseOrSpans(tokens, pos, r, SubRules(r));
        OneChild(tokens, pos, r, n.children[0]);
      } else if Type(r) == Term {
      } else {
        SeqRank(r);
        ParsePartsSpans(tokens, pos, pos, r, SubRules(r));
        SpansAllMeans(tokens, pos, SubRules(r), n.children);
        FormedSeqNode(r, n.children);
      }
    }
  }

  lemma {:induction false} ParseOrSpans(tokens: seq<string>, pos: nat, r: RuleName, alts: seq<RuleName>)
    requires pos < |tokens| && forall j :: 0 <= j < |alts| ==> Rank(alts[j]) < Rank(r)
    ensures ParseOr(tokens, pos, r, alts).Some? ==>
              Spans(tokens, pos, ParseOr(tokens, pos, r, alts).value.rule, ParseOr(tokens, pos, r, alts).value)
    decreases |tokens| - pos, Rank(r), 0, |alts|
  {
    if alts != [] {
      ParseRuleSpans(tokens, pos, alts[0]);
      if ParseRule(tokens, pos, alts[0]).None? {
        ParseOrSpans(tokens, pos, r, alts[1..]);
      }
    }
  }

  lemma {:induction false} ParsePartsSpans(tokens: seq<string>, origin: nat, pos: nat, r: RuleName, rules: seq<RuleName>)
    requires origin < |tokens| && origin <= pos <= |tokens|
    requires pos == origin ==> rules != [] && Rank(rules[0]) < Rank(r)
    ensures ParseParts(tokens, origin, pos, r, rules).Some? ==>
              SpansAll(tokens, pos, rules, ParseParts(tokens, origin, pos, r, rules).value)
    decreases |tokens| - origin, Rank(r), 0, |rules|
  {
    if rules != [] && pos < |tokens| {
      var sub := ParseRule(tokens, pos, rules[0]);
      if sub.Some? {
        var t := sub.value;
        var next := pos + NumberOfLeaves(t);
        ParseRuleSpans(tokens, pos, rules[0]);
        TextsAtBound(tokens, pos, LeafTexts(t));
        var rest := ParseParts(tokens, origin, next, r, rules[1..]);
        if rest.Some? {
          PartsStepSome(tokens, origin, pos, r, rules, t, next);
          ParsePartsSpans(tokens, origin, next, r, rules[1..]);
          PartsCons(tokens, pos, rules, t, rest.value);
        }
      }
    }
  }

  /** A choice wrapping one tree spans what the tree spans. */
  lemma {:induction false} OneChild(tokens: seq<string>, pos: nat, r: RuleName, t: Node)
    requires Spans(tokens, pos, t.rule, t) && Type(r) == Or
    requires if r == O(Condition) then IsConditionShape(t.rule) else t.rule in SubRules(r)
    ensures Spans(tokens, pos, r, Branch(r, [t]))
  {
    OneChildLeaves(r, t);
    FormedOr(r, t);
  }

  /** A sequence node holding trees for its parts, in order, is formed. */
  lemma {:induction false} FormedSeqNode(r: RuleName, cs: seq<Node>)
    requires Type(r) == Seq
    requires |cs| == |SubRules(r)| && forall j :: 0 <= j < |cs| ==> cs[j].rule == SubRules(r)[j] && Formed(cs[j])
    ensures Formed(Branch(r, cs))
  {
  }

  /** A tree followed by trees for the remaining rules spans both spans. */
  lemma {:induction false} PartsCons(tokens: seq<string>, pos: nat, rules: seq<RuleName>, t: Node, rest: seq<Node>)
    requires rules != [] && Spans(tokens, pos, rules[0], t)
    requires SpansAll(tokens, pos + NumberOfLeaves(t), rules[1..], rest)
    ensures SpansAll(tokens, pos, rules, [t] + rest)
  {
    var cs := [t] + rest;
    assert cs[0] == t && cs[1..] == rest;
  }

  // ---------------------------------------------------------------------
  // What each kind of rule does

  /** A choice fails exactly when every alternative fails. */
  lemma {:induction false} ParseOrNone(tokens: seq<string>, pos: nat, r: RuleName, alts: seq<RuleName>)
    requires pos < |tokens| && forall j :: 0 <= j < |alts| ==> Rank(alts[j]) < Rank(r)
    ensures ParseOr(tokens, pos, r, alts).None? <==>
              forall j :: 0 <= j < |alts| ==> ParseRule(tokens, pos, alts[j]).None?
    decreases |alts|
  {
    if alts != [] {
      var rest := alts[1..];
      ParseOrNone(tokens, pos, r, rest);
      assert forall j :: 0 < j < |alts| ==> alts[j] == rest[j - 1];
    }
  }

  /** Otherwise a choice gives the tree of the first alternative that
      succeeds. */
  lemma {:induction false} ParseOrFirst(tokens: seq<string>, pos: nat, r: RuleName, alts: seq<RuleName>, j: nat)
    requires pos < |tokens| && forall i :: 0 <= i < |alts| ==> Rank(alts[i]) < Rank(r)
    requires j < |alts| && ParseRule(tokens, pos, alts[j]).Some?
    requires forall k :: 0 <= k < j ==> ParseRule(tokens, pos, alts[k]).None?
    ensures ParseOr(tokens, pos, r, alts) == ParseRule(tokens, pos, alts[j])
    decreases j
  {
    if j > 0 {
      var rest := alts[1..];
      assert ParseRule(tokens, pos, alts[0]).None?;
      assert ParseOr(tokens, pos, r, alts) == ParseOr(tokens, pos, r, rest);
      assert rest[j - 1] == alts[j];
      assert forall k :: 0 <= k < j - 1 ==> rest[k] == alts[k + 1];
      ParseOrFirst(tokens, pos, r, rest, j - 1);
    }
  }

  /** A choice rule other than CONDITION succeeds exactly when one of its
      alternatives does, and then holds the tree of the first that does as
      its only sub-tree. */
  lemma {:induction false} ChoiceFirst(tokens: seq<string>, pos: nat, r: RuleName)
    requires Type(r) == Or && r != O(Condition) && pos < |tokens|
    ensures ParseRule(tokens, pos, r).None? <==>
              forall j :: 0 <= j < |SubRules(r)| ==> ParseRule(tokens, pos, SubRules(r)[j]).None?
    ensures forall j :: 0 <= j < |SubRules(r)| && ParseRule(tokens, pos, SubRules(r)[j]).Some?
                        && (forall k :: 0 <= k < j ==> ParseRule(tokens, pos, SubRules(r)[k]).None?) ==>
              ParseRule(tokens, pos, r) == Some(Branch(r, [ParseRule(tokens, pos, SubRules(r)[j]).value]))
  {
    OrRanks(r);
    ParseOrNone(tokens, pos, r, SubRules(r));
    forall j | 0 <= j < |SubRules(r)| && ParseRule(tokens, pos, SubRules(r)[j]).Some?
               && (forall k :: 0 <= k < j ==> ParseRule(tokens, pos, SubRules(r)[k]).None?)
      ensures ParseRule(tokens, pos, r) == Some(Branch(r, [ParseRule(tokens, pos, SubRules(r)[j]).value]))
    {
      ParseOrFirst(tokens, pos, r, SubRules(r), j);
    }
  }

  /** A terminal succeeds exactly when there is a token left and it matches
      the terminal's pattern, and gives a leaf holding that token. */
  lemma {:induction false} TermIff(tokens: seq<string>, pos: nat, k: TermRule)
    ensures ParseRule(tokens, pos, T(k)).Some? <==> pos < |tokens| && TermMatches(T(k), tokens[pos])
    ensures ParseRule(tokens, pos, T(k)).Some? ==> ParseRule(tokens, pos, T(k)).value == Leaf(T(k), tokens[pos])
  {
  }

  /** A choice takes its first alternative whenever that one parses. */
  lemma {:induction false} FirstAlternativeWins(tokens: seq<string>, pos: nat, r: RuleName, first: RuleName)
    requires Type(r) == Or && r != O(Condition) && pos < |tokens| && |SubRules(r)| > 0 && SubRules(r)[0] == first
    requires ParseRule(tokens, pos, first).Some?
    ensures ParseRule(tokens, pos, r) == Some(Branch(r, [ParseRule(tokens, pos, first).value]))
  {
    OrRanks(r);
    ParseOrFirst(tokens, pos, r, SubRules(r), 0);
  }

  /** The order of the alternatives decides: CREATE TABLE with an attribute
      list is tried before the bare form, SELECT with WHERE before SELECT
      without, and each list's recursive form before its single element. */
  lemma {:induction false} GrammarPriorities(tokens: seq<string>, pos: nat, choice: OrRule, first: SeqRule)
    requires pos < |tokens|
    requires (choice, first) in [(CreateTable, CrTableAttr), (Select, SelectCond), (NameValueList, NameValueRecur),
                                 (ValueList, ValueListRecur), (AttrList, AttrListRecur)]
    ensures ParseRule(tokens, pos, S(first)).Some? ==>
              ParseRule(tokens, pos, O(choice)) == Some(Branch(O(choice), [ParseRule(tokens, pos, S(first)).value]))
  {
    if ParseRule(tokens, pos, S(first)).Some? {
      assert SubRules(O(choice))[0] == S(first);
      FirstAlternativeWins(tokens, pos, O(choice), S(first));
    }
  }

  /** A value is the first of string, boolean, float, integer and NULL
      whose pattern matches the token. */
  lemma {:induction false} ValueTriesInOrder(tokens: seq<string>, pos: nat, j: nat)
    requires pos < |tokens| && j < |Alternatives(Value)|
    requires TermMatches(Alternatives(Value)[j], tokens[pos])
    requires forall k :: 0 <= k < j ==> !TermMatches(Alternatives(Value)[k], tokens[pos])
    ensures ParseRule(tokens, pos, O(Value)) == Some(Branch(O(Value), [Leaf(Alternatives(Value)[j], tokens[pos])]))
  {
    forall k | 0 <= k < |Alternatives(Value)|
      ensures ParseRule(tokens, pos, Alternatives(Value)[k]).Some? <==> TermMatches(Alternatives(Value)[k], tokens[pos])
      ensures ParseRule(tokens, pos, Alternatives(Value)[k]).Some? ==>
                ParseRule(tokens, pos, Alternatives(Value)[k]).value == Leaf(Alternatives(Value)[k], tokens[pos])
    {
      TermIff(tokens, pos, Alternatives(Value)[k].term);
    }
    ChoiceFirst(tokens, pos, O(Value));
  }

  /** A CONDITION succeeds exactly when the shape its look-ahead picks
      parses, and then holds that tree as its only sub-tree. */
  lemma {:induction false} ConditionOneChild(tokens: seq<string>, pos: nat)
    requires pos < |tokens|
    ensures ParseRule(tokens, pos, O(Condition)).Some? <==>
              ConditionShape(tokens, pos).Some? && ParseRule(tokens, pos, ConditionShape(tokens, pos).value).Some?
    ensures ParseRule(tokens, pos, O(Condition)).Some? ==>
              ParseRule(tokens, pos, O(Condition)).value.children
                == [ParseRule(tokens, pos, ConditionShape(tokens, pos).value).value]
  {
    assert ParseRule(tokens, pos, O(Condition)).Some? <==> ParseCondition(tokens, pos).Some?;
  }

  /** A parsed command holds the command body and then the `;` leaf for the
      token right after the body's tokens. */
  lemma {:induction false} CommandChildren(tokens: seq<string>)
    requires ParseRule(tokens, 0, S(Command)).Some?
    ensures var n := ParseRule(tokens, 0, S(Command)).value;
            && |n.children| == 2
            && n.children[0].rule == O(CommandType) && Formed(n.children[0])
            && n.children[1] == Leaf(T(SemicolonLiteral), ";")
            && NumberOfLeaves(n) == NumberOfLeaves(n.children[0]) + 1 <= |tokens|
            && tokens[NumberOfLeaves(n.children[0])] == ";"
  {
    var n := ParseRule(tokens, 0, S(Command)).value;
    ParseRuleSpans(tokens, 0, S(Command));
    SemicolonLast(tokens, n);
  }

  /** The same, for any command tree spanning the tokens from the start. */
  lemma {:induction false} SemicolonLast(tokens: seq<string>, n: Node)
    requires Spans(tokens, 0, S(Command), n)
    ensures && |n.children| == 2
            && n.children[0].rule == O(CommandType) && Formed(n.children[0])
            && n.children[1] == Leaf(T(SemicolonLiteral), ";")
            && NumberOfLeaves(n) == NumberOfLeaves(n.children[0]) + 1 <= |tokens|
            && tokens[NumberOfLeaves(n.children[0])] == ";"
  {
    FormedSeq(n);
    assert SubRules(S(Command)) == [O(CommandType), T(SemicolonLiteral)];
    var body := n.children[0];
    var last := n.children[1];
    FormedLeaf(last);
    assert LeavesMatch(last);
    SemicolonText(last.text);
    assert n.children == [body] + [last];
    LeavesCons(body, [last]);
    LeavesCons(last, []);
    assert [last] + [] == [last];
    LeafCount(body);
    TextsAtSlice(tokens, 0, LeafTexts(n));
    assert LeafTexts(n) == LeafTexts(body) + [";"];
    assert LeafTexts(n)[|LeafTexts(body)|] == ";";
  }

  lemma {:induction false} SemicolonText(t: string)
    requires TermMatches(T(SemicolonLiteral), t)
    ensures t == ";"
  {
    assert TermPattern(SemicolonLiteral) == Literal(";");
    assert IsKeyword(t, ";");
    assert t != [] && ToUpperChar(t[0]) == ';' && IsKeyword(t[1..], ";"[1..]);
    assert ";"[1..] == [];
  }

  /** A parsed command ends with a `;` token, but the tokens need not end
      there. */
  lemma {:induction false} CommandEndsAtSemicolon(tokens: seq<string>)
    requires ParseRule(tokens, 0, S(Command)).Some?
    ensures NumberOfLeaves(ParseRule(tokens, 0, S(Command)).value) <= |tokens|
    ensures tokens[NumberOfLeaves(ParseRule(tokens, 0, S(Command)).value) - 1] == ";"
  {
    CommandChildren(tokens);
  }

  // ---------------------------------------------------------------------
  // The parser as methods

  /** The recursive descent over the tokens from `start`. */
  method ParseTokens(tokens: seq<string>, start: nat, r: RuleName) returns (res: Option<Node>)
    ensures res == ParseRule(tokens, start, r)
    decreases |tokens| - start, Rank(r), 1, 0
  {
    if start >= |tokens| {
      return None;
    }
    if r == O(Condition) {
      var sub := ParseConditionTokens(tokens, start);
      if sub.Some? {
        return Some(Branch(O(Condition), [sub.value]));
      }
      return None;
    } else if Type(r) == Or {
      OrRanks(r);
      var sub := ParseOrTokens(tokens, start, r, SubRules(r));
      if sub.Some? {
        return Some(Branch(r, [sub.value]));
      }
      return None;
    } else if Type(r) == Term {
      if TermMatches(r, tokens[start]) {
        return Some(Leaf(r, tokens[start]));
      }
      return None;
    } else {
      SeqRank(r);
      var children := ParseSeqTokens(tokens, start, r, SubRules(r));
      if children.Some? {
        return Some(Branch(r, children.value));
      }
      return None;
    }
  }

  /** The alternatives of a choice, tried in order until one succeeds. */
  method ParseOrTokens(tokens: seq<string>, start: nat, r: RuleName, subRules: seq<RuleName>) returns (res: Option<Node>)
    requires start < |tokens| && forall j :: 0 <= j < |subRules| ==> Rank(subRules[j]) < Rank(r)
    ensures res == ParseOr(tokens, start, r, subRules)
    decreases |tokens| - start, Rank(r), 0, 0
  {
    var i := 0;
    while i < |subRules|
      invariant 0 <= i <= |subRules|
      invariant ParseOr(tokens, start, r, subRules[i..]) == ParseOr(tokens, start, r, subRules)
    {
      var sub := ParseTokens(tokens, start, subRules[i]);
      assert subRules[i..][1..] == subRules[i + 1..];
      if sub.Some? {
        return sub;
      }
      i := i + 1;
    }
    return None;
  }

  /** `children` put in front of a successful parse's trees. */
  function Prepend(children: seq<Node>, res: Option<seq<Node>>): Option<seq<Node>>
  {
    match res
    case None => None
    case Some(rest) => Some(children + rest)
  }

  lemma {:induction false} PrependNothing(res: Option<seq<Node>>)
    ensures Prepend([], res) == res
  {
    if res.Some? {
      assert [] + res.value == res.value;
    }
  }

  lemma {:induction false} PrependTwice(xs: seq<Node>, ys: seq<Node>, res: Option<seq<Node>>)
    ensures Prepend(xs, Prepend(ys, res)) == Prepend(xs + ys, res)
  {
    if res.Some? {
      assert xs + (ys + res.value) == (xs + ys) + res.value;
    }
  }

  /** Trees put in front, then one more tree put in front of the rest. */
  lemma {:induction false} PrependStep(whole: Option<seq<Node>>, xs: seq<Node>, here: Option<seq<Node>>, t: Node, rest: Option<seq<Node>>)
    requires whole == Prepend(xs, here) && here == Prepend([t], rest)
    ensures whole == Prepend(xs + [t], rest)
  {
    PrependTwice(xs, [t], rest);
  }

  /** One part of a sequence parsed at a token: it fails when the part
      fails, else it continues after the part's leaves. */
  lemma {:induction false} PartsStep(tokens: seq<string>, origin: nat, pos: nat, r: RuleName, rules: seq<RuleName>,
                                     sub: Option<Node>, next: nat)
    requires origin < |tokens| && origin <= pos < |tokens| && rules != []
    requires pos == origin ==> Rank(rules[0]) < Rank(r)
    requires sub == ParseRule(tokens, pos, rules[0])
    requires sub.Some? ==> next == pos + NumberOfLeaves(sub.value)
    ensures sub.None? ==> ParseParts(tokens, origin, pos, r, rules).None?
    ensures sub.Some? ==>
              ParseParts(tokens, origin, pos, r, rules) == Prepend([sub.value], ParseParts(tokens, origin, next, r, rules[1..]))
  {
    if sub.Some? {
      PartsStepSome(tokens, origin, pos, r, rules, sub.value, next);
    }
  }

  lemma {:induction false} PartsStepSome(tokens: seq<string>, origin: nat, pos: nat, r: RuleName, rules: seq<RuleName>,
                                         t: Node, next: nat)
    requires origin < |tokens| && origin <= pos < |tokens| && rules != []
    requires pos == origin ==> Rank(rules[0]) < Rank(r)
    requires Some(t) == ParseRule(tokens, pos, rules[0])
    requires next == pos + NumberOfLeaves(t)
    ensures ParseParts(tokens, origin, pos, r, rules) == Prepend([t], ParseParts(tokens, origin, next, r, rules[1..]))
  {
    assert ParseParts(tokens, origin, pos, r, rules) == PartsAfter(tokens, origin, pos, r, rules, Some(t));
    PartsAfterSome(tokens, origin, pos, r, rules, t);
  }

  lemma {:induction false} PartsAfterSome(tokens: seq<string>, origin: nat, pos: nat, r: RuleName, rules: seq<RuleName>, t: Node)
    requires origin < |tokens| && origin <= pos && rules != [] && 1 <= NumberOfLeaves(t)
    ensures PartsAfter(tokens, origin, pos, r, rules, Some(t)) ==
              Prepend([t], ParseParts(tokens, origin, pos + NumberOfLeaves(t), r, rules[1..]))
  {
    var rest := ParseParts(tokens, origin, pos + NumberOfLeaves(t), r, rules[1..]);
    if rest.Some? {
      assert PartsAfter(tokens, origin, pos, r, rules, Some(t)) == Some([t] + rest.value);
    }
  }

  /** The parts of a sequence, each parsed where the previous one's leaves
      end; the first failure fails the sequence. */
  method ParseSeqTokens(tokens: seq<string>, start: nat, r: RuleName, subRules: seq<RuleName>) returns (res: Option<seq<Node>>)
    requires start < |tokens| && subRules != [] && Rank(subRules[0]) < Rank(r)
    ensures res == ParseParts(tokens, start, start, r, subRules)
    decreases |tokens| - start, Rank(r), 0, 0
  {
    var children: seq<Node> := [];
    var pos := start;
    var rules := subRules;
    ghost var whole := ParseParts(tokens, start, start, r, subRules);
    PrependNothing(whole);
    while rules != []
      invariant start <= pos
      invariant pos == start ==> rules == subRules
      invariant whole == Prepend(children, ParseParts(tokens, start, pos, r, rules))
      decreases |rules|
    {
      if pos >= |tokens| {
        return None;
      }
      var sub := ParseTokens(tokens, pos, rules[0]);
      if sub.None? {
        PartsStep(tokens, start, pos, r, rules, sub, pos);
        return None;
      }
      var next := pos + NumberOfLeaves(sub.value);
      var more := children + [sub.value];
      PartsStep(tokens, start, pos, r, rules, sub, next);
      PrependStep(whole, children, ParseParts(tokens, start, pos, r, rules), sub.value, ParseParts(tokens, start, next, r, rules[1..]));
      pos, children, rules := next, more, rules[1..];
    }
    assert children + [] == children;
    return Some(children);
  }

  /** The condition parser: the look-ahead picks the shape, which is then
      parsed. */
  method ParseConditionTokens(tokens: seq<string>, start: nat) returns (res: Option<Node>)
    requires start < |tokens|
    ensures res == ParseCondition(tokens, start)
    decreases |tokens| - start, Rank(O(Condition)), 0, 0
  {
    if tokens[start] == "(" {
      var naked := FindNakedBool(tokens, start);
      if naked {
        res := ParseTokens(tokens, start, S(CompWithBracket));
      } else {
        res := ParseTokens(tokens, start, S(BracketCond));
      }
    } else {
      if start + 3 >= |tokens| {
        return None;
      } else if TermMatches(T(BoolOperator), tokens[start + 3]) {
        res := ParseTokens(tokens, start, S(CompWithSimp));
      } else {
        res := ParseTokens(tokens, start, S(SimpleCond));
      }
    }
  }
}
