/** Parse trees and the queries the command handler runs over them. A node is
    tagged with the rule that built it; a terminal rule builds a leaf holding
    its token's text, a choice or sequence rule a branch holding its
    sub-trees in order. */
module ParseTree {
  import opened Base
  import opened Grammar
  import opened ConditionResults
  import opened Tables

  datatype Node = Leaf(rule: RuleName, text: string) | Branch(rule: RuleName, children: seq<Node>)

  /** The sub-trees of a node; a leaf has none. */
  function Children(n: Node): seq<Node>
  {
    if n.Leaf? then [] else n.children
  }

  /** The shapes a condition can take. */
  predicate IsConditionShape(r: RuleName)
  {
    r == S(CompWithBracket) || r == S(BracketCond) || r == S(CompWithSimp) || r == S(SimpleCond)
  }

  /** The trees the parser builds: terminal rules give leaves and only they
      do; a choice has one sub-tree, built by one of its alternatives (a shape
      of condition for CONDITION); a sequence has one sub-tree per part, in
      order. */
  predicate Formed(n: Node)
    decreases n
  {
    match n
    case Leaf(r, _) => Type(r) == Term
    case Branch(r, cs) =>
      && Type(r) != Term
      && (forall i :: 0 <= i < |cs| ==> Formed(cs[i]))
      && (if Type(r) == Or then
            |cs| == 1 && (if r == O(Condition) then IsConditionShape(cs[0].rule) else cs[0].rule in SubRules(r))
          else
            |cs| == |SubRules(r)| && forall i :: 0 <= i < |cs| ==> cs[i].rule == SubRules(r)[i])
  }

  // ---------------------------------------------------------------------
  // Leaves

  function NumberOfLeaves(n: Node): nat
    decreases n, 1
  {
    match n
    case Leaf(_, _) => 1
    case Branch(_, cs) => SumLeaves(cs)
  }

  function SumLeaves(cs: seq<Node>): nat
    decreases cs, 0
  {
    if cs == [] then 0 else SumLeaves(cs[..|cs| - 1]) + NumberOfLeaves(cs[|cs| - 1])
  }

  /** The token texts at the leaves, left to right. */
  function LeafTexts(n: Node): seq<string>
    decreases n, 1
  {
    match n
    case Leaf(_, t) => [t]
    case Branch(_, cs) => AllLeafTexts(cs)
  }

  function AllLeafTexts(cs: seq<Node>): seq<string>
    decreases cs, 0
  {
    if cs == [] then [] else AllLeafTexts(cs[..|cs| - 1]) + LeafTexts(cs[|cs| - 1])
  }

  /** The leaf count is the number of leaf texts. */
  lemma {:induction false} LeafCount(n: Node)
    ensures NumberOfLeaves(n) == |LeafTexts(n)|
    decreases n, 1
  {
    match n
    case Leaf(_, _) =>
    case Branch(_, cs) => AllLeafCount(cs);
  }

  lemma {:induction false} AllLeafCount(cs: seq<Node>)
    ensures SumLeaves(cs) == |AllLeafTexts(cs)|
    decreases cs, 0
  {
    if cs != [] {
      AllLeafCount(cs[..|cs| - 1]);
      LeafCount(cs[|cs| - 1]);
    }
  }

  /** Leaves of a node followed by more nodes: counts add up and texts are
      concatenated. */
  lemma {:induction false} LeavesCons(t: Node, rest: seq<Node>)
    ensures SumLeaves([t] + rest) == NumberOfLeaves(t) + SumLeaves(rest)
    ensures AllLeafTexts([t] + rest) == LeafTexts(t) + AllLeafTexts(rest)
    decreases |rest|
  {
    if rest == [] {
      assert [t] + rest == [t];
      assert [t][..0] == [];
    } else {
      var last := rest[|rest| - 1];
      var init := rest[..|rest| - 1];
      assert ([t] + rest)[..|rest|] == [t] + init;
      assert ([t] + rest)[|rest|] == last;
      LeavesCons(t, init);
    }
  }

  // ---------------------------------------------------------------------
  // Search

  /** The nodes of a tree in pre-order: the node, then each sub-tree's nodes
      left to right. */
  function Preorder(n: Node): seq<Node>
    decreases n, 1
  {
    match n
    case Leaf(_, _) => [n]
    case Branch(_, cs) => [n] + PreorderAll(cs)
  }

  function PreorderAll(cs: seq<Node>): seq<Node>
    decreases cs, 0
  {
    if cs == [] then [] else Preorder(cs[0]) + PreorderAll(cs[1..])
  }

  /** The first node of `xs` tagged `r`. */
  function FirstWith(xs: seq<Node>, r: RuleName): (m: Option<Node>)
    ensures m.Some? ==> m.value in xs && m.value.rule == r
    ensures m.None? ==> forall i :: 0 <= i < |xs| ==> xs[i].rule != r
  {
    if xs == [] then None else if xs[0].rule == r then Some(xs[0]) else FirstWith(xs[1..], r)
  }

  lemma {:induction false} FirstWithAppend(xs: seq<Node>, ys: seq<Node>, r: RuleName)
    ensures FirstWith(xs + ys, r) == if FirstWith(xs, r).Some? then FirstWith(xs, r) else FirstWith(ys, r)
  {
    if xs != [] {
      assert (xs + ys)[1..] == xs[1..] + ys;
      FirstWithAppend(xs[1..], ys, r);
    } else {
      assert xs + ys == ys;
    }
  }

  /** The node itself when it is tagged `r`, else the first match among its
      sub-trees, searched left to right. */
  function FindByRule(n: Node, r: RuleName): Option<Node>
    decreases n, 1
  {
    if n.rule == r then Some(n)
    else match n
      case Leaf(_, _) => None
      case Branch(_, cs) => FindFirst(cs, r)
  }

  function FindFirst(cs: seq<Node>, r: RuleName): Option<Node>
    decreases cs, 0
  {
    if cs == [] then None
    else match FindByRule(cs[0], r)
      case Some(m) => Some(m)
      case None => FindFirst(cs[1..], r)
  }

  /** The search finds the first node tagged `r` in pre-order. */
  lemma {:induction false} FindIsFirstInPreorder(n: Node, r: RuleName)
    ensures FindByRule(n, r) == FirstWith(Preorder(n), r)
    decreases n, 1
  {
    match n
    case Leaf(_, _) =>
    case Branch(_, cs) =>
      FirstWithAppend([n], PreorderAll(cs), r);
      assert [n][1..] == [];
      FindFirstIsFirst(cs, r);
  }

  lemma {:induction false} FindFirstIsFirst(cs: seq<Node>, r: RuleName)
    ensures FindFirst(cs, r) == FirstWith(PreorderAll(cs), r)
    decreases cs, 0
  {
    if cs != [] {
      FindIsFirstInPreorder(cs[0], r);
      FindFirstIsFirst(cs[1..], r);
      FirstWithAppend(Preorder(cs[0]), PreorderAll(cs[1..]), r);
    }
  }

  /** The text of the first node tagged `r` when that node is a leaf. */
  function FindTokenString(n: Node, r: RuleName): Option<string>
  {
    match FindByRule(n, r)
    case Some(Leaf(_, t)) => Some(t)
    case _ => None
  }

  lemma {:induction false} FindTokenStringIsFirstLeaf(n: Node, r: RuleName)
    ensures FindTokenString(n, r).Some? <==> FirstWith(Preorder(n), r).Some? && FirstWith(Preorder(n), r).value.Leaf?
    ensures FindTokenString(n, r).Some? ==> FirstWith(Preorder(n), r) == Some(Leaf(r, FindTokenString(n, r).value))
  {
    FindIsFirstInPreorder(n, r);
  }

  // ---------------------------------------------------------------------
  // Collecting names and values

  /** Terminal rules, and only they, are leaves. */
  lemma {:induction false} FormedLeaf(n: Node)
    requires Formed(n)
    ensures n.Leaf? <==> Type(n.rule) == Term
  {
  }

  lemma {:induction false} FormedChildren(n: Node)
    requires Formed(n)
    ensures forall i :: 0 <= i < |Children(n)| ==> Formed(Children(n)[i])
  {
  }

  /** A sequence node has one sub-tree per part, each built by its part. */
  lemma {:induction false} FormedSeq(n: Node)
    requires Formed(n) && Type(n.rule) == Seq
    ensures n.Branch? && |n.children| == |SubRules(n.rule)|
    ensures forall i :: 0 <= i < |n.children| ==> n.children[i].rule == SubRules(n.rule)[i] && Formed(n.children[i])
  {
  }

  /** A choice holding one tree an alternative built is formed. */
  lemma {:induction false} FormedOr(r: RuleName, t: Node)
    requires Formed(t) && Type(r) == Or
    requires if r == O(Condition) then IsConditionShape(t.rule) else t.rule in SubRules(r)
    ensures Formed(Branch(r, [t]))
  {
  }

  /** A VALUE node has a single leaf below it. */
  lemma {:induction false} FormedValue(n: Node)
    requires Formed(n) && n.rule == O(Value)
    ensures n.Branch? && |n.children| == 1 && n.children[0].Leaf?
  {
    var c := n.children[0];
    assert c.rule in [T(StringLiteral), T(BooleanLiteral), T(FloatLiteral), T(IntegerLiteral), T(NullLiteral)];
    assert Type(c.rule) == Term;
    FormedLeaf(c);
  }

  /** The text collected for a node tagged `r`: a name's own text, or the
      text of a value's single sub-tree; nothing for other rules. */
  function MatchedText(n: Node, r: RuleName): seq<string>
    requires Formed(n) && n.rule == r
  {
    if r == T(Attribute) || r == T(TableName) then
      FormedLeaf(n);
      [n.text]
    else if r == O(Value) then
      FormedValue(n);
      [n.children[0].text]
    else []
  }

  /** The texts of every node tagged `r`, in document order, not looking
      inside a node once it matched nor inside a terminal. */
  function GetAttributesOrVals(n: Node, r: RuleName): seq<string>
    requires Formed(n)
    decreases n, 1
  {
    if n.rule == r then MatchedText(n, r)
    else if Type(n.rule) == Term then []
    else CollectAll(n.children, r)
  }

  function CollectAll(cs: seq<Node>, r: RuleName): seq<string>
    requires forall i :: 0 <= i < |cs| ==> Formed(cs[i])
    decreases cs, 0
  {
    if cs == [] then [] else GetAttributesOrVals(cs[0], r) + CollectAll(cs[1..], r)
  }

  /** The texts of the leaves of `xs` tagged `r`, in order. */
  function TextsTagged(xs: seq<Node>, r: RuleName): seq<string>
  {
    if xs == [] then []
    else (if xs[0].Leaf? && xs[0].rule == r then [xs[0].text] else []) + TextsTagged(xs[1..], r)
  }

  lemma {:induction false} TextsTaggedAppend(xs: seq<Node>, ys: seq<Node>, r: RuleName)
    ensures TextsTagged(xs + ys, r) == TextsTagged(xs, r) + TextsTagged(ys, r)
  {
    if xs == [] {
      assert xs + ys == ys;
    } else {
      assert (xs + ys)[1..] == xs[1..] + ys;
      TextsTaggedAppend(xs[1..], ys, r);
    }
  }

  /** The node a search finds is formed, is tagged with the rule searched
      for, and passes the attribute check whenever the whole tree does. */
  lemma {:induction false} FoundFormed(n: Node, r: RuleName, t: Table)
    requires Formed(n) && Shaped(t)
    ensures FindByRule(n, r).Some? ==>
              var m := FindByRule(n, r).value;
              && m.rule == r && Formed(m)
              && (CheckAttributesExist(n, t) ==> CheckAttributesExist(m, t))
    decreases n, 1
  {
    if n.rule != r && n.Branch? {
      FoundFormedAll(n.children, r, t);
    }
  }

  lemma {:induction false} FoundFormedAll(cs: seq<Node>, r: RuleName, t: Table)
    requires (forall i :: 0 <= i < |cs| ==> Formed(cs[i])) && Shaped(t)
    ensures FindFirst(cs, r).Some? ==>
              var m := FindFirst(cs, r).value;
              && m.rule == r && Formed(m)
              && (AllAttributesExist(cs, t) ==> CheckAttributesExist(m, t))
    decreases cs, 0
  {
    if cs != [] {
      FoundFormed(cs[0], r, t);
      FoundFormedAll(cs[1..], r, t);
    }
  }

  /** A name=value list pairs every attribute with one value. */
  lemma {:induction false} NameValueCounts(n: Node)
    requires Formed(n) && n.rule == O(NameValueList)
    ensures |GetAttributesOrVals(n, T(Attribute))| == |GetAttributesOrVals(n, O(Value))|
    decreases n, 1
  {
    var c := n.children[0];
    assert n.children == [c];
    assert CollectAll([c], T(Attribute)) == GetAttributesOrVals(c, T(Attribute)) + CollectAll([], T(Attribute));
    assert CollectAll([c], O(Value)) == GetAttributesOrVals(c, O(Value)) + CollectAll([], O(Value));
    assert c.rule in Alternatives(NameValueList);
    NameValueItemCounts(c);
  }

  /** The same for one item of the list: a pair, or a pair, a comma and the
      rest of the list. */
  lemma {:induction false} NameValueItemCounts(c: Node)
    requires Formed(c) && (c.rule == S(NameValueRecur) || c.rule == S(NameValuePair))
    ensures |GetAttributesOrVals(c, T(Attribute))| == |GetAttributesOrVals(c, O(Value))|
    decreases c, 0
  {
    if c.rule == S(NameValueRecur) {
      FormedSeq(c);
      var cs := c.children;
      PairCounts(cs[0]);
      FormedLeaf(cs[1]);
      NameValueCounts(cs[2]);
      ThreeCollected(cs, T(Attribute));
      ThreeCollected(cs, O(Value));
    } else {
      PairCounts(c);
    }
  }

  /** One name=value pair gives one attribute and one value. */
  lemma {:induction false} PairCounts(p: Node)
    requires Formed(p) && p.rule == S(NameValuePair)
    ensures |GetAttributesOrVals(p, T(Attribute))| == 1 == |GetAttributesOrVals(p, O(Value))|
  {
    FormedSeq(p);
    var cs := p.children;
    FormedLeaf(cs[0]);
    FormedLeaf(cs[1]);
    FormedValue(cs[2]);
    var v := cs[2].children[0];
    assert cs[2].children == [v];
    assert Type(v.rule) == Term;
    assert CollectAll([v], T(Attribute)) == GetAttributesOrVals(v, T(Attribute)) + CollectAll([], T(Attribute));
    ThreeCollected(cs, T(Attribute));
    ThreeCollected(cs, O(Value));
  }

  lemma {:induction false} ThreeCollected(cs: seq<Node>, r: RuleName)
    requires |cs| == 3 && forall i :: 0 <= i < 3 ==> Formed(cs[i])
    ensures CollectAll(cs, r) == GetAttributesOrVals(cs[0], r) + GetAttributesOrVals(cs[1], r) + GetAttributesOrVals(cs[2], r)
  {
    assert cs[1..][1..] == [cs[2]] && cs[1..][1..][1..] == [];
    assert CollectAll([cs[2]], r) == GetAttributesOrVals(cs[2], r) + CollectAll([], r);
  }

  /** For names (attributes, table names) the collection is exactly the
      texts of the leaves so tagged in pre-order. */
  lemma {:induction false} NamesInPreorder(n: Node, r: RuleName)
    requires Formed(n) && (r == T(Attribute) || r == T(TableName))
    ensures GetAttributesOrVals(n, r) == TextsTagged(Preorder(n), r)
    decreases n, 1
  {
    assert [n][1..] == [];
    FormedLeaf(n);
    if n.Branch? {
      TextsTaggedAppend([n], PreorderAll(n.children), r);
      NamesInPreorderAll(n.children, r);
    }
  }

  lemma {:induction false} NamesInPreorderAll(cs: seq<Node>, r: RuleName)
    requires (forall i :: 0 <= i < |cs| ==> Formed(cs[i])) && (r == T(Attribute) || r == T(TableName))
    ensures CollectAll(cs, r) == TextsTagged(PreorderAll(cs), r)
    decreases cs, 0
  {
    if cs != [] {
      NamesInPreorder(cs[0], r);
      NamesInPreorderAll(cs[1..], r);
      TextsTaggedAppend(Preorder(cs[0]), PreorderAll(cs[1..]), r);
    }
  }

  /** A node that matches contributes at most one text. */
  lemma {:induction false} MatchedNodeGivesOne(n: Node, r: RuleName)
    requires Formed(n) && n.rule == r
    ensures |GetAttributesOrVals(n, r)| <= 1
  {
  }

  // ---------------------------------------------------------------------
  // Checks against a table

  /** Every attribute leaf names a column of `t`: stops at the first one
      that does not. */
  predicate CheckAttributesExist(n: Node, t: Table)
    requires Formed(n) && Shaped(t)
    decreases n, 1
  {
    if n.rule == T(Attribute) then AttributeExists(t, n.text)
    else if Type(n.rule) == Term then true
    else AllAttributesExist(n.children, t)
  }

  predicate AllAttributesExist(cs: seq<Node>, t: Table)
    requires (forall i :: 0 <= i < |cs| ==> Formed(cs[i])) && Shaped(t)
    decreases cs, 0
  {
    cs == [] || (CheckAttributesExist(cs[0], t) && AllAttributesExist(cs[1..], t))
  }

  /** The check holds exactly when every collected attribute name exists. */
  lemma {:induction false} CheckAttributesExistSpec(n: Node, t: Table)
    requires Formed(n) && Shaped(t)
    ensures CheckAttributesExist(n, t) <==>
              AllExist(t, GetAttributesOrVals(n, T(Attribute)))
    decreases n, 1
  {
    FormedLeaf(n);
    if n.rule == T(Attribute) {
      assert Type(T(Attribute)) == Term;
      assert GetAttributesOrVals(n, T(Attribute)) == [n.text];
      assert CheckAttributesExist(n, t) == AttributeExists(t, n.text);
      assert [n.text][0] == n.text;
      assert AllExist(t, [n.text]) == AttributeExists(t, n.text);
    } else if Type(n.rule) == Term {
    } else {
      assert CheckAttributesExist(n, t) == AllAttributesExist(n.children, t);
      assert GetAttributesOrVals(n, T(Attribute)) == CollectAll(n.children, T(Attribute));
      AllAttributesExistSpec(n.children, t);
    }
  }

  lemma {:induction false} AllAttributesExistSpec(cs: seq<Node>, t: Table)
    requires (forall i :: 0 <= i < |cs| ==> Formed(cs[i])) && Shaped(t)
    ensures AllAttributesExist(cs, t) <==>
              AllExist(t, CollectAll(cs, T(Attribute)))
    decreases cs, 0
  {
    if cs != [] {
      CheckAttributesExistSpec(cs[0], t);
      AllAttributesExistSpec(cs[1..], t);
      var a := GetAttributesOrVals(cs[0], T(Attribute));
      var b := CollectAll(cs[1..], T(Attribute));
      assert CollectAll(cs, T(Attribute)) == a + b;
      assert AllAttributesExist(cs, t) == (CheckAttributesExist(cs[0], t) && AllAttributesExist(cs[1..], t));
      AllExistAppend(t, a, b);
    }
  }

  /** Every name of `a + b` exists exactly when every name of `a` and every
      name of `b` does. */
  lemma {:induction false} AllExistAppend(t: Table, a: seq<string>, b: seq<string>)
    requires Shaped(t)
    ensures AllExist(t, a + b) <==> AllExist(t, a) && AllExist(t, b)
  {
    assert forall i :: 0 <= i < |a| ==> (a + b)[i] == a[i];
    assert forall i :: 0 <= i < |b| ==> (a + b)[|a| + i] == b[i];
  }

  /** The three texts of a simple condition: attribute, comparator and the
      value's token. */
  function SimpleParts(n: Node): (string, string, string)
    requires Formed(n) && n.rule == S(SimpleCond)
  {
    FormedSeq(n);
    var cs := n.children;
    assert SubRules(S(SimpleCond)) == [T(Attribute), T(Comparator), O(Value)];
    FormedLeaf(cs[0]);
    FormedLeaf(cs[1]);
    FormedValue(cs[2]);
    (cs[0].text, cs[1].text, cs[2].children[0].text)
  }

  /** Every simple condition in the tree names a column of `t`. */
  predicate ConditionColumnsExist(n: Node, t: Table)
    requires Formed(n) && Shaped(t)
    decreases n, 1
  {
    if n.Leaf? then true
    else if n.rule == S(SimpleCond) then AttributeExists(t, SimpleParts(n).0)
    else AllConditionColumnsExist(n.children, t)
  }

  predicate AllConditionColumnsExist(cs: seq<Node>, t: Table)
    requires (forall i :: 0 <= i < |cs| ==> Formed(cs[i])) && Shaped(t)
    decreases cs, 0
  {
    forall i :: 0 <= i < |cs| ==> ConditionColumnsExist(cs[i], t)
  }

  /** When every attribute exists, so does every column a condition names. */
  lemma {:induction false} AttributesCoverConditions(n: Node, t: Table)
    requires Formed(n) && Shaped(t) && CheckAttributesExist(n, t)
    ensures ConditionColumnsExist(n, t)
    decreases n, 1
  {
    FormedLeaf(n);
    if n.Branch? {
      if n.rule == S(SimpleCond) {
        FormedSeq(n);
        assert SubRules(S(SimpleCond)) == [T(Attribute), T(Comparator), O(Value)];
        assert AllAttributesExist(n.children, t);
        assert CheckAttributesExist(n.children[0], t);
      } else {
        AllAttributesCoverConditions(n.children, t);
      }
    }
  }

  lemma {:induction false} AllAttributesCoverConditions(cs: seq<Node>, t: Table)
    requires (forall i :: 0 <= i < |cs| ==> Formed(cs[i])) && Shaped(t) && AllAttributesExist(cs, t)
    ensures AllConditionColumnsExist(cs, t)
    decreases cs, 0
  {
    if cs != [] {
      AttributesCoverConditions(cs[0], t);
      AllAttributesCoverConditions(cs[1..], t);
      assert forall i :: 1 <= i < |cs| ==> cs[i] == cs[1..][i - 1];
    }
  }

  /** Combining the two sides of a compound condition. */
  function CombineCompound(first: ConditionResult, op: string, second: ConditionResult): ConditionResult
  {
    if first == Invalid || second == Invalid then Invalid
    else if EqualsIgnoreCase(op, "AND") then (if first == True && second == True then True else False)
    else if EqualsIgnoreCase(op, "OR") then (if first == True || second == True then True else False)
    else False
  }

  /** INVALID on either side wins; AND needs both sides TRUE and OR one; an
      unknown operator is FALSE; the result is never NO_CONDITION. */
  lemma {:induction false} CombineCompoundTable(a: ConditionResult, op: string, b: ConditionResult)
    ensures CombineCompound(a, op, b) != NoCondition
    ensures CombineCompound(a, op, b) == Invalid <==> a == Invalid || b == Invalid
    ensures a != Invalid && b != Invalid && EqualsIgnoreCase(op, "AND") ==>
              (CombineCompound(a, op, b) == True <==> a == True && b == True)
    ensures a != Invalid && b != Invalid && EqualsIgnoreCase(op, "OR") ==>
              (CombineCompound(a, op, b) == True <==> a == True || b == True)
    ensures !EqualsIgnoreCase(op, "AND") && !EqualsIgnoreCase(op, "OR") ==> CombineCompound(a, op, b) != True
  {
  }

  /** The rule names of compound conditions. */
  predicate IsCompound(r: RuleName)
  {
    r == S(CompWithSimp) || r == S(CompWithBracket)
  }

  /** The two sides and the operator of a compound condition. */
  lemma {:induction false} FormedCompound(n: Node)
    requires Formed(n) && IsCompound(n.rule)
    ensures n.Branch? && |n.children| == 3 && n.children[1].Leaf?
    ensures Formed(n.children[0]) && Formed(n.children[2])
  {
    FormedSeq(n);
    assert SubRules(n.rule)[1] == T(BoolOperator);
    FormedLeaf(n.children[1]);
  }

  /** Compound conditions nest to the right: the left side is a simple or
      bracketed condition and the right side a whole condition, so AND and
      OR have no precedence over each other. */
  lemma {:induction false} CompoundNestsRight(n: Node)
    requires Formed(n) && IsCompound(n.rule)
    ensures n.Branch? && |n.children| == 3
    ensures n.children[0].rule == S(SimpleCond) || n.children[0].rule == S(BracketCond)
    ensures n.children[1].rule == T(BoolOperator) && n.children[2].rule == O(Condition)
  {
    FormedSeq(n);
  }

  /** The outcome of the WHERE condition in `n` for row `rowNum`: NO_CONDITION
      for a terminal, the table's evaluation for a simple condition, the
      combination of both sides for a compound one, and otherwise the highest
      ranked outcome among the sub-trees. */
  function CheckConditions(n: Node, t: Table, num: Numerics, rowNum: nat): ConditionResult
    requires Formed(n) && Shaped(t) && rowNum < |t.ids| && ConditionColumnsExist(n, t)
    decreases n, 1
  {
    FormedLeaf(n);
    if Type(n.rule) == Term then NoCondition
    else if n.rule == S(SimpleCond) then
      var (attribute, comparator, value) := SimpleParts(n);
      EvaluateCondition(t, num, attribute, comparator, value, rowNum)
    else if IsCompound(n.rule) then
      FormedCompound(n);
      var cs := n.children;
      assert AllConditionColumnsExist(cs, t);
      CombineCompound(CheckConditions(cs[0], t, num, rowNum), cs[1].text, CheckConditions(cs[2], t, num, rowNum))
    else MaxOf(ChildResults(n.children, t, num, rowNum))
  }

  /** The outcomes of the sub-trees, in order. */
  function ChildResults(cs: seq<Node>, t: Table, num: Numerics, rowNum: nat): (rs: seq<ConditionResult>)
    requires (forall i :: 0 <= i < |cs| ==> Formed(cs[i])) && Shaped(t) && rowNum < |t.ids|
    requires AllConditionColumnsExist(cs, t)
    ensures |rs| == |cs|
    decreases cs, 0
  {
    if cs == [] then []
    else
      assert forall i :: 0 <= i < |cs| - 1 ==> cs[1..][i] == cs[i + 1];
      [CheckConditions(cs[0], t, num, rowNum)] + ChildResults(cs[1..], t, num, rowNum)
  }

  /** No simple or compound condition anywhere in the tree. */
  predicate NoConditionIn(n: Node)
    decreases n
  {
    match n
    case Leaf(_, _) => true
    case Branch(r, cs) => r != S(SimpleCond) && !IsCompound(r) && forall i :: 0 <= i < |cs| ==> NoConditionIn(cs[i])
  }

  /** A tree without conditions gives NO_CONDITION for every row. */
  lemma {:induction false} NoConditionWithoutConditions(n: Node, t: Table, num: Numerics, rowNum: nat)
    requires Formed(n) && Shaped(t) && rowNum < |t.ids| && NoConditionIn(n)
    ensures ConditionColumnsExist(n, t)
    ensures CheckConditions(n, t, num, rowNum) == NoCondition
    decreases n, 1
  {
    FormedLeaf(n);
    if n.Branch? {
      NoConditionWithoutConditionsAll(n.children, t, num, rowNum);
      MaxOfAllNoCondition(ChildResults(n.children, t, num, rowNum));
    }
  }

  lemma {:induction false} NoConditionWithoutConditionsAll(cs: seq<Node>, t: Table, num: Numerics, rowNum: nat)
    requires (forall i :: 0 <= i < |cs| ==> Formed(cs[i] ) && NoConditionIn(cs[i])) && Shaped(t) && rowNum < |t.ids|
    ensures AllConditionColumnsExist(cs, t)
    ensures forall i :: 0 <= i < |cs| ==> ChildResults(cs, t, num, rowNum)[i] == NoCondition
    decreases cs, 0
  {
    if cs != [] {
      NoConditionWithoutConditions(cs[0], t, num, rowNum);
      assert forall i :: 0 <= i < |cs| - 1 ==> cs[1..][i] == cs[i + 1];
      NoConditionWithoutConditionsAll(cs[1..], t, num, rowNum);
    }
  }

  // ---------------------------------------------------------------------
  // Reserved words

  /** The first table name, the first database name and every attribute of
      the command must not be reserved words, case ignored. */
  predicate CheckNoReservedWordsUsed(n: Node)
    requires Formed(n)
  {
    var tableName := FindTokenString(n, T(TableName));
    var databaseName := FindTokenString(n, T(DbName));
    var attributes := GetAttributesOrVals(n, T(Attribute));
    && !(tableName.Some? && IsReserved(tableName.value))
    && !(databaseName.Some? && IsReserved(databaseName.value))
    && forall i :: 0 <= i < |attributes| ==> !IsReserved(attributes[i])
  }

  /** None of the texts is a reserved word. */
  predicate NoneReserved(xs: seq<string>)
  {
    forall i :: 0 <= i < |xs| ==> !IsReserved(xs[i])
  }

  /** Whether the first node of `xs` tagged `r` is a leaf holding a reserved
      word. */
  predicate FirstIsReserved(xs: seq<Node>, r: RuleName)
  {
    FirstWith(xs, r).Some? && FirstWith(xs, r).value.Leaf? && IsReserved(FirstWith(xs, r).value.text)
  }

  /** The check in terms of the pre-order: neither the first table-name nor
      the first database-name node is a reserved leaf, and no attribute leaf
      is reserved. */
  lemma {:induction false} ReservedWordsSpec(n: Node)
    requires Formed(n)
    ensures CheckNoReservedWordsUsed(n) <==>
              && !FirstIsReserved(Preorder(n), T(TableName))
              && !FirstIsReserved(Preorder(n), T(DbName))
              && NoneReserved(TextsTagged(Preorder(n), T(Attribute)))
  {
    NamesInPreorder(n, T(Attribute));
    FindTokenStringIsFirstLeaf(n, T(TableName));
    FindTokenStringIsFirstLeaf(n, T(DbName));
  }

  /** A text is collected exactly when some leaf so tagged holds it. */
  lemma {:induction false} TaggedTexts(xs: seq<Node>, r: RuleName, s: string)
    ensures s in TextsTagged(xs, r) <==> exists m :: m in xs && m.Leaf? && m.rule == r && m.text == s
  {
    if xs != [] {
      TaggedTexts(xs[1..], r, s);
      assert forall m :: m in xs <==> m == xs[0] || m in xs[1..];
    }
  }
}
