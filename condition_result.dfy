/** The four outcomes of evaluating a WHERE condition against one row, with
    the rank used to aggregate the outcomes of several sub-trees. */
module ConditionResults {

  datatype ConditionResult = NoCondition | True | False | Invalid

  /** The declared rank: NO_CONDITION 0, TRUE 1, FALSE 2, INVALID 3. */
  function GetVal(c: ConditionResult): (r: nat)
    ensures r <= 3
    ensures c == NoCondition <==> r == 0
    ensures c == True <==> r == 1
    ensures c == False <==> r == 2
    ensures c == Invalid <==> r == 3
  {
    match c
    case NoCondition => 0
    case True => 1
    case False => 2
    case Invalid => 3
  }

  /** Distinct values have distinct ranks, so the rank is a strict total order. */
  lemma {:induction false} GetValInjective(a: ConditionResult, b: ConditionResult)
    ensures GetVal(a) == GetVal(b) <==> a == b
  {
  }

  /** One step of the aggregation loop: the candidate replaces the current
      result only when its rank is strictly higher. */
  function Higher(top: ConditionResult, candidate: ConditionResult): (r: ConditionResult)
    ensures r == top || r == candidate
    ensures GetVal(r) >= GetVal(top) && GetVal(r) >= GetVal(candidate)
  {
    if GetVal(candidate) > GetVal(top) then candidate else top
  }

  /** The result of the aggregation loop over `rs`, starting from NO_CONDITION. */
  function MaxOf(rs: seq<ConditionResult>): ConditionResult
  {
    if rs == [] then NoCondition else Higher(MaxOf(rs[..|rs| - 1]), rs[|rs| - 1])
  }

  /** The aggregate is NO_CONDITION or one of the inputs, and no input has a
      higher rank: NO_CONDITION is the identity and INVALID absorbs. */
  lemma {:induction false} MaxOfIsMaximum(rs: seq<ConditionResult>)
    ensures MaxOf(rs) == NoCondition || MaxOf(rs) in rs
    ensures forall i :: 0 <= i < |rs| ==> GetVal(rs[i]) <= GetVal(MaxOf(rs))
  {
    if rs != [] {
      var init := rs[..|rs| - 1];
      MaxOfIsMaximum(init);
      assert forall i :: 0 <= i < |init| ==> rs[i] == init[i];
    }
  }

  lemma {:induction false} MaxOfInvalid(rs: seq<ConditionResult>)
    ensures MaxOf(rs) == Invalid <==> Invalid in rs
  {
    MaxOfIsMaximum(rs);
  }

  lemma {:induction false} MaxOfAllNoCondition(rs: seq<ConditionResult>)
    ensures MaxOf(rs) == NoCondition <==> forall i :: 0 <= i < |rs| ==> rs[i] == NoCondition
  {
    MaxOfIsMaximum(rs);
  }
}
