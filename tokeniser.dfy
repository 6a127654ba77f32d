/** The tokeniser: a command string is cut at spaces outside quotes, each
    piece is cut into runs of letters and digits and single other characters,
    and the pieces are then re-merged into string literals, two-character
    comparators and signed or decimal numbers. Each pass is a method with the
    loops of `Tokeniser.java`, proved equal to a specification function; the
    properties are proved about the specification functions. */
module Tokeniser {
  import opened Base

  // =====================================================================
  // Pass 1: split at spaces outside string literals

  /** The state of the space-splitting loop: finished pieces, the piece being
      built, and whether the loop is inside a quoted literal. */
  datatype SpaceState = SpaceState(parts: seq<string>, current: string, quoted: bool)

  function SpaceStep(st: SpaceState, c: char): SpaceState
  {
    if c == ' ' && !st.quoted then SpaceState(st.parts + [st.current], "", st.quoted)
    else SpaceState(st.parts, st.current + [c], if c == '\'' then !st.quoted else st.quoted)
  }

  /** The loop state after reading all of `s`. */
  function SpaceScan(s: string): SpaceState
  {
    if s == [] then SpaceState([], "", false) else SpaceStep(SpaceScan(s[..|s| - 1]), s[|s| - 1])
  }

  /** The result of splitting `s` at spaces outside quotes. */
  function SpaceSplit(s: string): seq<string>
  {
    var st := SpaceScan(s);
    RemoveEmpty(st.parts + [st.current])
  }

  method SplitBySpaces(s: string) returns (tokens: seq<string>)
    ensures tokens == SpaceSplit(s)
  {
    var parts: seq<string> := [];
    var current := "";
    var quoted := false;
    var i := 0;
    while i < |s|
      invariant 0 <= i <= |s|
      invariant SpaceState(parts, current, quoted) == SpaceScan(s[..i])
    {
      var c := s[i];
      if c == ' ' && !quoted {
        parts := parts + [current];
        current := "";
      } else {
        current := current + [c];
      }
      if c == '\'' {
        quoted := !quoted;
      }
      assert s[..i + 1][..i] == s[..i];
      i := i + 1;
    }
    assert s[..i] == s;
    tokens := RemoveEmpty(parts + [current]);
  }

  /** Whether `s` holds an odd number of quote characters. */
  predicate OddQuotes(s: string)
  {
    if s == [] then false else OddQuotes(s[..|s| - 1]) != (s[|s| - 1] == '\'')
  }

  /** Reference definition: `s` without the spaces that are preceded by an even
      number of quote characters. */
  function WithoutUnquotedSpaces(s: string): string
  {
    if s == [] then ""
    else
      var init := s[..|s| - 1];
      var c := s[|s| - 1];
      WithoutUnquotedSpaces(init) + (if c == ' ' && !OddQuotes(init) then "" else [c])
  }

  lemma {:induction false} SpaceScanText(s: string)
    ensures SpaceScan(s).quoted == OddQuotes(s)
    ensures Concat(SpaceScan(s).parts) + SpaceScan(s).current == WithoutUnquotedSpaces(s)
  {
    if s != [] {
      var init := s[..|s| - 1];
      var c := s[|s| - 1];
      SpaceScanText(init);
      var st := SpaceScan(init);
      if c == ' ' && !st.quoted {
        ConcatAppend(st.parts, [st.current]);
        ConcatSingle(st.current);
        assert WithoutUnquotedSpaces(s) == WithoutUnquotedSpaces(init);
      } else {
        assert WithoutUnquotedSpaces(s) == WithoutUnquotedSpaces(init) + [c];
        assert SpaceScan(s).current == st.current + [c];
      }
    }
  }

  /** Concatenating the pieces gives the input without exactly the spaces
      outside quotes, each quote character toggling the quoted state. */
  lemma {:induction false} SpaceSplitText(s: string)
    ensures Concat(SpaceSplit(s)) == WithoutUnquotedSpaces(s)
  {
    var st := SpaceScan(s);
    SpaceScanText(s);
    ConcatAppend(st.parts, [st.current]);
    ConcatSingle(st.current);
  }

  /** No piece is empty. */
  lemma {:induction false} SpaceSplitNonEmpty(s: string)
    ensures forall i :: 0 <= i < |SpaceSplit(s)| ==> SpaceSplit(s)[i] != ""
  {
  }

  lemma {:induction false} AllSpacesText(s: string)
    requires forall i :: 0 <= i < |s| ==> s[i] == ' '
    ensures WithoutUnquotedSpaces(s) == "" && !OddQuotes(s)
  {
    if s != [] {
      AllSpacesText(s[..|s| - 1]);
    }
  }

  /** The empty string, and a string of spaces only, give no pieces. */
  lemma {:induction false} AllSpacesGiveNothing(s: string)
    requires forall i :: 0 <= i < |s| ==> s[i] == ' '
    ensures SpaceSplit(s) == []
  {
    AllSpacesText(s);
    SpaceSplitText(s);
  }

  // =====================================================================
  // Pass 2: runs of letters and digits, and single other characters

  predicate IsRun(p: string) { p != "" && AllLetterOrDigit(p) }

  predicate IsSymbol(p: string) { |p| == 1 && !IsLetterOrDigit(p[0]) }

  predicate PieceOk(p: string) { IsRun(p) || IsSymbol(p) }

  /** Every piece is a run or a single symbol, and no two runs are adjacent;
      stated piece by piece from the end, as the loop builds it. */
  predicate WellSplit(ps: seq<string>)
    decreases |ps|
  {
    || ps == []
    || (&& WellSplit(ps[..|ps| - 1])
        && PieceOk(ps[|ps| - 1])
        && (|ps| >= 2 ==> !(IsRun(ps[|ps| - 2]) && IsRun(ps[|ps| - 1]))))
  }

  /** WellSplit in the words of its comment. */
  lemma {:induction false} WellSplitMeans(ps: seq<string>)
    ensures WellSplit(ps) <==>
              && (forall i :: 0 <= i < |ps| ==> PieceOk(ps[i]))
              && (forall i :: 0 <= i < |ps| - 1 ==> !(IsRun(ps[i]) && IsRun(ps[i + 1])))
    decreases |ps|
  {
    if ps != [] {
      var init := ps[..|ps| - 1];
      WellSplitMeans(init);
      assert forall i :: 0 <= i < |init| ==> init[i] == ps[i];
    }
  }

  /** State of the character loop: finished pieces and the pending run. */
  datatype RunState = RunState(pieces: seq<string>, plain: string)

  function RunStep(st: RunState, c: char): RunState
  {
    if IsLetterOrDigit(c) then RunState(st.pieces, st.plain + [c])
    else if |st.plain| > 0 then RunState(st.pieces + [st.plain] + [[c]], "")
    else RunState(st.pieces + [[c]], "")
  }

  function RunScan(s: string): RunState
  {
    if s == [] then RunState([], "") else RunStep(RunScan(s[..|s| - 1]), s[|s| - 1])
  }

  /** The pieces of one space-free substring. */
  function Runs(s: string): seq<string>
  {
    var st := RunScan(s);
    if |st.plain| > 0 then st.pieces + [st.plain] else st.pieces
  }

  method SplitRuns(s: string) returns (pieces: seq<string>)
    ensures pieces == Runs(s)
  {
    pieces := [];
    var plain := "";
    var i := 0;
    while i < |s|
      invariant 0 <= i <= |s|
      invariant RunState(pieces, plain) == RunScan(s[..i])
    {
      var c := s[i];
      if IsLetterOrDigit(c) {
        plain := plain + [c];
      } else {
        if |plain| > 0 {
          pieces := pieces + [plain];
          plain := "";
        }
        pieces := pieces + [[c]];
      }
      assert s[..i + 1][..i] == s[..i];
      i := i + 1;
    }
    assert s[..i] == s;
    if |plain| > 0 {
      pieces := pieces + [plain];
    }
  }

  lemma {:induction false} WellSplitSnoc(ps: seq<string>, p: string)
    requires WellSplit(ps) && PieceOk(p)
    requires ps != [] && IsRun(p) ==> !IsRun(ps[|ps| - 1])
    ensures WellSplit(ps + [p])
  {
    assert (ps + [p])[..|ps|] == ps;
  }

  /** What the character loop keeps: the finished pieces and the pending run
      spell the text read so far, the pieces are well split, the pending run
      is letters and digits, and the last finished piece is a symbol. */
  predicate ScanInv(st: RunState, s: string)
  {
    && Concat(st.pieces) + st.plain == s
    && WellSplit(st.pieces)
    && AllLetterOrDigit(st.plain)
    && (st.pieces != [] ==> IsSymbol(st.pieces[|st.pieces| - 1]))
  }

  lemma {:induction false} RunScanInvariant(s: string)
    ensures ScanInv(RunScan(s), s)
    decreases |s|
  {
    if s == [] {
      assert Concat([]) == "";
    } else {
      var init := s[..|s| - 1];
      var c := s[|s| - 1];
      RunScanInvariant(init);
      assert s == init + [c];
      RunStepKeeps(RunScan(init), init, c);
    }
  }

  lemma {:induction false} RunStepKeeps(st: RunState, s: string, c: char)
    requires ScanInv(st, s)
    ensures ScanInv(RunStep(st, c), s + [c])
  {
    if IsLetterOrDigit(c) {
      RunStepPlain(st, s, c);
    } else if |st.plain| > 0 {
      RunStepFlush(st, s, c);
    } else {
      RunStepSymbol(st, s, c);
    }
  }

  lemma {:induction false} RunStepPlain(st: RunState, s: string, c: char)
    requires ScanInv(st, s) && IsLetterOrDigit(c)
    ensures ScanInv(RunState(st.pieces, st.plain + [c]), s + [c])
  {
    var q := st.plain + [c];
    assert forall i :: 0 <= i < |q| ==> q[i] == if i < |st.plain| then st.plain[i] else c;
    assert Concat(st.pieces) + q == (Concat(st.pieces) + st.plain) + [c];
  }

  lemma {:induction false} SymbolPiece(c: char)
    requires !IsLetterOrDigit(c)
    ensures IsSymbol([c]) && !IsRun([c])
  {
    assert [c][0] == c;
  }

  lemma {:induction false} RunStepFlush(st: RunState, s: string, c: char)
    requires ScanInv(st, s) && !IsLetterOrDigit(c) && |st.plain| > 0
    ensures ScanInv(RunState(st.pieces + [st.plain] + [[c]], ""), s + [c])
  {
    ConcatAppend(st.pieces, [st.plain]);
    ConcatSingle(st.plain);
    ConcatAppend(st.pieces + [st.plain], [[c]]);
    ConcatSingle([c]);
    assert IsRun(st.plain);
    WellSplitSnoc(st.pieces, st.plain);
    SymbolPiece(c);
    WellSplitSnoc(st.pieces + [st.plain], [c]);
  }

  lemma {:induction false} RunStepSymbol(st: RunState, s: string, c: char)
    requires ScanInv(st, s) && !IsLetterOrDigit(c) && st.plain == ""
    ensures ScanInv(RunState(st.pieces + [[c]], ""), s + [c])
  {
    ConcatAppend(st.pieces, [[c]]);
    ConcatSingle([c]);
    SymbolPiece(c);
    WellSplitSnoc(st.pieces, [c]);
  }

  /** The pieces concatenate back to the substring, and each is a maximal run
      of letters and digits or a single other character. */
  lemma {:induction false} RunsSplit(s: string)
    ensures Concat(Runs(s)) == s
    ensures WellSplit(Runs(s))
  {
    RunScanInvariant(s);
    var st := RunScan(s);
    if |st.plain| > 0 {
      ConcatAppend(st.pieces, [st.plain]);
      ConcatSingle(st.plain);
      WellSplitSnoc(st.pieces, st.plain);
    }
  }

  /** The replacement of one piece of pass 1: its runs when there are several,
      otherwise the piece itself. */
  function Piece(t: string): seq<string>
  {
    if |Runs(t)| > 1 then Runs(t) else [t]
  }

  /** The list after pass 2 has replaced each piece of `ts`. */
  function Expanded(ts: seq<string>): seq<string>
  {
    if ts == [] then [] else Expanded(ts[..|ts| - 1]) + Piece(ts[|ts| - 1])
  }

  lemma {:induction false} PieceText(t: string)
    ensures Concat(Piece(t)) == t
  {
    RunsSplit(t);
    ConcatSingle(t);
  }

  lemma {:induction false} ExpandedText(ts: seq<string>)
    ensures Concat(Expanded(ts)) == Concat(ts)
  {
    if ts != [] {
      var init := ts[..|ts| - 1];
      ExpandedText(init);
      ConcatAppend(Expanded(init), Piece(ts[|ts| - 1]));
      PieceText(ts[|ts| - 1]);
    }
  }

  lemma {:induction false} ExpandedSnoc(ts: seq<string>, t: string)
    ensures Expanded(ts + [t]) == Expanded(ts) + Piece(t)
  {
    assert (ts + [t])[..|ts|] == ts;
  }

  /** One replacement of pass 2 on the list `Expanded(orig[..k]) + orig[k..]`. */
  lemma {:induction false} ExpandStep(orig: seq<string>, k: nat, split: seq<string>)
    requires k < |orig| && split == Runs(orig[k])
    ensures var t := Expanded(orig[..k]) + orig[k..];
            var n := |Expanded(orig[..k])|;
            && n < |t| && t[n] == orig[k]
            && (if |split| > 1 then t[..n] + split + t[n + 1..] else t)
               == Expanded(orig[..k + 1]) + orig[k + 1..]
            && |Expanded(orig[..k + 1])| == n + (if |split| > 1 then |split| else 1)
  {
    var e := Expanded(orig[..k]);
    var rest := orig[k + 1..];
    assert orig[k..] == [orig[k]] + rest;
    var t := e + orig[k..];
    assert t == e + [orig[k]] + rest;
    assert t[..|e|] == e;
    assert t[|e| + 1..] == rest;
    ExpandedSnoc(orig[..k], orig[k]);
    assert orig[..k + 1] == orig[..k] + [orig[k]];
  }

  /** Pass 2 as the Java code does it: each piece is replaced in the list
      itself and the cursor skips over the inserted pieces. */
  method ExpandInPlace(orig: seq<string>) returns (tokenStrings: seq<string>)
    ensures tokenStrings == Expanded(orig)
  {
    tokenStrings := orig;
    var strCnt := 0;
    ghost var k := 0;
    assert orig[..0] == [];
    while strCnt < |tokenStrings|
      invariant 0 <= k <= |orig|
      invariant tokenStrings == Expanded(orig[..k]) + orig[k..]
      invariant strCnt == |Expanded(orig[..k])|
      decreases |orig| - k
    {
      var subStr := tokenStrings[strCnt];
      var splitSubStr := SplitRuns(subStr);
      ExpandStep(orig, k, splitSubStr);
      if |splitSubStr| > 1 {
        tokenStrings := tokenStrings[..strCnt] + splitSubStr + tokenStrings[strCnt + 1..];
        strCnt := strCnt + |splitSubStr| - 1;
      }
      strCnt := strCnt + 1;
      k := k + 1;
    }
    assert orig[..k] == orig;
  }

  // =====================================================================
  // Pass 3: re-merging symbols

  predicate IsNumericText(s: string) { AllDigits(s) }

  method IsNumeric(s: string) returns (r: bool)
    ensures r <==> forall i :: 0 <= i < |s| ==> IsDigit(s[i])
  {
    var i := 0;
    while i < |s|
      invariant 0 <= i <= |s|
      invariant forall j :: 0 <= j < i ==> IsDigit(s[j])
    {
      if !IsDigit(s[i]) {
        return false;
      }
      i := i + 1;
    }
    return true;
  }

  /** One past the first quote token at or after `j`, or the end. */
  function LiteralEnd(ts: seq<string>, j: nat): (e: nat)
    requires j <= |ts|
    ensures j <= e <= |ts|
    ensures e == |ts| || (e > j && ts[e - 1] == "'")
    ensures forall m :: j <= m < e - 1 ==> ts[m] != "'"
    ensures e < |ts| ==> ts[e - 1] == "'"
    decreases |ts| - j
  {
    if j == |ts| then |ts| else if ts[j] == "'" then j + 1 else LiteralEnd(ts, j + 1)
  }

  predicate IsComparatorStart(t: string) { t == "=" || t == "<" || t == ">" || t == "!" }

  predicate IsSign(t: string) { t == "+" || t == "-" }

  /** The text a sign contributes to a merged number: a "-" is kept and a
      "+" dropped. */
  function SignText(t: string): string { if t == "-" then "-" else "" }

  /** One merged token starting at `i`, and the index of the next unread token. */
  datatype Step = Step(tok: string, next: nat)

  function CombineStep(ts: seq<string>, i: nat): (st: Step)
    requires i < |ts|
    ensures i < st.next <= |ts|
    ensures Concat(ts[i..st.next]) == st.tok
            || (ts[i] == "+" && Concat(ts[i..st.next]) == "+" + st.tok)
  {
    var cur := ts[i];
    var after := |ts| - i - 1;
    ConcatSingle(cur);
    assert ts[i..i + 1] == [cur];
    if cur == "'" && after >= 1 then
      var e := LiteralEnd(ts, i + 1);
      Step(Concat(ts[i..e]), e)
    else if IsComparatorStart(cur) && after >= 1 && ts[i + 1] == "=" then
      Concat2(ts, i);
      Step(cur + ts[i + 1], i + 2)
    else if IsSign(cur) && after >= 3 && IsNumericText(ts[i + 1]) && ts[i + 2] == "."
            && IsNumericText(ts[i + 3]) then
      SignedFour(ts, i);
      Step(SignText(cur) + ts[i + 1] + ts[i + 2] + ts[i + 3], i + 4)
    else if IsSign(cur) && after >= 1 && IsNumericText(ts[i + 1]) then
      SignedTwo(ts, i);
      Step(SignText(cur) + ts[i + 1], i + 2)
    else if IsNumericText(cur) && after >= 2 && ts[i + 1] == "." && IsNumericText(ts[i + 2]) then
      Concat3(ts, i);
      Step(cur + ts[i + 1] + ts[i + 2], i + 3)
    else
      Step(cur, i + 1)
  }

  /** A sign merged with the number after it keeps a "-" and drops a "+". */
  lemma {:induction false} SignedTwo(ts: seq<string>, i: nat)
    requires i + 2 <= |ts| && IsSign(ts[i])
    ensures var tok := SignText(ts[i]) + ts[i + 1];
            Concat(ts[i..i + 2]) == tok || (ts[i] == "+" && Concat(ts[i..i + 2]) == "+" + tok)
  {
    Concat2(ts, i);
    if ts[i] == "+" {
      assert SignText(ts[i]) + ts[i + 1] == ts[i + 1];
    }
  }

  lemma {:induction false} SignedFour(ts: seq<string>, i: nat)
    requires i + 4 <= |ts| && IsSign(ts[i])
    ensures var tok := SignText(ts[i]) + ts[i + 1] + ts[i + 2] + ts[i + 3];
            Concat(ts[i..i + 4]) == tok || (ts[i] == "+" && Concat(ts[i..i + 4]) == "+" + tok)
  {
    Concat4(ts, i);
    var rest := ts[i + 1] + ts[i + 2] + ts[i + 3];
    assert ts[i] + ts[i + 1] + ts[i + 2] + ts[i + 3] == ts[i] + rest;
    assert SignText(ts[i]) + ts[i + 1] + ts[i + 2] + ts[i + 3] == SignText(ts[i]) + rest;
    if ts[i] == "+" {
      assert SignText(ts[i]) + rest == rest;
    }
  }

  lemma {:induction false} ConcatSnoc(ts: seq<string>, i: nat, j: nat)
    requires i <= j < |ts|
    ensures Concat(ts[i..j + 1]) == Concat(ts[i..j]) + ts[j]
  {
    assert ts[i..j + 1][..j - i] == ts[i..j];
  }

  lemma {:induction false} Concat2(ts: seq<string>, i: nat)
    requires i + 2 <= |ts|
    ensures Concat(ts[i..i + 2]) == ts[i] + ts[i + 1]
  {
    ConcatSnoc(ts, i, i + 1);
    ConcatSnoc(ts, i, i);
    assert ts[i..i] == [];
  }

  lemma {:induction false} Concat3(ts: seq<string>, i: nat)
    requires i + 3 <= |ts|
    ensures Concat(ts[i..i + 3]) == ts[i] + ts[i + 1] + ts[i + 2]
  {
    ConcatSnoc(ts, i, i + 2);
    Concat2(ts, i);
  }

  lemma {:induction false} Concat4(ts: seq<string>, i: nat)
    requires i + 4 <= |ts|
    ensures Concat(ts[i..i + 4]) == ts[i] + ts[i + 1] + ts[i + 2] + ts[i + 3]
  {
    ConcatSnoc(ts, i, i + 3);
    Concat3(ts, i);
  }

  /** A quote with at least one token after it absorbs every token up to and
      including the next quote, or up to the end when there is none. */
  lemma {:induction false} LiteralAbsorbs(ts: seq<string>, i: nat)
    requires i + 1 < |ts| && ts[i] == "'"
    ensures CombineStep(ts, i).tok == Concat(ts[i..CombineStep(ts, i).next])
    ensures var e := CombineStep(ts, i).next;
            (e == |ts| || ts[e - 1] == "'") && forall m :: i < m < e - 1 ==> ts[m] != "'"
  {
  }

  /** A comparator character followed by "=" is merged with it. */
  lemma {:induction false} ComparatorMerges(ts: seq<string>, i: nat)
    requires i + 1 < |ts| && IsComparatorStart(ts[i]) && ts[i + 1] == "="
    ensures CombineStep(ts, i) == Step(ts[i] + "=", i + 2)
  {
  }

  /** A sign followed by digits is merged with them, and with a following
      point and digits when there are any; a "-" is kept and a "+" dropped. */
  lemma SignedNumberMerges(ts: seq<string>, i: nat)
    requires i + 1 < |ts| && IsSign(ts[i]) && IsNumericText(ts[i + 1])
    ensures i + 3 < |ts| && ts[i + 2] == "." && IsNumericText(ts[i + 3]) ==>
              CombineStep(ts, i) == Step(SignText(ts[i]) + ts[i + 1] + "." + ts[i + 3], i + 4)
    ensures !(i + 3 < |ts| && ts[i + 2] == "." && IsNumericText(ts[i + 3])) ==>
              CombineStep(ts, i) == Step(SignText(ts[i]) + ts[i + 1], i + 2)
  {
  }

  /** Unsigned digits, a point and digits are merged into one decimal. */
  lemma UnsignedDecimalMerges(ts: seq<string>, i: nat)
    requires i + 2 < |ts| && IsNumericText(ts[i]) && ts[i + 1] == "." && IsNumericText(ts[i + 2])
    ensures CombineStep(ts, i) == Step(ts[i] + "." + ts[i + 2], i + 3)
  {
  }

  /** The merged tokens from index `i` on. */
  function CombineFrom(ts: seq<string>, i: nat): (r: seq<string>)
    requires i <= |ts|
    ensures |r| <= |ts| - i
    decreases |ts| - i
  {
    if i == |ts| then [] else
      var st := CombineStep(ts, i);
      [st.tok] + CombineFrom(ts, st.next)
  }

  function Combine(ts: seq<string>): seq<string>
  {
    CombineFrom(ts, 0)
  }

  /** Merging never lengthens the list. */
  lemma {:induction false} CombineShorter(ts: seq<string>)
    ensures |Combine(ts)| <= |ts|
  {
  }

  lemma {:induction false} ConcatCons(x: string, xs: seq<string>)
    ensures Concat([x] + xs) == x + Concat(xs)
  {
    ConcatAppend([x], xs);
    ConcatSingle(x);
  }

  lemma {:induction false} ConcatSplit(ts: seq<string>, i: nat, j: nat)
    requires i <= j <= |ts|
    ensures Concat(ts[i..]) == Concat(ts[i..j]) + Concat(ts[j..])
  {
    assert ts[i..] == ts[i..j] + ts[j..];
    ConcatAppend(ts[i..j], ts[j..]);
  }

  /** Without "+" tokens, merging only regroups text: the concatenation is
      unchanged. */
  lemma {:induction false} CombineFromText(ts: seq<string>, i: nat)
    requires i <= |ts|
    requires forall m :: 0 <= m < |ts| ==> ts[m] != "+"
    ensures Concat(CombineFrom(ts, i)) == Concat(ts[i..])
    decreases |ts| - i
  {
    if i == |ts| {
    } else {
      var st := CombineStep(ts, i);
      CombineFromText(ts, st.next);
      ConcatCons(st.tok, CombineFrom(ts, st.next));
      ConcatSplit(ts, i, st.next);
    }
  }

  /** The combining pass as the Java code does it: a cursor over the token list
      and an output list. */
  method CombineSymbolTokens(tokenStrings: seq<string>) returns (combined: seq<string>)
    ensures combined == Combine(tokenStrings)
  {
    var ts := tokenStrings;
    combined := [];
    var strCnt := 0;
    while strCnt < |ts|
      invariant 0 <= strCnt <= |ts|
      invariant combined + CombineFrom(ts, strCnt) == Combine(ts)
      decreases |ts| - strCnt
    {
      var tok, next := CombineOne(ts, strCnt);
      combined := combined + [tok];
      strCnt := next;
    }
  }

  /** The inner loop of the combining pass: from the quote at `i`, gather
      tokens until one that is a quote has been taken, or the list ends. */
  method GatherLiteral(ts: seq<string>, i: nat) returns (strLit: string, j: nat)
    requires i + 1 < |ts|
    ensures j == LiteralEnd(ts, i + 1)
    ensures strLit == Concat(ts[i..j])
  {
    strLit := ts[i];
    j := i + 1;
    var last := ts[j];
    strLit := strLit + last;
    ConcatSnoc(ts, i, i);
    ConcatSnoc(ts, i, i + 1);
    assert ts[i..i] == [];
    j := j + 1;
    while j < |ts| && last != "'"
      invariant i + 2 <= j <= |ts|
      invariant strLit == Concat(ts[i..j])
      invariant last == ts[j - 1]
      invariant LiteralEnd(ts, i + 1) == if last == "'" then j else LiteralEnd(ts, j)
      decreases |ts| - j
    {
      last := ts[j];
      ConcatSnoc(ts, i, j);
      strLit := strLit + last;
      j := j + 1;
    }
  }

  /** One iteration of the combining loop. */
  method CombineOne(ts: seq<string>, i: nat) returns (tok: string, next: nat)
    requires i < |ts|
    ensures Step(tok, next) == CombineStep(ts, i)
  {
    var cur := ts[i];
    var after := |ts| - i - 1;
    if cur == "'" && after >= 1 {
      tok, next := GatherLiteral(ts, i);
      return;
    }
    if IsComparatorStart(cur) && after >= 1 && ts[i + 1] == "=" {
      return cur + ts[i + 1], i + 2;
    }
    if IsSign(cur) && after >= 3 {
      var n1 := IsNumeric(ts[i + 1]);
      var n3 := IsNumeric(ts[i + 3]);
      if n1 && ts[i + 2] == "." && n3 {
        var decimalStr := if cur == "-" then "-" else "";
        return decimalStr + ts[i + 1] + ts[i + 2] + ts[i + 3], i + 4;
      }
    }
    if IsSign(cur) && after >= 1 {
      var n1 := IsNumeric(ts[i + 1]);
      if n1 {
        var integerStr := if cur == "-" then "-" else "";
        return integerStr + ts[i + 1], i + 2;
      }
    }
    var n0 := IsNumeric(cur);
    if n0 && after >= 2 {
      var n2 := IsNumeric(ts[i + 2]);
      if ts[i + 1] == "." && n2 {
        return cur + ts[i + 1] + ts[i + 2], i + 3;
      }
    }
    return cur, i + 1;
  }

  // =====================================================================
  // The whole tokeniser

  /** The token texts of a command string. */
  function Tokenise(s: string): seq<string>
  {
    Combine(Expanded(SpaceSplit(s)))
  }

  method ExtractTokens(commandStr: string) returns (tokens: seq<string>)
    ensures tokens == Tokenise(commandStr)
  {
    var tokenStrings := SplitBySpaces(commandStr);
    tokenStrings := ExpandInPlace(tokenStrings);
    tokens := CombineSymbolTokens(tokenStrings);
  }

  lemma {:induction false} InConcat(ts: seq<string>, m: nat)
    requires m < |ts|
    ensures forall c :: c in ts[m] ==> c in Concat(ts)
  {
    var init := ts[..|ts| - 1];
    if m < |ts| - 1 {
      InConcat(init, m);
      assert init[m] == ts[m];
    }
  }

  /** For a command without '+', the tokens concatenate to the command without
      its spaces outside quotes. */
  lemma {:induction false} TokeniseText(s: string)
    requires '+' !in s
    ensures Concat(Tokenise(s)) == WithoutUnquotedSpaces(s)
  {
    var ex := Expanded(SpaceSplit(s));
    ExpandedText(SpaceSplit(s));
    SpaceSplitText(s);
    WithoutUnquotedSpacesSub(s);
    forall m | 0 <= m < |ex|
      ensures ex[m] != "+"
    {
      InConcat(ex, m);
    }
    CombineFromText(ex, 0);
    assert ex[0..] == ex;
  }

  lemma {:induction false} WithoutUnquotedSpacesSub(s: string)
    ensures forall c :: c in WithoutUnquotedSpaces(s) ==> c in s
  {
    if s != [] {
      WithoutUnquotedSpacesSub(s[..|s| - 1]);
    }
  }

  /** The empty command, and a command of spaces only, have no tokens. */
  lemma {:induction false} BlankHasNoTokens(s: string)
    requires forall i :: 0 <= i < |s| ==> s[i] == ' '
    ensures Tokenise(s) == []
  {
    AllSpacesGiveNothing(s);
  }

  // =====================================================================
  // Worked examples from the repository's tokeniser tests

  lemma {:induction false} RunsOfSignedDecimal()
    ensures Runs("+17.") == ["+", "17", "."]
  {
    var s := "+17.";
    assert s[..3][..2][..1] == "+" && s[..3][..2] == "+1" && s[..3] == "+17";
    assert "+"[..0] == [];
    assert RunScan("+") == RunState(["+"], "");
    assert RunScan("+1") == RunState(["+"], "1");
    assert RunScan("+17") == RunState(["+"], "17");
  }

  lemma {:induction false} SpacesOfSignedDecimal()
    ensures SpaceSplit("+17.") == ["+17."]
  {
    var s := "+17.";
    assert s[..3][..2][..1] == "+" && s[..3][..2] == "+1" && s[..3] == "+17";
    assert "+"[..0] == [];
    assert SpaceScan("+") == SpaceState([], "+", false);
    assert SpaceScan("+1") == SpaceState([], "+1", false);
    assert SpaceScan("+17") == SpaceState([], "+17", false);
    assert SpaceScan("+17.") == SpaceState([], "+17.", false);
    assert ([] + ["+17."])[..0] == [];
  }

  /** "+17." is an incomplete decimal: the sign is merged with the digits and
      the point stays on its own. */
  lemma {:induction false} IncompleteDecimalExample()
    ensures Tokenise("+17.") == ["17", "."]
  {
    SpacesOfSignedDecimal();
    ExpandedOfSignedDecimal();
    CombineOfSignedDecimal();
  }

  lemma {:induction false} ExpandedOfSignedDecimal()
    ensures Expanded(["+17."]) == ["+", "17", "."]
  {
    RunsOfSignedDecimal();
    assert Piece("+17.") == ["+", "17", "."];
    assert ["+17."][..0] == [];
    assert Expanded(["+17."]) == Expanded([]) + Piece("+17.");
  }

  lemma {:induction false} CombineOfSignedDecimal()
    ensures Combine(["+", "17", "."]) == ["17", "."]
  {
    var ts := ["+", "17", "."];
    assert CombineStep(ts, 0) == Step("17", 2);
    assert CombineStep(ts, 2) == Step(".", 3);
    assert CombineFrom(ts, 2) == ["."] + CombineFrom(ts, 3);
  }

  /** A point before digits is not part of a number. */
  lemma {:induction false} LeadingPointExample()
    ensures Combine([".", "125"]) == [".", "125"]
  {
    var ts := [".", "125"];
    assert CombineStep(ts, 0) == Step(".", 1);
    assert CombineStep(ts, 1) == Step("125", 2);
  }

  /** A literal without its closing quote runs to the end of the command. */
  lemma {:induction false} UnclosedLiteralExample()
    ensures Combine(["'", "crash"]) == ["'crash"]
  {
    var ts := ["'", "crash"];
    assert LiteralEnd(ts, 1) == 2;
    assert ts[0..2] == ts;
    assert Concat(ts) == "'crash" by {
      ConcatSnoc(ts, 0, 1);
      ConcatSnoc(ts, 0, 0);
      assert ts[0..0] == [];
    }
    assert CombineStep(ts, 0) == Step("'crash", 2);
  }

  /** A "+" before a decimal is dropped. */
  lemma {:induction false} SignedDecimalExample()
    ensures Combine(["+", "2", ".", "66"]) == ["2.66"]
  {
    var ts := ["+", "2", ".", "66"];
    assert CombineStep(ts, 0) == Step("2.66", 4);
  }

  /** A quote that is the last token is left alone. */
  lemma {:induction false} FinalQuoteExample()
    ensures Combine(["a", "'"]) == ["a", "'"]
  {
    var ts := ["a", "'"];
    assert CombineStep(ts, 0) == Step("a", 1);
    assert CombineStep(ts, 1) == Step("'", 2);
  }

  /** A lone "-" stays a token. */
  lemma {:induction false} LoneMinusExample()
    ensures Combine(["-"]) == ["-"]
  {
    assert CombineStep(["-"], 0) == Step("-", 1);
  }
}
