/** The value of an in-memory table and the specification of every table
    operation on it. A table is a list of columns, each a list of cells whose
    cell 0 is the column header; the list of row ids runs parallel to the rows
    with a leading 0 for the header row; and a counter holds the last id that
    was assigned automatically. */
module Tables {
  import opened Base
  import opened ConditionResults

  datatype Table = Table(name: string, columns: seq<seq<string>>, ids: seq<int>, lastId: int)

  /** Every column has one cell per row, header included. */
  predicate Shaped(t: Table)
  {
    |t.ids| >= 1 && forall c :: 0 <= c < |t.columns| ==> |t.columns[c]| == |t.ids|
  }

  /** The header of column `c`. */
  function Header(t: Table, c: nat): string
    requires Shaped(t) && c < |t.columns|
  {
    t.columns[c][0]
  }

  /** The shape invariant, an `id` column first, headers distinct ignoring
      case, and a counter inside the `int` range. */
  predicate Keyed(t: Table)
  {
    && Shaped(t)
    && |t.columns| >= 1
    && Header(t, 0) == "id"
    && (forall c, d :: 0 <= c < d < |t.columns| ==> !EqualsIgnoreCase(Header(t, c), Header(t, d)))
    && IsInt32(t.lastId)
  }

  /** Number of rows, the header row not counted. */
  function NumEntries(t: Table): int
  {
    |t.ids| - 1
  }

  /** The first column whose header equals `name` ignoring case. */
  function ColumnIndex(t: Table, name: string): (r: Option<nat>)
    requires Shaped(t)
    ensures r.Some? ==> r.value < |t.columns| && EqualsIgnoreCase(Header(t, r.value), name)
                        && forall c :: 0 <= c < r.value ==> !EqualsIgnoreCase(Header(t, c), name)
    ensures r.None? ==> forall c :: 0 <= c < |t.columns| ==> !EqualsIgnoreCase(Header(t, c), name)
  {
    IndexFrom(t, name, 0)
  }

  function IndexFrom(t: Table, name: string, k: nat): (r: Option<nat>)
    requires Shaped(t) && k <= |t.columns|
    ensures r.Some? ==> k <= r.value < |t.columns| && EqualsIgnoreCase(Header(t, r.value), name)
                        && forall c :: k <= c < r.value ==> !EqualsIgnoreCase(Header(t, c), name)
    ensures r.None? ==> forall c :: k <= c < |t.columns| ==> !EqualsIgnoreCase(Header(t, c), name)
    decreases |t.columns| - k
  {
    if k == |t.columns| then None
    else if EqualsIgnoreCase(Header(t, k), name) then Some(k)
    else IndexFrom(t, name, k + 1)
  }

  predicate AttributeExists(t: Table, name: string)
    requires Shaped(t)
  {
    ColumnIndex(t, name).Some?
  }

  /** In a keyed table a header is found at its own column. */
  lemma {:induction false} ColumnIndexOfHeader(t: Table, c: nat)
    requires Keyed(t) && c < |t.columns|
    ensures ColumnIndex(t, Header(t, c)) == Some(c)
  {
    assert EqualsIgnoreCase(Header(t, c), Header(t, c));
  }

  // ---------------------------------------------------------------------
  // Construction and columns

  /** A fresh table: only the `id` column, no rows, counter 0. */
  function NewTable(name: string): (t: Table)
    ensures Keyed(t) && NumEntries(t) == 0
  {
    Table(name, [["id"]], [0], 0)
  }

  function Nulls(n: nat): (r: seq<string>)
    ensures |r| == n && forall i :: 0 <= i < n ==> r[i] == "NULL"
  {
    seq(n, i => "NULL")
  }

  /** Adding a column: refused when a header already equals the name ignoring
      case; otherwise the header and one NULL per row are appended. */
  function AddColumnSpec(t: Table, name: string): (Table, bool)
    requires Shaped(t)
  {
    if AttributeExists(t, name) then (t, false)
    else (t.(columns := t.columns + [[name] + Nulls(NumEntries(t))]), true)
  }

  lemma {:induction false} AddColumnKeeps(t: Table, name: string)
    requires Keyed(t)
    ensures Keyed(AddColumnSpec(t, name).0)
    ensures AddColumnSpec(t, name).1 <==> !AttributeExists(t, name)
    ensures AddColumnSpec(t, name).1 ==>
              var u := AddColumnSpec(t, name).0;
              && |u.columns| == |t.columns| + 1 && u.columns[..|t.columns|] == t.columns
              && Header(u, |t.columns|) == name
              && (forall r :: 1 <= r < |u.ids| ==> u.columns[|t.columns|][r] == "NULL")
              && u.ids == t.ids && u.lastId == t.lastId
    ensures !AddColumnSpec(t, name).1 ==> AddColumnSpec(t, name).0 == t
  {
    if !AttributeExists(t, name) {
      var u := AddColumnSpec(t, name).0;
      forall c, d | 0 <= c < d < |u.columns|
        ensures !EqualsIgnoreCase(Header(u, c), Header(u, d))
      {
        if d == |t.columns| {
          assert Header(u, c) == Header(t, c);
        } else {
          assert Header(u, c) == Header(t, c) && Header(u, d) == Header(t, d);
        }
      }
    }
  }

  /** The attribute constructor: the `id` column, then each name in order,
      names equal to an earlier one ignoring case being skipped. */
  function WithAttributes(t: Table, names: seq<string>): (u: Table)
    requires Keyed(t)
    ensures Keyed(u)
    decreases |names|
  {
    if names == [] then t
    else
      AddColumnKeeps(t, names[0]);
      WithAttributes(AddColumnSpec(t, names[0]).0, names[1..])
  }

  /** Building attributes adds at most one column per name and touches
      nothing but the columns. */
  lemma {:induction false} WithAttributesKeeps(t: Table, names: seq<string>)
    requires Keyed(t)
    ensures var u := WithAttributes(t, names);
            && u.ids == t.ids && u.lastId == t.lastId && u.name == t.name
            && |t.columns| <= |u.columns| <= |t.columns| + |names|
    decreases |names|
  {
    if names != [] {
      AddColumnKeeps(t, names[0]);
      WithAttributesKeeps(AddColumnSpec(t, names[0]).0, names[1..]);
    }
  }

  /** Removing a column: `id` (in any case) and absent names are refused;
      otherwise exactly the first matching column is dropped. */
  function RemoveColumnSpec(t: Table, name: string): (Table, bool)
    requires Shaped(t)
  {
    if EqualsIgnoreCase(name, "id") then (t, false)
    else match ColumnIndex(t, name)
      case None => (t, false)
      case Some(i) => (t.(columns := t.columns[..i] + t.columns[i + 1..]), true)
  }

  lemma {:induction false} RemoveColumnKeeps(t: Table, name: string)
    requires Keyed(t)
    ensures Keyed(RemoveColumnSpec(t, name).0)
    ensures RemoveColumnSpec(t, name).1 <==> !EqualsIgnoreCase(name, "id") && AttributeExists(t, name)
    ensures RemoveColumnSpec(t, name).1 ==>
              var u := RemoveColumnSpec(t, name).0;
              var i := ColumnIndex(t, name).value;
              && 0 < i && |u.columns| == |t.columns| - 1
              && (forall c :: 0 <= c < i ==> u.columns[c] == t.columns[c])
              && (forall c :: i <= c < |u.columns| ==> u.columns[c] == t.columns[c + 1])
              && u.ids == t.ids && u.lastId == t.lastId
              && forall c :: 0 <= c < |u.columns| ==> !EqualsIgnoreCase(Header(u, c), name)
    ensures !RemoveColumnSpec(t, name).1 ==> RemoveColumnSpec(t, name).0 == t
  {
    if !EqualsIgnoreCase(name, "id") && AttributeExists(t, name) {
      var i := ColumnIndex(t, name).value;
      assert Header(t, 0) == "id";
      assert i != 0;
      var u := RemoveColumnSpec(t, name).0;
      assert forall c :: 0 <= c < i ==> u.columns[c] == t.columns[c];
      assert forall c :: i <= c < |u.columns| ==> u.columns[c] == t.columns[c + 1];
      forall c, d | 0 <= c < d < |u.columns|
        ensures !EqualsIgnoreCase(Header(u, c), Header(u, d))
      {
        var c' := if c < i then c else c + 1;
        var d' := if d < i then d else d + 1;
        assert Header(u, c) == Header(t, c') && Header(u, d) == Header(t, d');
      }
      forall c | 0 <= c < |u.columns|
        ensures !EqualsIgnoreCase(Header(u, c), name)
      {
        var c' := if c < i then c else c + 1;
        assert Header(u, c) == Header(t, c');
      }
    }
  }

  // ---------------------------------------------------------------------
  // Rows

  /** The cells of row `r`, one per column. */
  function Row(t: Table, r: nat): (row: seq<string>)
    requires Shaped(t) && r < |t.ids|
    ensures |row| == |t.columns| && forall c :: 0 <= c < |row| ==> row[c] == t.columns[c][r]
  {
    seq(|t.columns|, c requires 0 <= c < |t.columns| => t.columns[c][r])
  }

  /** `t` with one more row of cells `row` and id `id`. */
  function AppendRow(t: Table, row: seq<string>, id: int): (u: Table)
    requires Shaped(t) && |row| == |t.columns|
    ensures Shaped(u) && |u.columns| == |t.columns| && u.ids == t.ids + [id]
    ensures forall c :: 0 <= c < |u.columns| ==> u.columns[c] == t.columns[c] + [row[c]]
  {
    t.(columns := seq(|t.columns|, c requires 0 <= c < |t.columns| => t.columns[c] + [row[c]]),
       ids := t.ids + [id])
  }

  lemma {:induction false} AppendRowKeeps(t: Table, row: seq<string>, id: int)
    requires Keyed(t) && |row| == |t.columns|
    ensures Keyed(AppendRow(t, row, id))
    ensures Row(AppendRow(t, row, id), |t.ids|) == row
    ensures forall r :: 0 <= r < |t.ids| ==> Row(AppendRow(t, row, id), r) == Row(t, r)
  {
    var u := AppendRow(t, row, id);
    assert forall c :: 0 <= c < |u.columns| ==> Header(u, c) == Header(t, c);
  }

  /** Adding a row. With `idProvided` the values hold the id first and it must
      be a decimal `int`; otherwise the id is the counter plus one (with `int`
      wrap-around) and the counter moves to it. A wrong number of values, or a
      provided id that is not an integer, changes nothing. */
  function AddRowSpec(t: Table, values: seq<string>, idProvided: bool): (Table, bool)
    requires Keyed(t)
  {
    if idProvided && |t.columns| != |values| then (t, false)
    else if !idProvided && |t.columns| - 1 != |values| then (t, false)
    else if idProvided then
      match ParseInt(values[0])
      case None => (t, false)
      case Some(v) => (AppendRow(t, values, v), true)
    else
      var id := Inc32(t.lastId);
      (AppendRow(t, [IntToString(id)] + values, id).(lastId := id), true)
  }

  lemma {:induction false} AddRowKeeps(t: Table, values: seq<string>, idProvided: bool)
    requires Keyed(t)
    ensures Keyed(AddRowSpec(t, values, idProvided).0)
    ensures var (u, ok) := AddRowSpec(t, values, idProvided);
            && (ok <==> |values| == (if idProvided then |t.columns| else |t.columns| - 1)
                        && (idProvided ==> ParseInt(values[0]).Some?))
            && (!ok ==> u == t)
            && (ok ==> (NumEntries(u) == NumEntries(t) + 1
                        && (forall r :: 0 <= r < |t.ids| ==> Row(u, r) == Row(t, r))))
            && (ok && idProvided ==> (Row(u, |t.ids|) == values
                        && u.ids == t.ids + [ParseInt(values[0]).value] && u.lastId == t.lastId))
            && (ok && !idProvided ==> (Row(u, |t.ids|) == [IntToString(Inc32(t.lastId))] + values
                        && u.ids == t.ids + [Inc32(t.lastId)] && u.lastId == Inc32(t.lastId)))
  {
    var (u, ok) := AddRowSpec(t, values, idProvided);
    if ok {
      if idProvided {
        AppendRowKeeps(t, values, ParseInt(values[0]).value);
      } else {
        var row := [IntToString(Inc32(t.lastId))] + values;
        var w := AppendRow(t, row, Inc32(t.lastId));
        AppendRowKeeps(t, row, Inc32(t.lastId));
        assert u == w.(lastId := Inc32(t.lastId));
        assert u.columns == w.columns;
        assert forall r :: 0 <= r < |u.ids| ==> Row(u, r) == Row(w, r);
        assert forall c :: 0 <= c < |u.columns| ==> Header(u, c) == Header(w, c);
      }
    }
  }

  /** The auto-assigned id is stored as its decimal text, which reads back as
      the id. */
  lemma {:induction false} AutoIdText(t: Table, values: seq<string>)
    requires Keyed(t) && |values| == |t.columns| - 1
    ensures var u := AddRowSpec(t, values, false).0;
            ParseInt(u.columns[0][|t.ids|]) == Some(u.ids[|t.ids|])
  {
    ParseIntToString(Inc32(t.lastId));
  }

  function RemoveAt<A>(xs: seq<A>, r: nat): (ys: seq<A>)
    requires r < |xs|
    ensures |ys| == |xs| - 1
    ensures forall i :: 0 <= i < r ==> ys[i] == xs[i]
    ensures forall i :: r <= i < |ys| ==> ys[i] == xs[i + 1]
  {
    xs[..r] + xs[r + 1..]
  }

  /** Removing row `r`: the header row is refused; otherwise the row leaves
      every column and the id list, the other rows keeping their order. */
  function RemoveRowSpec(t: Table, r: nat): (Table, bool)
    requires Shaped(t) && r < |t.ids|
  {
    if r == 0 then (t, false)
    else (t.(columns := seq(|t.columns|, c requires 0 <= c < |t.columns| => RemoveAt(t.columns[c], r)),
             ids := RemoveAt(t.ids, r)), true)
  }

  lemma {:induction false} RemoveRowKeeps(t: Table, r: nat)
    requires Keyed(t) && r < |t.ids|
    ensures Keyed(RemoveRowSpec(t, r).0)
    ensures var (u, ok) := RemoveRowSpec(t, r);
            && (ok <==> r != 0)
            && (!ok ==> u == t)
            && (ok ==> (NumEntries(u) == NumEntries(t) - 1
                        && (forall q :: 0 <= q < r ==> Row(u, q) == Row(t, q))
                        && (forall q :: r <= q < |u.ids| ==> Row(u, q) == Row(t, q + 1))
                        && u.lastId == t.lastId))
  {
    var (u, ok) := RemoveRowSpec(t, r);
    if ok {
      assert forall c :: 0 <= c < |u.columns| ==> Header(u, c) == Header(t, c);
    }
  }

  // ---------------------------------------------------------------------
  // Selection and update by a row mask

  /** The elements of `xs` whose position is marked, in order. */
  function Pick<A>(xs: seq<A>, mask: seq<bool>): (ys: seq<A>)
    requires |xs| == |mask|
    ensures |ys| <= |xs|
  {
    if xs == [] then []
    else
      var n := |xs| - 1;
      Pick(xs[..n], mask[..n]) + (if mask[n] then [xs[n]] else [])
  }

  /** Number of marked positions in the first `n` entries. */
  function CountMarked(mask: seq<bool>, n: nat): nat
    requires n <= |mask|
  {
    if n == 0 then 0 else CountMarked(mask, n - 1) + (if mask[n - 1] then 1 else 0)
  }

  /** Each marked element lands at the position given by the number of marks
      before it, and there are no other elements. */
  lemma {:induction false} PickPositions<A>(xs: seq<A>, mask: seq<bool>)
    requires |xs| == |mask|
    ensures |Pick(xs, mask)| == CountMarked(mask, |mask|)
    ensures forall i :: 0 <= i < |xs| && mask[i] ==>
              CountMarked(mask, i) < |Pick(xs, mask)| && Pick(xs, mask)[CountMarked(mask, i)] == xs[i]
  {
    if xs != [] {
      var n := |xs| - 1;
      PickPositions(xs[..n], mask[..n]);
      CountMarkedPrefix(mask, n);
      forall i | 0 <= i < n
        ensures CountMarked(mask[..n], i) == CountMarked(mask, i)
      {
        CountMarkedPrefix(mask, i);
        CountMarkedPrefix(mask[..n], i);
        assert mask[..n][..i] == mask[..i];
      }
      forall i | 0 <= i < |xs| && mask[i]
        ensures CountMarked(mask, i) < |Pick(xs, mask)| && Pick(xs, mask)[CountMarked(mask, i)] == xs[i]
      {
        if i < n {
          assert xs[..n][i] == xs[i] && mask[..n][i] == mask[i];
        }
      }
    }
  }

  lemma {:induction false} CountMarkedPrefix(mask: seq<bool>, n: nat)
    requires n <= |mask|
    ensures CountMarked(mask, n) == CountMarked(mask[..n], n)
    decreases n
  {
    if n > 0 {
      CountMarkedPrefix(mask, n - 1);
      CountMarkedPrefix(mask[..n], n - 1);
      assert mask[..n][..n - 1] == mask[..n - 1];
    }
  }

  lemma {:induction false} PickSnoc<A>(xs: seq<A>, mask: seq<bool>, x: A, m: bool)
    requires |xs| == |mask|
    ensures Pick(xs + [x], mask + [m]) == Pick(xs, mask) + (if m then [x] else [])
  {
    assert (xs + [x])[..|xs|] == xs;
    assert (mask + [m])[..|mask|] == mask;
  }

  /** The selection of the marked rows: a table named "" with the same headers
      and exactly the marked rows in order, each with its id; `None` when the
      mask does not have one entry per row. */
  function SelectSpec(t: Table, mask: seq<bool>): (r: Option<Table>)
    requires Shaped(t)
  {
    if |mask| != NumEntries(t) then None
    else Some(Table("",
      seq(|t.columns|, c requires 0 <= c < |t.columns| => [t.columns[c][0]] + Pick(t.columns[c][1..], mask)),
      [0] + Pick(t.ids[1..], mask), 0))
  }

  /** The selection after the first `k` rows have been considered. */
  function SelectPrefix(t: Table, mask: seq<bool>, k: nat): Table
    requires Shaped(t) && |mask| == NumEntries(t) && k <= |mask|
  {
    Table("",
      seq(|t.columns|, c requires 0 <= c < |t.columns| => [t.columns[c][0]] + Pick(t.columns[c][1..k + 1], mask[..k])),
      [0] + Pick(t.ids[1..k + 1], mask[..k]), 0)
  }

  lemma {:induction false} SelectPrefixAll(t: Table, mask: seq<bool>)
    requires Shaped(t) && |mask| == NumEntries(t)
    ensures SelectSpec(t, mask) == Some(SelectPrefix(t, mask, |mask|))
  {
    assert mask[..|mask|] == mask;
    assert t.ids[1..|mask| + 1] == t.ids[1..];
    var a := SelectPrefix(t, mask, |mask|);
    var b := SelectSpec(t, mask).value;
    forall c | 0 <= c < |t.columns|
      ensures a.columns[c] == b.columns[c]
    {
      assert t.columns[c][1..|mask| + 1] == t.columns[c][1..];
    }
    assert a.columns == b.columns;
  }

  /** Considering one more row appends it when it is marked. */
  lemma {:induction false} SelectPrefixStep(t: Table, mask: seq<bool>, k: nat)
    requires Shaped(t) && |mask| == NumEntries(t) && k < |mask|
    ensures Shaped(SelectPrefix(t, mask, k))
    ensures SelectPrefix(t, mask, k + 1) ==
              if mask[k] then AppendRow(SelectPrefix(t, mask, k), Row(t, k + 1), t.ids[k + 1])
              else SelectPrefix(t, mask, k)
  {
    assert mask[..k + 1] == mask[..k] + [mask[k]];
    assert t.ids[1..k + 2] == t.ids[1..k + 1] + [t.ids[k + 1]];
    PickSnoc(t.ids[1..k + 1], mask[..k], t.ids[k + 1], mask[k]);
    var a := SelectPrefix(t, mask, k);
    var b := SelectPrefix(t, mask, k + 1);
    forall c | 0 <= c < |t.columns|
      ensures |a.columns[c]| == |a.ids|
      ensures b.columns[c] == a.columns[c] + (if mask[k] then [t.columns[c][k + 1]] else [])
    {
      assert t.columns[c][1..k + 2] == t.columns[c][1..k + 1] + [t.columns[c][k + 1]];
      PickSnoc(t.columns[c][1..k + 1], mask[..k], t.columns[c][k + 1], mask[k]);
      PickPositions(t.columns[c][1..k + 1], mask[..k]);
      PickPositions(t.ids[1..k + 1], mask[..k]);
    }
    assert Shaped(a);
    if mask[k] {
      var e := AppendRow(a, Row(t, k + 1), t.ids[k + 1]);
      assert b.columns == e.columns;
    } else {
      assert forall c :: 0 <= c < |t.columns| ==> a.columns[c] + [] == a.columns[c];
      assert b.columns == a.columns;
    }
  }

  /** Names that clash with no header and with no other name are all added,
      in order, as header-only columns of a table without rows. */
  lemma {:induction false} AddHeaders(u: Table, names: seq<string>)
    requires Keyed(u) && |u.ids| == 1
    requires forall i, j :: 0 <= i < j < |names| ==> !EqualsIgnoreCase(names[i], names[j])
    requires forall i, c :: 0 <= i < |names| && 0 <= c < |u.columns| ==> !EqualsIgnoreCase(Header(u, c), names[i])
    ensures WithAttributes(u, names) == u.(columns := u.columns + seq(|names|, i requires 0 <= i < |names| => [names[i]]))
    decreases |names|
  {
    if names != [] {
      assert !AttributeExists(u, names[0]);
      var v := AddColumnSpec(u, names[0]).0;
      assert [names[0]] + Nulls(0) == [names[0]];
      assert v == u.(columns := u.columns + [[names[0]]]);
      AddColumnKeeps(u, names[0]);
      var rest := names[1..];
      forall i, c | 0 <= i < |rest| && 0 <= c < |v.columns|
        ensures !EqualsIgnoreCase(Header(v, c), rest[i])
      {
        if c < |u.columns| {
          assert Header(v, c) == Header(u, c);
        } else {
          assert Header(v, c) == names[0];
          assert rest[i] == names[i + 1];
        }
      }
      assert forall i, j :: 0 <= i < j < |rest| ==> rest[i] == names[i + 1] && rest[j] == names[j + 1];
      AddHeaders(v, rest);
      assert v.columns + seq(|rest|, i requires 0 <= i < |rest| => [rest[i]])
             == u.columns + seq(|names|, i requires 0 <= i < |names| => [names[i]]);
    }
  }

  /** Before any row is considered the selection is the attribute
      constructor applied to the header row. */
  lemma {:induction false} SelectPrefixZero(t: Table, mask: seq<bool>)
    requires Keyed(t) && |mask| == NumEntries(t)
    ensures SelectPrefix(t, mask, 0) == WithAttributes(NewTable(""), Row(t, 0))
  {
    var header := Row(t, 0);
    var rest := header[1..];
    assert EqualsIgnoreCase(header[0], "id");
    assert AttributeExists(NewTable(""), header[0]);
    assert WithAttributes(NewTable(""), header) == WithAttributes(NewTable(""), rest);
    forall i, j | 0 <= i < j < |rest|
      ensures !EqualsIgnoreCase(rest[i], rest[j])
    {
      assert rest[i] == Header(t, i + 1) && rest[j] == Header(t, j + 1);
    }
    forall i, c | 0 <= i < |rest| && 0 <= c < 1
      ensures !EqualsIgnoreCase(Header(NewTable(""), c), rest[i])
    {
      assert rest[i] == Header(t, i + 1);
    }
    AddHeaders(NewTable(""), rest);
    assert mask[..0] == [];
    var s := SelectPrefix(t, mask, 0);
    forall c | 0 <= c < |t.columns|
      ensures s.columns[c] == [t.columns[c][0]]
    {
      assert t.columns[c][1..1] == [];
    }
    assert t.ids[1..1] == [];
  }

  lemma {:induction false} SelectKeeps(t: Table, mask: seq<bool>)
    requires Keyed(t) && |mask| == NumEntries(t)
    ensures var s := SelectSpec(t, mask).value;
            && Keyed(s)
            && |s.columns| == |t.columns|
            && (forall c :: 0 <= c < |t.columns| ==> Header(s, c) == Header(t, c))
            && NumEntries(s) == CountMarked(mask, |mask|)
            && forall r :: 1 <= r < |t.ids| && mask[r - 1] ==>
                 var q := CountMarked(mask, r - 1) + 1;
                 q < |s.ids| && Row(s, q) == Row(t, r) && s.ids[q] == t.ids[r]
  {
    var s := SelectSpec(t, mask).value;
    PickPositions(t.ids[1..], mask);
    forall c | 0 <= c < |t.columns|
      ensures |s.columns[c]| == |s.ids|
      ensures forall r :: 1 <= r < |t.ids| && mask[r - 1] ==>
                CountMarked(mask, r - 1) + 1 < |s.ids| && s.columns[c][CountMarked(mask, r - 1) + 1] == t.columns[c][r]
    {
      PickPositions(t.columns[c][1..], mask);
      forall r | 1 <= r < |t.ids| && mask[r - 1]
        ensures s.columns[c][CountMarked(mask, r - 1) + 1] == t.columns[c][r]
      {
        assert t.columns[c][1..][r - 1] == t.columns[c][r];
      }
    }
    assert forall c :: 0 <= c < |t.columns| ==> Header(s, c) == Header(t, c);
    forall r | 1 <= r < |t.ids| && mask[r - 1]
      ensures var q := CountMarked(mask, r - 1) + 1;
              q < |s.ids| && Row(s, q) == Row(t, r) && s.ids[q] == t.ids[r]
    {
      assert t.ids[1..][r - 1] == t.ids[r];
    }
  }

  /** Column `c` with `value` written into every marked row. */
  function SetMarked(col: seq<string>, mask: seq<bool>, value: string): (r: seq<string>)
    requires |col| == |mask| + 1
    ensures |r| == |col| && r[0] == col[0]
    ensures forall i :: 1 <= i < |col| ==> r[i] == if mask[i - 1] then value else col[i]
  {
    seq(|col|, i requires 0 <= i < |col| => if i > 0 && mask[i - 1] then value else col[i])
  }

  /** One name/value pair of an update. A name with no column writes nothing
      (the source requires it to exist whenever a row is marked). */
  function UpdatePair(t: Table, mask: seq<bool>, name: string, value: string): (u: Table)
    requires Shaped(t) && |mask| == NumEntries(t)
    ensures Shaped(u) && |u.columns| == |t.columns| && u.ids == t.ids && u.lastId == t.lastId
  {
    match ColumnIndex(t, name)
    case None => t
    case Some(i) => t.(columns := t.columns[i := SetMarked(t.columns[i], mask, value)])
  }

  predicate AllExist(t: Table, names: seq<string>)
    requires Shaped(t)
  {
    forall j :: 0 <= j < |names| ==> AttributeExists(t, names[j])
  }

  predicate NoneMarked(mask: seq<bool>)
  {
    forall i :: 0 <= i < |mask| ==> !mask[i]
  }

  /** The update: each pair in order writes its value into the marked rows of
      its column, so a later pair for the same column wins. */
  function UpdateSpec(t: Table, mask: seq<bool>, names: seq<string>, values: seq<string>): (u: Table)
    requires Keyed(t) && |mask| == NumEntries(t) && |names| == |values|
    ensures Keyed(u) && |u.columns| == |t.columns| && u.ids == t.ids && u.lastId == t.lastId
    ensures forall c :: 0 <= c < |t.columns| ==> Header(u, c) == Header(t, c)
    decreases |names|
  {
    if names == [] then t
    else
      var n := |names| - 1;
      var prev := UpdateSpec(t, mask, names[..n], values[..n]);
      var u := UpdatePair(prev, mask, names[n], values[n]);
      assert forall c :: 0 <= c < |u.columns| ==> Header(u, c) == Header(prev, c);
      u
  }

  /** The last pair naming column `c`, if any. */
  function LastFor(t: Table, names: seq<string>, c: nat): (r: Option<nat>)
    requires Shaped(t)
    ensures r.Some? ==> r.value < |names| && ColumnIndex(t, names[r.value]) == Some(c)
                        && forall j :: r.value < j < |names| ==> ColumnIndex(t, names[j]) != Some(c)
    ensures r.None? ==> forall j :: 0 <= j < |names| ==> ColumnIndex(t, names[j]) != Some(c)
  {
    if names == [] then None
    else if ColumnIndex(t, names[|names| - 1]) == Some(c) then Some(|names| - 1)
    else LastFor(t, names[..|names| - 1], c)
  }

  /** Every cell after the update: a marked row of a named column holds the
      value of the last pair naming that column; every other cell, the
      headers and the ids are unchanged. */
  lemma {:induction false} UpdateCells(t: Table, mask: seq<bool>, names: seq<string>, values: seq<string>)
    requires Keyed(t) && |mask| == NumEntries(t) && |names| == |values|
    ensures var u := UpdateSpec(t, mask, names, values);
            forall c, r :: 0 <= c < |t.columns| && 0 <= r < |t.ids| ==>
              u.columns[c][r] == if r > 0 && mask[r - 1] && LastFor(t, names, c).Some?
                                 then values[LastFor(t, names, c).value] else t.columns[c][r]
    decreases |names|
  {
    if names != [] {
      var n := |names| - 1;
      UpdateCells(t, mask, names[..n], values[..n]);
      var prev := UpdateSpec(t, mask, names[..n], values[..n]);
      ColumnIndexSameHeaders(t, prev, names[n]);
      forall c | 0 <= c < |t.columns|
        ensures LastFor(t, names, c) == if ColumnIndex(t, names[n]) == Some(c) then Some(n)
                                        else LastFor(t, names[..n], c)
      {
      }
    }
  }

  /** Tables with the same headers find a name at the same column. */
  lemma {:induction false} ColumnIndexSameHeaders(t: Table, u: Table, name: string)
    requires Shaped(t) && Shaped(u) && |t.columns| == |u.columns|
    requires forall c :: 0 <= c < |t.columns| ==> Header(u, c) == Header(t, c)
    ensures ColumnIndex(u, name) == ColumnIndex(t, name)
  {
    assert forall c :: 0 <= c < |t.columns| ==>
             (EqualsIgnoreCase(Header(u, c), name) <==> EqualsIgnoreCase(Header(t, c), name));
  }

  // ---------------------------------------------------------------------
  // Conditions on one row

  /** The quotes of a string literal removed: exactly one enclosing pair when
      the text is at least two characters long. */
  function RemoveStrLitQuotes(s: string): (r: string)
    ensures r == s || (|s| >= 2 && s == "'" + r + "'")
    ensures |r| <= |s|
  {
    if |s| < 2 then s
    else if s[0] == '\'' && s[|s| - 1] == '\'' then s[1..|s| - 1]
    else s
  }

  lemma {:induction false} RemoveQuotesOfQuoted(x: string)
    ensures RemoveStrLitQuotes("'" + x + "'") == x
  {
    var s := "'" + x + "'";
    assert s[1..|s| - 1] == x;
  }

  lemma {:induction false} RemoveQuotesOfUnquoted(s: string)
    requires |s| < 2 || s[0] != '\'' || s[|s| - 1] != '\''
    ensures RemoveStrLitQuotes(s) == s
  {
  }

  /** Case-insensitive string comparison; LIKE strips the literal's quotes and
      tests case-sensitive containment; an unknown comparator is FALSE. */
  function CompareStrings(tabValue: string, comparator: string, condValue: string): ConditionResult
  {
    if comparator == "==" && EqualsIgnoreCase(tabValue, condValue) then True
    else if comparator == ">" && CompareIgnoreCase(tabValue, condValue) > 0 then True
    else if comparator == "<" && CompareIgnoreCase(tabValue, condValue) < 0 then True
    else if comparator == ">=" && CompareIgnoreCase(tabValue, condValue) >= 0 then True
    else if comparator == "<=" && CompareIgnoreCase(tabValue, condValue) <= 0 then True
    else if comparator == "!=" && !EqualsIgnoreCase(tabValue, condValue) then True
    else if EqualsIgnoreCase(comparator, "LIKE") && Contains(tabValue, RemoveStrLitQuotes(condValue)) then True
    else False
  }

  lemma {:induction false} CompareIgnoreCaseZero(a: string, b: string)
    ensures CompareIgnoreCase(a, b) == 0 <==> EqualsIgnoreCase(a, b)
  {
    CompareZero(Lower(a), Lower(b));
  }

  /** The string comparisons are complementary in pairs and antisymmetric, and
      never give INVALID or NO_CONDITION. */
  lemma {:induction false} CompareStringsLaws(a: string, b: string)
    ensures CompareStrings(a, "<=", b) == True <==> CompareStrings(a, ">", b) != True
    ensures CompareStrings(a, ">=", b) == True <==> CompareStrings(a, "<", b) != True
    ensures CompareStrings(a, "!=", b) == True <==> CompareStrings(a, "==", b) != True
    ensures CompareStrings(a, ">", b) == True <==> CompareStrings(b, "<", a) == True
    ensures CompareStrings(a, "==", b) == CompareStrings(b, "==", a)
    ensures forall op :: CompareStrings(a, op, b) in {True, False}
  {
    CompareIgnoreCaseZero(a, b);
    CompareAntisymmetric(Lower(a), Lower(b));
  }

  /** A comparator that is none of the known ones gives FALSE. */
  lemma UnknownComparatorFalse(a: string, op: string, b: string)
    requires op != "==" && op != ">" && op != "<" && op != ">=" && op != "<=" && op != "!="
    requires !EqualsIgnoreCase(op, "LIKE")
    ensures CompareStrings(a, op, b) == False
  {
  }

  /** LIKE ignores the case of the comparator but not of the text. */
  lemma {:induction false} LikeExamples()
    ensures CompareStrings("Simon", "like", "'im'") == True
    ensures CompareStrings("Simon", "LIKE", "'IM'") == False
  {
    assert Lower("like") == "like" && Lower("LIKE") == "like";
    assert RemoveStrLitQuotes("'im'") == "im" by {
      assert "'im'"[0] == '\'' && "'im'"[3] == '\'' && "'im'"[1..3] == "im";
    }
    assert RemoveStrLitQuotes("'IM'") == "IM" by {
      assert "'IM'"[0] == '\'' && "'IM'"[3] == '\'' && "'IM'"[1..3] == "IM";
    }
    assert OccursAt("Simon", "im", 1) by { assert "Simon"[1..3] == "im"; }
    assert !Contains("Simon", "IM") by {
      forall i | 0 <= i <= 3
        ensures !OccursAt("Simon", "IM", i)
      {
        assert "Simon"[i..i + 2][0] == "Simon"[i];
      }
    }
  }

  /** Whether a text parses as a double, and the outcome of comparing two such
      texts numerically (with the source's epsilon); both are parameters of
      the model. */
  datatype Numerics = Numerics(isNumber: string -> bool, holds: (string, string, string) -> bool)

  const NumericComparators: seq<string> := ["==", ">", "<", ">=", "<=", "!="]

  /** Numeric comparison: TRUE only for one of the six comparators, spelt
      exactly, when the numeric comparison holds. */
  function CompareNumerics(num: Numerics, tabValue: string, comparator: string, condValue: string): ConditionResult
  {
    if comparator in NumericComparators && num.holds(tabValue, comparator, condValue) then True else False
  }

  /** The condition `colName comparator condValue` on row `rowNum`. One
      numeric and one non-numeric side give INVALID unless the comparator is
      LIKE; two numeric sides compare as numbers unless the comparator is
      LIKE; everything else compares as strings. */
  function EvaluateCondition(t: Table, num: Numerics, colName: string, comparator: string,
                             condValue: string, rowNum: nat): ConditionResult
    requires Shaped(t) && AttributeExists(t, colName) && rowNum < |t.ids|
  {
    var tabValue := t.columns[ColumnIndex(t, colName).value][rowNum];
    var valueIsNumber := num.isNumber(condValue);
    var tabIsNumber := num.isNumber(tabValue);
    var like := EqualsIgnoreCase(comparator, "LIKE");
    if valueIsNumber != tabIsNumber && !like then Invalid
    else if !like && valueIsNumber && tabIsNumber then CompareNumerics(num, tabValue, comparator, condValue)
    else CompareStrings(tabValue, comparator, condValue)
  }

  lemma {:induction false} EvaluateConditionCases(t: Table, num: Numerics, colName: string, comparator: string,
                               condValue: string, rowNum: nat)
    requires Shaped(t) && AttributeExists(t, colName) && rowNum < |t.ids|
    ensures var v := t.columns[ColumnIndex(t, colName).value][rowNum];
            var r := EvaluateCondition(t, num, colName, comparator, condValue, rowNum);
            && r != NoCondition
            && (r == Invalid <==> num.isNumber(v) != num.isNumber(condValue) && !EqualsIgnoreCase(comparator, "LIKE"))
            && (EqualsIgnoreCase(comparator, "LIKE") ==> r == CompareStrings(v, comparator, condValue))
            && (!num.isNumber(v) && !num.isNumber(condValue) ==> r == CompareStrings(v, comparator, condValue))
  {
    CompareStringsLaws(t.columns[ColumnIndex(t, colName).value][rowNum], condValue);
  }

  // ---------------------------------------------------------------------
  // Rendering

  /** The widest cell of a column, header included. */
  function MaxWidth(col: seq<string>): (m: nat)
    ensures forall r :: 0 <= r < |col| ==> |col[r]| <= m
    ensures col != [] ==> exists r :: 0 <= r < |col| && |col[r]| == m
  {
    if col == [] then 0
    else
      var m := MaxWidth(col[..|col| - 1]);
      assert forall r :: 0 <= r < |col| - 1 ==> col[r] == col[..|col| - 1][r];
      if |col[|col| - 1]| > m then |col[|col| - 1]| else m
  }

  /** Tabs after cell (c, r): enough to reach the tab stop just past the widest
      cell of the column, counted on the stored cell texts; always at least
      one. */
  function ColumnTabs(t: Table, c: nat, r: nat): (k: int)
    requires Shaped(t) && c < |t.columns| && r < |t.ids|
    ensures k >= 1
  {
    assert |t.columns[c][r]| <= MaxWidth(t.columns[c]);
    (MaxWidth(t.columns[c]) + 4) / 4 - (|t.columns[c][r]| + 4) / 4 + 1
  }

  /** The cursor position after `k` tabs from position `p`, with tab stops
      every 4 characters. */
  function AfterTabs(p: nat, k: nat): nat
    decreases k
  {
    if k == 0 then p else AfterTabs((p / 4 + 1) * 4, k - 1)
  }

  lemma {:induction false} AfterTabsLinear(p: nat, k: nat)
    requires k >= 1
    ensures AfterTabs(p, k) == 4 * ((p + 4) / 4) + 4 * (k - 1)
    decreases k
  {
    if k > 1 {
      var q := (p / 4 + 1) * 4;
      AfterTabsLinear(q, k - 1);
      assert (q + 4) / 4 == p / 4 + 2;
    }
  }

  /** A cell of stored width `w` followed by its tabs always ends at the same
      tab stop, so the stored texts line up column by column. */
  lemma {:induction false} ColumnTabsAlign(t: Table, c: nat, r: nat)
    requires Shaped(t) && c < |t.columns| && r < |t.ids|
    ensures AfterTabs(|t.columns[c][r]|, ColumnTabs(t, c, r)) == 4 * ((MaxWidth(t.columns[c]) + 4) / 4)
  {
    var w := |t.columns[c][r]|;
    var m := MaxWidth(t.columns[c]);
    assert w <= m;
    assert (w + 4) / 4 <= (m + 4) / 4;
    AfterTabsLinear(w, ColumnTabs(t, c, r));
  }

  function Tabs(n: nat): (s: string)
    ensures |s| == n && forall i :: 0 <= i < n ==> s[i] == '\t'
  {
    seq(n, i => '\t')
  }

  /** What is printed for a cell: its literal quotes removed, and nothing for
      NULL in any case. */
  function CellText(t: Table, c: nat, r: nat): string
    requires Shaped(t) && c < |t.columns| && r < |t.ids|
  {
    var v := RemoveStrLitQuotes(t.columns[c][r]);
    if EqualsIgnoreCase(v, "NULL") then "" else v
  }

  /** Cells 0..k-1 of printed row `r`, each but the last column followed by
      its tabs. */
  function LinePrefix(t: Table, r: nat, k: nat): string
    requires Shaped(t) && r < |t.ids| && k <= |t.columns|
  {
    if k == 0 then ""
    else
      var c := k - 1;
      LinePrefix(t, r, c) + CellText(t, c, r)
        + (if c < |t.columns| - 1 then Tabs(ColumnTabs(t, c, r)) else "")
  }

  /** Appending cell `c` with its tabs to the first `c` cells of row `r`
      gives the first `c + 1`. */
  lemma {:induction false} LinePrefixStep(t: Table, r: nat, c: nat, line: string, cell: string)
    requires Shaped(t) && r < |t.ids| && c < |t.columns|
    requires line == LinePrefix(t, r, c)
    requires cell == CellText(t, c, r) + (if c < |t.columns| - 1 then Tabs(ColumnTabs(t, c, r)) else "")
    ensures line + cell == LinePrefix(t, r, c + 1)
  {
  }

  function Line(t: Table, r: nat): string
    requires Shaped(t) && r < |t.ids|
  {
    LinePrefix(t, r, |t.columns|) + "\n"
  }

  /** Printed rows 0..k-1, header first. */
  function RenderPrefix(t: Table, k: nat): string
    requires Shaped(t) && k <= |t.ids|
  {
    if k == 0 then "" else RenderPrefix(t, k - 1) + Line(t, k - 1)
  }

  function Render(t: Table): string
    requires Shaped(t)
  {
    RenderPrefix(t, |t.ids|)
  }

  /** Lines of a printed table: the last column has no tabs after it, and a
      NULL cell prints as nothing. */
  lemma {:induction false} LineShape(t: Table, r: nat)
    requires Shaped(t) && r < |t.ids| && |t.columns| >= 1
    ensures var last := |t.columns| - 1;
            Line(t, r) == LinePrefix(t, r, last) + CellText(t, last, r) + "\n"
    ensures forall c :: 0 <= c < |t.columns| && EqualsIgnoreCase(t.columns[c][r], "NULL") ==> CellText(t, c, r) == ""
  {
    forall c | 0 <= c < |t.columns| && EqualsIgnoreCase(t.columns[c][r], "NULL")
      ensures CellText(t, c, r) == ""
    {
      var s := t.columns[c][r];
      assert Lower(s) == "null";
      assert ToLowerChar(s[0]) == Lower(s)[0];
      assert RemoveStrLitQuotes(s) == s;
    }
  }

  /** The printed table is its printed rows, one after another. */
  lemma {:induction false} RenderLines(t: Table, k: nat)
    requires Shaped(t) && k < |t.ids|
    ensures RenderPrefix(t, k + 1) == RenderPrefix(t, k) + Line(t, k)
  {
  }
}
