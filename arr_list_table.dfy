/** The in-memory table: a list of columns updated in place, the list of row
    ids and the counter for automatic ids. Every method is proved against the
    specification of the same operation in `Tables`. */
module ArrListTables {
  import opened Base
  import opened Tables

  class ArrListTable {
    var tableName: string
    var tableData: seq<seq<string>>
    var idValues: seq<int>
    /** The last id assigned automatically. */
    var lastAssignedID: int

    function Value(): Table
      reads this
    {
      Table(tableName, tableData, idValues, lastAssignedID)
    }

    predicate Valid()
      reads this
    {
      Keyed(Value())
    }

    /** A table with only the `id` column and no rows. */
    constructor (name: string)
      ensures Valid() && Value() == NewTable(name)
    {
      tableName := name;
      idValues := [0];
      tableData := [["id"]];
      lastAssignedID := 0;
    }

    /** A table with the `id` column and then each attribute in order. */
    constructor FromAttributes(name: string, attributeList: seq<string>)
      ensures Valid() && Value() == WithAttributes(NewTable(name), attributeList)
    {
      tableName := name;
      idValues := [0];
      tableData := [["id"]];
      lastAssignedID := 0;
      new;
      var i := 0;
      while i < |attributeList|
        invariant 0 <= i <= |attributeList|
        invariant Valid()
        invariant WithAttributes(Value(), attributeList[i..]) == WithAttributes(NewTable(name), attributeList)
      {
        assert attributeList[i..][1..] == attributeList[i + 1..];
        var _ := AddColumn(attributeList[i]);
        i := i + 1;
      }
    }

    /** The position of the first column whose header equals `colName`
        ignoring case. */
    method FindColumn(colName: string) returns (r: Option<nat>)
      requires Shaped(Value())
      ensures r == ColumnIndex(Value(), colName)
    {
      var c := 0;
      while c < |tableData|
        invariant 0 <= c <= |tableData|
        invariant IndexFrom(Value(), colName, c) == ColumnIndex(Value(), colName)
      {
        if EqualsIgnoreCase(tableData[c][0], colName) {
          return Some(c);
        }
        c := c + 1;
      }
      return None;
    }

    /** The cells of the first column named `colName` ignoring case. */
    method GetColumn(colName: string) returns (col: Option<seq<string>>)
      requires Shaped(Value())
      ensures col.Some? <==> AttributeExists(Value(), colName)
      ensures col.Some? ==> col.value == tableData[ColumnIndex(Value(), colName).value]
    {
      var i := FindColumn(colName);
      if i.None? {
        return None;
      }
      return Some(tableData[i.value]);
    }

    method CheckAttributeExists(colName: string) returns (b: bool)
      requires Shaped(Value())
      ensures b <==> AttributeExists(Value(), colName)
    {
      var col := GetColumn(colName);
      b := col.Some?;
    }

    method AddColumn(colName: string) returns (ok: bool)
      requires Valid()
      modifies this
      ensures Valid()
      ensures (Value(), ok) == AddColumnSpec(old(Value()), colName)
    {
      AddColumnKeeps(Value(), colName);
      var present := CheckAttributeExists(colName);
      if present {
        return false;
      }
      var newColumn := [colName];
      var rowCnt := 0;
      while rowCnt < |idValues| - 1
        invariant 0 <= rowCnt <= |idValues| - 1
        invariant newColumn == [colName] + Nulls(rowCnt)
      {
        assert Nulls(rowCnt + 1) == Nulls(rowCnt) + ["NULL"];
        newColumn := newColumn + ["NULL"];
        rowCnt := rowCnt + 1;
      }
      tableData := tableData + [newColumn];
      return true;
    }

    method RemoveColumn(colName: string) returns (ok: bool)
      requires Valid()
      modifies this
      ensures Valid()
      ensures (Value(), ok) == RemoveColumnSpec(old(Value()), colName)
    {
      RemoveColumnKeeps(Value(), colName);
      if EqualsIgnoreCase(colName, "id") {
        return false;
      }
      var i := FindColumn(colName);
      if i.None? {
        return false;
      }
      tableData := tableData[..i.value] + tableData[i.value + 1..];
      return true;
    }

    method AddRow(rowValues: seq<string>, idProvided: bool) returns (ok: bool)
      requires Valid()
      modifies this
      ensures Valid()
      ensures (Value(), ok) == AddRowSpec(old(Value()), rowValues, idProvided)
    {
      AddRowKeeps(Value(), rowValues, idProvided);
      if idProvided && |tableData| != |rowValues| {
        return false;
      }
      if !idProvided && |tableData| - 1 != |rowValues| {
        return false;
      }
      ColumnIndexOfHeader(Value(), 0);
      var idColumn := FindColumn("id");
      var idText, idValue;
      if idProvided {
        var parsed := ParseInt(rowValues[0]);
        if parsed.None? {
          return false;
        }
        idText, idValue := rowValues[0], parsed.value;
      } else {
        lastAssignedID := Inc32(lastAssignedID);
        idText, idValue := IntToString(lastAssignedID), lastAssignedID;
      }
      ghost var row := if idProvided then rowValues else [idText] + rowValues;
      ghost var before := tableData;
      tableData := tableData[idColumn.value := tableData[idColumn.value] + [idText]];
      idValues := idValues + [idValue];
      var offset := if idProvided then 0 else 1;
      var colCnt := 1;
      while colCnt < |tableData|
        invariant 1 <= colCnt <= |tableData| == |before|
        invariant idValues == old(idValues) + [idValue] && tableName == old(tableName)
        invariant lastAssignedID == (if idProvided then old(lastAssignedID) else idValue)
        invariant tableData[0] == before[0] + [row[0]]
        invariant forall c :: 1 <= c < colCnt ==> tableData[c] == before[c] + [row[c]]
        invariant forall c :: colCnt <= c < |tableData| ==> tableData[c] == before[c]
      {
        tableData := tableData[colCnt := tableData[colCnt] + [rowValues[colCnt - offset]]];
        colCnt := colCnt + 1;
      }
      assert tableData == AppendRow(old(Value()), row, idValue).columns;
      return true;
    }

    method GetRow(rowNum: nat) returns (myRow: seq<string>)
      requires Shaped(Value()) && rowNum < |idValues|
      ensures myRow == Row(Value(), rowNum)
    {
      myRow := [];
      var colCnt := 0;
      while colCnt < |tableData|
        invariant 0 <= colCnt <= |tableData|
        invariant |myRow| == colCnt && forall c :: 0 <= c < colCnt ==> myRow[c] == tableData[c][rowNum]
      {
        myRow := myRow + [tableData[colCnt][rowNum]];
        colCnt := colCnt + 1;
      }
    }

    /** Appends row `rowNum` of one table, with its id, to another with the
        same number of columns; the two may be the same table. */
    static method CopyRow(fromTable: ArrListTable, toTable: ArrListTable, rowNum: nat) returns (ok: bool)
      requires Shaped(fromTable.Value()) && Shaped(toTable.Value()) && rowNum < |fromTable.idValues|
      modifies toTable
      ensures ok <==> |old(fromTable.tableData)| == |old(toTable.tableData)|
      ensures ok ==> toTable.Value() == AppendRow(old(toTable.Value()), Row(old(fromTable.Value()), rowNum),
                                                  old(fromTable.idValues)[rowNum])
      ensures !ok ==> toTable.Value() == old(toTable.Value())
    {
      if |fromTable.tableData| != |toTable.tableData| {
        return false;
      }
      ghost var src := fromTable.tableData;
      ghost var dst := toTable.tableData;
      ghost var row := Row(fromTable.Value(), rowNum);
      var colCnt := 0;
      while colCnt < |fromTable.tableData|
        invariant 0 <= colCnt <= |src| == |dst|
        invariant |fromTable.tableData| == |src| && |toTable.tableData| == |dst|
        invariant forall c :: colCnt <= c < |src| ==> fromTable.tableData[c] == src[c]
        invariant forall c :: 0 <= c < colCnt ==> toTable.tableData[c] == dst[c] + [row[c]]
        invariant forall c :: colCnt <= c < |dst| ==> toTable.tableData[c] == dst[c]
        invariant fromTable.idValues == old(fromTable.idValues) && toTable.idValues == old(toTable.idValues)
        invariant toTable.tableName == old(toTable.tableName) && toTable.lastAssignedID == old(toTable.lastAssignedID)
      {
        toTable.tableData := toTable.tableData[colCnt := toTable.tableData[colCnt] + [fromTable.tableData[colCnt][rowNum]]];
        colCnt := colCnt + 1;
      }
      toTable.idValues := toTable.idValues + [fromTable.idValues[rowNum]];
      assert toTable.tableData == AppendRow(old(toTable.Value()), row, old(fromTable.idValues)[rowNum]).columns;
      return true;
    }

    /** A new table holding the rows marked in `selectionList` (one entry per
        row), or `null` when the mask has the wrong length. */
    method SelectRows(selectionList: seq<bool>) returns (selection: ArrListTable?)
      requires Valid()
      ensures selection == null <==> |selectionList| != NumEntries(Value())
      ensures selection != null ==> fresh(selection) && selection.Valid()
                                    && Some(selection.Value()) == SelectSpec(Value(), selectionList)
    {
      if |idValues| - 1 != |selectionList| {
        return null;
      }
      var header := GetRow(0);
      SelectPrefixZero(Value(), selectionList);
      selection := new ArrListTable.FromAttributes("", header);
      var rowCnt := 1;
      while rowCnt <= |idValues| - 1
        invariant 1 <= rowCnt <= |idValues|
        invariant fresh(selection) && selection.Valid()
        invariant selection.Value() == SelectPrefix(Value(), selectionList, rowCnt - 1)
      {
        SelectPrefixStep(Value(), selectionList, rowCnt - 1);
        if selectionList[rowCnt - 1] {
          AppendRowKeeps(selection.Value(), Row(Value(), rowCnt), idValues[rowCnt]);
          var _ := CopyRow(this, selection, rowCnt);
        }
        rowCnt := rowCnt + 1;
      }
      SelectPrefixAll(Value(), selectionList);
    }

    /** Writes `values[j]` into column `names[j]` at every marked row, pair
        by pair; `false` when the mask has the wrong length. */
    method UpdateTable(selectionList: seq<bool>, names: seq<string>, values: seq<string>) returns (ok: bool)
      requires Valid() && |names| == |values|
      requires |selectionList| == NumEntries(Value()) ==> AllExist(Value(), names) || NoneMarked(selectionList)
      modifies this
      ensures Valid()
      ensures ok <==> |selectionList| == NumEntries(old(Value()))
      ensures ok ==> Value() == UpdateSpec(old(Value()), selectionList, names, values)
      ensures !ok ==> Value() == old(Value())
    {
      if |idValues| - 1 != |selectionList| {
        return false;
      }
      var attrCount := 0;
      while attrCount < |names|
        invariant 0 <= attrCount <= |names|
        invariant Value() == UpdateSpec(old(Value()), selectionList, names[..attrCount], values[..attrCount])
        invariant Valid()
      {
        ghost var before := Value();
        assert names[..attrCount + 1][..attrCount] == names[..attrCount];
        assert values[..attrCount + 1][..attrCount] == values[..attrCount];
        ColumnIndexSameHeaders(old(Value()), before, names[attrCount]);
        var myCol := FindColumn(names[attrCount]);
        assert myCol.None? ==> NoneMarked(selectionList);
        SetMarkedRows(myCol, selectionList, names[attrCount], values[attrCount]);
        attrCount := attrCount + 1;
      }
      assert names[..|names|] == names && values[..|values|] == values;
      return true;
    }

    /** The inner loop of the update: writes `value` into the marked rows of
        column `myCol`, the column of `name`. */
    method SetMarkedRows(myCol: Option<nat>, selectionList: seq<bool>, name: string, value: string)
      requires Valid() && |selectionList| == NumEntries(Value())
      requires myCol == ColumnIndex(Value(), name) && (myCol.None? ==> NoneMarked(selectionList))
      modifies this
      ensures Value() == UpdatePair(old(Value()), selectionList, name, value)
    {
      ghost var before := Value();
      var rowCnt := 1;
      while rowCnt <= |idValues| - 1
        invariant 1 <= rowCnt <= |idValues|
        invariant idValues == before.ids && tableName == before.name && lastAssignedID == before.lastId
        invariant |tableData| == |before.columns|
        invariant myCol.Some? ==> forall c :: 0 <= c < |tableData| && c != myCol.value ==> tableData[c] == before.columns[c]
        invariant myCol.Some? ==> |tableData[myCol.value]| == |idValues|
        invariant myCol.Some? ==> forall r :: 0 <= r < |idValues| ==>
                    tableData[myCol.value][r] == if 1 <= r < rowCnt && selectionList[r - 1] then value
                                                 else before.columns[myCol.value][r]
        invariant myCol.None? ==> tableData == before.columns
      {
        if selectionList[rowCnt - 1] {
          tableData := tableData[myCol.value := tableData[myCol.value][rowCnt := value]];
        }
        rowCnt := rowCnt + 1;
      }
      if myCol.Some? {
        var i := myCol.value;
        assert tableData[i] == SetMarked(before.columns[i], selectionList, value);
        assert tableData == before.columns[i := SetMarked(before.columns[i], selectionList, value)];
      }
    }

    /** The printed table. */
    method PrintTable() returns (outputString: string)
      requires Shaped(Value())
      ensures outputString == Render(Value())
    {
      outputString := "";
      var rowCnt := 0;
      ghost var t := Value();
      while rowCnt <= |idValues| - 1
        invariant 0 <= rowCnt <= |idValues|
        invariant outputString == RenderPrefix(t, rowCnt)
      {
        var line := PrintRow(rowCnt);
        assert line + "\n" == Line(t, rowCnt);
        outputString := outputString + (line + "\n");
        rowCnt := rowCnt + 1;
      }
    }

    /** The inner loop of printing: the cells of row `rowCnt` with their tabs. */
    method PrintRow(rowCnt: nat) returns (line: string)
      requires Shaped(Value()) && rowCnt < |idValues|
      ensures line == LinePrefix(Value(), rowCnt, |tableData|)
    {
      line := "";
      var colCnt := 0;
      ghost var t := Value();
      while colCnt < |tableData|
        invariant 0 <= colCnt <= |tableData|
        invariant line == LinePrefix(t, rowCnt, colCnt)
      {
        var cell := PrintCell(colCnt, rowCnt);
        LinePrefixStep(t, rowCnt, colCnt, line, cell);
        line := line + cell;
        colCnt := colCnt + 1;
      }
    }

    /** One printed cell of the inner loop: its text, then its tabs unless it
        is in the last column. */
    method PrintCell(colCnt: nat, rowCnt: nat) returns (cell: string)
      requires Shaped(Value()) && colCnt < |tableData| && rowCnt < |idValues|
      ensures cell == CellText(Value(), colCnt, rowCnt)
                      + (if colCnt < |tableData| - 1 then Tabs(ColumnTabs(Value(), colCnt, rowCnt)) else "")
    {
      var valToPrint := RemoveStrLitQuotes(tableData[colCnt][rowCnt]);
      if EqualsIgnoreCase(valToPrint, "NULL") {
        valToPrint := "";
      }
      var pad := "";
      if colCnt < |tableData| - 1 {
        var tabs := GetColumnTabs(colCnt, rowCnt);
        pad := Tabs(tabs);
      }
      cell := valToPrint + pad;
    }

    /** The number of tabs after cell (`colNum`, `rowNum`) when printing. */
    method GetColumnTabs(colNum: nat, rowNum: nat) returns (tabs: int)
      requires Shaped(Value()) && colNum < |tableData| && rowNum < |idValues|
      ensures tabs == ColumnTabs(Value(), colNum, rowNum)
    {
      var maxColWidth := 0;
      var rowCnt := 0;
      while rowCnt <= |idValues| - 1
        invariant 0 <= rowCnt <= |idValues|
        invariant maxColWidth == MaxWidth(tableData[colNum][..rowCnt])
      {
        assert tableData[colNum][..rowCnt + 1][..rowCnt] == tableData[colNum][..rowCnt];
        if |tableData[colNum][rowCnt]| > maxColWidth {
          maxColWidth := |tableData[colNum][rowCnt]|;
        }
        rowCnt := rowCnt + 1;
      }
      assert tableData[colNum][..rowCnt] == tableData[colNum];
      var colWidth := |tableData[colNum][rowNum]|;
      // ceil((w + 1) / 4) on naturals
      var maxColTabWidth := (maxColWidth + 4) / 4;
      var colTabWidth := (colWidth + 4) / 4;
      tabs := maxColTabWidth - colTabWidth + 1;
    }

    method RemoveRow(rowNum: nat) returns (ok: bool)
      requires Valid() && rowNum < |idValues|
      modifies this
      ensures Valid()
      ensures (Value(), ok) == RemoveRowSpec(old(Value()), rowNum)
    {
      RemoveRowKeeps(Value(), rowNum);
      if rowNum == 0 {
        return false;
      }
      ghost var before := tableData;
      var colCnt := 0;
      while colCnt < |tableData|
        invariant 0 <= colCnt <= |tableData| == |before|
        invariant idValues == old(idValues) && tableName == old(tableName) && lastAssignedID == old(lastAssignedID)
        invariant forall c :: 0 <= c < colCnt ==> tableData[c] == RemoveAt(before[c], rowNum)
        invariant forall c :: colCnt <= c < |tableData| ==> tableData[c] == before[c]
      {
        tableData := tableData[colCnt := RemoveAt(tableData[colCnt], rowNum)];
        colCnt := colCnt + 1;
      }
      idValues := RemoveAt(idValues, rowNum);
      assert tableData == RemoveRowSpec(old(Value()), rowNum).0.columns;
      return true;
    }
  }
}
