/** The command dispatcher: a command string is tokenised, parsed, checked
    for reserved words and then executed against the current database, the
    table in memory and the files on disk, producing the reply text. Reply
    texts, limits and the order of the checks are those of the dispatcher. */
module DatabaseHandlers {
  import opened Base
  import opened Grammar
  import opened ConditionResults
  import opened Tables
  import opened ArrListTables
  import opened ParseTree
  import opened Rules
  import opened Tokeniser
  import opened TableHandlers

  // ---------------------------------------------------------------------
  // Replies and limits

  /** A reply text, or an exception escaping the dispatcher (a null
      reference or an index out of range). */
  datatype Response = Answer(text: string) | Throws

  const Ok: string := "[OK]\n"
  const LengthError: string := "[ERROR]\nCommand length exceeds limit.\n"
  const ParseError: string := "[ERROR]\nParsing failure. Please check command syntax.\n"
  const ReservedError: string := "[ERROR]\nCannot use SQL reserved words for attribute, table or database names.\n"
  const NoDatabase: string := "[ERROR]\nPlease specify database.\n"
  const NoTable: string := "[ERROR]\nTable does not exist. Check database correctly set.\n"
  const MissingAttributes: string := "[ERROR]\nNot all specified attributes exist.\n"
  const ExecutionFailure: string := "[ERROR]\nCommand Execution Failure\n"
  const DatabaseMissing: string := "[ERROR]\nDatabase does not exist.\n"
  const DatabaseExists: string := "[ERROR]\nDatabase already exists.\n"
  const DropDatabaseFailed: string := "[ERROR]\nPlease check database exists.\n"
  const TableExists: string := "[ERROR]\nTable already exists.\n"
  const DropTableFailed: string := "[ERROR]\nCould not delete table.\n"
  const ColumnExists: string := "[ERROR]\nColumn already exists.\n"
  const AttributeLimit: string := "[ERROR]\nTable attribute limit exceeded.\n"
  const ColumnMissing: string := "[ERROR]\nColumn does not exist.\n"
  const IdColumnDrop: string := "[ERROR]\nCannot delete ID column.\n"
  const EntryLimit: string := "[ERROR]\nTable entry limit exceeded.\n"
  const AddFailed: string := "[ERROR]\nFailed to add values. Check number of columns correct.\n"
  const IdColumnUpdate: string := "[ERROR]\nThe ID column cannot be changed.\n"
  const JoinTablesMissing: string := "[ERROR]\nCheck both tables exist within database.\n"
  const JoinAttributesMissing: string := "[ERROR]\nNon-existent attribute(s) within table(s).\n"

  const MaxTokens: nat := 1000
  const MaxAttributes: nat := 100
  const MaxEntries: nat := 1000

  // ---------------------------------------------------------------------
  // The state a command acts on

  /** The selected database, the directories on disk with their files, the
      table name the table handler holds and the table in memory. */
  datatype State = State(db: Option<string>, dirs: map<string, map<string, string>>,
                         tableName: Option<string>, current: Option<Table>)

  /** The table in memory, when there is one, keeps the table invariant. */
  predicate Sound(st: State)
  {
    st.current.Some? ==> Keyed(st.current.value)
  }

  /** The text of a file, `None` when it or its directory is missing. */
  function Lookup(dirs: map<string, map<string, string>>, dir: string, file: string): (r: Option<string>)
    ensures r.Some? <==> dir in dirs && file in dirs[dir]
  {
    if dir in dirs && file in dirs[dir] then Some(dirs[dir][file]) else None
  }

  /** Saving table `t` as `name`: the table file and then the counter file
      are written when the directory exists; otherwise nothing changes. */
  function Saved(dirs: map<string, map<string, string>>, dir: string, name: string, t: Table)
    : map<string, map<string, string>>
    requires Shaped(t)
  {
    if dir in dirs then dirs[dir := dirs[dir][TableFile(name) := Serialize(t)][IdFile(name) := SerializeId(t)]]
    else dirs
  }

  /** Selecting a database (or none) forgets the table name and the table. */
  function WithDatabase(st: State, db: Option<string>): (r: State)
    ensures Sound(r)
  {
    st.(db := db, tableName := None, current := None)
  }

  /** Replacing the table in memory by `t` and saving it under the current
      table name. */
  function Stored(st: State, t: Table): (r: State)
    requires st.tableName.Some? && Keyed(t)
    ensures Sound(r)
  {
    st.(current := Some(t), dirs := Saved(st.dirs, DirName(st.db), st.tableName.value, t))
  }

  /** Setting the table name and loading that table from the current
      database's directory. */
  function AfterLoad(st: State, name: string): (r: (LoadResult, State))
    requires Sound(st)
    ensures Sound(r.1) && r.1.tableName == Some(name) && r.1.db == st.db && r.1.dirs == st.dirs
  {
    var dir := DirName(st.db);
    var (res, table) := LoadSpec(name, st.current, Lookup(st.dirs, dir, TableFile(name)), Lookup(st.dirs, dir, IdFile(name)));
    (res, st.(tableName := Some(name), current := table))
  }

  // ---------------------------------------------------------------------
  // Database commands

  /** USE: selects an existing database, its name lower-cased. */
  function UseSpec(st: State, tree: Node): (Response, State)
  {
    match FindTokenString(tree, T(DbName))
    case None => (Throws, st)
    case Some(text) =>
      var name := Lower(text);
      if name !in st.dirs then (Answer(DatabaseMissing), st)
      else (Answer(Ok), WithDatabase(st, Some(name)))
  }

  /** CREATE DATABASE: makes an empty directory and selects it. */
  function CreateDatabaseSpec(st: State, tree: Node): (Response, State)
  {
    match FindTokenString(tree, T(DbName))
    case None => (Throws, st)
    case Some(text) =>
      var name := Lower(text);
      if name in st.dirs then (Answer(DatabaseExists), st)
      else (Answer(Ok), WithDatabase(st, Some(name)).(dirs := st.dirs[name := map[]]))
  }

  /** DROP DATABASE: deletes the directory with its files; dropping the
      selected database deselects it. */
  function DropDatabaseSpec(st: State, tree: Node): (r: (Response, State))
    requires Sound(st)
    ensures Sound(r.1)
  {
    match FindTokenString(tree, T(DbName))
    case None => (Throws, st)
    case Some(text) =>
      var name := Lower(text);
      if name !in st.dirs then (Answer(DropDatabaseFailed), st)
      else
        var gone := st.(dirs := st.dirs - {name});
        (Answer(Ok), if st.db == Some(name) then WithDatabase(gone, None) else gone)
  }

  // ---------------------------------------------------------------------
  // Table file commands

  /** CREATE TABLE: refused when the table file exists; otherwise the table
      (with the listed attributes, when there are any) becomes the table in
      memory and is saved. */
  function CreateTableSpec(st: State, tree: Node, name: string, present: bool): (r: (Response, State))
    requires Sound(st) && Formed(tree)
    ensures Sound(r.1)
  {
    if present then (Answer(TableExists), st)
    else
      var attributes := GetAttributesOrVals(tree, T(Attribute));
      var t := if FindByRule(tree, S(CrTableAttr)).Some? then WithAttributes(NewTable(name), attributes)
               else NewTable(name);
      (Answer(Ok), Stored(st.(tableName := Some(name)), t))
  }

  /** DROP TABLE: forgets the table when it is the current one, then deletes
      its table file (the counter file stays). */
  function DropTableSpec(st: State, name: string): (r: (Response, State))
    requires Sound(st)
    ensures Sound(r.1)
  {
    var kept := if st.tableName == Some(name) then WithDatabase(st, st.db) else st;
    var dir := DirName(st.db);
    if Lookup(st.dirs, dir, TableFile(name)).None? then (Answer(DropTableFailed), kept)
    else (Answer(Ok), kept.(dirs := st.dirs[dir := st.dirs[dir] - {TableFile(name)}]))
  }

  // ---------------------------------------------------------------------
  // Commands on the loaded table

  /** ALTER TABLE ... ADD|DROP: adds a column unless one exists by that name
      or the table has reached the attribute limit; drops an existing column
      other than `id`. The table is saved after a change. */
  function AlterSpec(st: State, tree: Node): (r: (Response, State))
    requires Sound(st) && st.tableName.Some?
    ensures Sound(r.1)
  {
    var kind := FindTokenString(tree, T(AlterationType));
    var column := FindTokenString(tree, T(Attribute));
    if kind.None? || column.None? || st.current.None? then (Throws, st)
    else
      var t := st.current.value;
      var c := column.value;
      if EqualsIgnoreCase(kind.value, "ADD") then
        if AttributeExists(t, c) then (Answer(ColumnExists), st)
        else if |t.columns| >= MaxAttributes then (Answer(AttributeLimit), st)
        else
          AddColumnKeeps(t, c);
          (Answer(Ok), Stored(st, AddColumnSpec(t, c).0))
      else
        if !AttributeExists(t, c) then (Answer(ColumnMissing), st)
        else if EqualsIgnoreCase(c, "ID") then (Answer(IdColumnDrop), st)
        else
          RemoveColumnKeeps(t, c);
          (Answer(Ok), Stored(st, RemoveColumnSpec(t, c).0))
  }

  /** INSERT: adds a row of the command's values with an automatic id,
      unless the table is full or the number of values is wrong. */
  function InsertSpec(st: State, tree: Node): (r: (Response, State))
    requires Sound(st) && st.tableName.Some? && st.current.Some? && Formed(tree)
    ensures Sound(r.1)
  {
    var t := st.current.value;
    var values := GetAttributesOrVals(tree, O(Value));
    if NumEntries(t) >= MaxEntries then (Answer(EntryLimit), st)
    else
      AddRowKeeps(t, values, false);
      var (u, ok) := AddRowSpec(t, values, false);
      if ok then (Answer(Ok), Stored(st, u)) else (Answer(AddFailed), st)
  }

  /** The row mask of a WHERE condition: row `i + 1` is marked exactly when
      the condition is TRUE for it. */
  function Selection(tree: Node, t: Table, num: Numerics): (mask: seq<bool>)
    requires Formed(tree) && Shaped(t) && ConditionColumnsExist(tree, t)
    ensures |mask| == NumEntries(t)
  {
    seq(|t.ids| - 1, i requires 0 <= i < |t.ids| - 1 => CheckConditions(tree, t, num, i + 1) == True)
  }

  function AllMarked(n: nat): (mask: seq<bool>)
    ensures |mask| == n && forall i :: 0 <= i < n ==> mask[i]
  {
    seq(n, _ => true)
  }

  /** The columns of `t` named by `names`, in that order, with the row ids of
      `t`, as a table named "" with counter 0; `None` when a name has no
      column. */
  function Project(t: Table, names: seq<string>): (r: Option<Table>)
    requires Shaped(t)
    ensures r.Some? <==> AllExist(t, names)
    ensures r.Some? ==> Shaped(r.value) && r.value.ids == t.ids && |r.value.columns| == |names|
                        && forall i :: 0 <= i < |names| ==> r.value.columns[i] == t.columns[ColumnIndex(t, names[i]).value]
  {
    if AllExist(t, names) then
      Some(Table("", seq(|names|, i requires 0 <= i < |names| => t.columns[ColumnIndex(t, names[i]).value]), t.ids, 0))
    else None
  }

  /** SELECT: a copy of the table, cut to the rows meeting the condition when
      there is one, then to the listed columns unless `*` is given, printed
      after the OK line. Nothing is changed. */
  function SelectCommandSpec(st: State, num: Numerics, tree: Node): Response
    requires Sound(st) && st.current.Some? && Formed(tree) && CheckAttributesExist(tree, st.current.value)
  {
    var t := st.current.value;
    var all := AllMarked(NumEntries(t));
    SelectKeeps(t, all);
    CountAllMarked(all, |all|);
    var copy := SelectSpec(t, all).value;
    AttributesCoverConditions(tree, t);
    var mask := Selection(tree, t, num);
    SelectKeeps(copy, mask);
    var cut := if FindByRule(tree, S(SelectCond)).None? then copy else SelectSpec(copy, mask).value;
    match FindByRule(tree, O(WildAttrList))
    case None => Throws
    case Some(wild) =>
      FoundFormed(tree, O(WildAttrList), t);
      if FindByRule(tree, T(AsteriskLiteral)).Some? then Answer(Ok + Render(cut))
      else match Project(cut, GetAttributesOrVals(wild, T(Attribute)))
        case None => Throws
        case Some(p) => Answer(Ok + Render(p))
  }

  lemma {:induction false} CountAllMarked(mask: seq<bool>, k: nat)
    requires k <= |mask| && forall i :: 0 <= i < |mask| ==> mask[i]
    ensures CountMarked(mask, k) == k
  {
    if k > 0 {
      CountAllMarked(mask, k - 1);
    }
  }

  /** UPDATE: refused when a name is `id` (any case); otherwise every pair
      writes its value into the rows meeting the condition, and the table is
      saved. */
  function UpdateCommandSpec(st: State, num: Numerics, tree: Node): (r: (Response, State))
    requires Sound(st) && st.tableName.Some? && st.current.Some? && Formed(tree)
    requires CheckAttributesExist(tree, st.current.value)
    ensures Sound(r.1)
  {
    var t := st.current.value;
    match FindByRule(tree, O(NameValueList))
    case None => (Throws, st)
    case Some(list) =>
      FoundFormed(tree, O(NameValueList), t);
      var names := GetAttributesOrVals(list, T(Attribute));
      if exists i :: 0 <= i < |names| && EqualsIgnoreCase(names[i], "ID") then (Answer(IdColumnUpdate), st)
      else
        NameValueCounts(list);
        AttributesCoverConditions(tree, t);
        (Answer(Ok), Stored(st, UpdateSpec(t, Selection(tree, t, num), names, GetAttributesOrVals(list, O(Value)))))
  }

  // ---------------------------------------------------------------------
  // Deleting marked rows

  function Negate(mask: seq<bool>): (m: seq<bool>)
    ensures |m| == |mask| && forall i :: 0 <= i < |mask| ==> m[i] == !mask[i]
  {
    seq(|mask|, i requires 0 <= i < |mask| => !mask[i])
  }

  /** A column (or the ids) once the rows after row `k` have been visited
      from the last one down: cells up to `k` as they were, and of the later
      cells those whose row is not marked, in order. */
  function Kept<A>(xs: seq<A>, mask: seq<bool>, k: nat): seq<A>
    requires |xs| == |mask| + 1 && k <= |mask|
  {
    xs[..k + 1] + Pick(xs[k + 1..], Negate(mask)[k..])
  }

  /** The table once the rows after row `k` have been visited. */
  function DeleteFrom(t: Table, mask: seq<bool>, k: nat): Table
    requires Shaped(t) && |mask| == NumEntries(t) && k <= |mask|
  {
    t.(columns := seq(|t.columns|, c requires 0 <= c < |t.columns| => Kept(t.columns[c], mask, k)),
       ids := Kept(t.ids, mask, k))
  }

  /** Deleting the marked rows. */
  function DeleteMarked(t: Table, mask: seq<bool>): Table
    requires Shaped(t) && |mask| == NumEntries(t)
  {
    DeleteFrom(t, mask, 0)
  }

  lemma {:induction false} PickCons<A>(x: A, xs: seq<A>, m: bool, ms: seq<bool>)
    requires |xs| == |ms|
    ensures Pick([x] + xs, [m] + ms) == (if m then [x] else []) + Pick(xs, ms)
    decreases |xs|
  {
    if xs != [] {
      var n := |xs| - 1;
      assert ([x] + xs)[..n + 1] == [x] + xs[..n];
      assert ([m] + ms)[..n + 1] == [m] + ms[..n];
      PickCons(x, xs[..n], m, ms[..n]);
    } else {
      assert ([x] + xs)[..0] == [];
    }
  }

  lemma {:induction false} KeptLength<A>(xs: seq<A>, mask: seq<bool>, k: nat)
    requires |xs| == |mask| + 1 && k <= |mask|
    ensures |Kept(xs, mask, k)| == k + 1 + CountMarked(Negate(mask)[k..], |mask| - k)
    ensures Kept(xs, mask, k)[..k + 1] == xs[..k + 1]
  {
    PickPositions(xs[k + 1..], Negate(mask)[k..]);
  }

  /** Visiting row `k` removes its cell when it is marked, and keeps it
      otherwise. */
  lemma {:induction false} KeptStep<A>(xs: seq<A>, mask: seq<bool>, k: nat)
    requires |xs| == |mask| + 1 && 1 <= k <= |mask|
    ensures k < |Kept(xs, mask, k)|
    ensures Kept(xs, mask, k - 1) == if mask[k - 1] then RemoveAt(Kept(xs, mask, k), k) else Kept(xs, mask, k)
  {
    var rest := Pick(xs[k + 1..], Negate(mask)[k..]);
    var kept := Kept(xs, mask, k);
    KeptSplit(xs, mask, k);
    assert k < |kept|;
    if mask[k - 1] {
      assert RemoveAt(kept, k) == xs[..k] + rest by {
        RemoveMiddle(xs[..k], xs[k], rest);
      }
    }
  }

  /** Row `k` of the kept cells, before and after it is visited. */
  lemma {:induction false} KeptSplit<A>(xs: seq<A>, mask: seq<bool>, k: nat)
    requires |xs| == |mask| + 1 && 1 <= k <= |mask|
    ensures var rest := Pick(xs[k + 1..], Negate(mask)[k..]);
            && Kept(xs, mask, k) == xs[..k] + [xs[k]] + rest
            && Kept(xs, mask, k - 1) == xs[..k] + (if mask[k - 1] then [] else [xs[k]]) + rest
  {
    var keep := Negate(mask)[k..];
    assert Negate(mask)[k - 1..] == [!mask[k - 1]] + keep;
    assert xs[k..] == [xs[k]] + xs[k + 1..];
    PickCons(xs[k], xs[k + 1..], !mask[k - 1], keep);
    assert xs[..k + 1] == xs[..k] + [xs[k]];
  }

  lemma {:induction false} RemoveMiddle<A>(a: seq<A>, x: A, b: seq<A>)
    ensures RemoveAt(a + [x] + b, |a|) == a + b
  {
    var s := a + [x] + b;
    assert s[..|a|] == a && s[|a| + 1..] == b;
  }

  /** The rows not yet visited keep their shape: each column and the ids lose
      the same rows. */
  lemma {:induction false} DeleteFromKeyed(t: Table, mask: seq<bool>, k: nat)
    requires Keyed(t) && |mask| == NumEntries(t) && k <= |mask|
    ensures var u := DeleteFrom(t, mask, k);
            && Keyed(u) && k < |u.ids| && |u.columns| == |t.columns| && u.lastId == t.lastId
            && |u.ids| == k + 1 + CountMarked(Negate(mask)[k..], |mask| - k)
  {
    var u := DeleteFrom(t, mask, k);
    KeptLength(t.ids, mask, k);
    forall c | 0 <= c < |t.columns|
      ensures |u.columns[c]| == |u.ids| && u.columns[c][0] == t.columns[c][0]
    {
      KeptLength(t.columns[c], mask, k);
      assert u.columns[c][0] == u.columns[c][..k + 1][0];
    }
    assert forall c :: 0 <= c < |t.columns| ==> Header(u, c) == Header(t, c);
  }

  /** Before any row is visited nothing is deleted. */
  lemma {:induction false} DeleteFromNone(t: Table, mask: seq<bool>)
    requires Shaped(t) && |mask| == NumEntries(t)
    ensures DeleteFrom(t, mask, |mask|) == t
  {
    var n := |mask|;
    assert Negate(mask)[n..] == [];
    var u := DeleteFrom(t, mask, n);
    forall c | 0 <= c < |t.columns|
      ensures u.columns[c] == t.columns[c]
    {
      assert t.columns[c][n + 1..] == [];
      assert t.columns[c][..n + 1] == t.columns[c];
    }
    assert t.ids[n + 1..] == [] && t.ids[..n + 1] == t.ids;
  }

  /** Visiting row `k`: a marked row is removed where it stands, an unmarked
      one stays. */
  lemma {:induction false} DeleteFromStep(t: Table, mask: seq<bool>, k: nat)
    requires Keyed(t) && |mask| == NumEntries(t) && 1 <= k <= |mask|
    ensures Keyed(DeleteFrom(t, mask, k)) && k < |DeleteFrom(t, mask, k).ids|
    ensures mask[k - 1] ==> RemoveRowSpec(DeleteFrom(t, mask, k), k).0 == DeleteFrom(t, mask, k - 1)
    ensures !mask[k - 1] ==> DeleteFrom(t, mask, k) == DeleteFrom(t, mask, k - 1)
  {
    DeleteFromKeyed(t, mask, k);
    var u := DeleteFrom(t, mask, k);
    var w := DeleteFrom(t, mask, k - 1);
    forall c | 0 <= c < |t.columns|
      ensures w.columns[c] == if mask[k - 1] then RemoveAt(u.columns[c], k) else u.columns[c]
    {
      KeptStep(t.columns[c], mask, k);
    }
    KeptStep(t.ids, mask, k);
    if mask[k - 1] {
      assert RemoveRowSpec(u, k).0.columns == w.columns;
    } else {
      assert u.columns == w.columns;
    }
  }

  /** Deleting the marked rows gives the columns, and the later ids, the
      selection of the unmarked rows gives; the name, the header id and the
      counter stay. */
  lemma {:induction false} DeleteIsSelection(t: Table, mask: seq<bool>)
    requires Keyed(t) && |mask| == NumEntries(t)
    ensures var u := DeleteMarked(t, mask);
            var s := SelectSpec(t, Negate(mask)).value;
            && Keyed(u) && u.columns == s.columns && u.ids == [t.ids[0]] + s.ids[1..]
            && u.name == t.name && u.lastId == t.lastId
  {
    var u := DeleteMarked(t, mask);
    var s := SelectSpec(t, Negate(mask)).value;
    DeleteFromKeyed(t, mask, 0);
    assert Negate(mask)[0..] == Negate(mask);
    forall c | 0 <= c < |t.columns|
      ensures u.columns[c] == s.columns[c]
    {
      assert t.columns[c][..1] == [t.columns[c][0]];
    }
    assert u.columns == s.columns;
    assert t.ids[..1] == [t.ids[0]];
  }

  /** `u` holds exactly the unmarked rows of `t`, in their order, each with
      its id, under the same headers: unmarked row `i + 1` moves up to the
      position given by the number of unmarked rows before it. */
  predicate KeepsUnmarked(t: Table, mask: seq<bool>, u: Table)
    requires Keyed(t) && |mask| == NumEntries(t)
  {
    && Keyed(u) && |u.columns| == |t.columns|
    && (forall c :: 0 <= c < |t.columns| ==> Header(u, c) == Header(t, c))
    && NumEntries(u) == CountMarked(Negate(mask), |mask|)
    && forall i :: 0 <= i < |mask| && !mask[i] ==>
         CountMarked(Negate(mask), i) + 1 < |u.ids|
         && Row(u, CountMarked(Negate(mask), i) + 1) == Row(t, i + 1)
         && u.ids[CountMarked(Negate(mask), i) + 1] == t.ids[i + 1]
  }

  /** Deleting the marked rows keeps exactly the unmarked rows. */
  lemma {:induction false} DeleteKeepsUnmarked(t: Table, mask: seq<bool>)
    requires Keyed(t) && |mask| == NumEntries(t)
    ensures KeepsUnmarked(t, mask, DeleteMarked(t, mask))
  {
    var u := DeleteMarked(t, mask);
    var s := SelectSpec(t, Negate(mask)).value;
    DeleteIsSelection(t, mask);
    SelectKeeps(t, Negate(mask));
    assert |u.ids| == |s.ids|;
    forall i | 0 <= i < |mask| && !mask[i]
      ensures CountMarked(Negate(mask), i) + 1 < |u.ids|
              && Row(u, CountMarked(Negate(mask), i) + 1) == Row(t, i + 1)
              && u.ids[CountMarked(Negate(mask), i) + 1] == t.ids[i + 1]
    {
      var q := CountMarked(Negate(mask), i) + 1;
      var r := i + 1;
      assert Negate(mask)[r - 1];
      assert q < |s.ids| && Row(s, q) == Row(t, r) && s.ids[q] == t.ids[r];
      assert Row(u, q) == Row(s, q);
    }
  }

  /** DELETE: removes the rows meeting the condition and saves the table. */
  function DeleteSpec(st: State, num: Numerics, tree: Node): (r: (Response, State))
    requires Sound(st) && st.tableName.Some? && st.current.Some? && Formed(tree)
    requires CheckAttributesExist(tree, st.current.value)
    ensures Sound(r.1)
  {
    var t := st.current.value;
    AttributesCoverConditions(tree, t);
    var mask := Selection(tree, t, num);
    DeleteFromKeyed(t, mask, 0);
    (Answer(Ok), Stored(st, DeleteMarked(t, mask)))
  }

  // ---------------------------------------------------------------------
  // Joining two tables

  function Prefixed(prefix: string, row: seq<string>): (r: seq<string>)
    ensures |r| == |row| && forall i :: 0 <= i < |row| ==> r[i] == prefix + row[i]
  {
    seq(|row|, i requires 0 <= i < |row| => prefix + row[i])
  }

  /** Row `r1` of `t1` followed by row `r2` of `t2`, each without its id
      cell; with `prependName` every cell is prefixed by its table's name
      and a dot. */
  function JoinedRow(t1: Table, t2: Table, r1: nat, r2: nat, prependName: bool): (row: seq<string>)
    requires Shaped(t1) && Shaped(t2) && r1 < |t1.ids| && r2 < |t2.ids| && |t1.columns| >= 1 && |t2.columns| >= 1
    ensures |row| == |t1.columns| + |t2.columns| - 2
    ensures forall c :: 1 <= c < |t1.columns| ==>
              row[c - 1] == (if prependName then t1.name + "." else "") + t1.columns[c][r1]
    ensures forall c :: 1 <= c < |t2.columns| ==>
              row[|t1.columns| - 2 + c] == (if prependName then t2.name + "." else "") + t2.columns[c][r2]
  {
    var p1 := if prependName then t1.name + "." else "";
    var p2 := if prependName then t2.name + "." else "";
    Prefixed(p1, Row(t1, r1))[1..] + Prefixed(p2, Row(t2, r2))[1..]
  }

  /** The rows `r2` in 1..k of `col2` whose cell equals row `r1` of `col1`,
      paired with `r1`, in increasing order. */
  function RowPairs(col1: seq<string>, col2: seq<string>, r1: nat, k: nat): (ps: seq<(nat, nat)>)
    requires r1 < |col1| && k < |col2|
    ensures forall p :: p in ps ==> p.0 == r1 && 1 <= p.1 <= k && col1[p.0] == col2[p.1]
  {
    if k == 0 then []
    else RowPairs(col1, col2, r1, k - 1) + (if col1[r1] == col2[k] then [(r1, k)] else [])
  }

  /** The pairs of the rows 1..k of `col1` with every row of `col2`, row of
      `col1` first. */
  function JoinPairs(col1: seq<string>, col2: seq<string>, k: nat): (ps: seq<(nat, nat)>)
    requires k < |col1| && 1 <= |col2|
    ensures forall p :: p in ps ==> 1 <= p.0 <= k && 1 <= p.1 < |col2| && col1[p.0] == col2[p.1]
  {
    if k == 0 then [] else JoinPairs(col1, col2, k - 1) + RowPairs(col1, col2, k, |col2| - 1)
  }

  /** Pair `p` comes strictly before pair `q` in row-major order. */
  predicate Before(p: (nat, nat), q: (nat, nat))
  {
    p.0 < q.0 || (p.0 == q.0 && p.1 < q.1)
  }

  lemma {:induction false} RowPairsComplete(col1: seq<string>, col2: seq<string>, r1: nat, k: nat)
    requires r1 < |col1| && k < |col2|
    ensures var ps := RowPairs(col1, col2, r1, k);
            && (forall r2 :: 1 <= r2 <= k && col1[r1] == col2[r2] ==> (r1, r2) in ps)
            && forall i, j :: 0 <= i < j < |ps| ==> ps[i].1 < ps[j].1
  {
    if k > 0 {
      RowPairsComplete(col1, col2, r1, k - 1);
    }
  }

  /** A pair of rows is joined exactly when the two cells are equal. */
  lemma {:induction false} JoinPairsMembers(col1: seq<string>, col2: seq<string>, k: nat)
    requires k < |col1| && 1 <= |col2|
    ensures forall r1, r2 :: 1 <= r1 <= k && 1 <= r2 < |col2| ==>
              ((r1, r2) in JoinPairs(col1, col2, k) <==> col1[r1] == col2[r2])
  {
    forall r1, r2 | 1 <= r1 <= k && 1 <= r2 < |col2|
      ensures (r1, r2) in JoinPairs(col1, col2, k) <==> col1[r1] == col2[r2]
    {
      JoinPairsMember(col1, col2, k, r1, r2);
    }
  }

  /** The pair `(r1, r2)` is joined exactly when its join cells are equal. */
  lemma {:induction false} JoinPairsMember(col1: seq<string>, col2: seq<string>, k: nat, r1: nat, r2: nat)
    requires k < |col1| && 1 <= |col2| && 1 <= r1 <= k && 1 <= r2 < |col2|
    ensures (r1, r2) in JoinPairs(col1, col2, k) <==> col1[r1] == col2[r2]
    decreases k
  {
    if r1 < k {
      JoinPairsMember(col1, col2, k - 1, r1, r2);
    }
    PairMember(col1, col2, k, r1, r2);
  }

  /** One pair of row numbers, given the rows before `k`. */
  lemma PairMember(col1: seq<string>, col2: seq<string>, k: nat, r1: nat, r2: nat)
    requires 0 < k < |col1| && 1 <= |col2| && 1 <= r1 <= k && 1 <= r2 < |col2|
    requires r1 < k ==> ((r1, r2) in JoinPairs(col1, col2, k - 1) <==> col1[r1] == col2[r2])
    ensures (r1, r2) in JoinPairs(col1, col2, k) <==> col1[r1] == col2[r2]
  {
    var prev := JoinPairs(col1, col2, k - 1);
    var row := RowPairs(col1, col2, k, |col2| - 1);
    var p := (r1, r2);
    assert JoinPairs(col1, col2, k) == prev + row;
    assert p in prev + row <==> p in prev || p in row;
    if r1 < k {
      assert p !in row;
    } else {
      RowPairsComplete(col1, col2, k, |col2| - 1);
      assert p !in prev;
    }
  }

  predicate Ordered(ps: seq<(nat, nat)>)
  {
    forall i, j :: 0 <= i < j < |ps| ==> Before(ps[i], ps[j])
  }

  lemma OrderedAppend(a: seq<(nat, nat)>, b: seq<(nat, nat)>, k: nat)
    requires Ordered(a) && forall p :: p in a ==> p.0 < k
    requires forall p :: p in b ==> p.0 == k
    requires forall i, j :: 0 <= i < j < |b| ==> b[i].1 < b[j].1
    ensures Ordered(a + b)
  {
    var ps := a + b;
    forall i, j | 0 <= i < j < |ps|
      ensures Before(ps[i], ps[j])
    {
      if j < |a| {
        assert ps[i] == a[i] && ps[j] == a[j];
      } else if i < |a| {
        assert a[i] in a && b[j - |a|] in b;
        assert ps[i] == a[i] && ps[j] == b[j - |a|];
      } else {
        assert b[i - |a|] in b && b[j - |a|] in b;
        assert ps[i] == b[i - |a|] && ps[j] == b[j - |a|];
      }
    }
  }

  /** The pairs come in row-major order, so none is repeated. */
  lemma {:induction false} JoinPairsOrdered(col1: seq<string>, col2: seq<string>, k: nat)
    requires k < |col1| && 1 <= |col2|
    ensures Ordered(JoinPairs(col1, col2, k))
  {
    if k > 0 {
      JoinPairsOrdered(col1, col2, k - 1);
      RowPairsComplete(col1, col2, k, |col2| - 1);
      OrderedAppend(JoinPairs(col1, col2, k - 1), RowPairs(col1, col2, k, |col2| - 1), k);
    }
  }

  /** Adding each row in turn with an automatic id; a row of the wrong
      length is refused. */
  function AddRows(base: Table, rows: seq<seq<string>>): (u: Table)
    requires Keyed(base)
    ensures Keyed(u) && |u.columns| == |base.columns| && u.name == base.name
  {
    if rows == [] then base
    else
      var prev := AddRows(base, rows[..|rows| - 1]);
      AddRowKeeps(prev, rows[|rows| - 1], false);
      AddRowSpec(prev, rows[|rows| - 1], false).0
  }

  /** Starting empty, rows of the right length land in order with the ids
      1, 2, ... */
  lemma {:induction false} AddRowsFit(base: Table, rows: seq<seq<string>>)
    requires Keyed(base) && NumEntries(base) == 0 && base.lastId == 0 && |rows| <= IntMax
    requires forall k :: 0 <= k < |rows| ==> |rows[k]| == |base.columns| - 1
    ensures var u := AddRows(base, rows);
            && NumEntries(u) == |rows| && u.lastId == |rows|
            && forall r :: 1 <= r < |u.ids| ==> u.ids[r] == r && Row(u, r) == [IntToString(r)] + rows[r - 1]
  {
    if rows != [] {
      var n := |rows| - 1;
      var prev := AddRows(base, rows[..n]);
      AddRowsFit(base, rows[..n]);
      AddRowKeeps(prev, rows[n], false);
      var u := AddRows(base, rows);
      assert u == AddRowSpec(prev, rows[n], false).0;
      assert |rows[n]| == |prev.columns| - 1 && Inc32(prev.lastId) == n + 1;
      forall r | 1 <= r < |u.ids|
        ensures u.ids[r] == r && Row(u, r) == [IntToString(r)] + rows[r - 1]
      {
        if r <= n {
          assert rows[..n][r - 1] == rows[r - 1];
          assert Row(u, r) == Row(prev, r);
        }
      }
    }
  }

  /** Rows of the wrong length are all refused. */
  lemma {:induction false} AddRowsRefused(base: Table, rows: seq<seq<string>>)
    requires Keyed(base)
    requires forall k :: 0 <= k < |rows| ==> |rows[k]| != |base.columns| - 1
    ensures AddRows(base, rows) == base
  {
    if rows != [] {
      AddRowsRefused(base, rows[..|rows| - 1]);
      AddRowKeeps(base, rows[|rows| - 1], false);
    }
  }

  /** The joined rows of the given pairs. */
  function PairRows(t1: Table, t2: Table, ps: seq<(nat, nat)>): (rows: seq<seq<string>>)
    requires Keyed(t1) && Keyed(t2)
    requires forall p :: p in ps ==> p.0 < |t1.ids| && p.1 < |t2.ids|
    ensures |rows| == |ps| && forall k :: 0 <= k < |ps| ==> |rows[k]| == |t1.columns| + |t2.columns| - 2
  {
    seq(|ps|, k requires 0 <= k < |ps| => assert ps[k] in ps; JoinedRow(t1, t2, ps[k].0, ps[k].1, false))
  }

  /** The table of attributes `t1.a...` and `t2.b...` (ids left out) holding
      the joined row of every pair of rows whose cells in the join columns are
      equal. */
  function JoinFull(t1: Table, t2: Table, a1: string, a2: string): (u: Table)
    requires Keyed(t1) && Keyed(t2) && AttributeExists(t1, a1) && AttributeExists(t2, a2)
    ensures Keyed(u)
  {
    var col1 := t1.columns[ColumnIndex(t1, a1).value];
    var col2 := t2.columns[ColumnIndex(t2, a2).value];
    AddRows(JoinBase(t1, t2), PairRows(t1, t2, JoinPairs(col1, col2, NumEntries(t1))))
  }

  /** The empty table whose columns are `id` and then the prefixed
      attributes of both tables, repeats ignoring case skipped. */
  function JoinBase(t1: Table, t2: Table): (u: Table)
    requires Keyed(t1) && Keyed(t2)
    ensures Keyed(u) && NumEntries(u) == 0 && u.lastId == 0
    ensures |u.columns| <= |t1.columns| + |t2.columns| - 1
  {
    WithAttributesKeeps(NewTable(""), JoinedRow(t1, t2, 0, 0, true));
    WithAttributes(NewTable(""), JoinedRow(t1, t2, 0, 0, true))
  }

  lemma PairRowsSnoc(t1: Table, t2: Table, ps: seq<(nat, nat)>, p: (nat, nat))
    requires Keyed(t1) && Keyed(t2) && p.0 < |t1.ids| && p.1 < |t2.ids|
    requires forall q :: q in ps ==> q.0 < |t1.ids| && q.1 < |t2.ids|
    ensures PairRows(t1, t2, ps + [p]) == PairRows(t1, t2, ps) + [JoinedRow(t1, t2, p.0, p.1, false)]
  {
    var xs := ps + [p];
    assert forall k :: 0 <= k < |ps| ==> xs[k] == ps[k];
  }

  lemma AddRowsSnoc(base: Table, rows: seq<seq<string>>, row: seq<string>)
    requires Keyed(base)
    ensures AddRows(base, rows + [row]) == AddRowSpec(AddRows(base, rows), row, false).0
  {
    assert (rows + [row])[..|rows|] == rows;
  }

  /** The joined rows of the matching pairs among the rows 1..k of `t1`. */
  function JoinRows(t1: Table, t2: Table, col1: seq<string>, col2: seq<string>, k: nat): seq<seq<string>>
    requires Keyed(t1) && Keyed(t2) && |col1| == |t1.ids| && |col2| == |t2.ids| && k < |col1|
  {
    PairRows(t1, t2, JoinPairs(col1, col2, k))
  }

  /** The joined rows of row `r1` of `t1` with the matching rows 1..k of
      `t2`. */
  function MatchRows(t1: Table, t2: Table, col1: seq<string>, col2: seq<string>, r1: nat, k: nat): seq<seq<string>>
    requires Keyed(t1) && Keyed(t2) && |col1| == |t1.ids| && |col2| == |t2.ids| && r1 < |col1| && k < |col2|
  {
    PairRows(t1, t2, RowPairs(col1, col2, r1, k))
  }

  lemma JoinRowsStep(t1: Table, t2: Table, col1: seq<string>, col2: seq<string>, k: nat)
    requires Keyed(t1) && Keyed(t2) && |col1| == |t1.ids| && |col2| == |t2.ids| && 1 <= k < |col1|
    ensures JoinRows(t1, t2, col1, col2, k) == JoinRows(t1, t2, col1, col2, k - 1) + MatchRows(t1, t2, col1, col2, k, |col2| - 1)
  {
    PairRowsAppend(t1, t2, JoinPairs(col1, col2, k - 1), RowPairs(col1, col2, k, |col2| - 1));
  }

  lemma MatchRowsStep(t1: Table, t2: Table, col1: seq<string>, col2: seq<string>, r1: nat, k: nat)
    requires Keyed(t1) && Keyed(t2) && |col1| == |t1.ids| && |col2| == |t2.ids| && r1 < |col1| && 1 <= k < |col2|
    ensures MatchRows(t1, t2, col1, col2, r1, k)
            == MatchRows(t1, t2, col1, col2, r1, k - 1) + (if col1[r1] == col2[k] then [JoinedRow(t1, t2, r1, k, false)] else [])
  {
    var before := RowPairs(col1, col2, r1, k - 1);
    if col1[r1] == col2[k] {
      PairRowsSnoc(t1, t2, before, (r1, k));
    } else {
      assert RowPairs(col1, col2, r1, k) == before;
    }
  }

  /** One step of the inner JOIN loop: a matching row of `t2` adds its
      joined row, any other leaves the rows added so far. */
  lemma MatchRowsAdd(start: Table, t1: Table, t2: Table, col1: seq<string>, col2: seq<string>, r1: nat, k: nat)
    requires Keyed(start) && Keyed(t1) && Keyed(t2) && |col1| == |t1.ids| && |col2| == |t2.ids|
    requires r1 < |col1| && 1 <= k < |col2|
    ensures col1[r1] == col2[k] ==>
              AddRows(start, MatchRows(t1, t2, col1, col2, r1, k))
              == AddRowSpec(AddRows(start, MatchRows(t1, t2, col1, col2, r1, k - 1)), JoinedRow(t1, t2, r1, k, false), false).0
    ensures col1[r1] != col2[k] ==> MatchRows(t1, t2, col1, col2, r1, k) == MatchRows(t1, t2, col1, col2, r1, k - 1)
  {
    MatchRowsStep(t1, t2, col1, col2, r1, k);
    if col1[r1] == col2[k] {
      AddRowsSnoc(start, MatchRows(t1, t2, col1, col2, r1, k - 1), JoinedRow(t1, t2, r1, k, false));
    } else {
      assert MatchRows(t1, t2, col1, col2, r1, k) == MatchRows(t1, t2, col1, col2, r1, k - 1) + [];
    }
  }

  /** One more row of `t1` visited by the nested loops of JOIN. */
  lemma JoinStep(base: Table, t1: Table, t2: Table, col1: seq<string>, col2: seq<string>, k: nat)
    requires Keyed(base) && Keyed(t1) && Keyed(t2) && |col1| == |t1.ids| && |col2| == |t2.ids| && 1 <= k < |col1|
    ensures AddRows(AddRows(base, JoinRows(t1, t2, col1, col2, k - 1)), MatchRows(t1, t2, col1, col2, k, |col2| - 1))
            == AddRows(base, JoinRows(t1, t2, col1, col2, k))
  {
    JoinRowsStep(t1, t2, col1, col2, k);
    AddRowsAppend(base, JoinRows(t1, t2, col1, col2, k - 1), MatchRows(t1, t2, col1, col2, k, |col2| - 1));
  }

  /** The full join is the header table with the joined rows of all the
      matching pairs added. */
  lemma JoinFullIs(t1: Table, t2: Table, a1: string, a2: string)
    requires Keyed(t1) && Keyed(t2) && AttributeExists(t1, a1) && AttributeExists(t2, a2)
    ensures var col1 := t1.columns[ColumnIndex(t1, a1).value];
            var col2 := t2.columns[ColumnIndex(t2, a2).value];
            && |col1| == |t1.ids| && |col2| == |t2.ids|
            && JoinFull(t1, t2, a1, a2)
               == AddRows(JoinBase(t1, t2), JoinRows(t1, t2, col1, col2, NumEntries(t1)))
  {
  }

  lemma PairRowsAppend(t1: Table, t2: Table, a: seq<(nat, nat)>, b: seq<(nat, nat)>)
    requires Keyed(t1) && Keyed(t2)
    requires forall q :: q in a + b ==> q.0 < |t1.ids| && q.1 < |t2.ids|
    ensures PairRows(t1, t2, a + b) == PairRows(t1, t2, a) + PairRows(t1, t2, b)
  {
    var xs := a + b;
    assert forall k :: 0 <= k < |a| ==> xs[k] == a[k] && a[k] in a;
    assert forall k :: 0 <= k < |b| ==> xs[|a| + k] == b[k] && b[k] in b;
  }

  /** Adding two lists of rows one after the other. */
  lemma {:induction false} AddRowsAppend(base: Table, a: seq<seq<string>>, b: seq<seq<string>>)
    requires Keyed(base)
    ensures AddRows(base, a + b) == AddRows(AddRows(base, a), b)
    decreases |b|
  {
    if b == [] {
      assert a + b == a;
    } else {
      var n := |b| - 1;
      assert (a + b)[..|a + b| - 1] == a + b[..n];
      assert (a + b)[|a + b| - 1] == b[n];
      AddRowsAppend(base, a, b[..n]);
    }
  }

  lemma PrefixedEmpty(row: seq<string>)
    ensures Prefixed("", row) == row
  {
    forall i | 0 <= i < |row|
      ensures Prefixed("", row)[i] == row[i]
    {
      assert "" + row[i] == row[i];
    }
  }

  /** When every prefixed attribute became a column, row `r` of the full
      join is `r` followed by the joined row of the `r`-th matching pair. */
  lemma JoinFullRows(t1: Table, t2: Table, a1: string, a2: string)
    requires Keyed(t1) && Keyed(t2) && AttributeExists(t1, a1) && AttributeExists(t2, a2)
    ensures var ps := JoinPairs(t1.columns[ColumnIndex(t1, a1).value], t2.columns[ColumnIndex(t2, a2).value], NumEntries(t1));
            var u := JoinFull(t1, t2, a1, a2);
            |JoinBase(t1, t2).columns| == |t1.columns| + |t2.columns| - 1 && |ps| <= IntMax ==>
              NumEntries(u) == |ps| && forall r :: 1 <= r < |u.ids| ==>
                Row(u, r) == [IntToString(r)] + JoinedRow(t1, t2, ps[r - 1].0, ps[r - 1].1, false)
  {
    var col1 := t1.columns[ColumnIndex(t1, a1).value];
    var col2 := t2.columns[ColumnIndex(t2, a2).value];
    var base := JoinBase(t1, t2);
    var ps := JoinPairs(col1, col2, NumEntries(t1));
    var rows := PairRows(t1, t2, ps);
    if |base.columns| == |t1.columns| + |t2.columns| - 1 && |ps| <= IntMax {
      AddRowsFit(base, rows);
      var u := AddRows(base, rows);
      forall r | 1 <= r < |u.ids|
        ensures Row(u, r) == [IntToString(r)] + JoinedRow(t1, t2, ps[r - 1].0, ps[r - 1].1, false)
      {
        assert Row(u, r) == [IntToString(r)] + rows[r - 1];
      }
    }
  }

  /** When some prefixed attribute was refused as a repeat, the joined rows
      no longer fit and the full join has no rows. */
  lemma JoinFullCollides(t1: Table, t2: Table, a1: string, a2: string)
    requires Keyed(t1) && Keyed(t2) && AttributeExists(t1, a1) && AttributeExists(t2, a2)
    ensures |JoinBase(t1, t2).columns| != |t1.columns| + |t2.columns| - 1 ==> JoinFull(t1, t2, a1, a2) == JoinBase(t1, t2)
  {
    var col1 := t1.columns[ColumnIndex(t1, a1).value];
    var col2 := t2.columns[ColumnIndex(t2, a2).value];
    var base := JoinBase(t1, t2);
    if |base.columns| != |t1.columns| + |t2.columns| - 1 {
      AddRowsRefused(base, PairRows(t1, t2, JoinPairs(col1, col2, NumEntries(t1))));
    }
  }

  /** The join result: the full join without the two join columns, except a
      join column that is `id` (any case). */
  function JoinTable(t1: Table, t2: Table, n1: string, n2: string, a1: string, a2: string): (u: Table)
    requires Keyed(t1) && Keyed(t2) && AttributeExists(t1, a1) && AttributeExists(t2, a2)
    ensures Keyed(u)
  {
    var full := JoinFull(t1, t2, a1, a2);
    RemoveColumnKeeps(full, n1 + "." + a1);
    var once := if EqualsIgnoreCase(a1, "ID") then full else RemoveColumnSpec(full, n1 + "." + a1).0;
    RemoveColumnKeeps(once, n2 + "." + a2);
    if EqualsIgnoreCase(a2, "ID") then once else RemoveColumnSpec(once, n2 + "." + a2).0
  }

  /** JOIN: both tables are loaded afresh from their files; the reply is the
      join printed after the OK line; nothing is changed. */
  function JoinSpec(st: State, tree: Node): Response
    requires Formed(tree)
  {
    var names := GetAttributesOrVals(tree, T(TableName));
    if |names| < 2 then Throws
    else
      var n1 := Lower(names[0]);
      var n2 := Lower(names[1]);
      var dir := DirName(st.db);
      if Lookup(st.dirs, dir, TableFile(n1)).None? || Lookup(st.dirs, dir, TableFile(n2)).None? then
        Answer(JoinTablesMissing)
      else
        var (res1, t1) := LoadSpec(n1, None, Lookup(st.dirs, dir, TableFile(n1)), Lookup(st.dirs, dir, IdFile(n1)));
        var (res2, t2) := LoadSpec(n2, None, Lookup(st.dirs, dir, TableFile(n2)), Lookup(st.dirs, dir, IdFile(n2)));
        JoinLoadedSpec(res1, t1, res2, t2, n1, n2, GetAttributesOrVals(tree, T(Attribute)))
  }

  /** JOIN once both tables are loaded: the two join columns must exist,
      the first checked before the second table is looked at. */
  function JoinLoadedSpec(res1: LoadResult, t1: Option<Table>, res2: LoadResult, t2: Option<Table>,
                          n1: string, n2: string, attributes: seq<string>): Response
    requires t1.Some? ==> Keyed(t1.value)
    requires t2.Some? ==> Keyed(t2.value)
  {
    if res1 == Threw || res2 == Threw || |attributes| < 2 || t1.None? then Throws
    else if !AttributeExists(t1.value, attributes[0]) then Answer(JoinAttributesMissing)
    else if t2.None? then Throws
    else if !AttributeExists(t2.value, attributes[1]) then Answer(JoinAttributesMissing)
    else Answer(Ok + Render(JoinTable(t1.value, t2.value, n1, n2, attributes[0], attributes[1])))
  }

  // ---------------------------------------------------------------------
  // Dispatch

  /** The tree holds an INSERT, SELECT, UPDATE or DELETE command. */
  predicate RowCommand(tree: Node)
  {
    || FindByRule(tree, S(Insert)).Some? || FindByRule(tree, O(Select)).Some?
    || FindByRule(tree, S(Update)).Some? || FindByRule(tree, S(Delete)).Some?
  }

  /** The commands run once the table named in the command is loaded, tried
      in this order; all but ALTER and JOIN first need every attribute of
      the command to be a column. */
  function TableCommandSpec(st: State, num: Numerics, tree: Node): (r: (Response, State))
    requires Sound(st) && st.tableName.Some? && Formed(tree)
    ensures Sound(r.1)
  {
    if FindByRule(tree, S(Alter)).Some? then AlterSpec(st, tree)
    else if FindByRule(tree, S(Join)).Some? then (JoinSpec(st, tree), st)
    else match st.current
      case None =>
        (if GetAttributesOrVals(tree, T(Attribute)) != [] || RowCommand(tree) then Throws else Answer(ExecutionFailure), st)
      case Some(t) =>
        if !CheckAttributesExist(tree, t) then (Answer(MissingAttributes), st)
        else if FindByRule(tree, S(Insert)).Some? then InsertSpec(st, tree)
        else if FindByRule(tree, O(Select)).Some? then (SelectCommandSpec(st, num, tree), st)
        else if FindByRule(tree, S(Update)).Some? then UpdateCommandSpec(st, num, tree)
        else if FindByRule(tree, S(Delete)).Some? then DeleteSpec(st, num, tree)
        else (Answer(ExecutionFailure), st)
  }

  /** The database commands, then (with a database selected) the table
      commands, in the dispatcher's order. Table names are lower-cased. */
  function DispatchSpec(st: State, num: Numerics, tree: Node): (r: (Response, State))
    requires Sound(st) && Formed(tree)
    ensures Sound(r.1)
  {
    if FindByRule(tree, S(Use)).Some? then UseSpec(st, tree)
    else if FindByRule(tree, S(CreateDb)).Some? then CreateDatabaseSpec(st, tree)
    else if FindByRule(tree, S(DropDb)).Some? then DropDatabaseSpec(st, tree)
    else if st.db.None? then (Answer(NoDatabase), st)
    else NamedTableSpec(st, num, tree)
  }

  /** A command that names a table, once a database is selected: CREATE TABLE
      is told whether the table file exists, every other command is refused
      when it does not, DROP TABLE drops it and the rest load it first. */
  function NamedTableSpec(st: State, num: Numerics, tree: Node): (r: (Response, State))
    requires Sound(st) && Formed(tree) && st.db.Some?
    ensures Sound(r.1)
  {
    match FindTokenString(tree, T(TableName))
      case None => (Throws, st)
      case Some(text) =>
        var name := Lower(text);
        var present := Lookup(st.dirs, DirName(st.db), TableFile(name)).Some?;
        if FindByRule(tree, O(CreateTable)).Some? then CreateTableSpec(st, tree, name, present)
        else if !present then (Answer(NoTable), st)
        else if FindByRule(tree, S(DropTable)).Some? then DropTableSpec(st, name)
        else LoadedTableSpec(st, num, tree, name)
  }

  /** Sets the table name, loads that table and runs the command on it;
      a table file that cannot be read is reported as a throw. */
  function LoadedTableSpec(st: State, num: Numerics, tree: Node, name: string): (r: (Response, State))
    requires Sound(st) && Formed(tree)
    ensures Sound(r.1)
  {
    var (res, loaded) := AfterLoad(st, name);
    if res == Threw then (Throws, loaded) else TableCommandSpec(loaded, num, tree)
  }

  /** The reply to a command string: too many tokens, a parse failure and a
      reserved word are refused in that order before anything is done. */
  function RespondSpec(st: State, num: Numerics, command: string): (r: (Response, State))
    requires Sound(st)
    ensures Sound(r.1)
  {
    var tokens := Tokenise(command);
    if |tokens| > MaxTokens then (Answer(LengthError), st)
    else match ParseRule(tokens, 0, S(Command))
      case None => (Answer(ParseError), st)
      case Some(tree) =>
        ParseRuleSpans(tokens, 0, S(Command));
        if !CheckNoReservedWordsUsed(tree) then (Answer(ReservedError), st)
        else DispatchSpec(st, num, tree)
  }

  // ---------------------------------------------------------------------
  // Properties of the dispatcher

  /** Too many tokens, a parse failure and a reserved name are refused, in
      that order, before anything changes. */
  lemma RefusedFirst(st: State, num: Numerics, command: string)
    requires Sound(st)
    ensures var tokens := Tokenise(command);
            var tree := ParseRule(tokens, 0, S(Command));
            && (|tokens| > MaxTokens ==> RespondSpec(st, num, command) == (Answer(LengthError), st))
            && (|tokens| <= MaxTokens && tree.None? ==> RespondSpec(st, num, command) == (Answer(ParseError), st))
            && (|tokens| <= MaxTokens && tree.Some? ==>
                  && Formed(tree.value)
                  && (!CheckNoReservedWordsUsed(tree.value) ==> RespondSpec(st, num, command) == (Answer(ReservedError), st))
                  && (CheckNoReservedWordsUsed(tree.value) ==> RespondSpec(st, num, command) == DispatchSpec(st, num, tree.value)))
  {
    ParseRuleSpans(Tokenise(command), 0, S(Command));
  }

  /** Every command but the three database commands needs a selected
      database, and every command but CREATE TABLE needs its table file. */
  lemma DatabaseAndTableRequired(st: State, num: Numerics, tree: Node)
    requires Sound(st) && Formed(tree)
    requires FindByRule(tree, S(Use)).None? && FindByRule(tree, S(CreateDb)).None? && FindByRule(tree, S(DropDb)).None?
    ensures st.db.None? ==> DispatchSpec(st, num, tree) == (Answer(NoDatabase), st)
    ensures st.db.Some? && FindByRule(tree, O(CreateTable)).None? && FindTokenString(tree, T(TableName)).Some?
            && Lookup(st.dirs, st.db.value, TableFile(Lower(FindTokenString(tree, T(TableName)).value))).None?
            ==> DispatchSpec(st, num, tree) == (Answer(NoTable), st)
  {
  }

  /** USE selects the lower-cased database exactly when its directory
      exists, forgetting the table; otherwise nothing changes. */
  lemma UseSelectsExisting(st: State, tree: Node, text: string)
    requires FindTokenString(tree, T(DbName)) == Some(text)
    ensures var (reply, after) := UseSpec(st, tree);
            && (reply == Answer(Ok) <==> Lower(text) in st.dirs)
            && (reply == Answer(Ok) ==> after == State(Some(Lower(text)), st.dirs, None, None))
            && (reply != Answer(Ok) ==> reply == Answer(DatabaseMissing) && after == st)
  {
  }

  /** Dropping the selected database deletes its directory and leaves no
      database, table name or table selected. */
  lemma DropSelectedDatabase(st: State, tree: Node, text: string)
    requires Sound(st) && FindTokenString(tree, T(DbName)) == Some(text)
    requires st.db == Some(Lower(text)) && Lower(text) in st.dirs
    ensures var (reply, after) := DropDatabaseSpec(st, tree);
            reply == Answer(Ok) && after == State(None, st.dirs - {Lower(text)}, None, None)
  {
  }

  /** CREATE DATABASE adds an empty directory and selects it, unless the
      directory exists. */
  lemma CreateDatabaseAdds(st: State, tree: Node, text: string)
    requires FindTokenString(tree, T(DbName)) == Some(text)
    ensures var (reply, after) := CreateDatabaseSpec(st, tree);
            && (reply == Answer(Ok) <==> Lower(text) !in st.dirs)
            && (reply == Answer(Ok) ==> after == State(Some(Lower(text)), st.dirs[Lower(text) := map[]], None, None))
            && (reply != Answer(Ok) ==> after == st)
  {
  }

  /** DROP TABLE removes the table file and nothing else from the disk. */
  lemma DropTableRemovesFile(st: State, name: string)
    requires Sound(st) && Lookup(st.dirs, DirName(st.db), TableFile(name)).Some?
    ensures var (reply, after) := DropTableSpec(st, name);
            var dir := DirName(st.db);
            && reply == Answer(Ok) && after.db == st.db && dir in after.dirs
            && after.dirs.Keys == st.dirs.Keys
            && after.dirs[dir].Keys == st.dirs[dir].Keys - {TableFile(name)}
            && (forall f :: f in after.dirs[dir] ==> after.dirs[dir][f] == st.dirs[dir][f])
            && (st.tableName == Some(name) ==> after.tableName.None? && after.current.None?)
  {
  }

  /** ALTER ... ADD, the keyword in any case, succeeds exactly when no
      column has the name and the table has fewer than 100 columns; the new
      column comes last. */
  lemma AlterAddOutcome(st: State, tree: Node, k: string, c: string)
    requires Sound(st) && st.tableName.Some? && st.current.Some?
    requires FindTokenString(tree, T(AlterationType)) == Some(k) && EqualsIgnoreCase(k, "ADD")
    requires FindTokenString(tree, T(Attribute)) == Some(c)
    ensures var t := st.current.value;
            var (reply, after) := AlterSpec(st, tree);
            && (reply == Answer(Ok) <==> !AttributeExists(t, c) && |t.columns| < MaxAttributes)
            && (reply == Answer(Ok) ==>
                  && after.current.Some?
                  && |after.current.value.columns| == |t.columns| + 1
                  && after.current.value.columns[..|t.columns|] == t.columns
                  && Header(after.current.value, |t.columns|) == c
                  && after.current.value.ids == t.ids)
            && (reply != Answer(Ok) ==> after == st)
  {
    AddColumnKeeps(st.current.value, c);
  }

  /** Any other alteration kind, which the grammar only lets through as
      DROP in some case, drops: it succeeds exactly when a column has the
      name and it is not `id`. */
  lemma AlterDropOutcome(st: State, tree: Node, k: string, c: string)
    requires Sound(st) && st.tableName.Some? && st.current.Some?
    requires FindTokenString(tree, T(AlterationType)) == Some(k) && !EqualsIgnoreCase(k, "ADD")
    requires FindTokenString(tree, T(Attribute)) == Some(c)
    ensures var t := st.current.value;
            var (reply, after) := AlterSpec(st, tree);
            && (reply == Answer(Ok) <==> AttributeExists(t, c) && !EqualsIgnoreCase(c, "ID"))
            && (reply == Answer(Ok) ==>
                  && after.current.Some?
                  && |after.current.value.columns| == |t.columns| - 1
                  && after.current.value.ids == t.ids)
            && (reply != Answer(Ok) ==> after == st)
  {
    RemoveColumnKeeps(st.current.value, c);
  }

  /** INSERT adds a row exactly when the table has fewer than 1000 rows and
      one value per non-id column; the row gets the next automatic id. */
  lemma InsertOutcome(st: State, tree: Node)
    requires Sound(st) && st.tableName.Some? && st.current.Some? && Formed(tree)
    ensures var t := st.current.value;
            var values := GetAttributesOrVals(tree, O(Value));
            var (reply, after) := InsertSpec(st, tree);
            && (reply == Answer(Ok) <==> NumEntries(t) < MaxEntries && |values| == |t.columns| - 1)
            && (reply == Answer(Ok) ==>
                  (&& after.current.Some?
                   && NumEntries(after.current.value) == NumEntries(t) + 1
                   && Row(after.current.value, |t.ids|) == [IntToString(Inc32(t.lastId))] + values
                   && after.current.value.lastId == Inc32(t.lastId)))
            && (reply != Answer(Ok) ==> after == st)
  {
    AddRowKeeps(st.current.value, GetAttributesOrVals(tree, O(Value)), false);
  }

  /** UPDATE never writes the `id` column: a name equal to `id` ignoring
      case is refused and nothing changes. */
  lemma UpdateRefusesId(st: State, num: Numerics, tree: Node)
    requires Sound(st) && st.tableName.Some? && st.current.Some? && Formed(tree)
    requires CheckAttributesExist(tree, st.current.value)
    ensures var (reply, after) := UpdateCommandSpec(st, num, tree);
            && (reply == Answer(Ok) ==>
                  (&& after.current.Some? && after.current.value.ids == st.current.value.ids
                   && |after.current.value.columns| == |st.current.value.columns|
                   && after.current.value.columns[0] == st.current.value.columns[0]))
            && (reply != Answer(Ok) ==> after == st)
  {
    var t := st.current.value;
    var list := FindByRule(tree, O(NameValueList));
    if list.Some? {
      FoundFormed(tree, O(NameValueList), t);
      var names := GetAttributesOrVals(list.value, T(Attribute));
      if !exists i :: 0 <= i < |names| && EqualsIgnoreCase(names[i], "ID") {
        NameValueCounts(list.value);
        AttributesCoverConditions(tree, t);
        UpdateKeepsIdColumn(t, Selection(tree, t, num), names, GetAttributesOrVals(list.value, O(Value)));
      }
    }
  }

  /** An update whose names are none of them `id` leaves the id column as
      it was. */
  lemma UpdateKeepsIdColumn(t: Table, mask: seq<bool>, names: seq<string>, values: seq<string>)
    requires Keyed(t) && |mask| == NumEntries(t) && |names| == |values|
    requires forall i :: 0 <= i < |names| ==> !EqualsIgnoreCase(names[i], "ID")
    ensures UpdateSpec(t, mask, names, values).columns[0] == t.columns[0]
  {
    assert Lower("id") == Lower("ID");
    forall j | 0 <= j < |names| ensures ColumnIndex(t, names[j]) != Some(0) { }
    assert LastFor(t, names, 0).None?;
    UpdateCells(t, mask, names, values);
    var u := UpdateSpec(t, mask, names, values);
    assert |u.columns[0]| == |t.ids| == |t.columns[0]|;
    forall r | 0 <= r < |t.ids| ensures u.columns[0][r] == t.columns[0][r] { }
  }

  /** UPDATE is refused, with no change, exactly when one of the names it
      sets is `id` in any case. */
  lemma UpdateIdOutcome(st: State, num: Numerics, tree: Node)
    requires Sound(st) && st.tableName.Some? && st.current.Some? && Formed(tree)
    requires CheckAttributesExist(tree, st.current.value)
    ensures var list := FindByRule(tree, O(NameValueList));
            var (reply, after) := UpdateCommandSpec(st, num, tree);
            list.Some? && Formed(list.value) ==>
              var names := GetAttributesOrVals(list.value, T(Attribute));
              && (reply == Answer(Ok) <==> forall i :: 0 <= i < |names| ==> !EqualsIgnoreCase(names[i], "ID"))
              && (reply != Answer(Ok) ==> reply == Answer(IdColumnUpdate) && after == st)
  {
  }

  /** DELETE keeps exactly the rows the condition does not mark, in order
      and with their ids; the headers stay. */
  lemma DeleteRemovesMarked(st: State, num: Numerics, tree: Node)
    requires Sound(st) && st.tableName.Some? && st.current.Some? && Formed(tree)
    requires CheckAttributesExist(tree, st.current.value)
    ensures ConditionColumnsExist(tree, st.current.value)
    ensures var t := st.current.value;
            var mask := Selection(tree, t, num);
            && DeleteSpec(st, num, tree).0 == Answer(Ok)
            && DeleteSpec(st, num, tree).1.current.Some?
            && KeepsUnmarked(t, mask, DeleteSpec(st, num, tree).1.current.value)
  {
    AttributesCoverConditions(tree, st.current.value);
    DeleteSpecResult(st, num, tree);
    DeleteKeepsUnmarked(st.current.value, Selection(tree, st.current.value, num));
  }

  lemma DeleteSpecResult(st: State, num: Numerics, tree: Node)
    requires Sound(st) && st.tableName.Some? && st.current.Some? && Formed(tree)
    requires CheckAttributesExist(tree, st.current.value)
    ensures ConditionColumnsExist(tree, st.current.value)
    ensures var t := st.current.value;
            var r := DeleteSpec(st, num, tree);
            r.0 == Answer(Ok) && r.1.current == Some(DeleteMarked(t, Selection(tree, t, num)))
  {
    var t := st.current.value;
    AttributesCoverConditions(tree, t);
    var mask := Selection(tree, t, num);
    DeleteFromKeyed(t, mask, 0);
    assert DeleteSpec(st, num, tree) == (Answer(Ok), Stored(st, DeleteMarked(t, mask)));
  }

  /** SELECT and JOIN change nothing: not the files, not the selection and
      not the table in memory. */
  lemma ReadOnlyCommands(st: State, num: Numerics, tree: Node)
    requires Sound(st) && st.tableName.Some? && Formed(tree) && FindByRule(tree, S(Alter)).None?
    requires FindByRule(tree, S(Join)).Some? || (FindByRule(tree, S(Insert)).None? && FindByRule(tree, O(Select)).Some?)
    ensures TableCommandSpec(st, num, tree).1 == st
  {
  }

  /** A table saved by a command loads back as itself. */
  lemma {:induction false} StoredReloads(st: State, t: Table)
    requires st.tableName == Some(t.name) && Storable(t) && DirName(st.db) in st.dirs
    ensures AfterLoad(Stored(st, t), st.tableName.value) == (Loaded, Stored(st, t))
  {
    var name := st.tableName.value;
    var after := Stored(st, t);
    var dir := DirName(st.db);
    assert |TableFile(name)| != |IdFile(name)|;
    assert Lookup(after.dirs, dir, TableFile(name)) == Some(Serialize(t));
    assert Lookup(after.dirs, dir, IdFile(name)) == Some(SerializeId(t));
    SaveLoadRoundTrip(t, Some(t));
  }

  // ---------------------------------------------------------------------
  // The handler

  /** The selected database and its path, and the table handler that holds
      the current table; numeric parsing and comparison are given as
      `num`. Every command is proved to act as its specification above. */
  class DatabaseHandler {
    const parentFolderPath: string
    var databaseName: Option<string>
    var databasePath: Option<string>
    const tableHandler: TableHandler
    const store: Disk
    const num: Numerics

    /** The table handler shares the disk and the folder, and always points
        at the selected database; the path belongs to the database name. */
    predicate Valid()
      reads this, tableHandler, tableHandler.currTable
    {
      && tableHandler.Valid()
      && tableHandler.store == store && tableHandler.parentFolderPath == parentFolderPath
      && tableHandler.databaseName == databaseName
      && databasePath == (if databaseName.None? then None else Some(parentFolderPath + FileSep + databaseName.value))
    }

    /** The state the specification functions act on. */
    function Abs(): (st: State)
      reads this, tableHandler, tableHandler.currTable, store
      requires Valid()
      ensures Sound(st)
    {
      State(databaseName, store.dirs, tableHandler.tableName, tableHandler.Current())
    }

    /** A handler with no database selected. */
    constructor (store: Disk, parentFolderPath: string, num: Numerics)
      ensures Valid() && this.store == store && this.parentFolderPath == parentFolderPath && this.num == num
      ensures fresh(tableHandler) && Abs() == State(None, store.dirs, None, None)
    {
      this.parentFolderPath := parentFolderPath;
      databaseName, databasePath := None, None;
      var handler := new TableHandler(store, parentFolderPath);
      handler.SetDatabaseName(None);
      tableHandler := handler;
      this.store := store;
      this.num := num;
    }

    /** Selects database `newDB`, which deselects the table. */
    method UpdateFilePath(newDB: string)
      requires Valid()
      modifies this, tableHandler
      ensures Valid() && Abs() == WithDatabase(old(Abs()), Some(newDB))
      ensures databasePath == Some(parentFolderPath + FileSep + newDB)
    {
      databaseName := Some(newDB);
      databasePath := Some(parentFolderPath + FileSep + newDB);
      tableHandler.SetDatabaseName(databaseName);
    }

    /** Selects `newDB` and makes its directory when there is none. */
    method MakeDatabaseDir(newDB: string) returns (ok: bool)
      requires Valid()
      modifies this, tableHandler, store
      ensures Valid() && (ok <==> newDB !in old(store.dirs))
      ensures Abs() == WithDatabase(old(Abs()), Some(newDB)).(dirs := if ok then old(store.dirs)[newDB := map[]] else old(store.dirs))
    {
      UpdateFilePath(newDB);
      ok := store.MakeDir(newDB);
    }

    /** Deletes the directory of `selectedDB` with its files; deleting the
        selected database deselects it. */
    method DeleteDatabaseDir(selectedDB: string) returns (ok: bool)
      requires Valid()
      modifies this, tableHandler, store
      ensures Valid() && (ok <==> selectedDB in old(store.dirs))
      ensures var gone := old(Abs()).(dirs := old(store.dirs) - {selectedDB});
              Abs() == if !ok then old(Abs()) else if old(databaseName) == Some(selectedDB) then WithDatabase(gone, None) else gone
    {
      if selectedDB !in store.dirs {
        return false;
      }
      ok := store.DeleteDir(selectedDB);
      if Some(selectedDB) == databaseName {
        databaseName, databasePath := None, None;
        tableHandler.SetDatabaseName(None);
      }
    }

    method UseCommand(tree: Node) returns (reply: Response)
      requires Valid()
      modifies this, tableHandler
      ensures Valid() && (reply, Abs()) == UseSpec(old(Abs()), tree)
    {
      var text := FindTokenString(tree, T(DbName));
      if text.None? {
        return Throws;
      }
      var nameOfDB := Lower(text.value);
      if nameOfDB !in store.dirs {
        return Answer(DatabaseMissing);
      }
      UpdateFilePath(nameOfDB);
      return Answer(Ok);
    }

    method CreateDatabaseCommand(tree: Node) returns (reply: Response)
      requires Valid()
      modifies this, tableHandler, store
      ensures Valid() && (reply, Abs()) == CreateDatabaseSpec(old(Abs()), tree)
    {
      var text := FindTokenString(tree, T(DbName));
      if text.None? {
        return Throws;
      }
      var nameOfDB := Lower(text.value);
      if nameOfDB in store.dirs {
        return Answer(DatabaseExists);
      }
      var _ := MakeDatabaseDir(nameOfDB);
      return Answer(Ok);
    }

    method DropDatabaseCommand(tree: Node) returns (reply: Response)
      requires Valid()
      modifies this, tableHandler, store
      ensures Valid() && (reply, Abs()) == DropDatabaseSpec(old(Abs()), tree)
    {
      var text := FindTokenString(tree, T(DbName));
      if text.None? {
        return Throws;
      }
      var ok := DeleteDatabaseDir(Lower(text.value));
      if !ok {
        return Answer(DropDatabaseFailed);
      }
      return Answer(Ok);
    }

    method CreateTableCommand(tree: Node, nameOfTable: string, tableExists: bool) returns (reply: Response)
      requires Valid() && Formed(tree)
      modifies tableHandler, store
      ensures Valid() && (reply, Abs()) == CreateTableSpec(old(Abs()), tree, nameOfTable, tableExists)
    {
      if tableExists {
        return Answer(TableExists);
      }
      var tableAttributes := GetAttributesOrVals(tree, T(Attribute));
      tableHandler.SetTableName(nameOfTable);
      if FindByRule(tree, S(CrTableAttr)).Some? {
        var _ := tableHandler.CreateTableWith(tableAttributes);
      } else {
        var _ := tableHandler.CreateTable();
      }
      return Answer(Ok);
    }

    method DropTableCommand(nameOfTable: string) returns (reply: Response)
      requires Valid()
      modifies tableHandler, store
      ensures Valid() && (reply, Abs()) == DropTableSpec(old(Abs()), nameOfTable)
    {
      var current := tableHandler.GetTableName();
      if current == Some(nameOfTable) {
        tableHandler.SetDatabaseName(databaseName);
      }
      var ok := tableHandler.DeleteTable(nameOfTable);
      if ok {
        return Answer(Ok);
      }
      return Answer(DropTableFailed);
    }

    method AlterCommand(tree: Node) returns (reply: Response)
      requires Valid() && tableHandler.tableName.Some?
      modifies tableHandler.currTable, store
      ensures Valid() && (reply, Abs()) == AlterSpec(old(Abs()), tree)
    {
      var alterationType := FindTokenString(tree, T(AlterationType));
      var colName := FindTokenString(tree, T(Attribute));
      if alterationType.None? || colName.None? || tableHandler.currTable == null {
        return Throws;
      }
      var table := tableHandler.currTable;
      var present := table.CheckAttributeExists(colName.value);
      if EqualsIgnoreCase(alterationType.value, "ADD") {
        if present {
          return Answer(ColumnExists);
        } else if |table.tableData| >= MaxAttributes {
          return Answer(AttributeLimit);
        }
        var _ := table.AddColumn(colName.value);
        var _ := tableHandler.SaveTable();
        return Answer(Ok);
      } else {
        if !present {
          return Answer(ColumnMissing);
        } else if EqualsIgnoreCase(colName.value, "ID") {
          return Answer(IdColumnDrop);
        }
        var _ := table.RemoveColumn(colName.value);
        var _ := tableHandler.SaveTable();
        return Answer(Ok);
      }
    }

    method InsertCommand(tree: Node) returns (reply: Response)
      requires Valid() && tableHandler.tableName.Some? && tableHandler.currTable != null && Formed(tree)
      modifies tableHandler.currTable, store
      ensures Valid() && (reply, Abs()) == InsertSpec(old(Abs()), tree)
    {
      var tableVals := GetAttributesOrVals(tree, O(Value));
      var table := tableHandler.currTable;
      if |table.idValues| - 1 >= MaxEntries {
        return Answer(EntryLimit);
      }
      var ok := table.AddRow(tableVals, false);
      if ok {
        var _ := tableHandler.SaveTable();
        return Answer(Ok);
      }
      return Answer(AddFailed);
    }

    /** The condition's verdict for each row of the table in memory. */
    method GenerateSelection(tree: Node) returns (condSelection: array<bool>)
      requires Valid() && tableHandler.currTable != null && Formed(tree)
      requires ConditionColumnsExist(tree, tableHandler.Current().value)
      ensures fresh(condSelection) && condSelection[..] == Selection(tree, tableHandler.Current().value, num)
    {
      condSelection := SelectRows(tree, tableHandler.currTable.Value(), num);
    }

    /** The loop of `generateSelection`: the condition checked on each row of
        `t` in turn. */
    static method SelectRows(tree: Node, t: Table, num: Numerics) returns (condSelection: array<bool>)
      requires Formed(tree) && Shaped(t) && ConditionColumnsExist(tree, t)
      ensures fresh(condSelection) && condSelection[..] == Selection(tree, t, num)
    {
      ghost var selection := Selection(tree, t, num);
      condSelection := new bool[|t.ids| - 1](_ => false);
      var rowCnt := 1;
      while rowCnt <= |t.ids| - 1
        invariant 1 <= rowCnt <= |t.ids|
        invariant forall i :: 0 <= i < rowCnt - 1 ==> condSelection[i] == selection[i]
        invariant forall i :: rowCnt - 1 <= i < condSelection.Length ==> !condSelection[i]
      {
        var rowResult := CheckConditions(tree, t, num, rowCnt);
        assert selection[rowCnt - 1] == (rowResult == True);
        if rowResult == True {
          condSelection[rowCnt - 1] := true;
        } else if rowResult == False || rowResult == Invalid {
          condSelection[rowCnt - 1] := false;
        }
        rowCnt := rowCnt + 1;
      }
    }

    /** SELECT, reading the table in memory and building fresh tables only. */
    method SelectCommand(tree: Node) returns (reply: Response)
      requires Valid() && tableHandler.currTable != null && Formed(tree)
      requires CheckAttributesExist(tree, tableHandler.Current().value)
      ensures reply == SelectCommandSpec(Abs(), num, tree)
    {
      var table := tableHandler.currTable;
      ghost var t := table.Value();
      var selectAll := new bool[|table.idValues| - 1](_ => true);
      assert selectAll[..] == AllMarked(NumEntries(t));
      var outputTable := table.SelectRows(selectAll[..]);
      SelectKeeps(t, selectAll[..]);
      CountAllMarked(selectAll[..], |selectAll[..]|);
      AttributesCoverConditions(tree, t);
      if FindByRule(tree, S(SelectCond)).Some? {
        var condSelection := GenerateSelection(tree);
        SelectKeeps(outputTable.Value(), condSelection[..]);
        outputTable := outputTable.SelectRows(condSelection[..]);
      }
      ghost var cut := outputTable.Value();
      var wildAttrList := FindByRule(tree, O(WildAttrList));
      if wildAttrList.None? {
        return Throws;
      }
      FoundFormed(tree, O(WildAttrList), t);
      var attributesList := GetAttributesOrVals(wildAttrList.value, T(Attribute));
      if FindByRule(tree, T(AsteriskLiteral)).None? {
        var attrTable := ProjectColumns(outputTable, attributesList);
        if attrTable == null {
          return Throws;
        }
        outputTable := attrTable;
      }
      var text := outputTable.PrintTable();
      return Answer(Ok + text);
    }

    /** A table named "" of the columns named in `attributesList`, in that
        order, with the ids of `outputTable`; `null` when a name has no
        column (the dispatcher then fails on the missing column). */
    static method ProjectColumns(outputTable: ArrListTable, attributesList: seq<string>) returns (attrTable: ArrListTable?)
      requires Shaped(outputTable.Value())
      ensures attrTable == null <==> Project(outputTable.Value(), attributesList).None?
      ensures attrTable != null ==> fresh(attrTable) && Some(attrTable.Value()) == Project(outputTable.Value(), attributesList)
    {
      ghost var cut := outputTable.Value();
      attrTable := new ArrListTable("");
      attrTable.tableData := [];
      var i := 0;
      while i < |attributesList|
        invariant 0 <= i <= |attributesList| && outputTable.Value() == cut && fresh(attrTable)
        invariant |attrTable.tableData| == i && attrTable.tableName == "" && attrTable.lastAssignedID == 0
        invariant forall j :: 0 <= j < i ==> (AttributeExists(cut, attributesList[j])
                    && attrTable.tableData[j] == cut.columns[ColumnIndex(cut, attributesList[j]).value])
      {
        var column := outputTable.GetColumn(attributesList[i]);
        if column.None? {
          assert !AllExist(cut, attributesList);
          return null;
        }
        attrTable.tableData := attrTable.tableData + [column.value];
        i := i + 1;
      }
      attrTable.idValues := outputTable.idValues;
      assert AllExist(cut, attributesList);
      assert attrTable.tableData == Project(cut, attributesList).value.columns;
    }

    method UpdateCommand(tree: Node) returns (reply: Response)
      requires Valid() && tableHandler.tableName.Some? && tableHandler.currTable != null && Formed(tree)
      requires CheckAttributesExist(tree, tableHandler.Current().value)
      modifies tableHandler.currTable, store
      ensures Valid() && (reply, Abs()) == UpdateCommandSpec(old(Abs()), num, tree)
    {
      var table := tableHandler.currTable;
      ghost var t := table.Value();
      var nameValPair := FindByRule(tree, O(NameValueList));
      if nameValPair.None? {
        return Throws;
      }
      FoundFormed(tree, O(NameValueList), t);
      var attributesList := GetAttributesOrVals(nameValPair.value, T(Attribute));
      var namesId := NamesIdColumn(attributesList);
      if namesId {
        return Answer(IdColumnUpdate);
      }
      var valuesList := GetAttributesOrVals(nameValPair.value, O(Value));
      NameValueCounts(nameValPair.value);
      CheckAttributesExistSpec(nameValPair.value, t);
      AttributesCoverConditions(tree, t);
      var condSelection := GenerateSelection(tree);
      var _ := table.UpdateTable(condSelection[..], attributesList, valuesList);
      var _ := tableHandler.SaveTable();
      return Answer(Ok);
    }

    /** Whether any of the names is `id`, whatever the case of its letters. */
    static method NamesIdColumn(attributesList: seq<string>) returns (found: bool)
      ensures found <==> exists j :: 0 <= j < |attributesList| && EqualsIgnoreCase(attributesList[j], "ID")
    {
      var i := 0;
      while i < |attributesList|
        invariant 0 <= i <= |attributesList|
        invariant forall j :: 0 <= j < i ==> !EqualsIgnoreCase(attributesList[j], "ID")
      {
        if EqualsIgnoreCase(attributesList[i], "ID") {
          return true;
        }
        i := i + 1;
      }
      return false;
    }

    /** DELETE: the rows the condition marks are removed and the table is
        saved. */
    method DeleteCommand(tree: Node) returns (reply: Response)
      requires Valid() && tableHandler.tableName.Some? && tableHandler.currTable != null && Formed(tree)
      requires CheckAttributesExist(tree, tableHandler.Current().value)
      modifies tableHandler.currTable, store
      ensures Valid() && (reply, Abs()) == DeleteSpec(old(Abs()), num, tree)
    {
      var table := tableHandler.currTable;
      ghost var t := table.Value();
      AttributesCoverConditions(tree, t);
      var condSelection := GenerateSelection(tree);
      RemoveMarked(table, condSelection);
      var _ := tableHandler.SaveTable();
      return Answer(Ok);
    }

    /** The loop of DELETE: the marked rows are removed from the last one
        down, so the numbers of the rows still to visit do not move. */
    static method RemoveMarked(table: ArrListTable, condSelection: array<bool>)
      requires table.Valid() && condSelection.Length == |table.idValues| - 1
      modifies table
      ensures table.Valid() && table.Value() == DeleteMarked(old(table.Value()), condSelection[..])
    {
      ghost var t := table.Value();
      ghost var mask := condSelection[..];
      var rowCnt := |table.idValues| - 1;
      DeleteFromNone(t, mask);
      while rowCnt >= 1
        invariant 0 <= rowCnt <= |mask| && condSelection[..] == mask
        invariant table.Valid() && table.Value() == DeleteFrom(t, mask, rowCnt)
      {
        DeleteFromStep(t, mask, rowCnt);
        if condSelection[rowCnt - 1] {
          var _ := table.RemoveRow(rowCnt);
        }
        rowCnt := rowCnt - 1;
      }
    }

    /** Prefixes every cell of `row` with `name` and a dot, cell by cell. */
    static method PrependName(row: seq<string>, name: string) returns (named: seq<string>)
      ensures named == Prefixed(name + ".", row)
    {
      named := row;
      var attCnt := 0;
      while attCnt < |named|
        invariant 0 <= attCnt <= |named| == |row|
        invariant forall i :: 0 <= i < attCnt ==> named[i] == name + "." + row[i]
        invariant forall i :: attCnt <= i < |row| ==> named[i] == row[i]
      {
        named := named[attCnt := name + "." + named[attCnt]];
        attCnt := attCnt + 1;
      }
    }

    /** Row `rowCnt1` of `table1` and row `rowCnt2` of `table2` side by
        side, without their id cells. */
    static method GetJoinedRow(table1: ArrListTable, table2: ArrListTable, rowCnt1: nat, rowCnt2: nat, prependName: bool)
      returns (joinedRow: seq<string>)
      requires table1.Valid() && table2.Valid() && rowCnt1 < |table1.idValues| && rowCnt2 < |table2.idValues|
      ensures joinedRow == JoinedRow(table1.Value(), table2.Value(), rowCnt1, rowCnt2, prependName)
    {
      var row1 := table1.GetRow(rowCnt1);
      var row2 := table2.GetRow(rowCnt2);
      if prependName {
        row1 := PrependName(row1, table1.tableName);
        row2 := PrependName(row2, table2.tableName);
      } else {
        PrefixedEmpty(row1);
        PrefixedEmpty(row2);
      }
      joinedRow := row1[1..] + row2[1..];
    }

    /** JOIN: both tables are loaded by handlers of their own; the pairs of
        rows with equal cells in the two join columns are added in row
        order, and the join columns are then dropped unless they are `id`. */
    method JoinCommand(tree: Node) returns (reply: Response)
      requires Valid() && Formed(tree)
      ensures reply == JoinSpec(Abs(), tree)
    {
      var tableNames := GetAttributesOrVals(tree, T(TableName));
      if |tableNames| < 2 {
        return Throws;
      }
      var name1 := Lower(tableNames[0]);
      var name2 := Lower(tableNames[1]);
      var exists1 := tableHandler.CheckTableExists(name1);
      var exists2 := tableHandler.CheckTableExists(name2);
      if !exists1 || !exists2 {
        return Answer(JoinTablesMissing);
      }
      var res1, table1 := LoadForJoin(name1);
      var res2, table2 := LoadForJoin(name2);
      var attrNames := GetAttributesOrVals(tree, T(Attribute));
      reply := JoinLoaded(res1, table1, res2, table2, name1, name2, attrNames);
    }

    /** JOIN once both tables are loaded: checks the join columns, then
        prints the join. */
    static method JoinLoaded(res1: LoadResult, table1: ArrListTable?, res2: LoadResult, table2: ArrListTable?,
                             name1: string, name2: string, attrNames: seq<string>)
      returns (reply: Response)
      requires table1 != null ==> table1.Valid()
      requires table2 != null ==> table2.Valid()
      ensures reply == JoinLoadedSpec(res1, if table1 == null then None else Some(table1.Value()),
                                      res2, if table2 == null then None else Some(table2.Value()),
                                      name1, name2, attrNames)
    {
      if res1 == Threw || res2 == Threw || |attrNames| < 2 || table1 == null {
        return Throws;
      }
      var attr1 := attrNames[0];
      var attr2 := attrNames[1];
      var has1 := table1.CheckAttributeExists(attr1);
      if !has1 {
        return Answer(JoinAttributesMissing);
      }
      if table2 == null {
        return Throws;
      }
      var has2 := table2.CheckAttributeExists(attr2);
      if !has2 {
        return Answer(JoinAttributesMissing);
      }
      var text := JoinText(table1, table2, name1, name2, attr1, attr2);
      return Answer(Ok + text);
    }

    /** Loads table `name` of the selected database with a handler of its
        own, as JOIN does for each of its tables. */
    method LoadForJoin(name: string) returns (res: LoadResult, table: ArrListTable?)
      requires Valid()
      ensures table != null ==> table.Valid()
      ensures (res, if table == null then None else Some(table.Value()))
              == LoadSpec(name, None, Lookup(store.dirs, DirName(databaseName), TableFile(name)),
                          Lookup(store.dirs, DirName(databaseName), IdFile(name)))
    {
      var handler := new TableHandler.ForTable(store, databaseName, name, parentFolderPath);
      res := handler.LoadTable();
      table := handler.currTable;
    }

    /** The printed join of two loaded tables, the join columns dropped
        unless they are `id`. */
    static method JoinText(table1: ArrListTable, table2: ArrListTable, name1: string, name2: string, attr1: string, attr2: string)
      returns (text: string)
      requires table1.Valid() && table2.Valid()
      requires AttributeExists(table1.Value(), attr1) && AttributeExists(table2.Value(), attr2)
      ensures text == Render(JoinTable(table1.Value(), table2.Value(), name1, name2, attr1, attr2))
    {
      var joinTable := BuildJoin(table1, table2, attr1, attr2);
      if !EqualsIgnoreCase(attr1, "ID") {
        var _ := joinTable.RemoveColumn(name1 + "." + attr1);
      }
      if !EqualsIgnoreCase(attr2, "ID") {
        var _ := joinTable.RemoveColumn(name2 + "." + attr2);
      }
      text := joinTable.PrintTable();
    }

    /** The nested loops of JOIN: every row of `table1` against every row of
        `table2`, adding the joined row when the two join cells are equal. */
    static method BuildJoin(table1: ArrListTable, table2: ArrListTable, attr1: string, attr2: string)
      returns (joinTable: ArrListTable)
      requires table1.Valid() && table2.Valid()
      requires AttributeExists(table1.Value(), attr1) && AttributeExists(table2.Value(), attr2)
      ensures fresh(joinTable) && joinTable.Valid()
      ensures joinTable.Value() == JoinFull(table1.Value(), table2.Value(), attr1, attr2)
    {
      ghost var t1 := table1.Value();
      ghost var t2 := table2.Value();
      ghost var col1 := t1.columns[ColumnIndex(t1, attr1).value];
      ghost var col2 := t2.columns[ColumnIndex(t2, attr2).value];
      var attrArray := GetJoinedRow(table1, table2, 0, 0, true);
      joinTable := new ArrListTable.FromAttributes("", attrArray);
      ghost var base := joinTable.Value();
      assert base == JoinBase(t1, t2);
      JoinFullIs(t1, t2, attr1, attr2);
      var rowCnt1 := 1;
      while rowCnt1 <= |table1.idValues| - 1
        invariant 1 <= rowCnt1 <= |t1.ids| && fresh(joinTable) && joinTable.Valid()
        invariant table1.Value() == t1 && table2.Value() == t2
        invariant joinTable.Value() == AddRows(base, JoinRows(t1, t2, col1, col2, rowCnt1 - 1))
      {
        JoinRow(table1, table2, attr1, attr2, rowCnt1, joinTable, t1, t2, col1, col2);
        JoinStep(base, t1, t2, col1, col2, rowCnt1);
        rowCnt1 := rowCnt1 + 1;
      }
      assert rowCnt1 - 1 == NumEntries(t1);
    }

    /** The inner loop of JOIN: row `rowCnt1` of `table1` against every row
        of `table2`. */
    static method JoinRow(table1: ArrListTable, table2: ArrListTable, attr1: string, attr2: string, rowCnt1: nat,
                          joinTable: ArrListTable, ghost t1: Table, ghost t2: Table, ghost col1: seq<string>, ghost col2: seq<string>)
      requires table1.Valid() && table2.Valid() && joinTable.Valid() && joinTable != table1 && joinTable != table2
      requires t1 == table1.Value() && t2 == table2.Value()
      requires AttributeExists(t1, attr1) && AttributeExists(t2, attr2)
      requires col1 == t1.columns[ColumnIndex(t1, attr1).value] && col2 == t2.columns[ColumnIndex(t2, attr2).value]
      requires 1 <= rowCnt1 < |t1.ids| && |col1| == |t1.ids| && |col2| == |t2.ids|
      modifies joinTable
      ensures joinTable.Valid()
      ensures joinTable.Value() == AddRows(old(joinTable.Value()), MatchRows(t1, t2, col1, col2, rowCnt1, |col2| - 1))
    {
      ghost var start := joinTable.Value();
      assert MatchRows(t1, t2, col1, col2, rowCnt1, 0) == [];
      var rowCnt2 := 1;
      while rowCnt2 <= |table2.idValues| - 1
        invariant 1 <= rowCnt2 <= |t2.ids| && joinTable.Valid()
        invariant joinTable.Value() == AddRows(start, MatchRows(t1, t2, col1, col2, rowCnt1, rowCnt2 - 1))
      {
        JoinCell(table1, table2, attr1, attr2, rowCnt1, rowCnt2, joinTable, t1, t2, col1, col2, start);
        rowCnt2 := rowCnt2 + 1;
      }
      assert rowCnt2 - 1 == |col2| - 1;
    }

    /** One step of the inner loop of JOIN: the joined row is added when the
        two join cells are equal. */
    static method JoinCell(table1: ArrListTable, table2: ArrListTable, attr1: string, attr2: string, rowCnt1: nat,
                           rowCnt2: nat, joinTable: ArrListTable, ghost t1: Table, ghost t2: Table,
                           ghost col1: seq<string>, ghost col2: seq<string>, ghost start: Table)
      requires table1.Valid() && table2.Valid() && joinTable.Valid() && joinTable != table1 && joinTable != table2
      requires t1 == table1.Value() && t2 == table2.Value() && Keyed(start)
      requires AttributeExists(t1, attr1) && AttributeExists(t2, attr2)
      requires col1 == t1.columns[ColumnIndex(t1, attr1).value] && col2 == t2.columns[ColumnIndex(t2, attr2).value]
      requires 1 <= rowCnt1 < |t1.ids| && 1 <= rowCnt2 < |t2.ids| && |col1| == |t1.ids| && |col2| == |t2.ids|
      requires joinTable.Value() == AddRows(start, MatchRows(t1, t2, col1, col2, rowCnt1, rowCnt2 - 1))
      modifies joinTable
      ensures joinTable.Valid()
      ensures joinTable.Value() == AddRows(start, MatchRows(t1, t2, col1, col2, rowCnt1, rowCnt2))
    {
      var valueTable1 := table1.GetColumn(attr1);
      var valueTable2 := table2.GetColumn(attr2);
      assert valueTable1.value == col1 && valueTable2.value == col2;
      MatchRowsAdd(start, t1, t2, col1, col2, rowCnt1, rowCnt2);
      if valueTable1.value[rowCnt1] == valueTable2.value[rowCnt2] {
        var row := GetJoinedRow(table1, table2, rowCnt1, rowCnt2, false);
        assert row == JoinedRow(t1, t2, rowCnt1, rowCnt2, false);
        var _ := joinTable.AddRow(row, false);
      }
    }

    /** The reply to a command string, with the database, the table and the
        files updated as the command says. */
    method RespondToCommand(commandStr: string) returns (reply: Response)
      requires Valid()
      modifies this, tableHandler, tableHandler.currTable, store
      ensures Valid() && (reply, Abs()) == RespondSpec(old(Abs()), num, commandStr)
    {
      var commandToks := ExtractTokens(commandStr);
      if |commandToks| > MaxTokens {
        return Answer(LengthError);
      }
      var parseTree := ParseTokens(commandToks, 0, S(Command));
      if parseTree.None? {
        return Answer(ParseError);
      }
      ParseRuleSpans(commandToks, 0, S(Command));
      if !CheckNoReservedWordsUsed(parseTree.value) {
        return Answer(ReservedError);
      }
      reply := DispatchCommand(parseTree.value);
    }

    /** The database commands, then the commands on a table of the selected
        database. */
    method DispatchCommand(tree: Node) returns (reply: Response)
      requires Valid() && Formed(tree)
      modifies this, tableHandler, tableHandler.currTable, store
      ensures Valid() && (reply, Abs()) == DispatchSpec(old(Abs()), num, tree)
    {
      if FindByRule(tree, S(Use)).Some? {
        reply := UseCommand(tree);
        return;
      } else if FindByRule(tree, S(CreateDb)).Some? {
        reply := CreateDatabaseCommand(tree);
        return;
      } else if FindByRule(tree, S(DropDb)).Some? {
        reply := DropDatabaseCommand(tree);
        return;
      } else if databaseName.None? {
        return Answer(NoDatabase);
      }
      reply := NamedTableCommand(tree);
    }

    /** The commands that name a table, once a database is selected. */
    method NamedTableCommand(tree: Node) returns (reply: Response)
      requires Valid() && Formed(tree) && databaseName.Some?
      modifies this, tableHandler, tableHandler.currTable, store
      ensures Valid() && (reply, Abs()) == NamedTableSpec(old(Abs()), num, tree)
    {
      var tableText := FindTokenString(tree, T(TableName));
      if tableText.None? {
        return Throws;
      }
      var nameOfTable := Lower(tableText.value);
      var tableExists := tableHandler.CheckTableExists(nameOfTable);
      if FindByRule(tree, O(CreateTable)).Some? {
        reply := CreateTableCommand(tree, nameOfTable, tableExists);
        return;
      }
      if !tableExists {
        return Answer(NoTable);
      }
      if FindByRule(tree, S(DropTable)).Some? {
        reply := DropTableCommand(nameOfTable);
        return;
      }
      reply := LoadedTableCommand(tree, nameOfTable);
    }

    /** Loads the named table and runs the command on it. */
    method LoadedTableCommand(tree: Node, nameOfTable: string) returns (reply: Response)
      requires Valid() && Formed(tree)
      modifies tableHandler, tableHandler.currTable, store
      ensures Valid() && (reply, Abs()) == LoadedTableSpec(old(Abs()), num, tree, nameOfTable)
    {
      ghost var before := Abs();
      tableHandler.SetTableName(nameOfTable);
      var res := tableHandler.LoadTable();
      assert (res, Abs()) == AfterLoad(before, nameOfTable);
      if res == Threw {
        return Throws;
      }
      reply := TableCommand(tree);
    }

    /** The commands on the table just loaded. */
    method TableCommand(tree: Node) returns (reply: Response)
      requires Valid() && tableHandler.tableName.Some? && Formed(tree)
      modifies tableHandler.currTable, store
      ensures Valid() && (reply, Abs()) == TableCommandSpec(old(Abs()), num, tree)
    {
      if FindByRule(tree, S(Alter)).Some? {
        reply := AlterCommand(tree);
        return;
      } else if FindByRule(tree, S(Join)).Some? {
        reply := JoinCommand(tree);
        return;
      }
      if tableHandler.currTable == null {
        if GetAttributesOrVals(tree, T(Attribute)) != [] || RowCommand(tree) {
          return Throws;
        }
        return Answer(ExecutionFailure);
      }
      if !CheckAttributesExist(tree, tableHandler.currTable.Value()) {
        return Answer(MissingAttributes);
      }
      if FindByRule(tree, S(Insert)).Some? {
        reply := InsertCommand(tree);
      } else if FindByRule(tree, O(Select)).Some? {
        reply := SelectCommand(tree);
      } else if FindByRule(tree, S(Update)).Some? {
        reply := UpdateCommand(tree);
      } else if FindByRule(tree, S(Delete)).Some? {
        reply := DeleteCommand(tree);
      } else {
        reply := Answer(ExecutionFailure);
      }
    }
  }
}
