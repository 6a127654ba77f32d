/** Persistent storage of tables. Every table lives in its database's
    directory as a tab-separated text file `name.tab`, one line per row with
    the header row first, and the table's automatic id counter lives beside it
    in `name_ID.tab`. The file system under the parent folder is the `Disk`
    object: a map from directory name to the files in it. */
module TableHandlers {
  import opened Base
  import opened Tables
  import opened ArrListTables

  // ---------------------------------------------------------------------
  // Paths

  const FileSep: string := "/"

  /** The directory of a database; with no database selected Java's string
      concatenation writes the null reference as `null`. */
  function DirName(db: Option<string>): (d: string)
    ensures db.Some? ==> d == db.value
    ensures db.None? ==> d == "null"
  {
    match db
    case None => "null"
    case Some(name) => name
  }

  /** The file of table `name` inside its directory. */
  function TableFile(name: string): string
  {
    name + ".tab"
  }

  /** The counter file of table `name` is the table file of `name_ID`. */
  function IdFile(name: string): (f: string)
    ensures f == name + "_ID.tab"
  {
    TableFile(name + "_ID")
  }

  /** The full path of the file of table `name` in database `db`. */
  function TablePath(parent: string, db: Option<string>, name: string): (p: string)
    ensures p == parent + "/" + DirName(db) + "/" + name + ".tab"
  {
    parent + FileSep + DirName(db) + FileSep + TableFile(name)
  }

  // ---------------------------------------------------------------------
  // The file system

  /** The directories under the parent folder, each with its files by name. */
  class Disk {
    var dirs: map<string, map<string, string>>

    constructor (initial: map<string, map<string, string>>)
      ensures dirs == initial
    {
      dirs := initial;
    }

    predicate Exists(dir: string, file: string)
      reads this
    {
      dir in dirs && file in dirs[dir]
    }

    /** The text of a file, or `None` when there is no such file. */
    method Read(dir: string, file: string) returns (text: Option<string>)
      ensures text.Some? <==> Exists(dir, file)
      ensures text.Some? ==> text.value == dirs[dir][file]
    {
      if dir in dirs && file in dirs[dir] {
        return Some(dirs[dir][file]);
      }
      return None;
    }

    /** Replaces a file by `text`; creating the file fails when its
        directory is missing. */
    method Write(dir: string, file: string, text: string) returns (ok: bool)
      modifies this
      ensures ok <==> dir in old(dirs)
      ensures dirs == if ok then old(dirs)[dir := old(dirs)[dir][file := text]] else old(dirs)
    {
      if dir !in dirs {
        return false;
      }
      dirs := dirs[dir := dirs[dir][file := text]];
      return true;
    }

    /** Deletes a file; false when there was none. */
    method Delete(dir: string, file: string) returns (ok: bool)
      modifies this
      ensures ok <==> old(Exists(dir, file))
      ensures dirs == if ok then old(dirs)[dir := old(dirs)[dir] - {file}] else old(dirs)
    {
      if dir !in dirs || file !in dirs[dir] {
        return false;
      }
      dirs := dirs[dir := dirs[dir] - {file}];
      return true;
    }

    /** Makes an empty directory; false when it is already there. */
    method MakeDir(dir: string) returns (ok: bool)
      modifies this
      ensures ok <==> dir !in old(dirs)
      ensures dirs == if ok then old(dirs)[dir := map[]] else old(dirs)
    {
      if dir in dirs {
        return false;
      }
      dirs := dirs[dir := map[]];
      return true;
    }

    /** Deletes a directory with every file in it; false when it is missing. */
    method DeleteDir(dir: string) returns (ok: bool)
      modifies this
      ensures ok <==> dir in old(dirs)
      ensures dirs == old(dirs) - {dir}
    {
      ok := dir in dirs;
      dirs := dirs - {dir};
    }
  }

  // ---------------------------------------------------------------------
  // The file format

  /** The text of row `r`: its cells in column order with a tab between
      neighbours. */
  function RowLine(t: Table, r: nat): string
    requires Shaped(t) && r < |t.ids|
  {
    Join(Row(t, r), "\t")
  }

  /** The lines of the table file, header row first. */
  function Lines(t: Table): (ls: seq<string>)
    requires Shaped(t)
    ensures |ls| == |t.ids| && forall r :: 0 <= r < |ls| ==> ls[r] == RowLine(t, r)
  {
    seq(|t.ids|, r requires 0 <= r < |t.ids| => RowLine(t, r))
  }

  /** The table file: its lines with a newline between neighbours and none
      after the last. */
  function Serialize(t: Table): string
    requires Shaped(t)
  {
    Join(Lines(t), "\n")
  }

  /** The counter file: the decimal text of the counter. */
  function SerializeId(t: Table): string
  {
    IntToString(t.lastId)
  }

  /** What a loop that appends `xs[i]`, then `sep` unless `i` is the last
      index, has built after the first `k` elements. */
  function JoinAcc(xs: seq<string>, sep: string, k: nat): string
    requires k <= |xs|
  {
    if k == 0 then "" else Join(xs[..k], sep) + (if k < |xs| then sep else "")
  }

  lemma {:induction false} JoinAccStep(xs: seq<string>, sep: string, k: nat)
    requires k < |xs|
    ensures JoinAcc(xs, sep, k) + xs[k] + (if k < |xs| - 1 then sep else "") == JoinAcc(xs, sep, k + 1)
  {
    assert xs[..k + 1] == xs[..k] + [xs[k]];
    if k == 0 {
      assert xs[..1] == [xs[0]];
    } else {
      JoinSnoc(xs[..k], xs[k], sep);
    }
  }

  lemma {:induction false} JoinAccAll(xs: seq<string>, sep: string)
    ensures JoinAcc(xs, sep, |xs|) == Join(xs, sep)
  {
    assert xs[..|xs|] == xs;
  }

  /** The characters at which Java's `readLine` ends a line. */
  predicate IsLineBreak(c: char) { c == '\n' || c == '\r' }

  predicate NoBreak(s: string) { forall i :: 0 <= i < |s| ==> !IsLineBreak(s[i]) }

  /** The position of the first line break, or the length when there is none. */
  function LineEnd(s: string): (i: nat)
    ensures i <= |s| && (i < |s| ==> IsLineBreak(s[i]))
    ensures forall j :: 0 <= j < i ==> !IsLineBreak(s[j])
  {
    if s == [] || IsLineBreak(s[0]) then 0
    else
      var k := LineEnd(s[1..]);
      assert forall j :: 1 <= j < k + 1 ==> s[j] == s[1..][j - 1];
      k + 1
  }

  lemma {:induction false} LineEndAt(s: string, k: nat)
    requires k <= |s| && NoBreak(s[..k]) && (k < |s| ==> IsLineBreak(s[k]))
    ensures LineEnd(s) == k
  {
    forall j | 0 <= j < k
      ensures !IsLineBreak(s[j])
    {
      assert s[..k][j] == s[j];
    }
  }

  /** The successive results of Java's `readLine` until it returns null: a
      line ends at `\n`, at `\r` or at `\r\n`, and text after the last break
      is one more line. */
  function ReadLines(s: string): seq<string>
    decreases |s|
  {
    if s == [] then []
    else
      var i := LineEnd(s);
      if i == |s| then [s]
      else
        var skip := if s[i] == '\r' && i + 1 < |s| && s[i + 1] == '\n' then 2 else 1;
        [s[..i]] + ReadLines(s[i + skip..])
  }

  /** The first `readLine`, `None` standing for Java's null. */
  function FirstLine(s: string): (r: Option<string>)
    ensures r.None? <==> s == []
  {
    if s == [] then None else Some(ReadLines(s)[0])
  }

  /** Lines that hold no break and are not empty are read back one by one
      from their join. */
  lemma {:induction false} ReadLinesJoin(ls: seq<string>)
    requires ls != []
    requires forall i :: 0 <= i < |ls| ==> ls[i] != "" && NoBreak(ls[i])
    ensures ReadLines(Join(ls, "\n")) == ls
    decreases |ls|
  {
    if |ls| == 1 {
      ReadOneLine(ls[0]);
    } else {
      ReadLinesJoin(ls[1..]);
      ReadLinesCons(ls[0], Join(ls[1..], "\n"));
      assert ls == [ls[0]] + ls[1..];
    }
  }

  lemma {:induction false} ReadOneLine(a: string)
    requires a != "" && NoBreak(a)
    ensures ReadLines(a) == [a]
  {
    assert a[..|a|] == a;
    LineEndAt(a, |a|);
  }

  lemma {:induction false} ReadLinesCons(a: string, rest: string)
    requires a != "" && NoBreak(a)
    ensures ReadLines(a + "\n" + rest) == [a] + ReadLines(rest)
  {
    var s := a + "\n" + rest;
    var k := |a|;
    assert s[..k] == a;
    assert s[k] == '\n';
    LineEndAt(s, k);
    assert s[k + 1..] == rest;
  }

  lemma {:induction false} NoBreakJoin(xs: seq<string>, sep: string)
    requires NoBreak(sep) && forall i :: 0 <= i < |xs| ==> NoBreak(xs[i])
    ensures NoBreak(Join(xs, sep))
    decreases |xs|
  {
    if |xs| > 1 {
      NoBreakJoin(xs[1..], sep);
      var s := Join(xs, sep);
      assert s == xs[0] + sep + Join(xs[1..], sep);
      forall i | 0 <= i < |s|
        ensures !IsLineBreak(s[i])
      {
        if i < |xs[0]| {
          assert s[i] == xs[0][i];
        } else if i < |xs[0]| + |sep| {
          assert s[i] == sep[i - |xs[0]|];
        } else {
          assert s[i] == Join(xs[1..], sep)[i - |xs[0]| - |sep|];
        }
      }
    }
  }

  lemma {:induction false} IntTextOneLine(x: int)
    ensures FirstLine(IntToString(x)) == Some(IntToString(x))
  {
    var s := IntToString(x);
    var body := NatToString(if x < 0 then -x else x);
    assert AllDigits(body);
    assert NoBreak(s) by {
      if x < 0 {
        assert s == "-" + body;
        assert forall i :: 1 <= i < |s| ==> s[i] == body[i - 1];
      }
    }
    assert s[..|s|] == s;
    LineEndAt(s, |s|);
  }

  // ---------------------------------------------------------------------
  // Loading

  /** What loading reports: true, false, or an exception escaping. */
  datatype LoadResult = Loaded | NotLoaded | Threw

  /** The rows of later lines added one by one with their ids provided; a
      line that is refused is skipped. */
  function ReplayRows(t: Table, ls: seq<string>): (u: Table)
    requires Keyed(t)
    ensures Keyed(u)
    decreases |ls|
  {
    if ls == [] then t
    else
      AddRowKeeps(t, JavaSplit(ls[0], '\t'), true);
      ReplayRows(AddRowSpec(t, JavaSplit(ls[0], '\t'), true).0, ls[1..])
  }

  lemma {:induction false} ReplayStep(t: Table, ls: seq<string>, next: Table)
    requires Keyed(t) && ls != [] && AddRowSpec(t, JavaSplit(ls[0], '\t'), true).0 == next
    ensures Keyed(next) && ReplayRows(t, ls) == ReplayRows(next, ls[1..])
  {
    AddRowKeeps(t, JavaSplit(ls[0], '\t'), true);
  }

  /** The table the lines of a table file build: the first line gives the
      attributes, the later ones the rows. With no line at all the current
      table is kept. */
  function Replay(name: string, current: Option<Table>, ls: seq<string>): (u: Option<Table>)
    requires current.Some? ==> Keyed(current.value)
    ensures u.Some? ==> Keyed(u.value)
  {
    if ls == [] then current
    else Some(ReplayRows(WithAttributes(NewTable(name), JavaSplit(ls[0], '\t')), ls[1..]))
  }

  /** Loading table `name` from the texts of its two files (`None` for a
      missing file). A missing table file changes nothing; a missing counter
      file leaves the table built without its counter; a counter file whose
      first line is no `int`, or no table to give it to, throws. */
  function LoadSpec(name: string, current: Option<Table>, tableText: Option<string>, idText: Option<string>)
    : (res: (LoadResult, Option<Table>))
    requires current.Some? ==> Keyed(current.value)
    ensures res.1.Some? ==> Keyed(res.1.value)
  {
    if tableText.None? then (NotLoaded, current)
    else
      LoadIdSpec(Replay(name, current, ReadLines(tableText.value)), idText)
  }

  /** Reading the counter file into table `built`. */
  function LoadIdSpec(built: Option<Table>, idText: Option<string>): (res: (LoadResult, Option<Table>))
    requires built.Some? ==> Keyed(built.value)
    ensures res.1.Some? ==> Keyed(res.1.value)
  {
    if idText.None? then (NotLoaded, built)
    else
      var first := FirstLine(idText.value);
      if first.None? || ParseInt(first.value).None? || built.None? then (Threw, built)
      else (Loaded, Some(WithCounter(built.value, ParseInt(first.value).value)))
  }

  /** `t` with its counter set to `n`. */
  function WithCounter(t: Table, n: int): (u: Table)
    requires Keyed(t) && IsInt32(n)
    ensures Keyed(u) && u == t.(lastId := n)
  {
    var u := t.(lastId := n);
    assert forall c :: 0 <= c < |t.columns| ==> Header(u, c) == Header(t, c);
    u
  }

  // ---------------------------------------------------------------------
  // The round trip

  /** A cell the file format can hold: not empty, no tab, no line break. */
  predicate StorableCell(x: string) { x != "" && '\t' !in x && NoBreak(x) }

  /** A table that reads back as itself: keyed, every cell storable, and the
      text of each id cell reading as the row's id. */
  predicate Storable(t: Table)
  {
    && Keyed(t)
    && t.ids[0] == 0
    && (forall c, r :: 0 <= c < |t.columns| && 0 <= r < |t.ids| ==> StorableCell(t.columns[c][r]))
    && (forall r :: 1 <= r < |t.ids| ==> ParseInt(t.columns[0][r]) == Some(t.ids[r]))
  }

  /** The first `k` headers of `t`, as a table with no rows. */
  function Heads(t: Table, k: nat): (u: Table)
    requires Keyed(t) && 1 <= k <= |t.columns|
    ensures Keyed(u)
  {
    var u := Table(t.name, seq(k, c requires 0 <= c < k => [t.columns[c][0]]), [0], 0);
    assert forall c :: 0 <= c < k ==> Header(u, c) == Header(t, c);
    u
  }

  /** `t` cut to its first `k` rows after the header, with counter 0. */
  function Prefix(t: Table, k: nat): (u: Table)
    requires Shaped(t) && k < |t.ids|
    ensures Shaped(u) && (Keyed(t) ==> Keyed(u))
  {
    var u := Table(t.name, seq(|t.columns|, c requires 0 <= c < |t.columns| => t.columns[c][..k + 1]), t.ids[..k + 1], 0);
    assert forall c :: 0 <= c < |t.columns| ==> Header(u, c) == Header(t, c);
    u
  }

  lemma {:induction false} HeadsStep(t: Table, k: nat)
    requires Keyed(t) && 1 <= k < |t.columns|
    ensures AddColumnSpec(Heads(t, k), Header(t, k)) == (Heads(t, k + 1), true)
  {
    var h := Heads(t, k);
    forall c | 0 <= c < k
      ensures !EqualsIgnoreCase(Header(h, c), Header(t, k))
    {
      assert Header(h, c) == Header(t, c);
    }
    assert !AttributeExists(h, Header(t, k));
    assert [Header(t, k)] + Nulls(0) == [t.columns[k][0]];
    var cs := h.columns + [[t.columns[k][0]]];
    assert forall c :: 0 <= c <= k ==> cs[c] == Heads(t, k + 1).columns[c];
    assert cs == Heads(t, k + 1).columns;
  }

  /** The header line builds the table of the headers. */
  lemma {:induction false} HeadersLoad(t: Table, k: nat)
    requires Keyed(t) && 1 <= k <= |t.columns|
    ensures WithAttributes(Heads(t, k), Row(t, 0)[k..]) == Heads(t, |t.columns|)
    decreases |t.columns| - k
  {
    if k < |t.columns| {
      HeadsStep(t, k);
      assert Row(t, 0)[k..][0] == Header(t, k);
      assert Row(t, 0)[k..][1..] == Row(t, 0)[k + 1..];
      HeadersLoad(t, k + 1);
    }
  }

  lemma {:induction false} HeaderLineLoads(t: Table)
    requires Keyed(t) && t.ids[0] == 0
    ensures WithAttributes(NewTable(t.name), Row(t, 0)) == Prefix(t, 0)
  {
    var row := Row(t, 0);
    assert NewTable(t.name) == Heads(t, 1);
    assert AttributeExists(NewTable(t.name), row[0]) by {
      assert EqualsIgnoreCase(Header(NewTable(t.name), 0), row[0]);
    }
    assert row[1..] == row[1..];
    HeadersLoad(t, 1);
    assert forall c :: 0 <= c < |t.columns| ==> t.columns[c][..1] == [t.columns[c][0]];
    assert Heads(t, |t.columns|).columns == Prefix(t, 0).columns;
    assert t.ids[..1] == [0];
  }

  lemma {:induction false} RowLoads(t: Table, k: nat)
    requires Keyed(t) && k + 1 < |t.ids| && ParseInt(t.columns[0][k + 1]) == Some(t.ids[k + 1])
    ensures AddRowSpec(Prefix(t, k), Row(t, k + 1), true) == (Prefix(t, k + 1), true)
  {
    var p := Prefix(t, k);
    var row := Row(t, k + 1);
    assert ParseInt(row[0]) == Some(t.ids[k + 1]);
    var u := AppendRow(p, row, t.ids[k + 1]);
    forall c | 0 <= c < |t.columns|
      ensures u.columns[c] == t.columns[c][..k + 2]
    {
      assert t.columns[c][..k + 2] == t.columns[c][..k + 1] + [t.columns[c][k + 1]];
    }
    assert u.columns == Prefix(t, k + 1).columns;
    assert t.ids[..k + 2] == t.ids[..k + 1] + [t.ids[k + 1]];
  }

  lemma {:induction false} RowLinesSplit(t: Table, r: nat)
    requires Storable(t) && r < |t.ids|
    ensures JavaSplit(RowLine(t, r), '\t') == Row(t, r)
    ensures RowLine(t, r) != "" && NoBreak(RowLine(t, r))
  {
    var row := Row(t, r);
    assert forall c :: 0 <= c < |row| ==> StorableCell(row[c]);
    JavaSplitJoin(row, '\t');
    NoBreakJoin(row, "\t");
    assert |RowLine(t, r)| >= |row[0]| by {
      if |row| > 1 {
        assert RowLine(t, r) == row[0] + "\t" + Join(row[1..], "\t");
      }
    }
  }

  /** One later line adds its row. */
  lemma {:induction false} LineLoads(t: Table, k: nat, ls: seq<string>)
    requires Keyed(t) && k + 1 < |t.ids| && ParseInt(t.columns[0][k + 1]) == Some(t.ids[k + 1])
    requires ls != [] && JavaSplit(ls[0], '\t') == Row(t, k + 1)
    ensures ReplayRows(Prefix(t, k), ls) == ReplayRows(Prefix(t, k + 1), ls[1..])
  {
    RowLoads(t, k);
    ReplayStep(Prefix(t, k), ls, Prefix(t, k + 1));
  }

  /** Line `line` is read back as row `r` of `t`, whose id cell holds its id. */
  predicate ReadsAs(t: Table, r: nat, line: string)
    requires Shaped(t) && |t.columns| >= 1 && r < |t.ids|
  {
    JavaSplit(line, '\t') == Row(t, r) && ParseInt(t.columns[0][r]) == Some(t.ids[r])
  }

  lemma {:induction false} LaterLinesRead(t: Table)
    requires Storable(t)
    ensures var later := Lines(t)[1..];
            |later| == |t.ids| - 1 && LinesReadAs(t, 0, later)
  {
    var ls := Lines(t);
    forall r | 1 <= r < |t.ids|
      ensures ReadsAs(t, r, ls[r])
    {
      RowLinesSplit(t, r);
    }
    SliceReadsAs(t, ls);
  }

  lemma {:induction false} SliceReadsAs(t: Table, ls: seq<string>)
    requires Keyed(t) && |ls| == |t.ids|
    requires forall r :: 1 <= r < |t.ids| ==> ReadsAs(t, r, ls[r])
    ensures LinesReadAs(t, 0, ls[1..])
  {
    forall i | 0 <= i < |ls| - 1
      ensures ReadsAs(t, 0 + 1 + i, ls[1..][i])
    {
      assert ls[1..][i] == ls[1 + i];
    }
    LinesReadAsAll(t, 0, ls[1..]);
  }

  /** Each line of `ls` reads back as the next row after row `k`. */
  predicate LinesReadAs(t: Table, k: nat, ls: seq<string>)
    requires Shaped(t) && |t.columns| >= 1 && k + |ls| < |t.ids|
    decreases |ls|
  {
    ls == [] || (ReadsAs(t, k + 1, ls[0]) && LinesReadAs(t, k + 1, ls[1..]))
  }

  lemma {:induction false} LinesReadAsAll(t: Table, k: nat, ls: seq<string>)
    requires Keyed(t) && k + |ls| < |t.ids|
    requires forall i :: 0 <= i < |ls| ==> ReadsAs(t, k + 1 + i, ls[i])
    ensures LinesReadAs(t, k, ls)
    decreases |ls|
  {
    if ls != [] {
      ReadsAsTail(t, k, ls);
      LinesReadAsAll(t, k + 1, ls[1..]);
    }
  }

  lemma {:induction false} ReadsAsTail(t: Table, k: nat, ls: seq<string>)
    requires Keyed(t) && k + |ls| < |t.ids| && ls != []
    requires forall i :: 0 <= i < |ls| ==> ReadsAs(t, k + 1 + i, ls[i])
    ensures forall i :: 0 <= i < |ls[1..]| ==> ReadsAs(t, k + 1 + 1 + i, ls[1..][i])
  {
    var rest := ls[1..];
    forall i | 0 <= i < |rest|
      ensures ReadsAs(t, k + 1 + 1 + i, rest[i])
    {
      assert rest[i] == ls[i + 1];
      assert ReadsAs(t, k + 1 + (i + 1), ls[i + 1]);
    }
  }

  /** The lines after the first `k` rows rebuild the remaining rows. */
  lemma {:induction false} RowsLoad(t: Table, k: nat, ls: seq<string>)
    requires Keyed(t) && k < |t.ids| && |ls| == |t.ids| - 1 - k
    requires LinesReadAs(t, k, ls)
    ensures ReplayRows(Prefix(t, k), ls) == Prefix(t, |t.ids| - 1)
    decreases |t.ids| - k
  {
    if k + 1 < |t.ids| {
      RowsLoad(t, k + 1, ls[1..]);
      RowsLoadStep(t, k, ls);
    } else {
      assert ls == [];
    }
  }

  lemma {:induction false} RowsLoadStep(t: Table, k: nat, ls: seq<string>)
    requires Keyed(t) && k + 1 < |t.ids| && |ls| == |t.ids| - 1 - k
    requires ReadsAs(t, k + 1, ls[0])
    requires ReplayRows(Prefix(t, k + 1), ls[1..]) == Prefix(t, |t.ids| - 1)
    ensures ReplayRows(Prefix(t, k), ls) == Prefix(t, |t.ids| - 1)
  {
    LineLoads(t, k, ls);
  }

  /** Loading the files saved for a storable table gives back the same
      table: its columns, rows, ids and counter. */
  lemma {:induction false} SaveLoadRoundTrip(t: Table, current: Option<Table>)
    requires Storable(t) && (current.Some? ==> Keyed(current.value))
    ensures LoadSpec(t.name, current, Some(Serialize(t)), Some(SerializeId(t))) == (Loaded, Some(t))
  {
    ReadBack(t);
    TableLoads(t, current);
    IntTextOneLine(t.lastId);
    ParseIntToString(t.lastId);
  }

  /** The table file of a storable table reads back as its lines. */
  lemma {:induction false} ReadBack(t: Table)
    requires Storable(t)
    ensures ReadLines(Serialize(t)) == Lines(t)
  {
    var ls := Lines(t);
    forall r | 0 <= r < |ls|
      ensures ls[r] != "" && NoBreak(ls[r])
    {
      RowLinesSplit(t, r);
    }
    ReadLinesJoin(ls);
  }

  /** The lines of a storable table rebuild it, all but its counter. */
  lemma {:induction false} TableLoads(t: Table, current: Option<Table>)
    requires Storable(t) && (current.Some? ==> Keyed(current.value))
    ensures Replay(t.name, current, Lines(t)) == Some(t.(lastId := 0))
  {
    RowLinesSplit(t, 0);
    HeaderLineLoads(t);
    LaterRowsLoad(t);
    WholePrefix(t);
  }

  /** The lines after the header rebuild every row of a storable table. */
  lemma {:induction false} LaterRowsLoad(t: Table)
    requires Storable(t)
    ensures ReplayRows(Prefix(t, 0), Lines(t)[1..]) == Prefix(t, |t.ids| - 1)
  {
    LaterLinesRead(t);
    RowsLoad(t, 0, Lines(t)[1..]);
  }

  /** The prefix up to the last row is the table with its counter at 0. */
  lemma {:induction false} WholePrefix(t: Table)
    requires Shaped(t) && 1 <= |t.ids|
    ensures Prefix(t, |t.ids| - 1) == t.(lastId := 0)
  {
    var cut := Prefix(t, |t.ids| - 1);
    forall c | 0 <= c < |t.columns|
      ensures cut.columns[c] == t.columns[c]
    {
      assert t.columns[c][..|t.ids|] == t.columns[c];
    }
    assert cut.columns == t.columns;
    assert t.ids[..|t.ids|] == t.ids;
  }

  // ---------------------------------------------------------------------
  // The handler

  /** The current database and table, and the table in memory. */
  class TableHandler {
    const store: Disk
    const parentFolderPath: string
    var databaseName: Option<string>
    var tableName: Option<string>
    var tablePath: Option<string>
    var currTable: ArrListTable?

    /** The path always belongs to the current table name, and the table in
        memory keeps the table invariant. */
    predicate Valid()
      reads this, currTable
    {
      && tablePath == (if tableName.None? then None
                       else Some(TablePath(parentFolderPath, databaseName, tableName.value)))
      && (currTable != null ==> currTable.Valid())
    }

    /** The table in memory, if any. */
    function Current(): (r: Option<Table>)
      reads this, currTable
      requires Valid()
      ensures r.Some? ==> Keyed(r.value)
    {
      if currTable == null then None else Some(currTable.Value())
    }

    /** The text of file `file` of the current database, if there is one. */
    function FileText(file: string): (r: Option<string>)
      reads this, store
      ensures r.Some? <==> store.Exists(DirName(databaseName), file)
      ensures r.Some? ==> r.value == store.dirs[DirName(databaseName)][file]
    {
      var dir := DirName(databaseName);
      if dir in store.dirs && file in store.dirs[dir] then Some(store.dirs[dir][file]) else None
    }

    /** A handler with neither database nor table. */
    constructor (store: Disk, parentFolderPath: string)
      ensures Valid() && this.store == store && this.parentFolderPath == parentFolderPath
      ensures databaseName.None? && tableName.None? && tablePath.None? && currTable == null
    {
      this.store := store;
      this.parentFolderPath := parentFolderPath;
      databaseName, tableName, tablePath := None, None, None;
      currTable := null;
    }

    /** A handler pointing at table `tableName` of database `databaseName`. */
    constructor ForTable(store: Disk, databaseName: Option<string>, tableName: string, parentFolderPath: string)
      ensures Valid() && this.store == store && this.parentFolderPath == parentFolderPath
      ensures this.databaseName == databaseName && this.tableName == Some(tableName) && currTable == null
    {
      this.store := store;
      this.parentFolderPath := parentFolderPath;
      this.databaseName := databaseName;
      this.tableName := Some(tableName);
      tablePath := Some(TablePath(parentFolderPath, databaseName, tableName));
      currTable := null;
    }

    method SetTableName(name: string)
      requires Valid()
      modifies this
      ensures Valid() && tableName == Some(name)
      ensures tablePath == Some(TablePath(parentFolderPath, databaseName, name))
      ensures databaseName == old(databaseName) && currTable == old(currTable)
    {
      tableName := Some(name);
      tablePath := Some(TablePath(parentFolderPath, databaseName, name));
    }

    /** Selecting a database deselects the table and drops the table in
        memory. */
    method SetDatabaseName(db: Option<string>)
      modifies this
      ensures Valid() && databaseName == db
      ensures tableName.None? && tablePath.None? && currTable == null
    {
      databaseName := db;
      tableName, tablePath := None, None;
      currTable := null;
    }

    method GetTableName() returns (name: Option<string>)
      ensures name == tableName
    {
      return tableName;
    }

    /** The full path of the file of table `selectedTable`. */
    method GetFileFromTable(selectedTable: string) returns (path: string)
      ensures path == TablePath(parentFolderPath, databaseName, selectedTable)
    {
      path := parentFolderPath + FileSep + DirName(databaseName) + FileSep + selectedTable + ".tab";
    }

    method CheckTableExists(nameToCheck: string) returns (b: bool)
      ensures b <==> store.Exists(DirName(databaseName), TableFile(nameToCheck))
    {
      var text := store.Read(DirName(databaseName), TableFile(nameToCheck));
      b := text.Some?;
    }

    /** Deletes the table file only; the counter file stays. */
    method DeleteTable(selectedTable: string) returns (ok: bool)
      modifies store
      ensures var dir := DirName(databaseName);
              && (ok <==> old(store.Exists(dir, TableFile(selectedTable))))
              && store.dirs == if ok then old(store.dirs)[dir := old(store.dirs)[dir] - {TableFile(selectedTable)}]
                               else old(store.dirs)
    {
      ok := store.Delete(DirName(databaseName), TableFile(selectedTable));
    }

    /** Writes the counter file of the current table. */
    method SaveID() returns (ok: bool)
      requires Valid() && tableName.Some? && currTable != null
      modifies store
      ensures var dir := DirName(databaseName);
              && (ok <==> dir in old(store.dirs))
              && store.dirs == if ok then old(store.dirs)[dir := old(store.dirs)[dir][IdFile(tableName.value) := SerializeId(Current().value)]]
                               else old(store.dirs)
    {
      ok := store.Write(DirName(databaseName), IdFile(tableName.value), IntToString(currTable.lastAssignedID));
    }

    /** The text of the table file, built line by line. */
    method TableText() returns (text: string)
      requires Valid() && currTable != null
      ensures text == Serialize(Current().value)
    {
      ghost var t := currTable.Value();
      ghost var lines := Lines(t);
      assert |currTable.idValues| == |lines|;
      text := "";
      var rowCnt := 0;
      while rowCnt <= |currTable.idValues| - 1
        invariant 0 <= rowCnt <= |lines|
        invariant text == JoinAcc(lines, "\n", rowCnt)
      {
        var nextLine := RowText(rowCnt);
        assert nextLine == lines[rowCnt];
        JoinAccStep(lines, "\n", rowCnt);
        if rowCnt < |currTable.idValues| - 1 {
          nextLine := nextLine + "\n";
        }
        text := text + nextLine;
        rowCnt := rowCnt + 1;
      }
      JoinAccAll(lines, "\n");
    }

    /** The inner loop of saving: the cells of row `rowCnt` with a tab
        between neighbours. */
    method RowText(rowCnt: nat) returns (line: string)
      requires Valid() && currTable != null && rowCnt < |currTable.idValues|
      ensures line == RowLine(Current().value, rowCnt)
    {
      ghost var row := Row(currTable.Value(), rowCnt);
      line := "";
      var colCnt := 0;
      while colCnt < |currTable.tableData|
        invariant 0 <= colCnt <= |row|
        invariant line == JoinAcc(row, "\t", colCnt)
      {
        JoinAccStep(row, "\t", colCnt);
        line := line + currTable.tableData[colCnt][rowCnt];
        if colCnt < |currTable.tableData| - 1 {
          line := line + "\t";
        }
        colCnt := colCnt + 1;
      }
      JoinAccAll(row, "\t");
    }

    /** Writes the table file and then the counter file of the current
        table; both fail together when the database directory is missing. */
    method SaveTable() returns (ok: bool)
      requires Valid() && tableName.Some? && currTable != null
      modifies store
      ensures var dir := DirName(databaseName);
              var t := Current().value;
              && (ok <==> dir in old(store.dirs))
              && store.dirs == if ok then old(store.dirs)[dir := old(store.dirs)[dir][TableFile(tableName.value) := Serialize(t)]
                                                                                  [IdFile(tableName.value) := SerializeId(t)]]
                               else old(store.dirs)
    {
      var text := TableText();
      ok := store.Write(DirName(databaseName), TableFile(tableName.value), text);
      if !ok {
        return false;
      }
      ok := SaveID();
    }

    /** Reads the counter file into the current table. */
    method LoadID() returns (res: LoadResult)
      requires Valid() && tableName.Some?
      modifies currTable
      ensures Valid() && currTable == old(currTable)
      ensures (res, Current()) == LoadIdSpec(old(Current()), FileText(IdFile(tableName.value)))
    {
      var idText := store.Read(DirName(databaseName), IdFile(tableName.value));
      if idText.None? {
        return NotLoaded;
      }
      var inputStr := FirstLine(idText.value);
      if inputStr.None? {
        return Threw;
      }
      var parsed := ParseInt(inputStr.value);
      if parsed.None? || currTable == null {
        return Threw;
      }
      ghost var t := WithCounter(currTable.Value(), parsed.value);
      currTable.lastAssignedID := parsed.value;
      assert currTable.Value() == t;
      res := Loaded;
    }

    /** Loads the current table from its two files: the first line gives the
        attributes, each later line a row with its id, refused rows being
        skipped, and the counter file the counter. */
    method LoadTable() returns (res: LoadResult)
      requires Valid() && tableName.Some?
      modifies this, currTable
      ensures Valid() && databaseName == old(databaseName) && tableName == old(tableName) && tablePath == old(tablePath)
      ensures (res, Current()) == LoadSpec(tableName.value, old(Current()), FileText(TableFile(tableName.value)),
                                           FileText(IdFile(tableName.value)))
      ensures currTable == old(currTable) || fresh(currTable)
    {
      var text := store.Read(DirName(databaseName), TableFile(tableName.value));
      if text.None? {
        return NotLoaded;
      }
      var lines := ReadLines(text.value);
      if lines != [] {
        currTable := BuildTable(tableName.value, lines);
      }
      res := LoadID();
    }

    /** The loop of loading: a table from the header line, then each later
        line added as a row with its id, refused rows being skipped. */
    static method BuildTable(name: string, lines: seq<string>) returns (table: ArrListTable)
      requires lines != []
      ensures fresh(table) && table.Valid() && Some(table.Value()) == Replay(name, None, lines)
    {
      table := new ArrListTable.FromAttributes(name, JavaSplit(lines[0], '\t'));
      var i := 1;
      while i < |lines|
        invariant 1 <= i <= |lines|
        invariant table.Valid() && fresh(table)
        invariant ReplayRows(table.Value(), lines[i..])
                  == ReplayRows(WithAttributes(NewTable(name), JavaSplit(lines[0], '\t')), lines[1..])
      {
        assert lines[i..][1..] == lines[i + 1..];
        var _ := table.AddRow(JavaSplit(lines[i], '\t'), true);
        i := i + 1;
      }
    }

    /** Creates the current table with only the `id` column and saves it. */
    method CreateTable() returns (ok: bool)
      requires Valid() && tableName.Some?
      modifies this, store
      ensures Valid() && databaseName == old(databaseName) && tableName == old(tableName) && tablePath == old(tablePath)
      ensures Current() == Some(NewTable(tableName.value))
      ensures var dir := DirName(databaseName);
              var t := NewTable(tableName.value);
              && (ok <==> dir in old(store.dirs))
              && store.dirs == if ok then old(store.dirs)[dir := old(store.dirs)[dir][TableFile(tableName.value) := Serialize(t)]
                                                                                  [IdFile(tableName.value) := SerializeId(t)]]
                               else old(store.dirs)
    {
      currTable := new ArrListTable(tableName.value);
      ok := SaveTable();
    }

    /** Creates the current table with the given attributes and saves it. */
    method CreateTableWith(attributes: seq<string>) returns (ok: bool)
      requires Valid() && tableName.Some?
      modifies this, store
      ensures Valid() && databaseName == old(databaseName) && tableName == old(tableName) && tablePath == old(tablePath)
      ensures Current() == Some(WithAttributes(NewTable(tableName.value), attributes))
      ensures var dir := DirName(databaseName);
              var t := WithAttributes(NewTable(tableName.value), attributes);
              && (ok <==> dir in old(store.dirs))
              && store.dirs == if ok then old(store.dirs)[dir := old(store.dirs)[dir][TableFile(tableName.value) := Serialize(t)]
                                                                                  [IdFile(tableName.value) := SerializeId(t)]]
                               else old(store.dirs)
    {
      currTable := new ArrListTable.FromAttributes(tableName.value, attributes);
      ok := SaveTable();
    }
  }
}
