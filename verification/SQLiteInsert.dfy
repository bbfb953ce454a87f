/**
 Batched inserts into SQLite. One prepared statement takes as many rows as its parameters allow; saving
 the last row of a batch executes the statement and prepares the next one.
 */
module SQLiteInsert {
  import opened Bytes
  import opened LittleEndian

  /** `SQLite3::MAX_PARAM_COUNT`. */
  const MAX_PARAM_COUNT: nat := 999

  const ID_NAME: string := "_rowid_"

  datatype Cell = SqlNull | SqlLong(n: i64) | SqlDouble(bits: nat) | SqlBlob(bytes: seq<byte>)

  /** The id and the values of the properties. */
  type Row = seq<Cell>

  // ----- the statement

  /** Rows of one statement. */
  function BatchSize(width: nat, count: nat): nat
    requires width > 0
  {
    if count < MAX_PARAM_COUNT / width then count else MAX_PARAM_COUNT / width
  }

  /** The first row of placeholders is always there. */
  function Tuples(batchSize: nat): nat { if batchSize == 0 then 1 else batchSize }

  function Columns(properties: seq<string>): string {
    if properties == [] then "" else Columns(properties[..|properties| - 1]) + ", " + properties[|properties| - 1]
  }

  function Joined(parts: seq<string>, separator: string): string {
    if parts == [] then ""
    else if |parts| == 1 then parts[0]
    else parts[0] + separator + Joined(parts[1..], separator)
  }

  function Copies(n: nat, s: string): seq<string> { seq(n, _ => s) }

  lemma {:induction false} JoinedSnoc(parts: seq<string>, s: string, separator: string)
    requires parts != []
    ensures Joined(parts + [s], separator) == Joined(parts, separator) + separator + s
  {
    assert (parts + [s])[1..] == parts[1..] + [s];
    if |parts| == 1 {
      var none: seq<string> := [];
      assert parts[1..] + [s] == [s];
      assert parts[0] + separator + s == (parts[0] + separator) + s;
    } else {
      JoinedSnoc(parts[1..], s, separator);
      var rest := Joined(parts[1..], separator);
      assert parts[0] + separator + (rest + separator + s) == parts[0] + separator + rest + separator + s;
    }
  }

  /** The columns in order, the id first. */
  lemma {:induction false} ColumnsJoined(properties: seq<string>)
    ensures ID_NAME + Columns(properties) == Joined(["_rowid_"] + properties, ", ")
  {
    if properties == [] {
      assert ID_NAME + "" == ID_NAME && ["_rowid_"] + properties == ["_rowid_"];
    } else {
      var n := |properties| - 1;
      ColumnsJoined(properties[..n]);
      JoinedSnoc(["_rowid_"] + properties[..n], properties[n], ", ");
      assert ["_rowid_"] + properties[..n] + [properties[n]] == ["_rowid_"] + properties;
      assert ID_NAME + (Columns(properties[..n]) + ", " + properties[n])
          == ID_NAME + Columns(properties[..n]) + ", " + properties[n];
    }
  }

  lemma {:induction false} MarksJoined(n: nat)
    ensures "?" + Marks(n) == Joined(Copies(n + 1, "?"), ",")
  {
    if n == 0 {
      assert "?" + "" == "?" && Copies(1, "?") == ["?"];
    } else {
      MarksJoined(n - 1);
      JoinedSnoc(Copies(n, "?"), "?", ",");
      assert Copies(n + 1, "?") == Copies(n, "?") + ["?"];
      assert "?" + (Marks(n - 1) + ",?") == "?" + Marks(n - 1) + "," + "?";
    }
  }

  lemma {:induction false} BatchesJoined(k: nat, n: nat)
    requires k > 0
    ensures Batches(k, n) == Joined(Copies(k, "(" + Joined(Copies(n + 1, "?"), ",") + ")"), ",")
  {
    var row := "(" + Joined(Copies(n + 1, "?"), ",") + ")";
    MarksJoined(n);
    assert Batch(n) == "(" + ("?" + Marks(n)) + ")" == row;
    if k == 1 {
      assert Copies(1, row) == [row];
    } else {
      BatchesJoined(k - 1, n);
      JoinedSnoc(Copies(k - 1, row), row, ",");
      assert Copies(k, row) == Copies(k - 1, row) + [row];
    }
  }

  function Marks(n: nat): string { if n == 0 then "" else Marks(n - 1) + ",?" }

  function Batch(n: nat): string { "(?" + Marks(n) + ")" }

  function Batches(k: nat, n: nat): string {
    if k == 0 then "" else if k == 1 then Batch(n) else Batches(k - 1, n) + "," + Batch(n)
  }

  function CountMarks(s: string): nat {
    if s == "" then 0 else CountMarks(s[..|s| - 1]) + if s[|s| - 1] == '?' then 1 else 0
  }

  /** `insert_sql`. */
  method InsertSql(name: string, properties: seq<string>, count: nat) returns (batchSize: nat, sql: string)
    ensures batchSize == BatchSize(|properties| + 1, count)
    ensures sql == "INSERT OR REPLACE INTO " + name + " (" + Joined(["_rowid_"] + properties, ", ") + ") VALUES "
                   + Joined(Copies(Tuples(batchSize), "(" + Joined(Copies(|properties| + 1, "?"), ",") + ")"), ",")
  {
    sql := "INSERT OR REPLACE INTO " + name + " (" + ID_NAME;
    ghost var head := sql;
    for i := 0 to |properties|
      invariant sql == head + Columns(properties[..i])
    {
      assert properties[..i + 1][..i] == properties[..i];
      sql := sql + ", " + properties[i];
    }
    assert properties[..|properties|] == properties;
    sql := sql + ") VALUES ";
    var values;
    batchSize, values := ValuesSql(|properties|, count);
    sql := sql + values;
    StatementJoined("INSERT OR REPLACE INTO " + name + " (", properties, Tuples(batchSize));
  }

  lemma StatementJoined(head: string, properties: seq<string>, tuples: nat)
    requires tuples > 0
    ensures head + ID_NAME + Columns(properties) + ") VALUES " + Batches(tuples, |properties|)
         == head + Joined(["_rowid_"] + properties, ", ") + ") VALUES "
            + Joined(Copies(tuples, "(" + Joined(Copies(|properties| + 1, "?"), ",") + ")"), ",")
  {
    ColumnsJoined(properties);
    BatchesJoined(tuples, |properties|);
    assert head + ID_NAME + Columns(properties) == head + (ID_NAME + Columns(properties));
  }

  method ValuesSql(n: nat, count: nat) returns (batchSize: nat, values: string)
    ensures batchSize == BatchSize(n + 1, count) && values == Batches(Tuples(batchSize), n)
  {
    var batch := "(?";
    for i := 0 to n
      invariant batch == "(?" + Marks(i)
    {
      batch := batch + ",?";
    }
    batch := batch + ")";
    batchSize := if count < MAX_PARAM_COUNT / (n + 1) then count else MAX_PARAM_COUNT / (n + 1);
    values := batch;
    var k := 1;
    while k < batchSize
      invariant 1 <= k <= Tuples(batchSize) && values == Batches(k, n)
    {
      values := values + "," + batch;
      k := k + 1;
    }
  }

  lemma {:induction false} CountConcat(a: string, b: string)
    ensures CountMarks(a + b) == CountMarks(a) + CountMarks(b)
  {
    if b == "" {
      assert a + b == a;
    } else {
      assert (a + b)[..|a + b| - 1] == a + b[..|b| - 1];
      CountConcat(a, b[..|b| - 1]);
    }
  }

  lemma {:induction false} MarksCount(n: nat)
    ensures CountMarks(Batch(n)) == n + 1
  {
    assert Batch(n) == ("(?" + Marks(n)) + ")";
    CountConcat("(?" + Marks(n), ")");
    CountConcat("(?", Marks(n));
    assert "(?"[..1] == "(" && "("[..0] == "" && ")"[..0] == "";
    OnlyMarks(n);
  }

  lemma {:induction false} OnlyMarks(n: nat)
    ensures CountMarks(Marks(n)) == n
  {
    if n == 0 {
    } else {
      OnlyMarks(n - 1);
      CountConcat(Marks(n - 1), ",?");
      assert ",?"[..1] == "," && ","[..0] == "";
    }
  }

  /** A statement has one parameter for every cell of its rows. */
  lemma {:induction false} StatementParameters(k: nat, n: nat)
    ensures CountMarks(Batches(k, n)) == Times(k, n + 1)
  {
    MarksCount(n);
    if k > 1 {
      StatementParameters(k - 1, n);
      CountConcat(Batches(k - 1, n) + ",", Batch(n));
      CountConcat(Batches(k - 1, n), ",");
      assert ","[..0] == "";
    }
  }

  /** No more parameters than SQLite takes, as long as one row fits. */
  lemma ParametersFit(width: nat, count: nat)
    requires 0 < width <= 999
    ensures Times(Tuples(BatchSize(width, count)), width) <= 999
    ensures BatchSize(width, count) <= count && (count > 0 ==> BatchSize(width, count) > 0)
    ensures BatchSize(width, count) < count ==> (BatchSize(width, count) + 1) * width > 999
  {
    var most := MAX_PARAM_COUNT / width;
    assert most * width <= MAX_PARAM_COUNT && most >= 1;
    TimesIsProduct(Tuples(BatchSize(width, count)), width);
    ProductGrows(Tuples(BatchSize(width, count)), most, width);
  }

  lemma ProductGrows(a: nat, b: nat, w: nat)
    requires a <= b
    ensures a * w <= b * w
  {
  }

  // ----- cells and rows

  predicate RowsOfWidth(rows: seq<Row>, width: nat) {
    forall i :: 0 <= i < |rows| ==> |rows[i]| == width
  }

  function Flatten(rows: seq<Row>): seq<Cell> {
    if rows == [] then [] else Flatten(rows[..|rows| - 1]) + rows[|rows| - 1]
  }

  /** The rows a statement inserts. */
  function RowsOf(params: seq<Cell>, width: nat): seq<Row>
    requires width > 0
  {
    if |params| < width then []
    else RowsOf(params[..|params| - width], width) + [params[|params| - width..]]
  }

  lemma {:induction false} FlattenLength(rows: seq<Row>, width: nat)
    requires RowsOfWidth(rows, width)
    ensures |Flatten(rows)| == Times(|rows|, width)
  {
    if rows == [] {
    } else {
      FlattenLength(rows[..|rows| - 1], width);
    }
  }

  /** Cutting the parameters into rows undoes flattening. */
  lemma {:induction false} RowsOfFlatten(rows: seq<Row>, width: nat)
    requires width > 0 && RowsOfWidth(rows, width)
    ensures RowsOf(Flatten(rows), width) == rows
  {
    if rows == [] {
    } else {
      var n := |rows| - 1;
      RowsOfFlatten(rows[..n], width);
      assert Flatten(rows)[..|Flatten(rows)| - width] == Flatten(rows[..n]);
    }
  }

  function Nulls(n: nat): seq<Cell> { seq(n, _ => SqlNull) }

  function NullRows(k: nat, width: nat): (r: seq<Row>)
    ensures |r| == k && RowsOfWidth(r, width)
  {
    seq(k, _ => Nulls(width))
  }

  lemma {:induction false} NullParameters(k: nat, width: nat)
    ensures Flatten(NullRows(k, width)) == Nulls(Times(k, width))
  {
    if k == 0 {
    } else {
      NullParameters(k - 1, width);
      assert NullRows(k, width)[..k - 1] == NullRows(k - 1, width);
    }
  }

  lemma {:induction false} FlattenAt(rows: seq<Row>, width: nat, r: nat, c: nat)
    requires RowsOfWidth(rows, width) && r < |rows| && c < width
    ensures Times(r, width) + c < |Flatten(rows)| && Flatten(rows)[Times(r, width) + c] == rows[r][c]
  {
    FlattenLength(rows[..|rows| - 1], width);
    if r < |rows| - 1 {
      FlattenAt(rows[..|rows| - 1], width, r, c);
    }
  }

  /** Setting the parameter of a cell sets the cell. */
  lemma {:induction false} FlattenUpdate(rows: seq<Row>, width: nat, r: nat, c: nat, v: Cell)
    requires RowsOfWidth(rows, width) && r < |rows| && c < width
    ensures Times(r, width) + c < |Flatten(rows)|
    ensures Flatten(rows)[Times(r, width) + c := v] == Flatten(rows[r := rows[r][c := v]])
  {
    FlattenAt(rows, width, r, c);
    var n, rows' := |rows| - 1, rows[r := rows[r][c := v]];
    FlattenLength(rows[..n], width);
    if r < n {
      FlattenUpdate(rows[..n], width, r, c, v);
      assert rows'[..n] == rows[..n][r := rows[r][c := v]];
    } else {
      assert rows'[..n] == rows[..n];
    }
  }

  // ----- the insert

  class SQLiteInsert {
    const name: string
    const properties: seq<string>
    var remaining: nat
    var batchSize: nat
    var batchRemaining: nat
    /** The parameters of the prepared statement, and the rows inserted by executed ones. */
    var params: seq<Cell>
    var executed: seq<Row>
    /** The rows to save, those that were saved, the rows of the statement. */
    ghost const count: nat
    ghost var saved: seq<Row>
    ghost var rows: seq<Row>

    ghost function Width(): nat { |properties| + 1 }

    ghost function Done(): int
      reads this
    {
      batchSize - batchRemaining
    }

    ghost predicate Valid()
      reads this
    {
      && batchRemaining <= batchSize
      && |rows| == Tuples(batchSize) && RowsOfWidth(rows, Width()) && params == Flatten(rows)
      && saved == executed + rows[..Done()]
      && |saved| + batchRemaining + remaining == count
      && (batchRemaining == 0 ==> remaining == 0 || batchSize == 0)
      && (batchSize == 0 <==> count == 0 || Width() > MAX_PARAM_COUNT)
      && (forall i :: Done() < i < |rows| ==> rows[i] == Nulls(Width()))
    }

    /** The row being written. */
    ghost function Current(): Row
      reads this
      requires Valid()
    {
      if Done() < |rows| then rows[Done()] else []
    }

    constructor (name: string, properties: seq<string>, count: nat)
      ensures Valid() && saved == [] && executed == [] && this.count == count && Current() == Nulls(Width())
      ensures this.name == name && this.properties == properties
    {
      var n, sql := InsertSql(name, properties, count);
      this.name, this.properties, this.count := name, properties, count;
      batchSize, batchRemaining, remaining := n, n, count - n;
      params := Nulls(Times(Tuples(n), |properties| + 1));
      executed, saved, rows := [], [], NullRows(Tuples(n), |properties| + 1);
      new;
      NullParameters(Tuples(n), Width());
      BatchFits(Width(), count);
    }

    function PropertyIndex(index: nat): nat
      reads this
      requires batchRemaining <= batchSize
    {
      (batchSize - batchRemaining) * (|properties| + 1) + index
    }

    /** `bind_…`; errors of the binding are ignored. */
    method Bind(col: nat, v: Cell)
      modifies `params
      ensures params == if col < |old(params)| then old(params)[col := v] else old(params)
    {
      if col < |params| {
        params := params[col := v];
      }
    }

    /** Binding a cell of the current row changes that cell and nothing else. */
    method BindCell(index: nat, v: Cell)
      requires Valid() && index <= |properties|
      modifies `params, `rows
      ensures Valid()
      ensures rows == if Done() < |rows| then old(rows)[Done() := old(rows)[Done()][index := v]] else old(rows)
    {
      Bind(PropertyIndex(index), v);
      TimesIsProduct(Done(), Width());
      if Done() < |rows| {
        FlattenUpdate(rows, Width(), Done(), index, v);
        rows := rows[Done() := rows[Done()][index := v]];
      } else {
        FlattenLength(rows, Width());
      }
    }

    /** A writer method: properties count from one. */
    method Write(index: nat, v: Cell)
      requires Valid() && 1 <= index <= |properties|
      modifies `params, `rows
      ensures Valid()
      ensures Current() == if old(Current()) == [] then [] else old(Current())[index := v]
    {
      BindCell(index, v);
    }

    method Save(id: i64) returns (ok: bool)
      requires Valid()
      modifies this
      ensures Valid()
      ensures ok <==> |old(saved)| < count && Width() <= MAX_PARAM_COUNT
      ensures ok ==> |old(Current())| == Width() && saved == old(saved) + [old(Current())[0 := SqlLong(id)]]
      ensures ok && |saved| < count ==> Current() == Nulls(Width())
      ensures !ok ==> saved == old(saved) && Current() == old(Current())
    {
      ok := batchRemaining > 0;
      if ok {
        BindCell(0, SqlLong(id));
        saved := saved + [rows[Done()]];
        assert rows[..Done() + 1] == rows[..Done()] + [rows[Done()]];
        batchRemaining := batchRemaining - 1;
        if batchRemaining == 0 && remaining > 0 {
          Next();
        }
      }
    }

    /** The batch is full: execute the statement and prepare another one. */
    method Next()
      requires batchRemaining == 0 && remaining > 0 && batchSize > 0 && Width() <= MAX_PARAM_COUNT
      requires |rows| == Tuples(batchSize) && RowsOfWidth(rows, Width()) && params == Flatten(rows)
      requires saved == executed + rows && |saved| + remaining == count
      modifies `remaining, `batchSize, `batchRemaining, `params, `executed, `rows
      ensures Valid() && Current() == Nulls(Width())
    {
      var n, sql := InsertSql(name, properties, remaining);
      BatchFits(Width(), remaining);
      Step();
      params := Nulls(Times(Tuples(n), |properties| + 1));
      rows := NullRows(Tuples(n), |properties| + 1);
      NullParameters(Tuples(n), Width());
      remaining, batchSize, batchRemaining := remaining - n, n, n;
    }

    /** Execute the prepared statement. */
    method Step()
      requires RowsOfWidth(rows, Width()) && params == Flatten(rows)
      modifies `executed
      ensures executed == old(executed) + rows
    {
      RowsOfFlatten(rows, Width());
      executed := executed + RowsOf(params, |properties| + 1);
    }

    /**
     What was inserted is the saved rows and then the rest of the statement; that is nothing if and only
     if all rows that were announced were saved, at least one was, and a row has no more cells than a
     statement has parameters.
     */
    method Finish()
      requires Valid()
      modifies `executed
      ensures executed == saved + rows[Done()..]
      ensures saved <= executed
      ensures executed == saved <==> |saved| == count && count > 0 && Width() <= MAX_PARAM_COUNT
    {
      Step();
      assert rows == rows[..Done()] + rows[Done()..];
      assert executed == saved + rows[Done()..];
    }
  }

  /** An insert that announces no rows inserts one row of nulls. */
  method FinishEmpty(name: string, properties: seq<string>) returns (inserted: seq<Row>)
    ensures inserted == [Nulls(|properties| + 1)]
  {
    var insert := new SQLiteInsert(name, properties, 0);
    insert.Finish();
    inserted := insert.executed;
  }

  lemma BatchFits(width: nat, count: nat)
    requires width > 0
    ensures BatchSize(width, count) <= count
    ensures BatchSize(width, count) == 0 <==> count == 0 || width > MAX_PARAM_COUNT
  {
    if width <= MAX_PARAM_COUNT {
      ParametersFit(width, count);
    } else {
      assert MAX_PARAM_COUNT / width == 0;
    }
  }

  /** Inserting rows one after the other inserts those rows in their order, whatever the batches. */
  method InsertAll(name: string, properties: seq<string>, ids: seq<i64>, cells: seq<Row>) returns (inserted: seq<Row>)
    requires 0 < |ids| == |cells| && |properties| + 1 <= MAX_PARAM_COUNT && RowsOfWidth(cells, |properties|)
    ensures |inserted| == |ids|
    ensures forall i :: 0 <= i < |ids| ==> inserted[i] == [SqlLong(ids[i])] + cells[i]
  {
    var insert := new SQLiteInsert(name, properties, |ids|);
    for i := 0 to |ids|
      invariant fresh(insert) && insert.Valid() && insert.properties == properties && insert.count == |ids|
      invariant |insert.saved| == i && (i < |ids| ==> insert.Current() == Nulls(insert.Width()))
      invariant forall k :: 0 <= k < i ==> insert.saved[k] == [SqlLong(ids[k])] + cells[k]
    {
      InsertRow(insert, ids[i], cells[i]);
    }
    insert.Finish();
    inserted := insert.executed;
  }

  method InsertRow(insert: SQLiteInsert, id: i64, cells: Row)
    requires insert.Valid() && |cells| == |insert.properties| && insert.Current() == Nulls(insert.Width())
    requires |insert.saved| < insert.count && insert.Width() <= MAX_PARAM_COUNT
    modifies insert
    ensures insert.Valid() && insert.saved == old(insert.saved) + [[SqlLong(id)] + cells]
    ensures |insert.saved| < insert.count ==> insert.Current() == Nulls(insert.Width())
  {
    WriteRow(insert, cells);
    assert ([SqlNull] + cells)[0 := SqlLong(id)] == [SqlLong(id)] + cells;
    ghost var before := insert.saved;
    var _ := insert.Save(id);
    assert insert.saved == before + [[SqlLong(id)] + cells];
  }

  method WriteRow(insert: SQLiteInsert, cells: Row)
    requires insert.Valid() && |cells| == |insert.properties| && insert.Current() == Nulls(insert.Width())
    modifies insert`params, insert`rows
    ensures insert.Valid() && insert.Current() == [SqlNull] + cells && insert.saved == old(insert.saved)
  {
    for k := 0 to |cells|
      invariant insert.Valid() && |insert.Current()| == |cells| + 1 && insert.Current()[0] == SqlNull
      invariant insert.Current()[1..k + 1] == cells[..k]
    {
      insert.Write(k + 1, cells[k]);
      assert insert.Current()[1..k + 2] == insert.Current()[1..k + 1] + [cells[k]];
    }
    assert cells[..|cells|] == cells;
    assert insert.Current() == [insert.Current()[0]] + insert.Current()[1..];
  }
}
