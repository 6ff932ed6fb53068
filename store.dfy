/**
  The inventory table both scripts write, as the relational store sees it.
  A table is the sequence of its rows in insertion order; `inventory_id`
  and `name` are UNIQUE (and `inventory_id` is the primary key). The two
  derived columns, `embedding` and `spanish_description`, are NULL until an
  enrichment pass fills them. The statements the scripts run are pure
  functions on a table; `Database` holds the named tables a session sees
  and the ones last committed.
 */
module Store {
  import opened Wrappers

  /** An embedding vector: produced by the embedding service, never inspected. */
  type Vector = seq<real>

  /** The nine columns an INSERT supplies, in the order both scripts list them. */
  datatype Record = Record(
    inventoryId: string,
    name: string,
    description: string,
    unitPrice: string,
    quantityInStock: int,
    inventoryValue: string,
    reorderLevel: int,
    reorderTimeInDays: int,
    quantityInReorder: int)

  /** A stored row: the inserted columns plus the two derived ones. */
  datatype Row = Row(record: Record, embedding: Option<Vector>, spanishDescription: Option<string>)

  /** A row as an INSERT leaves it: both derived columns NULL. */
  function Fresh(rec: Record): Row {
    Row(rec, None, None)
  }

  function Ids(rows: seq<Row>): (ids: seq<string>)
    ensures |ids| == |rows| && forall i :: 0 <= i < |rows| ==> ids[i] == rows[i].record.inventoryId
  {
    seq(|rows|, i requires 0 <= i < |rows| => rows[i].record.inventoryId)
  }

  function Names(rows: seq<Row>): (names: seq<string>)
    ensures |names| == |rows| && forall i :: 0 <= i < |rows| ==> names[i] == rows[i].record.name
  {
    seq(|rows|, i requires 0 <= i < |rows| => rows[i].record.name)
  }

  /** The inserted columns of every row, in row order. */
  function RecordsOf(rows: seq<Row>): (recs: seq<Record>)
    ensures |recs| == |rows| && forall i :: 0 <= i < |rows| ==> recs[i] == rows[i].record
  {
    seq(|rows|, i requires 0 <= i < |rows| => rows[i].record)
  }

  /** The UNIQUE constraints on `inventory_id` and `name`. */
  predicate UniqueKeys(rows: seq<Row>) {
    forall i, j :: 0 <= i < j < |rows| ==>
      rows[i].record.inventoryId != rows[j].record.inventoryId && rows[i].record.name != rows[j].record.name
  }

  /** The two UNIQUE constraints read column by column: they hold exactly
      when neither the `inventory_id` column nor the `name` column holds a
      value twice. */
  lemma UniqueColumns(rows: seq<Row>)
    ensures UniqueKeys(rows) <==>
      forall i, j :: 0 <= i < j < |rows| ==> Ids(rows)[i] != Ids(rows)[j] && Names(rows)[i] != Names(rows)[j]
  {
    var ids, names := Ids(rows), Names(rows);
    assert forall i :: 0 <= i < |rows| ==> ids[i] == rows[i].record.inventoryId && names[i] == rows[i].record.name;
  }

  /** Inserting `rec` would violate a UNIQUE constraint. */
  predicate Conflicts(rows: seq<Row>, rec: Record) {
    rec.inventoryId in Ids(rows) || rec.name in Names(rows)
  }

  /** The constraints depend on the inserted columns only. */
  lemma SameRecordsUnique(rows: seq<Row>, other: seq<Row>)
    requires |other| == |rows| && UniqueKeys(rows)
    requires forall i :: 0 <= i < |rows| ==> other[i].record == rows[i].record
    ensures UniqueKeys(other)
  {
    forall i, j | 0 <= i < j < |other|
      ensures other[i].record.inventoryId != other[j].record.inventoryId
      ensures other[i].record.name != other[j].record.name
    {
      assert other[i].record == rows[i].record && other[j].record == rows[j].record;
    }
  }

  predicate AllEmbedded(rows: seq<Row>) {
    forall i :: 0 <= i < |rows| ==> rows[i].embedding.Some?
  }

  /** A plain INSERT of a row that clashes with no existing row keeps the
      constraints, and the new row is the last one. */
  lemma InsertKeepsUnique(rows: seq<Row>, rec: Record)
    requires !Conflicts(rows, rec)
    ensures UniqueKeys(rows) ==> UniqueKeys(rows + [Fresh(rec)])
  {
    var r := rows + [Fresh(rec)];
    forall i, j | UniqueKeys(rows) && 0 <= i < j < |r|
      ensures r[i].record.inventoryId != r[j].record.inventoryId && r[i].record.name != r[j].record.name
    {
      if j == |rows| {
        assert Ids(rows)[i] == r[i].record.inventoryId;
        assert Names(rows)[i] == r[i].record.name;
      }
    }
  }

  /** `INSERT ... ON CONFLICT DO NOTHING`: a clash on `inventory_id` or
      `name` leaves the table as it was; otherwise exactly one row is added,
      at the end, with both derived columns NULL. */
  function InsertOrIgnore(rows: seq<Row>, rec: Record): (r: seq<Row>)
    ensures Conflicts(rows, rec) ==> r == rows
    ensures !Conflicts(rows, rec) ==> r == rows + [Row(rec, None, None)]
    ensures UniqueKeys(rows) ==> UniqueKeys(r)
  {
    if Conflicts(rows, rec) then rows
    else
      InsertKeepsUnique(rows, rec);
      rows + [Fresh(rec)]
  }

  /** After `INSERT ... ON CONFLICT DO NOTHING` the record is accounted
      for: it clashes with the table, because it is now in it or because a
      row it clashes with already was. A clash the table had before stays. */
  lemma InsertOrIgnoreAccounts(rows: seq<Row>, rec: Record, other: Record)
    ensures Conflicts(InsertOrIgnore(rows, rec), rec)
    ensures Conflicts(rows, other) ==> Conflicts(InsertOrIgnore(rows, rec), other)
  {
    var r := InsertOrIgnore(rows, rec);
    if !Conflicts(rows, rec) {
      assert Ids(r)[|rows|] == rec.inventoryId;
      forall x | x in Ids(rows) ensures x in Ids(r) {
        var i :| 0 <= i < |rows| && Ids(rows)[i] == x;
        assert Ids(r)[i] == x;
      }
      forall x | x in Names(rows) ensures x in Names(r) {
        var i :| 0 <= i < |rows| && Names(rows)[i] == x;
        assert Names(r)[i] == x;
      }
    }
  }

  /** Whether a record clashes with a table depends on the inserted columns
      of its rows only. */
  lemma ConflictsByRecords(rows: seq<Row>, other: seq<Row>, rec: Record)
    requires RecordsOf(other) == RecordsOf(rows)
    ensures Conflicts(other, rec) <==> Conflicts(rows, rec)
  {
    assert |other| == |rows|;
    assert forall i :: 0 <= i < |rows| ==> other[i].record == RecordsOf(other)[i] == RecordsOf(rows)[i] == rows[i].record;
    assert Ids(other) == Ids(rows);
    assert Names(other) == Names(rows);
  }

  /** `UPDATE t SET embedding = embed(description) WHERE embedding IS NULL`:
      only rows without an embedding are written, each with the embedding of
      its own description; every other column and every other row is kept. */
  function EmbedNulls(rows: seq<Row>, embed: string -> Vector): (r: seq<Row>)
    ensures |r| == |rows| && AllEmbedded(r)
    ensures forall i :: 0 <= i < |rows| ==>
      r[i].record == rows[i].record && r[i].spanishDescription == rows[i].spanishDescription
    ensures forall i :: 0 <= i < |rows| && rows[i].embedding.Some? ==> r[i] == rows[i]
    ensures forall i :: 0 <= i < |rows| && rows[i].embedding.None? ==>
      r[i].embedding == Some(embed(rows[i].record.description))
  {
    seq(|rows|, i requires 0 <= i < |rows| =>
      if rows[i].embedding.None? then rows[i].(embedding := Some(embed(rows[i].record.description)))
      else rows[i])
  }

  /** On a table whose rows all carry an embedding the pass writes nothing. */
  lemma EmbedNullsNoOp(rows: seq<Row>, embed: string -> Vector)
    requires AllEmbedded(rows)
    ensures EmbedNulls(rows, embed) == rows
  {
  }

  /** Re-running the embedding pass changes nothing. */
  lemma EmbedNullsIdempotent(rows: seq<Row>, embed: string -> Vector)
    ensures EmbedNulls(EmbedNulls(rows, embed), embed) == EmbedNulls(rows, embed)
  {
    EmbedNullsNoOp(EmbedNulls(rows, embed), embed);
  }

  /** `UPDATE t SET spanish_description = s WHERE description = desc`: every
      row with that description gets `s`; nothing else changes. */
  function TranslateWhereDescription(rows: seq<Row>, desc: string, s: string): (r: seq<Row>)
    ensures |r| == |rows|
    ensures forall i :: 0 <= i < |rows| ==>
      r[i].record == rows[i].record && r[i].embedding == rows[i].embedding
    ensures forall i :: 0 <= i < |rows| ==>
      r[i].spanishDescription == if rows[i].record.description == desc then Some(s) else rows[i].spanishDescription
  {
    seq(|rows|, i requires 0 <= i < |rows| =>
      if rows[i].record.description == desc then rows[i].(spanishDescription := Some(s)) else rows[i])
  }

  /** `UPDATE t SET spanish_description = s WHERE inventory_id = id`. */
  function TranslateWhereId(rows: seq<Row>, id: string, s: string): (r: seq<Row>)
    ensures |r| == |rows|
    ensures forall i :: 0 <= i < |rows| ==>
      r[i].record == rows[i].record && r[i].embedding == rows[i].embedding
    ensures forall i :: 0 <= i < |rows| ==>
      r[i].spanishDescription == if rows[i].record.inventoryId == id then Some(s) else rows[i].spanishDescription
  {
    seq(|rows|, i requires 0 <= i < |rows| =>
      if rows[i].record.inventoryId == id then rows[i].(spanishDescription := Some(s)) else rows[i])
  }

  /** Keyed by a present `inventory_id`, the update touches exactly one row:
      the row with that id, and no other row. */
  lemma TranslateWhereIdTouchesOne(rows: seq<Row>, k: nat, s: string)
    requires UniqueKeys(rows) && k < |rows|
    ensures var r := TranslateWhereId(rows, rows[k].record.inventoryId, s);
      r[k] == rows[k].(spanishDescription := Some(s))
      && forall i :: 0 <= i < |rows| && i != k ==> r[i] == rows[i]
  {
    var r := TranslateWhereId(rows, rows[k].record.inventoryId, s);
    forall i | 0 <= i < |rows| && i != k
      ensures r[i] == rows[i]
    {
      assert rows[i].record.inventoryId != rows[k].record.inventoryId;
    }
  }

  /** A table in which every row carries the translation of its own
      description. */
  predicate AllTranslated(rows: seq<Row>, translate: string -> string) {
    forall i :: 0 <= i < |rows| ==> rows[i].spanishDescription == Some(translate(rows[i].record.description))
  }

  /** Proof helper, with no counterpart in the scripts: writing a key twice
      leaves only the second write. */
  lemma UpdateTwice(m: map<string, seq<Row>>, k: string, a: seq<Row>, b: seq<Row>)
    ensures m[k := a][k := b] == m[k := b]
  {
  }

  /** The named tables a database session sees (`tables`) and the state as
      of the last COMMIT (`committed`). Each method is one statement of the
      scripts; every table keeps its UNIQUE constraints. */
  class Database {
    var tables: map<string, seq<Row>>
    var committed: map<string, seq<Row>>

    ghost predicate Valid()
      reads this
    {
      && (forall n :: n in tables ==> UniqueKeys(tables[n]))
      && (forall n :: n in committed ==> UniqueKeys(committed[n]))
    }

    /** A session opened on a store whose tables satisfy their constraints. */
    constructor (initial: map<string, seq<Row>>)
      requires forall n :: n in initial ==> UniqueKeys(initial[n])
      ensures Valid() && tables == initial && committed == initial
    {
      tables := initial;
      committed := initial;
    }

    /** `COMMIT`. */
    method Commit()
      requires Valid()
      modifies this
      ensures Valid() && tables == old(tables) && committed == tables
    {
      committed := tables;
    }

    /** `DROP TABLE IF EXISTS name`. */
    method DropTable(name: string)
      requires Valid()
      modifies this
      ensures Valid() && committed == old(committed)
      ensures tables == old(tables) - {name}
    {
      tables := tables - {name};
    }

    /** `CREATE TABLE name (...)`: a new, empty table. */
    method CreateTable(name: string)
      requires Valid() && name !in tables
      modifies this
      ensures Valid() && committed == old(committed)
      ensures tables == old(tables)[name := []]
    {
      tables := tables[name := []];
    }

    /** `CREATE TABLE IF NOT EXISTS name (...)`. */
    method CreateTableIfNotExists(name: string)
      requires Valid()
      modifies this
      ensures Valid() && committed == old(committed)
      ensures tables == if name in old(tables) then old(tables) else old(tables)[name := []]
    {
      if name !in tables {
        tables := tables[name := []];
      }
    }

    /** `SELECT * FROM name`. */
    method Select(name: string) returns (rows: seq<Row>)
      requires Valid() && name in tables
      ensures rows == tables[name] && UniqueKeys(rows)
    {
      rows := tables[name];
    }

    /** A plain `INSERT`: `ok` is false exactly when the row would violate a
        UNIQUE constraint, and then the statement fails and writes nothing. */
    method Insert(name: string, rec: Record) returns (ok: bool)
      requires Valid() && name in tables
      modifies this
      ensures Valid() && committed == old(committed)
      ensures ok == !Conflicts(old(tables)[name], rec)
      ensures tables == if ok then old(tables)[name := old(tables)[name] + [Fresh(rec)]] else old(tables)
    {
      ok := !Conflicts(tables[name], rec);
      if ok {
        InsertKeepsUnique(tables[name], rec);
        tables := tables[name := tables[name] + [Fresh(rec)]];
      }
    }

    /** `INSERT ... ON CONFLICT DO NOTHING`. */
    method InsertOnConflictDoNothing(name: string, rec: Record)
      requires Valid() && name in tables
      modifies this
      ensures Valid() && committed == old(committed)
      ensures tables == old(tables)[name := InsertOrIgnore(old(tables)[name], rec)]
    {
      tables := tables[name := InsertOrIgnore(tables[name], rec)];
    }

    /** The embedding pass: `UPDATE name SET embedding = ... WHERE embedding IS NULL`. */
    method EmbedWhereNull(name: string, embed: string -> Vector)
      requires Valid() && name in tables
      modifies this
      ensures Valid() && committed == old(committed)
      ensures tables == old(tables)[name := EmbedNulls(old(tables)[name], embed)]
    {
      var rows := tables[name];
      var r := EmbedNulls(rows, embed);
      assert RecordsOf(r) == RecordsOf(rows);
      tables := tables[name := r];
    }

    /** `UPDATE name SET spanish_description = s WHERE description = desc`. */
    method SetSpanishWhereDescription(name: string, desc: string, s: string)
      requires Valid() && name in tables
      modifies this
      ensures Valid() && committed == old(committed)
      ensures tables == old(tables)[name := TranslateWhereDescription(old(tables)[name], desc, s)]
    {
      var rows := tables[name];
      var r := TranslateWhereDescription(rows, desc, s);
      assert RecordsOf(r) == RecordsOf(rows);
      tables := tables[name := r];
    }

    /** `UPDATE name SET spanish_description = s WHERE inventory_id = id`. */
    method SetSpanishWhereId(name: string, id: string, s: string)
      requires Valid() && name in tables
      modifies this
      ensures Valid() && committed == old(committed)
      ensures tables == old(tables)[name := TranslateWhereId(old(tables)[name], id, s)]
    {
      var rows := tables[name];
      var r := TranslateWhereId(rows, id, s);
      assert RecordsOf(r) == RecordsOf(rows);
      tables := tables[name := r];
    }
  }
}
