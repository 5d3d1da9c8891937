/**
  The part of the `krd` PostgreSQL schema the generator talks to, seen
  through one Qt database connection: stored templates, the field mappings
  of `krd.field_mappings`, and the cells the value lookup reads. Failures
  the server may report are fixed when the connection is made, so that
  every outcome of a save can be reached.
  */
module Database {
  import opened Wrappers
  import opened Values
  import StringOrder

  /** A row of `krd.field_mappings`. */
  datatype Mapping = Mapping(templateId: int, fieldName: string, dbColumn: string, tableName: string)

  /** The cell `SELECT column FROM krd.table WHERE joinColumn = key` reads. */
  datatype CellKey = CellKey(table: string, column: string, joinColumn: string, key: int)

  /** A statement sent over the connection. */
  datatype Statement =
    | Begin
    | DeleteMappings(templateId: int)
    | InsertMapping(mapping: Mapping)
    | Commit
    | Rollback
    | Select(cell: CellKey)

  /** The mappings of one template, in storage order. */
  function MappingsOf(ms: seq<Mapping>, tid: int): (r: seq<Mapping>)
    ensures forall m :: m in r <==> m in ms && m.templateId == tid
  {
    if ms == [] then []
    else (if ms[0].templateId == tid then [ms[0]] else []) + MappingsOf(ms[1..], tid)
  }

  /** The table after `DELETE FROM krd.field_mappings WHERE template_id = tid`. */
  function Without(ms: seq<Mapping>, tid: int): (r: seq<Mapping>)
    ensures forall m :: m in r <==> m in ms && m.templateId != tid
  {
    if ms == [] then []
    else (if ms[0].templateId != tid then [ms[0]] else []) + Without(ms[1..], tid)
  }

  lemma {:induction false} MappingsOfAppend(a: seq<Mapping>, b: seq<Mapping>, tid: int)
    ensures MappingsOf(a + b, tid) == MappingsOf(a, tid) + MappingsOf(b, tid)
  {
    if a != [] {
      MappingsOfAppend(a[1..], b, tid);
      assert (a + b)[1..] == a[1..] + b;
    } else {
      assert a + b == b;
    }
  }

  lemma {:induction false} MappingsOfAll(ms: seq<Mapping>, tid: int)
    requires forall i :: 0 <= i < |ms| ==> ms[i].templateId == tid
    ensures MappingsOf(ms, tid) == ms
  {
    if ms != [] {
      MappingsOfAll(ms[1..], tid);
    }
  }

  lemma {:induction false} MappingsOfNone(ms: seq<Mapping>, tid: int)
    requires forall i :: 0 <= i < |ms| ==> ms[i].templateId != tid
    ensures MappingsOf(ms, tid) == []
  {
    if ms != [] {
      MappingsOfNone(ms[1..], tid);
    }
  }

  lemma {:induction false} MappingsOfWithout(ms: seq<Mapping>, tid: int, other: int)
    ensures MappingsOf(Without(ms, tid), other) == if other == tid then [] else MappingsOf(ms, other)
  {
    if ms != [] {
      MappingsOfWithout(ms[1..], tid, other);
      var head := if ms[0].templateId != tid then [ms[0]] else [];
      MappingsOfAppend(head, Without(ms[1..], tid), other);
      if ms[0].templateId != tid {
        assert head[1..] == [];
      }
    }
  }

  /**
    Replacing the mappings of template `tid` by `added`: that template now has
    exactly `added`, in the order inserted, and every other template keeps
    its mappings in their order.
    */
  lemma ReplaceTemplateMappings(ms: seq<Mapping>, tid: int, added: seq<Mapping>, other: int)
    requires forall i :: 0 <= i < |added| ==> added[i].templateId == tid
    ensures MappingsOf(Without(ms, tid) + added, tid) == added
    ensures other != tid ==> MappingsOf(Without(ms, tid) + added, other) == MappingsOf(ms, other)
  {
    MappingsOfAppend(Without(ms, tid), added, tid);
    MappingsOfAppend(Without(ms, tid), added, other);
    MappingsOfWithout(ms, tid, tid);
    MappingsOfWithout(ms, tid, other);
    MappingsOfAll(added, tid);
    if other != tid {
      MappingsOfNone(added, other);
    }
  }

  /** Rows in ascending order of field name; rows with equal names may come in any order. */
  predicate ByFieldName(ms: seq<Mapping>) {
    forall i, j :: 0 <= i < j < |ms| ==> !StringOrder.Less(ms[j].fieldName, ms[i].fieldName)
  }

  /** Inserts `m` after every row whose field name is not greater than its own. */
  function InsertByField(s: seq<Mapping>, m: Mapping): (r: seq<Mapping>)
    requires ByFieldName(s)
    ensures ByFieldName(r)
    ensures multiset(r) == multiset(s) + multiset{m}
    decreases |s|
  {
    if s == [] then
      [m]
    else if StringOrder.Less(m.fieldName, s[0].fieldName) then
      BelowAllFields(s, m);
      ConsByField(m, s);
      [m] + s
    else
      var t := InsertByField(s[1..], m);
      assert s == [s[0]] + s[1..];
      NotBelowHead(s, m, t);
      ConsByField(s[0], t);
      [s[0]] + t
  }

  /** A row not above any row of a sorted list can go in front of it. */
  lemma ConsByField(x: Mapping, t: seq<Mapping>)
    requires ByFieldName(t)
    requires forall j :: 0 <= j < |t| ==> !StringOrder.Less(t[j].fieldName, x.fieldName)
    ensures ByFieldName([x] + t)
  {
    var r := [x] + t;
    forall i, j | 0 <= i < j < |r| ensures !StringOrder.Less(r[j].fieldName, r[i].fieldName) {
      assert r[j] == t[j - 1];
      if i > 0 {
        assert r[i] == t[i - 1];
      }
    }
  }

  /** A row whose name is below the first name of a sorted list is below every name in it. */
  lemma BelowAllFields(s: seq<Mapping>, m: Mapping)
    requires ByFieldName(s) && s != [] && StringOrder.Less(m.fieldName, s[0].fieldName)
    ensures forall j :: 0 <= j < |s| ==> !StringOrder.Less(s[j].fieldName, m.fieldName)
  {
    forall j | 0 <= j < |s| ensures !StringOrder.Less(s[j].fieldName, m.fieldName) {
      if s[j].fieldName != s[0].fieldName {
        StringOrder.LessTotal(s[j].fieldName, s[0].fieldName);
        StringOrder.LessTransitive(m.fieldName, s[0].fieldName, s[j].fieldName);
      }
      StringOrder.LessAsymmetric(m.fieldName, s[j].fieldName);
    }
  }

  /** The rows after the head of a sorted list, with `m` added, are not below the head. */
  lemma NotBelowHead(s: seq<Mapping>, m: Mapping, t: seq<Mapping>)
    requires ByFieldName(s) && s != [] && !StringOrder.Less(m.fieldName, s[0].fieldName)
    requires multiset(t) == multiset(s[1..]) + multiset{m}
    ensures forall j :: 0 <= j < |t| ==> !StringOrder.Less(t[j].fieldName, s[0].fieldName)
  {
    forall j | 0 <= j < |t| ensures !StringOrder.Less(t[j].fieldName, s[0].fieldName) {
      assert t[j] in multiset(t);
      if t[j] != m {
        assert t[j] in multiset(s[1..]);
        var k :| 0 <= k < |s[1..]| && s[1..][k] == t[j];
        assert s[k + 1] == t[j];
      }
    }
  }

  /**
    The rows of `SELECT ... ORDER BY field_name`: a stable insertion sort, so
    rows with equal names keep their storage order.
    */
  function SortByField(ms: seq<Mapping>): (r: seq<Mapping>)
    ensures ByFieldName(r)
    ensures multiset(r) == multiset(ms)
  {
    if ms == [] then []
    else
      assert ms == ms[..|ms| - 1] + [ms[|ms| - 1]];
      InsertByField(SortByField(ms[..|ms| - 1]), ms[|ms| - 1])
  }

  /** The insert statements for `ms`, in order. */
  function Inserts(ms: seq<Mapping>): seq<Statement> {
    if ms == [] then [] else Inserts(ms[..|ms| - 1]) + [InsertMapping(ms[|ms| - 1])]
  }

  /**
    A connection to the database. `beginFails`, `deleteFails`, `rejected` and
    `commitFails` say which statements the server refuses.
    */
  class Connection {
    var templates: map<int, seq<bv8>>
    var mappings: seq<Mapping>
    var cells: map<CellKey, Option<Value>>
    const beginFails: bool
    const deleteFails: bool
    const rejected: set<Mapping>
    const commitFails: bool
    var inTransaction: bool
    var snapshot: seq<Mapping>
    ghost var log: seq<Statement>

    constructor(templates: map<int, seq<bv8>>, mappings: seq<Mapping>, cells: map<CellKey, Option<Value>>,
                beginFails: bool, deleteFails: bool, rejected: set<Mapping>, commitFails: bool)
      ensures this.templates == templates && this.mappings == mappings && this.cells == cells
      ensures this.beginFails == beginFails && this.deleteFails == deleteFails
      ensures this.rejected == rejected && this.commitFails == commitFails
      ensures !inTransaction && log == []
    {
      this.templates := templates;
      this.mappings := mappings;
      this.cells := cells;
      this.beginFails := beginFails;
      this.deleteFails := deleteFails;
      this.rejected := rejected;
      this.commitFails := commitFails;
      inTransaction := false;
      snapshot := [];
      log := [];
    }

    /** The row a cell query returns: `None` when there is none, `Some(None)` for NULL. */
    function RowAt(cell: CellKey): Option<Option<Value>>
      reads this
    {
      if cell in cells then Some(cells[cell]) else None
    }

    /**
      `db.transaction()`: refused when the server refuses it. A call while a
      transaction is open is refused too, a choice of this model; every
      operation here that opens a transaction closes it before returning.
      */
    method Transaction() returns (ok: bool)
      modifies this`inTransaction, this`snapshot, this`log
      ensures ok == (!beginFails && !old(inTransaction))
      ensures log == old(log) + [Begin]
      ensures ok ==> inTransaction && snapshot == mappings
      ensures !ok ==> inTransaction == old(inTransaction) && snapshot == old(snapshot)
    {
      log := log + [Begin];
      ok := !beginFails && !inTransaction;
      if ok {
        inTransaction := true;
        snapshot := mappings;
      }
    }

    /** `DELETE FROM krd.field_mappings WHERE template_id = ?`. */
    method DeleteMappingsOf(tid: int) returns (ok: bool)
      modifies this`mappings, this`log
      ensures ok == !deleteFails
      ensures mappings == if ok then Without(old(mappings), tid) else old(mappings)
      ensures log == old(log) + [DeleteMappings(tid)]
    {
      log := log + [DeleteMappings(tid)];
      ok := !deleteFails;
      if ok {
        mappings := Without(mappings, tid);
      }
    }

    /** `INSERT INTO krd.field_mappings (...) VALUES (?, ?, ?, ?)`. */
    method Insert(m: Mapping) returns (ok: bool)
      modifies this`mappings, this`log
      ensures ok == (m !in rejected)
      ensures mappings == if ok then old(mappings) + [m] else old(mappings)
      ensures log == old(log) + [InsertMapping(m)]
    {
      log := log + [InsertMapping(m)];
      ok := m !in rejected;
      if ok {
        mappings := mappings + [m];
      }
    }

    /** `db.commit()`: closes the open transaction unless the server refuses. */
    method CommitTransaction() returns (ok: bool)
      modifies this`inTransaction, this`log
      ensures ok == (old(inTransaction) && !commitFails)
      ensures inTransaction == (old(inTransaction) && !ok)
      ensures log == old(log) + [Commit]
    {
      log := log + [Commit];
      ok := inTransaction && !commitFails;
      if ok {
        inTransaction := false;
      }
    }

    /** `db.rollback()`: restores the mappings as they were when the open transaction began. */
    method RollbackTransaction()
      modifies this`mappings, this`inTransaction, this`log
      ensures mappings == if old(inTransaction) then snapshot else old(mappings)
      ensures !inTransaction
      ensures log == old(log) + [Rollback]
    {
      log := log + [Rollback];
      if inTransaction {
        mappings := snapshot;
        inTransaction := false;
      }
    }

    /** `SELECT field_name, db_column, table_name FROM krd.field_mappings WHERE template_id = ?`. */
    method SelectMappings(tid: int) returns (rows: seq<Mapping>)
      ensures rows == MappingsOf(mappings, tid)
    {
      rows := MappingsOf(mappings, tid);
    }

    /** `SELECT field_name, db_column, table_name FROM krd.field_mappings WHERE template_id = ? ORDER BY field_name`. */
    method SelectMappingsByField(tid: int) returns (rows: seq<Mapping>)
      ensures rows == SortByField(MappingsOf(mappings, tid))
    {
      rows := SortByField(MappingsOf(mappings, tid));
    }

    /** `SELECT template_data FROM krd.document_templates WHERE id = ?`; a NULL blob reads as empty. */
    method SelectTemplate(tid: int) returns (data: Option<seq<bv8>>)
      ensures data == if tid in templates then Some(templates[tid]) else None
    {
      data := if tid in templates then Some(templates[tid]) else None;
    }

    /** A cell query: the row it returns, if any. */
    method SelectCell(cell: CellKey) returns (row: Option<Option<Value>>)
      modifies this`log
      ensures row == RowAt(cell)
      ensures log == old(log) + [Select(cell)]
    {
      log := log + [Select(cell)];
      row := RowAt(cell);
    }
  }
}
