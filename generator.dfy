/**
  The document generation tab of a record card: it collects the placeholders
  of a stored .docx template, keeps the editor's placeholder-to-column
  mappings, saves them in one transaction, looks up each mapped value for the
  card's record and renders the template by replacing placeholders paragraph
  by paragraph.
  */
module Generator {
  import opened Wrappers
  import opened Text
  import opened Placeholders
  import opened StringOrder
  import opened Context
  import opened Catalog
  import opened Values
  import opened Database
  import opened Document

  /**
    A row of the mapping editor: the text of the placeholder picker and of the
    column picker, `None` where the row has no widget.
    */
  datatype MappingRow = MappingRow(variable: Option<string>, column: Option<string>)

  /** How the Generate action ends. */
  datatype Outcome =
    | NoTemplateSelected
    | MappingsNotSaved
    | TemplateNotFound
    | TemplateEmpty
    | Unreadable
    | Generated(replacements: nat)

  /** A template id that selects a template: present and not zero, as `if tid:` tests it. */
  predicate Picked(tid: Option<int>) {
    tid.Some? && tid.value != 0
  }

  /** The placeholders offered when the template cannot be opened as a document. */
  function Fallback(): seq<string> {
    [ "{{surname}}", "{{name}}", "{{patronymic}}", "{{birth_date}}",
      "{{birth_place_town}}", "{{registration_address}}", "{{passport_series}}",
      "{{passport_number}}", "{{passport_issue_date}}", "{{passport_issued_by}}",
      "{{recipient_fio}}", "{{recipient_address}}", "{{recipient_phone}}",
      "{{response_address}}", "{{contact_phone}}", "{{signatory_name}}" ]
  }

  /** The fallback list has sixteen entries. */
  lemma FallbackShape()
    ensures |Fallback()| == 16
  {
  }

  /** Unlike a collected list, the fallback list keeps its own order: `{{surname}}` comes before `{{name}}`. */
  lemma FallbackNotSorted()
    ensures !StrictlyAscending(Fallback())
  {
    assert !Less(Fallback()[0], Fallback()[1]);
  }

  // ---------------------------------------------------------------------
  // Saving the mapping editor
  // ---------------------------------------------------------------------

  /**
    The row the editor row becomes: placeholder and column text stripped of
    surrounding whitespace, with the table that owns the column. A row
    without widgets, with an empty side or with a column no table has gives
    nothing.
    */
  function RowMapping(tid: int, row: MappingRow, schema: Schema): Option<Mapping> {
    if row.variable.None? || row.column.None? then None
    else
      var fieldName := StripWhitespace(row.variable.value);
      var dbColumn := StripWhitespace(row.column.value);
      var table := Owner(schema, dbColumn);
      if fieldName == [] || dbColumn == [] || table.None? then None
      else Some(Mapping(tid, fieldName, dbColumn, table.value))
  }

  /** The rows a save inserts, in editor order. */
  function ValidMappings(tid: int, rows: seq<MappingRow>, schema: Schema): seq<Mapping>
    decreases |rows|
  {
    if rows == [] then []
    else
      var init := ValidMappings(tid, rows[..|rows| - 1], schema);
      match RowMapping(tid, rows[|rows| - 1], schema)
      case None => init
      case Some(m) => init + [m]
  }

  /** Some editor row among `rows` yields `m`. */
  ghost predicate Yields(tid: int, rows: seq<MappingRow>, schema: Schema, m: Mapping) {
    Reaches(rows, row => RowMapping(tid, row, schema), Some(m))
  }

  lemma YieldsAt(tid: int, rows: seq<MappingRow>, schema: Schema, i: int, m: Mapping)
    requires 0 <= i < |rows| && RowMapping(tid, rows[i], schema) == Some(m)
    ensures Yields(tid, rows, schema, m)
  {
    assert (row => RowMapping(tid, row, schema))(rows[i]) == Some(m);
  }

  /** None of `ms` is among the rows the server refuses. */
  predicate Accepted(ms: seq<Mapping>, rejected: set<Mapping>) {
    forall m :: m in ms ==> m !in rejected
  }

  /** A row whose mapping the server refuses makes the insert loop fail. */
  lemma RefusedRowRefusesSave(tid: int, rows: seq<MappingRow>, schema: Schema, i: int, rejected: set<Mapping>)
    requires 0 <= i < |rows| && RowMapping(tid, rows[i], schema).Some?
    requires RowMapping(tid, rows[i], schema).value in rejected
    ensures !Accepted(ValidMappings(tid, rows, schema), rejected)
  {
    YieldsAt(tid, rows, schema, i, RowMapping(tid, rows[i], schema).value);
    ValidMappingsMembers(tid, rows, schema);
  }

  /** A mapping is inserted exactly when some editor row yields it. */
  lemma {:induction false} ValidMappingsMembers(tid: int, rows: seq<MappingRow>, schema: Schema)
    ensures forall m :: m in ValidMappings(tid, rows, schema) <==> Yields(tid, rows, schema, m)
    decreases |rows|
  {
    if rows != [] {
      ValidMappingsMembers(tid, rows[..|rows| - 1], schema);
      forall m ensures m in ValidMappings(tid, rows, schema) <==> Yields(tid, rows, schema, m) {
        ReachesSnoc(rows, row => RowMapping(tid, row, schema), Some(m));
      }
    }
  }

  /**
    A row yields a mapping of the template with the editor's texts stripped
    of surrounding whitespace, non-empty, and stored with the table that owns
    the column.
    */
  lemma RowMappingSound(tid: int, row: MappingRow, schema: Schema)
    ensures var r := RowMapping(tid, row, schema);
            r.Some? ==> r.value.templateId == tid && r.value.fieldName != [] && r.value.dbColumn != []
                        && Owner(schema, r.value.dbColumn) == Some(r.value.tableName)
                        && row.variable.Some? && row.column.Some?
                        && r.value.fieldName == StripWhitespace(row.variable.value)
                        && r.value.dbColumn == StripWhitespace(row.column.value)
  {
  }

  /** One more editor row adds its mapping, if it yields one, at the end. */
  lemma ValidMappingsStep(tid: int, rows: seq<MappingRow>, schema: Schema, i: int)
    requires 0 <= i < |rows|
    ensures ValidMappings(tid, rows[..i + 1], schema)
            == ValidMappings(tid, rows[..i], schema)
               + (match RowMapping(tid, rows[i], schema) case None => [] case Some(m) => [m])
  {
    assert rows[..i + 1][..i] == rows[..i];
  }

  lemma LogStep(log: seq<Statement>, ms: seq<Mapping>, m: Mapping)
    ensures log + Inserts(ms) + [InsertMapping(m)] == log + Inserts(ms + [m])
  {
    assert (ms + [m])[..|ms|] == ms;
  }

  lemma AppendStep(base: seq<Mapping>, ms: seq<Mapping>, m: Mapping)
    ensures base + ms + [m] == base + (ms + [m])
  {
  }

  /**
    Every inserted row belongs to the template, has non-empty names free of
    surrounding whitespace, and names the table that owns its column.
    */
  lemma ValidMappingsSound(tid: int, rows: seq<MappingRow>, schema: Schema)
    ensures forall m :: m in ValidMappings(tid, rows, schema) ==>
              m.templateId == tid && m.fieldName != [] && m.dbColumn != []
              && StripWhitespace(m.fieldName) == m.fieldName && StripWhitespace(m.dbColumn) == m.dbColumn
              && Owner(schema, m.dbColumn) == Some(m.tableName)
  {
    ValidMappingsMembers(tid, rows, schema);
    forall m | m in ValidMappings(tid, rows, schema)
      ensures m.templateId == tid && m.fieldName != [] && m.dbColumn != []
              && StripWhitespace(m.fieldName) == m.fieldName && StripWhitespace(m.dbColumn) == m.dbColumn
              && Owner(schema, m.dbColumn) == Some(m.tableName)
    {
      var i :| 0 <= i < |rows| && (row => RowMapping(tid, row, schema))(rows[i]) == Some(m);
      RowMappingSound(tid, rows[i], schema);
      StripIdempotent(rows[i].variable.value, IsWhitespace);
      StripIdempotent(rows[i].column.value, IsWhitespace);
    }
  }

  // ---------------------------------------------------------------------
  // Loading the mapping editor
  // ---------------------------------------------------------------------

  /**
    The text a non-editable combo box shows once filled with `items` and
    asked to show `text`: the text when it is an item, else the first item
    (selected when the first item was added), else nothing.
    */
  function Shown(items: seq<string>, text: string): (r: string)
    ensures r in items || (items == [] && r == [])
    ensures text in items <==> items != [] && r == text
  {
    if text in items then text else if items == [] then [] else items[0]
  }

  /**
    The editor row a stored mapping becomes: the placeholder picker offers the
    template's placeholders, the column picker the columns of the mapping's
    table.
    */
  function EditorRow(m: Mapping, vars: seq<string>, schema: Schema): MappingRow {
    MappingRow(Some(Shown(vars, m.fieldName)), Some(Shown(ColumnsOf(schema, m.tableName), m.dbColumn)))
  }

  /** The editor rows for the stored mappings, one per mapping, in the order read. */
  function EditorRows(ms: seq<Mapping>, vars: seq<string>, schema: Schema): (rows: seq<MappingRow>)
    ensures |rows| == |ms|
    ensures forall i :: 0 <= i < |ms| ==> rows[i] == EditorRow(ms[i], vars, schema)
  {
    seq(|ms|, i requires 0 <= i < |ms| => EditorRow(ms[i], vars, schema))
  }

  /** The rows for a prefix of the mappings are a prefix of the rows. */
  lemma EditorRowsPrefix(ms: seq<Mapping>, vars: seq<string>, schema: Schema, n: nat)
    requires n <= |ms|
    ensures EditorRows(ms, vars, schema)[..n] == EditorRows(ms[..n], vars, schema)
  {
  }

  /** One more mapping read adds its row at the end. */
  lemma EditorRowsSnoc(ms: seq<Mapping>, vars: seq<string>, schema: Schema, k: nat)
    requires k < |ms|
    ensures EditorRows(ms[..k + 1], vars, schema) == EditorRows(ms[..k], vars, schema) + [EditorRow(ms[k], vars, schema)]
  {
  }

  /**
    A stored mapping the editor shows as it is: its field name is among the
    template's placeholders and its column among its table's columns, both
    are non-empty and already stripped, and the table is the column's owner.
    */
  predicate Displayable(m: Mapping, vars: seq<string>, schema: Schema) {
    m.fieldName in vars && m.dbColumn in ColumnsOf(schema, m.tableName)
    && m.fieldName != [] && StripWhitespace(m.fieldName) == m.fieldName
    && m.dbColumn != [] && StripWhitespace(m.dbColumn) == m.dbColumn
    && Owner(schema, m.dbColumn) == Some(m.tableName)
  }

  /** The editor row of a displayable mapping saves as that same mapping. */
  lemma DisplayedRowSavesBack(tid: int, m: Mapping, vars: seq<string>, schema: Schema)
    requires m.templateId == tid && Displayable(m, vars, schema)
    ensures RowMapping(tid, EditorRow(m, vars, schema), schema) == Some(m)
  {
  }

  /** Every mapping of `ms` belongs to `tid` and is displayable. */
  predicate AllDisplayable(tid: int, ms: seq<Mapping>, vars: seq<string>, schema: Schema) {
    forall i :: 0 <= i < |ms| ==> ms[i].templateId == tid && Displayable(ms[i], vars, schema)
  }

  lemma AllDisplayablePrefix(tid: int, ms: seq<Mapping>, vars: seq<string>, schema: Schema, n: nat)
    requires n <= |ms| && AllDisplayable(tid, ms, vars, schema)
    ensures AllDisplayable(tid, ms[..n], vars, schema)
  {
    forall i | 0 <= i < n ensures ms[..n][i] == ms[i] { }
  }

  /** Saving the editor rows of displayable mappings writes back exactly those mappings, in order. */
  lemma {:induction false} ReloadSavesBack(tid: int, ms: seq<Mapping>, vars: seq<string>, schema: Schema)
    requires AllDisplayable(tid, ms, vars, schema)
    ensures ValidMappings(tid, EditorRows(ms, vars, schema), schema) == ms
    decreases |ms|
  {
    if ms != [] {
      var n := |ms| - 1;
      var init := ms[..n];
      var rows := EditorRows(ms, vars, schema);
      EditorRowsPrefix(ms, vars, schema, n);
      AllDisplayablePrefix(tid, ms, vars, schema, n);
      ReloadSavesBack(tid, init, vars, schema);
      DisplayedRowSavesBack(tid, ms[n], vars, schema);
      ValidMappingsSnoc(tid, rows, schema, ms[n]);
      LastSplit(ms);
    }
  }

  lemma LastSplit(ms: seq<Mapping>)
    requires ms != []
    ensures ms == ms[..|ms| - 1] + [ms[|ms| - 1]]
  {
  }

  /** A last row that yields `m` appends `m` to what the earlier rows insert. */
  lemma ValidMappingsSnoc(tid: int, rows: seq<MappingRow>, schema: Schema, m: Mapping)
    requires rows != [] && RowMapping(tid, rows[|rows| - 1], schema) == Some(m)
    ensures ValidMappings(tid, rows, schema) == ValidMappings(tid, rows[..|rows| - 1], schema) + [m]
  {
  }

  /**
    A saved mapping whose field name is still among the placeholders is
    displayable, when the catalog's table names are distinct.
    */
  lemma SavedMappingDisplayable(tid: int, rows: seq<MappingRow>, schema: Schema, vars: seq<string>, m: Mapping)
    requires DistinctNames(schema)
    requires m in ValidMappings(tid, rows, schema) && m.fieldName in vars
    ensures m.templateId == tid && Displayable(m, vars, schema)
  {
    ValidMappingsSound(tid, rows, schema);
    OwnerListsColumn(schema, m.dbColumn);
  }

  /**
    Saved mappings survive a reload: reading them back in field-name order
    and saving the editor again writes the same rows, provided the template
    still offers every saved field name.
    */
  lemma SavedMappingsReload(tid: int, rows: seq<MappingRow>, schema: Schema, vars: seq<string>)
    requires DistinctNames(schema)
    requires forall m :: m in ValidMappings(tid, rows, schema) ==> m.fieldName in vars
    ensures var reread := SortByField(ValidMappings(tid, rows, schema));
            ValidMappings(tid, EditorRows(reread, vars, schema), schema) == reread
  {
    var saved := ValidMappings(tid, rows, schema);
    var reread := SortByField(saved);
    forall i | 0 <= i < |reread| ensures reread[i].templateId == tid && Displayable(reread[i], vars, schema) {
      assert reread[i] in multiset(reread);
      SavedMappingDisplayable(tid, rows, schema, vars, reread[i]);
    }
    assert AllDisplayable(tid, reread, vars, schema);
    ReloadSavesBack(tid, reread, vars, schema);
  }

  // ---------------------------------------------------------------------
  // Looking up values
  // ---------------------------------------------------------------------

  /**
    The text `_get_value_from_database` returns for a column of a table and a
    record key: nothing unless both names pass the identifier check,
    otherwise the text of the cell the query reads.
    */
  function ValueOf(cells: map<CellKey, Option<Value>>, table: string, column: string, key: int): (s: string)
    ensures !MatchesIdentifier(table) || !MatchesIdentifier(column) ==> s == ""
  {
    if MatchesIdentifier(table) && MatchesIdentifier(column) then
      var cell := CellKey(table, column, JoinColumn(table), key);
      CellText(if cell in cells then Some(cells[cell]) else None)
    else
      ""
  }

  /** A name holding a character that is neither a word character nor a final newline reads nothing. */
  lemma InjectionRefused(cells: map<CellKey, Option<Value>>, table: string, column: string, key: int, name: string, i: int)
    requires name == table || name == column
    requires 0 <= i < |name| && !IsWordChar(name[i]) && !(i == |name| - 1 && name[i] == '\n')
    ensures ValueOf(cells, table, column, key) == ""
  {
    IdentifierCharacters(name);
  }

  /** The context key a stored mapping assigns: its field name stripped of braces and spaces. */
  function MappingKey(m: Mapping): string {
    NormaliseKey(m.fieldName)
  }

  /** The value a stored mapping contributes for the record `key`. */
  function MappingValue(cells: map<CellKey, Option<Value>>, key: int): Mapping -> string {
    (m: Mapping) => ValueOf(cells, m.tableName, m.dbColumn, key)
  }

  /** The substitution context built from a template's stored mappings, in the order they are read. */
  function ContextOf(ms: seq<Mapping>, cells: map<CellKey, Option<Value>>, key: int): seq<Entry> {
    PutFold(ms, MappingKey, MappingValue(cells, key))
  }

  /** Reading one more mapping assigns its key. */
  lemma ContextOfPrefix(ms: seq<Mapping>, cells: map<CellKey, Option<Value>>, key: int, i: nat)
    requires i < |ms|
    ensures ContextOf(ms[..i + 1], cells, key)
            == Put(ContextOf(ms[..i], cells, key), NormaliseKey(ms[i].fieldName),
                   ValueOf(cells, ms[i].tableName, ms[i].dbColumn, key))
  {
    assert ms[..i + 1][..i] == ms[..i];
  }

  /** No key occurs twice in the context. */
  lemma ContextDistinct(ms: seq<Mapping>, cells: map<CellKey, Option<Value>>, key: int)
    ensures DistinctKeys(ContextOf(ms, cells, key))
  {
    PutFoldDistinct(ms, MappingKey, MappingValue(cells, key));
  }

  /** Some mapping among `ms` has the key `k` once normalised. */
  ghost predicate HasKey(ms: seq<Mapping>, k: string) {
    Reaches(ms, MappingKey, k)
  }

  /** The context's keys are exactly the normalised field names of the mappings. */
  lemma ContextKeys(ms: seq<Mapping>, cells: map<CellKey, Option<Value>>, key: int)
    ensures forall k :: k in Keys(ContextOf(ms, cells, key)) <==> HasKey(ms, k)
  {
    PutFoldKeys(ms, MappingKey, MappingValue(cells, key));
  }

  /**
    When several mappings normalise to the same key, the last one read
    decides the value.
    */
  lemma LastMappingWins(ms: seq<Mapping>, cells: map<CellKey, Option<Value>>, key: int, i: int)
    requires 0 <= i < |ms|
    requires forall j :: i < j < |ms| ==> NormaliseKey(ms[j].fieldName) != NormaliseKey(ms[i].fieldName)
    ensures Get(ContextOf(ms, cells, key), NormaliseKey(ms[i].fieldName))
            == Some(ValueOf(cells, ms[i].tableName, ms[i].dbColumn, key))
  {
    PutFoldLastWins(ms, MappingKey, MappingValue(cells, key), i);
  }

  /**
    The placeholders `load_template_variables` collects for template `tid`
    among the stored `templates`: none for a missing or empty template, the
    fallback list for one that does not open, and otherwise the distinct
    tokens of the body and table-cell paragraphs in ascending order.
    */
  ghost predicate VariablesFor(templates: map<int, seq<bv8>>, tid: int, parse: seq<bv8> -> Option<Docx>, vars: seq<string>) {
    (tid !in templates || templates[tid] == [] ==> vars == [])
    && (tid in templates && templates[tid] != [] && parse(templates[tid]).None?
        ==> vars == Fallback())
    && (tid in templates && templates[tid] != [] && parse(templates[tid]).Some?
        ==> StrictlyAscending(vars)
            && forall v :: v in vars <==> v in FoundTokens(parse(templates[tid]).value))
  }

  // ---------------------------------------------------------------------
  // The tab
  // ---------------------------------------------------------------------

  class DocumentGeneratorTab {
    const db: Connection
    const krdId: int
    var templateVariables: seq<string>
    var dbColumns: Schema
    var mappingTable: seq<MappingRow>
    /** The id held by the template picker's current item, if it has one. */
    var currentTemplate: Option<int>
    /** The rendered document kept for saving; it stands for the generated temporary file. */
    var generatedDocument: Option<Doc>

    /**
      Creates the tab and fills the template picker. Adding the first
      template, `first` (the first by name), selects it, which loads its
      placeholders, the catalog and its mappings into the editor; with no
      template the editor stays empty.
      */
    constructor(krdId: int, db: Connection, first: Option<int>, parse: seq<bv8> -> Option<Docx>)
      ensures this.krdId == krdId && this.db == db
      ensures currentTemplate == first && generatedDocument == None
      ensures Picked(first) ==> ShowsTemplate(first.value, parse)
      ensures !Picked(first) ==> templateVariables == [] && dbColumns == [] && mappingTable == []
      ensures CatalogLoaded()
    {
      this.krdId := krdId;
      this.db := db;
      templateVariables := [];
      dbColumns := [];
      mappingTable := [];
      currentTemplate := None;
      generatedDocument := None;
      new;
      OnTemplateChanged(first, parse);
    }

    /** Whenever a template is selected, the column catalog has been loaded. */
    predicate CatalogLoaded()
      reads this
    {
      Picked(currentTemplate) ==> dbColumns == Tables()
    }

    /**
      The editor shows template `tid`: its placeholders, the catalog, and one
      row per stored mapping in field-name order.
      */
    ghost predicate ShowsTemplate(tid: int, parse: seq<bv8> -> Option<Docx>)
      reads this, db
    {
      VariablesFor(db.templates, tid, parse, templateVariables)
      && dbColumns == Tables()
      && mappingTable == EditorRows(SortByField(MappingsOf(db.mappings, tid)), templateVariables, dbColumns)
    }

    /** The picker's current item changes to `tid`; a real template is loaded into the editor. */
    method OnTemplateChanged(tid: Option<int>, parse: seq<bv8> -> Option<Docx>)
      modifies this`currentTemplate, this`templateVariables, this`dbColumns, this`mappingTable
      ensures currentTemplate == tid
      ensures Picked(tid) ==> ShowsTemplate(tid.value, parse)
      ensures !Picked(tid) ==> templateVariables == old(templateVariables) && dbColumns == old(dbColumns)
                               && mappingTable == old(mappingTable)
      ensures CatalogLoaded()
    {
      currentTemplate := tid;
      if Picked(tid) {
        LoadFieldMappings(tid.value, parse);
      }
    }

    /**
      Loads the editor for `tid`: the template's placeholders, the catalog,
      then the rows of its stored mappings.
      */
    method LoadFieldMappings(tid: int, parse: seq<bv8> -> Option<Docx>)
      modifies this`templateVariables, this`dbColumns, this`mappingTable
      ensures ShowsTemplate(tid, parse)
    {
      mappingTable := [];
      LoadTemplateVariables(tid, parse);
      LoadDbColumns();
      FillMappingTable(tid);
    }

    /**
      One editor row per stored mapping of `tid`, read in field-name order;
      each picker shows the stored text when it offers it.
      */
    method FillMappingTable(tid: int)
      modifies this`mappingTable
      ensures mappingTable == EditorRows(SortByField(MappingsOf(db.mappings, tid)), templateVariables, dbColumns)
    {
      var rows := db.SelectMappingsByField(tid);
      mappingTable := [];
      var k := 0;
      while k < |rows|
        invariant 0 <= k <= |rows|
        invariant mappingTable == EditorRows(rows[..k], templateVariables, dbColumns)
      {
        var m := rows[k];
        var variable := Shown(templateVariables, m.fieldName);
        var column := Shown(ColumnsOf(dbColumns, m.tableName), m.dbColumn);
        mappingTable := mappingTable + [MappingRow(Some(variable), Some(column))];
        EditorRowsSnoc(rows, templateVariables, dbColumns, k);
        k := k + 1;
      }
      assert rows[..k] == rows;
    }

    /** The user edits the mapping table: adds, changes or removes rows. */
    method EditMappings(rows: seq<MappingRow>)
      modifies this`mappingTable
      ensures mappingTable == rows
    {
      mappingTable := rows;
    }

    /** Whether saving the mappings of `tid` succeeds in the current state. */
    predicate SaveSucceeds(tid: int)
      reads this, db
    {
      !db.inTransaction && !db.beginFails && !db.deleteFails && !db.commitFails
      && Accepted(ValidMappings(tid, mappingTable, dbColumns), db.rejected)
    }

    /** Collects the placeholders of a stored template, as `VariablesFor` describes them. */
    method LoadTemplateVariables(tid: int, parse: seq<bv8> -> Option<Docx>)
      modifies this`templateVariables
      ensures VariablesFor(db.templates, tid, parse, templateVariables)
    {
      var data := db.SelectTemplate(tid);
      if data.None? || data.value == [] {
        templateVariables := [];
        return;
      }
      var doc := parse(data.value);
      if doc.None? {
        templateVariables := Fallback();
        return;
      }
      var d := doc.value;
      ExtractionInStore(d);
      var order := ExtractionOrder(d);
      var found: set<string> := {};
      var k := 0;
      while k < |order|
        invariant 0 <= k <= |order|
        invariant found == TokensIn(d.store, order[..k])
      {
        found := found + Elements(FindTokens(TextOf(d.store[order[k]])));
        TokensInPrefix(d.store, order, k);
        k := k + 1;
      }
      assert order[..k] == order;
      templateVariables := SortedOf(found);
    }

    /** Fills the column catalog. */
    method LoadDbColumns()
      modifies this`dbColumns
      ensures dbColumns == Tables()
    {
      dbColumns := Tables();
    }

    /**
      Saves the editor's mappings for `tid` in one transaction: delete the
      template's mappings, insert each valid row, commit. Any refused
      statement rolls everything back and the save reports failure.
      */
    method SaveFieldMappings(tid: int) returns (ok: bool)
      modifies db`mappings, db`inTransaction, db`snapshot, db`log
      ensures ok == old(SaveSucceeds(tid))
      ensures ok ==> db.mappings == Without(old(db.mappings), tid) + ValidMappings(tid, mappingTable, dbColumns)
      ensures ok ==> db.log == old(db.log) + [Begin, DeleteMappings(tid)]
                              + Inserts(ValidMappings(tid, mappingTable, dbColumns)) + [Commit]
      ensures !ok ==> db.mappings == if old(db.inTransaction) then old(db.snapshot) else old(db.mappings)
      ensures !db.inTransaction
    {
      ghost var valid := ValidMappings(tid, mappingTable, dbColumns);
      ghost var writable := Accepted(valid, db.rejected);
      ghost var log0 := db.log;
      var began := db.Transaction();
      if !began {
        db.RollbackTransaction();
        return false;
      }
      assert ValidMappings(tid, mappingTable, dbColumns) == valid;
      ok := WriteMappings(tid);
      assert ok == (!db.deleteFails && !db.commitFails && writable);
      assert ok ==> db.log == log0 + [Begin, DeleteMappings(tid)] + Inserts(valid) + [Commit] by {
        assert log0 + [Begin] + [DeleteMappings(tid)] == log0 + [Begin, DeleteMappings(tid)];
      }
    }

    /**
      The statements of a save once its transaction is open: delete, insert
      each valid row, commit; a refused statement rolls back to the snapshot
      taken when the transaction began.
      */
    method WriteMappings(tid: int) returns (ok: bool)
      requires db.inTransaction && db.snapshot == db.mappings
      modifies db`mappings, db`inTransaction, db`log
      ensures ok == (!db.deleteFails && !db.commitFails
                     && Accepted(ValidMappings(tid, mappingTable, dbColumns), db.rejected))
      ensures ok ==> db.mappings == Without(old(db.mappings), tid) + ValidMappings(tid, mappingTable, dbColumns)
      ensures ok ==> db.log == old(db.log) + [DeleteMappings(tid)]
                              + Inserts(ValidMappings(tid, mappingTable, dbColumns)) + [Commit]
      ensures !ok ==> db.mappings == old(db.mappings)
      ensures !db.inTransaction
    {
      var deleted := db.DeleteMappingsOf(tid);
      if !deleted {
        db.RollbackTransaction();
        return false;
      }
      var inserted := InsertRows(tid);
      if !inserted {
        db.RollbackTransaction();
        return false;
      }
      var committed := db.CommitTransaction();
      if !committed {
        db.RollbackTransaction();
        return false;
      }
      ok := true;
    }

    /**
      The insert loop of a save: each editor row that yields a mapping is
      inserted in turn, stopping at the first insert the server refuses.
      */
    method InsertRows(tid: int) returns (ok: bool)
      modifies db`mappings, db`log
      ensures ok <==> Accepted(ValidMappings(tid, mappingTable, dbColumns), db.rejected)
      ensures ok ==> db.mappings == old(db.mappings) + ValidMappings(tid, mappingTable, dbColumns)
      ensures ok ==> db.log == old(db.log) + Inserts(ValidMappings(tid, mappingTable, dbColumns))
    {
      var i := 0;
      ghost var added: seq<Mapping> := [];
      while i < |mappingTable|
        invariant 0 <= i <= |mappingTable|
        invariant added == ValidMappings(tid, mappingTable[..i], dbColumns)
        invariant db.mappings == old(db.mappings) + added
        invariant db.log == old(db.log) + Inserts(added)
        invariant Accepted(added, db.rejected)
      {
        ValidMappingsStep(tid, mappingTable, dbColumns, i);
        // stripped texts and owning table, or nothing for a row to skip
        var row := RowMapping(tid, mappingTable[i], dbColumns);
        if row.Some? {
          var inserted := db.Insert(row.value);
          if !inserted {
            RefusedRowRefusesSave(tid, mappingTable, dbColumns, i, db.rejected);
            return false;
          }
          LogStep(old(db.log), added, row.value);
          AppendStep(old(db.mappings), added, row.value);
          added := added + [row.value];
        }
        i := i + 1;
      }
      assert mappingTable[..i] == mappingTable;
      ok := true;
    }

    /**
      The text of `column` in `table` for record `key`. Names that fail the
      identifier check give "" without any query; otherwise one query is
      issued, on `id` for the `krd` table and on `krd_id` for the others.
      */
    method GetValueFromDatabase(table: string, column: string, key: int) returns (s: string)
      modifies db`log
      ensures s == ValueOf(db.cells, table, column, key)
      ensures MatchesIdentifier(table) && MatchesIdentifier(column)
              ==> db.log == old(db.log) + [Select(CellKey(table, column, JoinColumn(table), key))]
      ensures !(MatchesIdentifier(table) && MatchesIdentifier(column)) ==> db.log == old(db.log)
    {
      var joinColumn := JoinColumn(table);
      if !MatchesIdentifier(table) || !MatchesIdentifier(column) {
        return "";
      }
      var row := db.SelectCell(CellKey(table, column, joinColumn, key));
      s := CellText(row);
    }

    /**
      The substitution context for `tid`: for each stored mapping, the key is
      its field name stripped of braces and spaces and the value is looked up
      for this card's record; the value is never `None`, so every mapping
      assigns its key.
      */
    method GetContextData(tid: int) returns (ctx: seq<Entry>)
      modifies db`log
      ensures ctx == ContextOf(MappingsOf(db.mappings, tid), db.cells, krdId)
    {
      var rows := db.SelectMappings(tid);
      ctx := [];
      var i := 0;
      while i < |rows|
        invariant 0 <= i <= |rows|
        invariant ctx == ContextOf(rows[..i], db.cells, krdId)
      {
        var m := rows[i];
        var fieldName := NormaliseKey(m.fieldName);
        var value := GetValueFromDatabase(m.tableName, m.dbColumn, krdId);
        ctx := Put(ctx, fieldName, value);
        ContextOfPrefix(rows, db.cells, krdId, i);
        i := i + 1;
      }
      assert rows[..i] == rows;
    }

    /**
      Replaces the placeholders of paragraph `p` in place and returns how
      many were replaced. The paragraph is rewritten only when its text
      changed: the first run takes the new text and keeps its formatting and
      the later runs are removed from the last one backwards; a paragraph
      without runs is cleared and given one new run.
      */
    method ReplaceTextInElement(store: array<Content>, p: nat, ctx: seq<Entry>) returns (replacements: nat)
      requires p < store.Length
      modifies store
      ensures replacements == ReplacedCount(old(store[p]), ctx)
      ensures store[..] == old(store[..])[p := ReplacedContent(old(store[p]), ctx)]
    {
      var original := TextOf(store[p]);
      if original == "" {
        return 0;
      }
      var newText;
      newText, replacements := SubstituteText(original, ctx);
      if newText != original {
        RewriteParagraph(store, p, newText);
      }
    }

    /**
      The context loop of the renderer: for each key in order, when its
      placeholder occurs in the text, count the occurrences and replace them
      all by the key's value.
      */
    method SubstituteText(original: string, ctx: seq<Entry>) returns (newText: string, replacements: nat)
      ensures (newText, replacements) == Substitution.Substitute(original, ctx)
    {
      newText := original;
      replacements := 0;
      var i := 0;
      while i < |ctx|
        invariant 0 <= i <= |ctx|
        invariant (newText, replacements) == Substitution.Substitute(original, ctx[..i])
      {
        var placeholder := Token(ctx[i].0);
        if Contains(newText, placeholder) {
          replacements := replacements + Count(newText, placeholder);
          newText := ReplaceAll(newText, placeholder, ctx[i].1);
        }
        assert ctx[..i + 1][..i] == ctx[..i];
        i := i + 1;
      }
      assert ctx[..i] == ctx;
    }

    /**
      Puts `newText` into paragraph `p`: the first run takes it, its saved
      formatting is written back and the later runs are removed from the last
      one backwards; a paragraph without runs is cleared and given one new
      Times New Roman run.
      */
    method RewriteParagraph(store: array<Content>, p: nat, newText: string)
      requires p < store.Length
      modifies store
      ensures store[..] == old(store[..])[p := Rewrite(old(store[p]), newText)]
    {
      var c := store[p];
      if HasRun(c) {
        var f := FirstRunIndex(c);
        var saved := c[f].run.style;
        // setting the text keeps the run's formatting
        var c1 := c[f := RunItem(Run(newText, c[f].run.style))];
        c1 := c1[f := RunItem(Run(newText, RestoreStyle(saved, c1[f].run.style)))];
        RewriteKeepsFirstRun(c, newText);
        assert c1 == c[f := RunItem(Run(newText, RestoreStyle(saved, saved)))];
        store[p] := c1;
        RemoveLaterRuns(store, p);
      } else {
        store[p] := [RunItem(Run(newText, NewRunStyle()))];
      }
    }

    /** Removes the runs of paragraph `p` after its first, from the last one backwards. */
    method RemoveLaterRuns(store: array<Content>, p: nat)
      requires p < store.Length && HasRun(store[p])
      modifies store
      ensures store[..] == old(store[..])[p := KeepRuns(old(store[p]), 1)]
    {
      var c := store[p];
      HasRunCount(c);
      var k := RunCount(c) - 1;
      KeepAllRuns(c, k + 1);
      while k > 0
        invariant 0 <= k < RunCount(c)
        invariant store[..] == old(store[..])[p := KeepRuns(c, k + 1)]
      {
        RemoveLastKept(c, k);
        store[p] := RemoveRun(store[p], k);
        k := k - 1;
      }
    }

    /**
      Replaces placeholders in each listed paragraph in turn, a paragraph
      listed twice being treated again in its new state, and totals the
      replacements.
      */
    method ReplaceInParagraphs(store: array<Content>, order: seq<nat>, ctx: seq<Entry>) returns (replacements: nat)
      requires InStore(order, store.Length)
      modifies store
      ensures (store[..], replacements) == Replay(order, ctx, old(store[..]))
    {
      replacements := 0;
      var k := 0;
      while k < |order|
        invariant 0 <= k <= |order|
        invariant InStore(order[..k], store.Length)
        invariant store[..] == Replay(order[..k], ctx, old(store[..])).0
        invariant replacements == Replay(order[..k], ctx, old(store[..])).1
      {
        ReplayPrefix(order, ctx, old(store[..]), k);
        var n := ReplaceTextInElement(store, order[k], ctx);
        replacements := replacements + n;
        k := k + 1;
      }
      assert order[..k] == order;
    }

    /**
      The Generate action for the picker's current template: save the
      mappings, then render the template with them.
      */
    method GenerateDocument(parse: seq<bv8> -> Option<Docx>) returns (outcome: Outcome)
      modifies db`mappings, db`inTransaction, db`snapshot, db`log, this`generatedDocument
      ensures outcome == NoTemplateSelected <==> !Picked(currentTemplate)
      ensures outcome == NoTemplateSelected ==> db.mappings == old(db.mappings) && db.log == old(db.log)
      ensures outcome == MappingsNotSaved <==> Picked(currentTemplate) && !old(SaveSucceeds(currentTemplate.value))
      ensures outcome == MappingsNotSaved
              ==> !db.inTransaction
                  && db.mappings == if old(db.inTransaction) then old(db.snapshot) else old(db.mappings)
      ensures outcome == NoTemplateSelected || outcome == MappingsNotSaved ==> generatedDocument == old(generatedDocument)
      ensures outcome != NoTemplateSelected && outcome != MappingsNotSaved
              ==> db.mappings == Without(old(db.mappings), currentTemplate.value)
                                 + ValidMappings(currentTemplate.value, mappingTable, dbColumns)
                  && Rendering(currentTemplate.value, parse, outcome, old(generatedDocument))
    {
      if !Picked(currentTemplate) {
        return NoTemplateSelected;
      }
      var tid := currentTemplate.value;
      var saved := SaveFieldMappings(tid);
      if !saved {
        return MappingsNotSaved;
      }
      outcome := RenderTemplate(tid, parse);
    }

    /**
      How rendering template `tid` ends: a missing row, an empty template or
      one that does not open each leave the previous document in place;
      otherwise the template is rendered with the context of its stored
      mappings.
      */
    ghost predicate Rendering(tid: int, parse: seq<bv8> -> Option<Docx>, outcome: Outcome, previous: Option<Doc>)
      reads this, db
    {
      (outcome == TemplateNotFound <==> tid !in db.templates)
      && (outcome == TemplateEmpty <==> tid in db.templates && db.templates[tid] == [])
      && (outcome == Unreadable <==> tid in db.templates && db.templates[tid] != [] && parse(db.templates[tid]).None?)
      && (!outcome.Generated? ==> generatedDocument == previous)
      && (outcome.Generated? ==>
            tid in db.templates && parse(db.templates[tid]).Some?
            && var d := parse(db.templates[tid]).value;
               var r := Replay(RenderOrder(d), ContextOf(MappingsOf(db.mappings, tid), db.cells, krdId), d.store);
               generatedDocument == Some(d.(store := r.0)) && outcome.replacements == r.1)
    }

    /**
      The part of the Generate action after the save: read and open the
      template, build the context, replace placeholders in body paragraphs,
      table cells, headers and footers, and keep the result.
      */
    method RenderTemplate(tid: int, parse: seq<bv8> -> Option<Docx>) returns (outcome: Outcome)
      modifies db`log, this`generatedDocument
      ensures outcome != NoTemplateSelected && outcome != MappingsNotSaved
      ensures Rendering(tid, parse, outcome, old(generatedDocument))
    {
      var data := db.SelectTemplate(tid);
      if data.None? {
        return TemplateNotFound;
      }
      if data.value == [] {
        return TemplateEmpty;
      }
      var doc := parse(data.value);
      if doc.None? {
        return Unreadable;
      }
      var d := doc.value;
      var ctx := GetContextData(tid);
      var store := new Content[|d.store|](i requires 0 <= i < |d.store| => d.store[i]);
      assert store[..] == d.store;
      var replacements := ReplaceInParagraphs(store, RenderOrder(d), ctx);
      generatedDocument := Some(d.(store := store[..]));
      outcome := Generated(replacements);
    }
  }
}
