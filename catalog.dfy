/**
  The column catalog the mapping editor offers: each table of the `krd`
  schema with the columns a placeholder may be mapped to, in the order of
  the dict literal that builds it, and the lookup of the table that owns a
  column.
  */
module Catalog {
  import opened Wrappers

  type Schema = seq<(string, seq<string>)>

  /** The dict `load_db_columns` assigns, in insertion order. */
  function Tables(): Schema {
    [ ("social_data", ["surname", "name", "patronymic", "birth_date", "birth_place_town",
                       "birth_place_district", "birth_place_region", "birth_place_country",
                       "tab_number", "personal_number", "category_id", "rank_id",
                       "drafted_by_commissariat", "draft_date", "povsk", "selection_date",
                       "education", "criminal_record", "social_media_account", "bank_card_number",
                       "passport_series", "passport_number", "passport_issue_date", "passport_issued_by",
                       "military_id_series", "military_id_number", "military_id_issue_date",
                       "military_id_issued_by", "appearance_features", "personal_marks",
                       "federal_search_info", "military_contacts", "relatives_info"]),
      ("addresses", ["region", "district", "town", "street", "house", "building", "letter", "apartment",
                     "room", "check_date", "check_result"]),
      ("service_places", ["place_name", "military_unit_id", "garrison_id", "position_id", "commanders",
                          "postal_index", "postal_region", "postal_district", "postal_town", "postal_street",
                          "postal_house", "postal_building", "postal_letter", "postal_apartment",
                          "postal_room", "place_contacts"]),
      ("users", ["username", "full_name", "email", "role_id", "is_active", "created_at", "last_login"]),
      ("statuses", ["name"]),
      ("ranks", ["name"]),
      ("categories", ["name"]),
      ("military_units", ["name"]),
      ("garrisons", ["name"]),
      ("positions", ["name"]) ]
  }

  /**
    The position of the first table, in catalog order, whose column list holds
    `col`; `|schema|` when there is none.
    */
  function OwnerIndex(schema: Schema, col: string): (i: nat)
    ensures i <= |schema|
    ensures forall j :: 0 <= j < i ==> col !in schema[j].1
    ensures i < |schema| ==> col in schema[i].1
  {
    if schema == [] then 0
    else if col in schema[0].1 then 0
    else 1 + OwnerIndex(schema[1..], col)
  }

  /** `get_table_by_column`: the first table that has the column, or `None`. */
  function Owner(schema: Schema, col: string): (r: Option<string>)
    ensures r.None? <==> forall j :: 0 <= j < |schema| ==> col !in schema[j].1
    ensures r.Some? ==> exists i :: 0 <= i < |schema| && schema[i].0 == r.value && col in schema[i].1
                                    && forall j :: 0 <= j < i ==> col !in schema[j].1
  {
    var i := OwnerIndex(schema, col);
    if i < |schema| then Some(schema[i].0) else None
  }

  /** The position of the first entry named `table`; `|schema|` when there is none. */
  function TableIndex(schema: Schema, table: string): (i: nat)
    ensures i <= |schema|
    ensures forall j :: 0 <= j < i ==> schema[j].0 != table
    ensures i < |schema| ==> schema[i].0 == table
  {
    if schema == [] then 0
    else if schema[0].0 == table then 0
    else 1 + TableIndex(schema[1..], table)
  }

  /** `db_columns[table]`: the columns of the entry named `table`, or none when no entry is. */
  function ColumnsOf(schema: Schema, table: string): (r: seq<string>)
    ensures (forall j :: 0 <= j < |schema| ==> schema[j].0 != table) ==> r == []
    ensures r != [] ==> exists i :: 0 <= i < |schema| && schema[i].0 == table && schema[i].1 == r
  {
    var i := TableIndex(schema, table);
    if i < |schema| then schema[i].1 else []
  }

  /** The first entry named `table` gives its columns. */
  lemma ColumnsOfFirst(schema: Schema, table: string, i: nat)
    requires i < |schema| && schema[i].0 == table
    requires forall j :: 0 <= j < i ==> schema[j].0 != table
    ensures ColumnsOf(schema, table) == schema[i].1
  {
    var k := TableIndex(schema, table);
    assert !(k > i);
  }

  /** No two entries have the same table name, as in a dict. */
  predicate DistinctNames(schema: Schema) {
    forall i, j :: 0 <= i < j < |schema| ==> schema[i].0 != schema[j].0
  }

  /** With distinct table names, a column is listed under the table that owns it. */
  lemma OwnerListsColumn(schema: Schema, col: string)
    requires DistinctNames(schema) && Owner(schema, col).Some?
    ensures col in ColumnsOf(schema, Owner(schema, col).value)
  {
    var i := OwnerIndex(schema, col);
    ColumnsOfFirst(schema, schema[i].0, i);
  }

  /** A table that has the column and comes before every other such table is the owner. */
  lemma OwnerIsFirst(schema: Schema, col: string, i: nat)
    requires i < |schema| && col in schema[i].1
    requires forall j :: 0 <= j < i ==> col !in schema[j].1
    ensures Owner(schema, col) == Some(schema[i].0)
  {
    var k := OwnerIndex(schema, col);
    assert !(k > i);
  }

  /** `name` is offered under six lookup tables too, but it resolves to `social_data`. */
  lemma NameResolvesToSocialData()
    ensures Owner(Tables(), "name") == Some("social_data")
  {
    OwnerIsFirst(Tables(), "name", 0);
  }

  /**
    When the first table lists `name` and every table from `k` on lists only
    `name`, the owner of any column is one of the first `k` tables or none.
    */
  lemma OwnerAmongFirst(schema: Schema, col: string, k: nat, excluded: set<string>)
    requires 0 < k <= |schema| && "name" in schema[0].1
    requires forall j :: k <= j < |schema| ==> schema[j].1 == ["name"]
    requires forall j :: 0 <= j < k ==> schema[j].0 !in excluded
    ensures Owner(schema, col).None? || Owner(schema, col).value !in excluded
  {
    var i := OwnerIndex(schema, col);
    if col == "name" {
      OwnerIsFirst(schema, col, 0);
    } else if i < |schema| {
      assert forall j :: k <= j < |schema| ==> col !in schema[j].1;
      assert i < k;
    }
  }

  /** The six lookup tables that list only `name`. */
  function LookupTables(): set<string> {
    {"statuses", "ranks", "categories", "military_units", "garrisons", "positions"}
  }

  /** The catalog opens with four tables, `social_data` first, none of them a lookup table. */
  lemma TablesHead()
    ensures |Tables()| == 10 && "name" in Tables()[0].1
    ensures forall j :: 0 <= j < 4 ==> Tables()[j].0 !in LookupTables()
  {
  }

  /** The catalog's table names are distinct. */
  lemma TablesDistinct()
    ensures DistinctNames(Tables())
  {
  }

  /** The catalog ends with the lookup tables, each listing only `name`. */
  lemma TablesTail()
    ensures forall j :: 4 <= j < |Tables()| ==> Tables()[j].1 == ["name"]
  {
  }

  /**
    The lookup tables whose only column is `name` are never chosen: every
    column they list is owned by `social_data`.
    */
  lemma LookupTablesShadowed(col: string)
    ensures Owner(Tables(), col).None? || Owner(Tables(), col).value !in LookupTables()
  {
    TablesHead();
    TablesTail();
    OwnerAmongFirst(Tables(), col, 4, LookupTables());
  }
}
