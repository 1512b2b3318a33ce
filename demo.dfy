/**
 * The `Demo` table of the repository and the usage walk-through that exercises
 * it, stated as a client of the table's contracts.
 */
module Demo {
  import opened Php
  import opened PhpArray
  import opened MySQLTable

  /** `Demo`: table "demo", identifier "id", `field_name` kept out of updates, searched on two fields. */
  const Config: TableConfig :=
    TableConfig("demo", DefaultIdentifier, [], ["field_name"], ["field1", "field2"])

  /**
   * Saving a `Demo` record: keyed by the default identifier `id`, an UPDATE binds
   * `id` first and never assigns `id` or `field_name`; every other column, and on
   * an INSERT every column, is bound to its value. Its `:id` is bound once.
   */
  lemma DemoSave(columns: seq<(string, Value)>, name: string)
    requires Distinct(Keys(columns))
    ensures var st := SaveStatement("demo", Config, columns);
      var id := ColumnValue(columns, "id");
      if Empty(id) then
        Lookup(st.bindings, ":" + name) == Lookup(columns, name)
      else
        st.bindings[0] == ("id", id) &&
        Lookup(st.bindings[1..], ":" + name) ==
          (if name == "id" || name == "field_name" then None else Lookup(columns, name)) &&
        forall i :: 1 <= i < |st.bindings| ==> PdoName(st.bindings[i].0) != ":id"
  {
    SaveColumns("demo", Config, columns, name);
    if !Empty(ColumnValue(columns, "id")) {
      UpdateIdBoundOnce("demo", Config, columns);
    } else {
      WithoutNone(columns);
    }
  }

  lemma FirstPageOfTen()
    ensures LimitClause(1, 10) == "LIMIT 0,10"
  {
    assert IntToString(10) == NatToString(1) + [DigitChar(0)];
  }

  lemma CriteriaClauses()
    ensures WhereOf(List(["field_name=:field_name"])) == Some("WHERE field_name=:field_name")
    ensures GroupByClause(List(["field_name"])) == "GROUP BY field_name"
    ensures OrderClause("field_name", Int(-1)) == "ORDER BY field_name DESC"
  {
    assert Join(" AND ", ["field_name=:field_name"]) == "field_name=:field_name";
    assert "WHERE " + "field_name=:field_name" == "WHERE field_name=:field_name";
    assert Join(",", ["field_name"]) == "field_name";
    assert "GROUP BY " + "field_name" == "GROUP BY field_name";
    assert "ORDER BY " + "field_name" == "ORDER BY field_name";
    assert "ORDER BY field_name" + " DESC" == "ORDER BY field_name DESC";
  }

  lemma CriteriaSql(where: string, group: string, order: string, limit: string, params: seq<(string, Value)>)
    requires !EmptyString(where) && !EmptyString(group) && !EmptyString(order) && !EmptyString(limit)
    ensures SelectSql("demo", FindRequest(Some(where), params, Some(group), Some(order), Some(limit)))
      == "SELECT * FROM demo" + (" " + where) + (" " + group) + (" " + order) + (" " + limit)
  {
    SelectSqlFull("demo", FindRequest(Some(where), params, Some(group), Some(order), Some(limit)));
    assert "SELECT * FROM " + "demo" == "SELECT * FROM demo";
  }

  lemma SearchClause()
    ensures SearchRequest(["field1", "field2"], "hello world") ==
      FindRequest(Some("WHERE " + ("field1 LIKE :term" + " OR " + "field2 LIKE :term")),
                  [("term", Str("%hello world%"))], None, None, None)
  {
    assert "field1" + " LIKE :term" == "field1 LIKE :term";
    assert "field2" + " LIKE :term" == "field2 LIKE :term";
    assert LikeTerms(["field1", "field2"]) == ["field1 LIKE :term", "field2 LIKE :term"];
    assert "%" + "hello world" + "%" == "%hello world%";
  }

  lemma SearchSql(where: string, params: seq<(string, Value)>)
    ensures SelectSql("demo", FindRequest(Some("WHERE " + where), params, None, None, Some("LIMIT 0,10")))
      == "SELECT * FROM demo" + (" WHERE " + where) + " LIMIT 0,10"
  {
    assert "SELECT * FROM " + "demo" == "SELECT * FROM demo";
    assert " " + ("WHERE " + where) == " WHERE " + where;
    assert " " + "LIMIT 0,10" == " LIMIT 0,10";
  }

  /**
   * The walk-through over a fresh `Demo` record, whatever columns the table
   * reports: setting a column that is still null stores nothing, so reading it
   * back gives `false` and every column stays null; the criteria query and the
   * search query prepare these statements.
   */
  method Walkthrough(reported: seq<string>)
    returns (stored: Value, fields: seq<(string, Value)>, byCriteria: Statement, bySearch: Statement)
    ensures stored == Bool(false)
    ensures forall c :: Lookup(fields, c) == if c in reported then Some(Null) else None
    ensures byCriteria.sql == "SELECT * FROM demo" + (" " + "WHERE field_name=:field_name")
                              + (" " + "GROUP BY field_name") + (" " + "ORDER BY field_name DESC")
                              + (" " + "LIMIT 0,10")
    ensures byCriteria.bindings == [(":field_name", Str("field_value"))]
    ensures bySearch.sql == "SELECT * FROM demo"
                            + (" WHERE " + ("field1 LIKE :term" + " OR " + "field2 LIKE :term")) + " LIMIT 0,10"
    ensures bySearch.bindings == [("term", Str("%hello world%"))]
  {
    var demo := new Table("Demo", Config, reported);
    var ignored := demo.Set("field_name", Str("field_value"));
    stored := demo.Get("field_name");
    fields := demo.GetColumns();

    demo.FindWhere(List(["field_name=:field_name"]));
    demo.BindParam(":field_name", Str("field_value"));
    demo.GroupBy(List(["field_name"]));
    demo.OrderBy("field_name", Int(-1));
    demo.Limit(1, 10);
    FirstPageOfTen();
    CriteriaClauses();
    CriteriaSql("WHERE field_name=:field_name", "GROUP BY field_name", "ORDER BY field_name DESC",
                "LIMIT 0,10", demo.findRequest.params);
    byCriteria := demo.Fetch();

    demo.Search("hello world");
    SearchClause();
    demo.Limit(1, 10);
    SearchSql("field1 LIKE :term" + " OR " + "field2 LIKE :term", demo.findRequest.params);
    bySearch := demo.Fetch();
  }
}
