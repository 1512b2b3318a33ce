/**
 * The abstract table mapper: one object per record, holding the record's
 * column set (filled once from the table's column list) and the pending
 * query state of a fluent SELECT builder, and producing the SQL text and the
 * parameter bindings of the statements it would send. Executing a statement
 * is not modelled: each operation returns the statement instead.
 */
module MySQLTable {
  import opened Php
  import opened PhpArray

  /** An argument the table tests with `is_array`: a list, or a single string. */
  datatype StrOrList = List(items: seq<string>) | Single(s: string)

  /**
   * The declarative part of a concrete table: its configured name (may be
   * empty), identifier column, per-operation blacklists and search columns.
   */
  datatype TableConfig = TableConfig(
    name: string,
    identifier: string,
    insertBlacklist: seq<string>,
    updateBlacklist: seq<string>,
    searchColumns: seq<string>)

  /** The identifier column a concrete table gets unless it names another one. */
  const DefaultIdentifier: string := "id"

  /**
   * The pending query: clause texts (absent when never assigned or assigned
   * null) and the parameters to bind, in the order they were first bound.
   */
  datatype FindRequest = FindRequest(
    where: Option<string>,
    params: seq<(string, Value)>,
    groupBy: Option<string>,
    order: Option<string>,
    limit: Option<string>)

  /** The state after `$find_request = null`: no clause and no parameter. */
  const NoRequest: FindRequest := FindRequest(None, [], None, None, None)

  /** A prepared statement: its SQL text and its parameter bindings in binding order. */
  datatype Statement = Statement(sql: string, bindings: seq<(string, Value)>)

  // ---------------------------------------------------------------------------
  // Column set

  /** The table name: the configured one unless PHP considers it empty, else the lower-cased class name. */
  function TableName(configured: string, className: string): (r: string)
    ensures !EmptyString(configured) ==> r == configured
    ensures EmptyString(configured) ==> r == ToLower(className)
    ensures EmptyString(configured) ==>
      |r| == |className| && forall i :: 0 <= i < |r| ==> !('A' <= r[i] <= 'Z')
  {
    if EmptyString(configured) then ToLower(className) else configured
  }

  /**
   * The reported column names with repeats dropped, each at its first occurrence;
   * a list without repeats is kept as it is, in its order.
   */
  function Dedup(names: seq<string>): (r: seq<string>)
    ensures Distinct(r)
    ensures forall n :: n in r <==> n in names
    ensures Distinct(names) ==> r == names
  {
    if names == [] then []
    else
      var init := names[..|names| - 1];
      var d := Dedup(init);
      var n := names[|names| - 1];
      assert names == init + [n];
      assert Distinct(names) ==> Distinct(init) && n !in init;
      if n in d then d else d + [n]
  }

  /** `$this->table_columns->$name`: the stored value, or null for an unknown column. */
  function ColumnValue(columns: seq<(string, Value)>, name: string): (r: Value)
    ensures Lookup(columns, name).Some? ==> r == Lookup(columns, name).value
    ensures name !in Keys(columns) ==> r == Null
  {
    match Lookup(columns, name)
    case Some(v) => v
    case None => Null
  }

  /** `isset($this->table_columns->$name)`: the column exists and holds a non-null value. */
  predicate HasValue(columns: seq<(string, Value)>, name: string): (r: bool)
    ensures r <==> Lookup(columns, name).Some? && Lookup(columns, name).value != Null
  {
    IsSet(ColumnValue(columns, name))
  }

  /**
   * The column set after `hydrate(data)`: every column that is a key of `data`
   * and currently holds a non-null value takes the data's value; the rest keep theirs.
   */
  function Hydrated(columns: seq<(string, Value)>, data: seq<(string, Value)>): (r: seq<(string, Value)>)
    ensures Keys(r) == Keys(columns)
  {
    seq(|columns|, i requires 0 <= i < |columns| =>
      var name := columns[i].0;
      if IsSet(columns[i].1) && Lookup(data, name).Some?
      then (name, Lookup(data, name).value)
      else columns[i])
  }

  /** Hydrating overwrites exactly the non-null columns named by the data and adds none. */
  lemma HydratedLookup(columns: seq<(string, Value)>, data: seq<(string, Value)>, name: string)
    requires Distinct(Keys(columns))
    ensures Lookup(Hydrated(columns, data), name) ==
      if HasValue(columns, name) && Lookup(data, name).Some?
      then Lookup(data, name)
      else Lookup(columns, name)
  {
    var r := Hydrated(columns, data);
    if name in Keys(columns) {
      var i :| 0 <= i < |columns| && columns[i].0 == name;
      LookupAt(columns, i);
      LookupAt(r, i);
    }
  }

  /** Hydrating with an empty array changes nothing. */
  lemma HydratedEmpty(columns: seq<(string, Value)>)
    ensures Hydrated(columns, []) == columns
  {
  }

  /** One step of the hydrate loop: the data's entries are applied in order, each guarded by `isset`. */
  lemma HydratedStep(columns: seq<(string, Value)>, data: seq<(string, Value)>, i: nat)
    requires Distinct(Keys(columns)) && Distinct(Keys(data)) && i < |data|
    ensures var current := Hydrated(columns, data[..i]);
      Hydrated(columns, data[..i + 1]) ==
        if HasValue(current, data[i].0) then Put(current, data[i].0, data[i].1) else current
  {
    var (name, value) := data[i];
    var before, after := data[..i], data[..i + 1];
    var current := Hydrated(columns, before);
    assert after == before + [(name, value)];
    assert Keys(after) == Keys(data)[..i + 1];
    assert Distinct(Keys(after));
    LookupAt(after, i);
    assert forall j :: 0 <= j < i ==> Keys(data)[j] != Keys(data)[i];
    assert forall j :: 0 <= j < i ==> before[j].0 == Keys(data)[j];
    assert name !in Keys(before);
    assert Lookup(before, name).None?;
    forall c | c != name
      ensures Lookup(after, c) == Lookup(before, c)
    {
      LookupAppend(before, name, value, c);
    }
    var next := Hydrated(columns, after);
    if name in Keys(columns) {
      var j :| 0 <= j < |columns| && columns[j].0 == name;
      assert current[j] == columns[j];
      assert Distinct(Keys(current));
      LookupAt(current, j);
      forall k | 0 <= k < |columns| && k != j
        ensures next[k] == current[k]
      {
        assert Keys(columns)[k] != Keys(columns)[j];
      }
      if HasValue(current, name) {
        PutPresent(current, j, value);
        assert next == current[j := (name, value)];
      } else {
        assert next == current;
      }
    } else {
      forall k | 0 <= k < |columns|
        ensures next[k] == current[k]
      {
        assert Keys(columns)[k] == columns[k].0;
      }
    }
  }

  /** Appending an entry with a new key leaves the lookup of every other key unchanged. */
  lemma {:induction false} LookupAppend(a: seq<(string, Value)>, k: string, v: Value, c: string)
    requires c != k
    ensures Lookup(a + [(k, v)], c) == Lookup(a, c)
  {
    if a != [] {
      assert (a + [(k, v)])[1..] == a[1..] + [(k, v)];
      LookupAppend(a[1..], k, v, c);
    }
  }

  // ---------------------------------------------------------------------------
  // Query builder clauses

  /** One `<column> LIKE :term` predicate per search column. */
  function LikeTerms(columns: seq<string>): (r: seq<string>)
    ensures |r| == |columns|
    ensures forall i :: 0 <= i < |r| ==> r[i] == columns[i] + " LIKE :term"
  {
    seq(|columns|, i requires 0 <= i < |columns| => columns[i] + " LIKE :term")
  }

  /** The WHERE text the search loop accumulates before it is trimmed. */
  function SearchPrefix(columns: seq<string>): (r: string)
    ensures |r| >= 6 && r[..6] == "WHERE "
    ensures columns != [] ==> |r| >= 15 && r[|r| - 15..] == " LIKE :term OR "
  {
    if columns == [] then "WHERE "
    else SearchPrefix(columns[..|columns| - 1]) + (columns[|columns| - 1] + " LIKE :term OR ")
  }

  /** The accumulated text is the intended predicate followed by one dangling " OR ". */
  lemma {:induction false} SearchPrefixJoin(columns: seq<string>)
    requires columns != []
    ensures SearchPrefix(columns) == "WHERE " + Join(" OR ", LikeTerms(columns)) + " OR "
    decreases |columns|
  {
    var init := columns[..|columns| - 1];
    var last := columns[|columns| - 1];
    var t := last + " LIKE :term";
    LikeTermsSnoc(columns);
    JoinSnoc(" OR ", LikeTerms(init), t);
    SplitSearchTerm(last);
    if init != [] {
      SearchPrefixJoin(init);
      Regroup("WHERE ", Join(" OR ", LikeTerms(init)), t);
    }
  }

  lemma LikeTermsSnoc(columns: seq<string>)
    requires columns != []
    ensures LikeTerms(columns) ==
      LikeTerms(columns[..|columns| - 1]) + [columns[|columns| - 1] + " LIKE :term"]
  {
  }

  lemma SplitSearchTerm(column: string)
    ensures column + " LIKE :term OR " == (column + " LIKE :term") + " OR "
  {
  }

  lemma Regroup(w: string, j: string, t: string)
    ensures (w + j + " OR ") + (t + " OR ") == w + (j + " OR " + t) + " OR "
  {
  }

  /**
   * `trim(..., 'OR ')` strips characters, not a suffix, yet on the accumulated
   * text it removes exactly the dangling " OR ": the text starts with 'W' and the
   * part before the dangling separator ends with the 'm' of ":term".
   */
  lemma SearchWhereTrimmed(columns: seq<string>)
    requires columns != []
    ensures Trim(SearchPrefix(columns), "OR ") == "WHERE " + Join(" OR ", LikeTerms(columns))
  {
    var terms := LikeTerms(columns);
    var p := "WHERE " + Join(" OR ", terms);
    SearchPrefixJoin(columns);
    JoinEndsWithLast(" OR ", terms);
    var last := terms[|terms| - 1];
    assert last[|last| - 1] == 'm';
    assert p[|p| - 1] == 'm';
    TrimRightSuffix(p, " OR ", "OR ");
    TrimLeftNoop(p, "OR ");
  }

  /** The request `search(term)` leaves behind. */
  function SearchRequest(columns: seq<string>, term: string): (r: FindRequest)
    ensures columns == [] ==> r == NoRequest
    ensures columns != [] ==> r.params == [("term", Str("%" + term + "%"))]
    ensures r.groupBy.None? && r.order.None? && r.limit.None?
  {
    if columns == [] then NoRequest
    else FindRequest(Some("WHERE " + Join(" OR ", LikeTerms(columns))),
                     [("term", Str("%" + term + "%"))], None, None, None)
  }

  /** The WHERE text `findWhere(criteria)` leaves behind: null unless a non-empty list. */
  function WhereOf(criteria: StrOrList): (r: Option<string>)
    ensures r.Some? <==> criteria.List? && criteria.items != []
  {
    if criteria.List? && criteria.items != [] then Some("WHERE " + Join(" AND ", criteria.items)) else None
  }

  /** The GROUP BY clause: a list is joined with commas, a string is used as given. */
  function GroupByClause(columns: StrOrList): (r: string)
    ensures columns.List? ==> r == "GROUP BY " + Join(",", columns.items)
    ensures columns.Single? ==> r == "GROUP BY " + columns.s
  {
    "GROUP BY " + match columns
      case List(items) => Join(",", items)
      case Single(s) => s
  }

  /**
   * The grouped columns can be read back from the clause: after the keyword
   * comes the single column as given, or, for a non-empty list of comma-free
   * names, text that splits on commas into exactly that list.
   */
  lemma GroupByReadBack(columns: StrOrList)
    requires columns.List? ==> columns.items != [] && forall i :: 0 <= i < |columns.items| ==> ',' !in columns.items[i]
    ensures var r := GroupByClause(columns);
      |r| >= 9 && r[..9] == "GROUP BY " &&
      (columns.Single? ==> r[9..] == columns.s) &&
      (columns.List? ==> Explode(',', r[9..]) == columns.items)
  {
    if columns.List? {
      var r := GroupByClause(columns);
      assert r[9..] == Join(",", columns.items);
      ExplodeJoin(',', columns.items);
    }
  }

  /** The ORDER BY clause: descending exactly when the direction is the integer -1. */
  function OrderClause(column: string, order: Value): (r: string)
    ensures r == "ORDER BY " + column + " DESC" <==> order == Int(-1)
    ensures order != Int(-1) ==> r == "ORDER BY " + column
  {
    "ORDER BY " + column + (if !Empty(order) && order == Int(-1) then " DESC" else "")
  }

  /** The LIMIT clause for a 1-based page: the offset is (page - 1) * perPage. */
  function LimitClause(page: int, perPage: int): (r: string)
    ensures r == "LIMIT " + IntToString((page - 1) * perPage) + "," + IntToString(perPage)
  {
    var start := page * perPage - perPage;
    assert start == (page - 1) * perPage;
    "LIMIT " + IntToString(start) + "," + IntToString(perPage)
  }

  /** Page 1 starts at offset 0. */
  lemma LimitFirstPage(perPage: int)
    ensures LimitClause(1, perPage) == "LIMIT 0," + IntToString(perPage)
  {
  }

  /** The offset and the count can be read back from the clause text. */
  lemma LimitReadBack(page: int, perPage: int)
    ensures var offset, count := IntToString((page - 1) * perPage), IntToString(perPage);
      LimitClause(page, perPage) == "LIMIT " + offset + "," + count &&
      ',' !in offset && ',' !in count &&
      ParseInt(offset) == (page - 1) * perPage && ParseInt(count) == perPage
  {
    IntToStringRoundTrip((page - 1) * perPage);
    IntToStringRoundTrip(perPage);
  }

  /** A clause is emitted, after one space, only when it is set and not empty in PHP's sense. */
  function Clause(part: Option<string>): (r: string)
    ensures part.None? ==> r == ""
    ensures part.Some? && EmptyString(part.value) ==> r == ""
    ensures part.Some? && !EmptyString(part.value) ==> r == " " + part.value
  {
    if part.Some? && !EmptyString(part.value) then " " + part.value else ""
  }

  /** The SELECT that `fetch` prepares: WHERE, GROUP BY, ORDER BY, LIMIT, in that fixed order. */
  function SelectSql(table: string, request: FindRequest): (r: string)
    ensures request == NoRequest ==> r == "SELECT * FROM " + table
  {
    "SELECT * FROM " + table + Clause(request.where) + Clause(request.groupBy)
      + Clause(request.order) + Clause(request.limit)
  }

  /** A pending query whose four clauses are all set emits each of them, in the fixed order. */
  lemma SelectSqlFull(table: string, request: FindRequest)
    requires request.where.Some? && request.groupBy.Some? && request.order.Some? && request.limit.Some?
    requires !EmptyString(request.where.value) && !EmptyString(request.groupBy.value)
    requires !EmptyString(request.order.value) && !EmptyString(request.limit.value)
    ensures SelectSql(table, request) == "SELECT * FROM " + table + (" " + request.where.value)
      + (" " + request.groupBy.value) + (" " + request.order.value) + (" " + request.limit.value)
  {
  }

  // ---------------------------------------------------------------------------
  // Write statements

  /** `preg_filter('/^/', ':', $names)`: every name prefixed with a colon. */
  function Placeholders(names: seq<string>): (r: seq<string>)
    ensures |r| == |names|
    ensures forall i :: 0 <= i < |r| ==> r[i] == ":" + names[i]
  {
    seq(|names|, i requires 0 <= i < |names| => ":" + names[i])
  }

  /** One `name=:name` assignment per column. */
  function Assignments(names: seq<string>): (r: seq<string>)
    ensures |r| == |names|
    ensures forall i :: 0 <= i < |r| ==> r[i] == names[i] + "=:" + names[i]
  {
    seq(|names|, i requires 0 <= i < |names| => names[i] + "=:" + names[i])
  }

  /** Each column bound under its colon-prefixed name, in column order. */
  function PlaceholderBindings(columns: seq<(string, Value)>): (r: seq<(string, Value)>)
    ensures Keys(r) == Placeholders(Keys(columns))
  {
    seq(|columns|, i requires 0 <= i < |columns| => (":" + columns[i].0, columns[i].1))
  }

  /** Prefixing with a colon keeps distinct names distinct. */
  lemma PlaceholdersDistinct(names: seq<string>)
    ensures Distinct(names) ==> Distinct(Placeholders(names))
  {
    var p := Placeholders(names);
    forall i, j | 0 <= i < j < |p| && Distinct(names)
      ensures p[i] != p[j]
    {
      assert p[i][1..] == names[i] && p[j][1..] == names[j];
    }
  }

  /** The placeholder of every column is bound to that column's value. */
  lemma PlaceholderLookup(columns: seq<(string, Value)>, name: string)
    requires Distinct(Keys(columns))
    ensures Lookup(PlaceholderBindings(columns), ":" + name) == Lookup(columns, name)
  {
    var b := PlaceholderBindings(columns);
    PlaceholdersDistinct(Keys(columns));
    if name in Keys(columns) {
      var i :| 0 <= i < |columns| && columns[i].0 == name;
      LookupAt(columns, i);
      LookupAt(b, i);
    } else {
      forall i | 0 <= i < |b|
        ensures b[i].0 != ":" + name
      {
        assert b[i].0[1..] == Keys(columns)[i];
      }
    }
  }

  /**
   * The INSERT: every column named in order, and every VALUES placeholder bound,
   * in the same order, to its column's value; no name is bound twice.
   */
  function InsertStatement(table: string, columns: seq<(string, Value)>): (r: Statement)
    ensures |r.sql| >= 12 && r.sql[..12] == "INSERT INTO "
    ensures Keys(r.bindings) == Placeholders(Keys(columns))
    ensures Distinct(Keys(columns)) ==> Distinct(Keys(r.bindings))
  {
    var names := Keys(columns);
    PlaceholdersDistinct(names);
    Statement("INSERT INTO " + table + "(" + Join(",", names) + ") VALUES(" + Join(",", Placeholders(names)) + ")",
              PlaceholderBindings(columns))
  }

  /**
   * The UPDATE: keyed by `:id`, which is bound first (as `id`) to the identifier's
   * value, then every assigned column's placeholder in column order. The binding
   * names are pairwise distinct strings; but the driver reads `id` as `:id`, so a
   * column named `id` under another identifier shares that placeholder (see
   * `UpdateIdClash` and `UpdateIdBoundOnce`).
   */
  function UpdateStatement(table: string, identifier: string, id: Value, columns: seq<(string, Value)>): (r: Statement)
    ensures |r.sql| >= 11 && r.sql[..7] == "UPDATE " && r.sql[|r.sql| - 4..] == "=:id"
    ensures r.bindings != [] && r.bindings[0] == ("id", id)
    ensures Keys(r.bindings[1..]) == Placeholders(Keys(columns))
    ensures Distinct(Keys(columns)) ==> Distinct(Keys(r.bindings))
  {
    var placeholders := PlaceholderBindings(columns);
    PlaceholdersDistinct(Keys(columns));
    var r := Statement("UPDATE " + table + " SET " + Join(",", Assignments(Keys(columns))) + " WHERE " + identifier + "=:id",
                       [("id", id)] + placeholders);
    assert r.bindings[1..] == placeholders;
    assert forall i :: 0 <= i < |placeholders| ==> placeholders[i].0[0] == ':' != "id"[0];
    assert Keys(r.bindings) == ["id"] + Keys(placeholders);
    r
  }

  /** The INSERT's VALUES list is exactly the list of names its bindings use, in order. */
  lemma InsertValuesBound(table: string, columns: seq<(string, Value)>)
    ensures var st := InsertStatement(table, columns);
      st.sql == "INSERT INTO " + table + "(" + Join(",", Keys(columns)) + ") VALUES(" + Join(",", Keys(st.bindings)) + ")"
  {
  }

  /**
   * The UPDATE's SET list assigns each column, in order, the placeholder its
   * value is bound under; the WHERE compares the identifier with `:id`.
   */
  lemma UpdateSetBound(table: string, identifier: string, id: Value, columns: seq<(string, Value)>)
    ensures var st := UpdateStatement(table, identifier, id, columns);
      var sets := Assignments(Keys(columns));
      st.sql == "UPDATE " + table + " SET " + Join(",", sets) + " WHERE " + identifier + "=:id" &&
      |st.bindings| == |columns| + 1 &&
      forall i :: 0 <= i < |columns| ==> sets[i] == Keys(columns)[i] + "=" + st.bindings[i + 1].0
  {
    var st := UpdateStatement(table, identifier, id, columns);
    var sets := Assignments(Keys(columns));
    forall i | 0 <= i < |columns|
      ensures sets[i] == Keys(columns)[i] + "=" + st.bindings[i + 1].0
    {
      var c := Keys(columns)[i];
      assert st.bindings[i + 1] == PlaceholderBindings(columns)[i];
      assert st.bindings[i + 1].0 == ":" + c;
      assert c + "=:" + c == c + "=" + (":" + c);
    }
  }

  /** The DELETE: keyed by `:id`, with `id` bound to the identifier's value and nothing else. */
  function DeleteStatement(table: string, identifier: string, id: Value): (r: Statement)
    ensures |r.sql| >= 16 && r.sql[..12] == "DELETE FROM " && r.sql[|r.sql| - 4..] == "=:id"
    ensures r.bindings == [("id", id)]
  {
    Statement("DELETE FROM " + table + " WHERE " + identifier + "=:id", [("id", id)])
  }

  /**
   * The statement `save` prepares: an INSERT over every column but the insert
   * blacklist when the identifier is empty in PHP's sense (null, 0, "0", "", false),
   * else an UPDATE of every column but the identifier and the update blacklist,
   * keyed by the identifier's value. Either way the binding names are pairwise
   * distinct strings.
   */
  function SaveStatement(table: string, config: TableConfig, columns: seq<(string, Value)>): (r: Statement)
    ensures var id := ColumnValue(columns, config.identifier);
      |r.sql| >= 7 &&
      (Empty(id) ==> r.sql[..7] == "INSERT ") &&
      (!Empty(id) ==> r.sql[..7] == "UPDATE " && r.bindings != [] && r.bindings[0] == ("id", id))
    ensures Distinct(Keys(columns)) ==> Distinct(Keys(r.bindings))
  {
    var id := ColumnValue(columns, config.identifier);
    if Empty(id) then
      WithoutLookup(columns, config.insertBlacklist);
      InsertStatement(table, Without(columns, config.insertBlacklist))
    else
      WithoutLookup(columns, [config.identifier] + config.updateBlacklist);
      UpdateStatement(table, config.identifier, id, Without(columns, [config.identifier] + config.updateBlacklist))
  }

  /** The parameter name the driver binds under: a name without a leading colon gets one. */
  function PdoName(name: string): (r: string)
    ensures |r| > 0 && r[0] == ':'
    ensures |name| > 0 && name[0] == ':' ==> r == name
    ensures name != [] && name[0] != ':' ==> r[1..] == name
  {
    if |name| > 0 && name[0] == ':' then name else ":" + name
  }

  /**
   * The UPDATE's `:id` placeholder is bound once: when the identifier column is
   * `id`, or no column is named `id`, or `id` is blacklisted for updates, no
   * assigned column's placeholder is `:id`.
   */
  lemma UpdateIdBoundOnce(table: string, config: TableConfig, columns: seq<(string, Value)>)
    requires !Empty(ColumnValue(columns, config.identifier))
    requires config.identifier == "id" || "id" !in Keys(columns) || "id" in config.updateBlacklist
    ensures var st := SaveStatement(table, config, columns);
      PdoName(st.bindings[0].0) == ":id" &&
      forall i :: 1 <= i < |st.bindings| ==> PdoName(st.bindings[i].0) != ":id"
  {
    var kept := Without(columns, [config.identifier] + config.updateBlacklist);
    WithoutLookup(columns, [config.identifier] + config.updateBlacklist);
    var st := SaveStatement(table, config, columns);
    assert st.bindings[1..] == PlaceholderBindings(kept);
    forall i | 1 <= i < |st.bindings|
      ensures PdoName(st.bindings[i].0) != ":id"
    {
      var name := kept[i - 1].0;
      assert name in Keys(kept) by { assert Keys(kept)[i - 1] == name; }
      assert st.bindings[i] == PlaceholderBindings(kept)[i - 1];
      assert st.bindings[i].0 == ":" + name;
      assert (":" + name)[1..] == name && ":id"[1..] == "id";
    }
  }

  /**
   * A column set whose values are all null stays so: no column is `isset`, so
   * `set` and `hydrate` change nothing, `save` prepares an INSERT and `remove`
   * prepares nothing.
   */
  lemma AllNullStaysNull(table: string, config: TableConfig, columns: seq<(string, Value)>,
                         name: string, data: seq<(string, Value)>)
    requires forall i :: 0 <= i < |columns| ==> columns[i].1 == Null
    ensures !HasValue(columns, name)
    ensures Hydrated(columns, data) == columns
    ensures SaveStatement(table, config, columns).sql[..7] == "INSERT "
    ensures RemoveStatement(table, config, columns).None?
  {
    forall n ensures ColumnValue(columns, n) == Null {
      var v := ColumnValue(columns, n);
      if Lookup(columns, n).Some? {
        var k :| 0 <= k < |columns| && columns[k] == (n, v);
      }
    }
    var h := Hydrated(columns, data);
    forall k | 0 <= k < |columns|
      ensures h[k] == columns[k]
    {
    }
  }

  /**
   * Under another identifier, a column named `id` shares the placeholder: for
   * identifier `uuid` and columns `uuid`, `id`, the UPDATE sets `id=:id` and is
   * keyed by `uuid=:id`, and both bindings go to the driver's `:id`.
   */
  lemma UpdateIdClash()
    ensures var st := SaveStatement("t", TableConfig("t", "uuid", [], [], []), [("uuid", Str("u1")), ("id", Int(5))]);
      st.sql == "UPDATE " + "t" + " SET " + Join(",", ["id=:id"]) + " WHERE " + "uuid" + "=:id" &&
      st.bindings == [("id", Str("u1")), (":id", Int(5))] &&
      PdoName(st.bindings[0].0) == PdoName(st.bindings[1].0) == ":id"
  {
    var columns := [("uuid", Str("u1")), ("id", Int(5))];
    var config := TableConfig("t", "uuid", [], [], []);
    assert ColumnValue(columns, "uuid") == Str("u1");
    assert [config.identifier] + config.updateBlacklist == ["uuid"];
    var kept := Without(columns, ["uuid"]);
    assert kept == [("id", Int(5))];
    assert Keys(kept) == ["id"];
    assert "id" + "=:" + "id" == "id=:id";
    assert Assignments(Keys(kept)) == ["id=:id"];
    assert ":" + "id" == ":id";
    assert PlaceholderBindings(kept) == [(":id", Int(5))];
  }

  /** The statement `remove` prepares, or none when the identifier is empty. */
  function RemoveStatement(table: string, config: TableConfig, columns: seq<(string, Value)>): (r: Option<Statement>)
    ensures r.None? <==> Empty(ColumnValue(columns, config.identifier))
  {
    var id := ColumnValue(columns, config.identifier);
    if Empty(id) then None else Some(DeleteStatement(table, config.identifier, id))
  }

  /**
   * What `save` writes: an INSERT names every non-blacklisted column and binds each
   * to its value; an UPDATE never assigns the identifier or an update-blacklisted
   * column, binds every assigned column to its value and `id` to the identifier.
   */
  lemma SaveColumns(table: string, config: TableConfig, columns: seq<(string, Value)>, name: string)
    requires Distinct(Keys(columns))
    ensures var st := SaveStatement(table, config, columns);
      var id := ColumnValue(columns, config.identifier);
      if Empty(id) then
        (name in Keys(Without(columns, config.insertBlacklist)) <==>
           name in Keys(columns) && name !in config.insertBlacklist) &&
        Lookup(st.bindings, ":" + name) ==
          (if name in config.insertBlacklist then None else Lookup(columns, name))
      else
        var kept := Without(columns, [config.identifier] + config.updateBlacklist);
        (name in Keys(kept) <==>
           name in Keys(columns) && name != config.identifier && name !in config.updateBlacklist) &&
        st.bindings[0] == ("id", id) &&
        Lookup(st.bindings[1..], ":" + name) ==
          (if name == config.identifier || name in config.updateBlacklist then None else Lookup(columns, name))
  {
    var id := ColumnValue(columns, config.identifier);
    if Empty(id) {
      WithoutLookup(columns, config.insertBlacklist);
      PlaceholderLookup(Without(columns, config.insertBlacklist), name);
    } else {
      var kept := Without(columns, [config.identifier] + config.updateBlacklist);
      WithoutLookup(columns, [config.identifier] + config.updateBlacklist);
      PlaceholderLookup(kept, name);
      assert SaveStatement(table, config, columns).bindings[1..] == PlaceholderBindings(kept);
    }
  }

  /** `remove` issues a DELETE exactly when `save` would issue an UPDATE, keyed by the same value. */
  lemma SaveRemoveAgree(table: string, config: TableConfig, columns: seq<(string, Value)>)
    ensures var save := SaveStatement(table, config, columns);
      var remove := RemoveStatement(table, config, columns);
      (remove.Some? <==> save.sql[..7] == "UPDATE ") &&
      (remove.Some? ==> remove.value.bindings == save.bindings[..1])
  {
    var save := SaveStatement(table, config, columns);
    if Empty(ColumnValue(columns, config.identifier)) {
      assert save.sql[..7] == "INSERT ";
    } else {
      assert save.sql[..7] == "UPDATE ";
    }
  }

  // ---------------------------------------------------------------------------
  // The table object

  class Table {
    /** The table the record lives in. */
    const tableName: string
    /** The concrete table's configuration. */
    const config: TableConfig
    /** The column names as introspected at construction, without repeats. */
    ghost const schema: seq<string>

    /** The column set: column name to current value, in introspection order. */
    var columns: seq<(string, Value)>
    /** The pending query of the builder. */
    var findRequest: FindRequest

    /** The column set holds exactly the introspected columns, once each. */
    ghost predicate Valid()
      reads this`columns
    {
      Keys(columns) == schema && Distinct(schema)
    }

    /**
     * Binds the table to its name and builds its column set from the field names
     * the `SHOW COLUMNS` query reports, each starting as null.
     */
    constructor (className: string, config: TableConfig, reported: seq<string>)
      ensures Valid()
      ensures this.config == config && tableName == TableName(config.name, className)
      ensures schema == Dedup(reported)
      ensures forall c :: Lookup(columns, c) == if c in reported then Some(Null) else None
      ensures findRequest == NoRequest
    {
      var cols: seq<(string, Value)> := [];
      var i := 0;
      while i < |reported|
        invariant 0 <= i <= |reported|
        invariant Keys(cols) == Dedup(reported[..i])
        invariant forall c :: Lookup(cols, c) == if c in reported[..i] then Some(Null) else None
      {
        assert reported[..i + 1] == reported[..i] + [reported[i]];
        cols := Put(cols, reported[i], Null);
        i := i + 1;
      }
      assert reported[..i] == reported;
      this.config := config;
      tableName := TableName(config.name, className);
      schema := Keys(cols);
      columns := cols;
      findRequest := NoRequest;
    }

    /** `getColumns()`: the column set, holding exactly the introspected columns. */
    function GetColumns(): (r: seq<(string, Value)>)
      reads this`columns
      requires Valid()
      ensures Keys(r) == schema && Distinct(Keys(r))
      ensures forall c :: Lookup(r, c) == Lookup(columns, c)
    {
      columns
    }

    /**
     * `get(name)`: the stored value when the column exists and is not null,
     * otherwise `false`; never null.
     */
    function Get(name: string): (r: Value)
      reads this`columns
      ensures r != Null
      ensures HasValue(columns, name) ==> Lookup(columns, name) == Some(r)
      ensures !HasValue(columns, name) ==> r == Bool(false)
    {
      if HasValue(columns, name) then ColumnValue(columns, name) else Bool(false)
    }

    /**
     * `set(name, value)`: when the column exists and is not null, stores `value`
     * and returns it; otherwise returns `false` and changes nothing. No other
     * column changes and no column is added.
     */
    method Set(name: string, value: Value) returns (r: Value)
      requires Valid()
      modifies this`columns
      ensures Valid()
      ensures old(HasValue(columns, name)) ==> r == value && Lookup(columns, name) == Some(value)
      ensures !old(HasValue(columns, name)) ==> r == Bool(false) && columns == old(columns)
      ensures forall c :: c != name ==> Lookup(columns, c) == Lookup(old(columns), c)
      ensures Get(name) == if old(HasValue(columns, name)) && IsSet(value) then value else Bool(false)
    {
      if HasValue(columns, name) {
        columns := Put(columns, name, value);
        r := value;
      } else {
        r := Bool(false);
      }
    }

    /**
     * `hydrate(data)`: overwrites the non-null columns that are keys of `data`,
     * in the data's order; unknown keys are ignored and no column is added.
     */
    method Hydrate(data: seq<(string, Value)>)
      requires Valid() && Distinct(Keys(data))
      modifies this`columns
      ensures Valid()
      ensures columns == Hydrated(old(columns), data)
      ensures forall c ::
        Lookup(columns, c) == (if old(HasValue(columns, c)) && Lookup(data, c).Some? then Lookup(data, c) else Lookup(old(columns), c))
    {
      if |data| > 0 {
        var i := 0;
        while i < |data|
          invariant 0 <= i <= |data|
          invariant columns == Hydrated(old(columns), data[..i])
        {
          HydratedStep(old(columns), data, i);
          var name, value := data[i].0, data[i].1;
          if HasValue(columns, name) {
            columns := Put(columns, name, value);
          }
          i := i + 1;
        }
        assert data[..i] == data;
      } else {
        HydratedEmpty(columns);
      }
      assert columns == Hydrated(old(columns), data);
      forall c
        ensures Lookup(columns, c) == if HasValue(old(columns), c) && Lookup(data, c).Some? then Lookup(data, c) else Lookup(old(columns), c)
      {
        HydratedLookup(old(columns), data, c);
      }
    }

    /**
     * `search(term)`: discards the pending query; with search columns configured,
     * matches any of them against `%term%` through the one parameter `term`.
     */
    method Search(term: string)
      modifies this`findRequest
      ensures findRequest == SearchRequest(config.searchColumns, term)
    {
      findRequest := NoRequest;
      var searchColumns := config.searchColumns;
      if |searchColumns| > 0 {
        var where := "WHERE ";
        var i := 0;
        while i < |searchColumns|
          invariant 0 <= i <= |searchColumns|
          invariant where == SearchPrefix(searchColumns[..i])
        {
          assert searchColumns[..i + 1][..i] == searchColumns[..i];
          where := where + (searchColumns[i] + " LIKE :term OR ");
          i := i + 1;
        }
        assert searchColumns[..i] == searchColumns;
        findRequest := findRequest.(where := Some(where));
        findRequest := findRequest.(params := Put(findRequest.params, "term", Str("%" + term + "%")));
        SearchWhereTrimmed(searchColumns);
        findRequest := findRequest.(where := Some(Trim(where, "OR ")));
      }
    }

    /** `findAll()`: discards the pending query. */
    method FindAll()
      modifies this`findRequest
      ensures findRequest == NoRequest
      ensures SelectSql(tableName, findRequest) == "SELECT * FROM " + tableName
    {
      findRequest := NoRequest;
    }

    /**
     * `findWhere(criteria)`: discards the pending query, parameters included, and
     * AND-joins the criteria after "WHERE "; an empty list or a non-list leaves no WHERE.
     */
    method FindWhere(criteria: StrOrList)
      modifies this`findRequest
      ensures findRequest == NoRequest.(where := WhereOf(criteria))
    {
      findRequest := NoRequest;
      var where: Option<string> := None;
      if criteria.List? && |criteria.items| > 0 {
        var items := criteria.items;
        var i := 0;
        while i < |items|
          invariant 0 <= i <= |items|
          invariant where == if i == 0 then None else Some("WHERE " + Join(" AND ", items[..i]))
          invariant findRequest == NoRequest
        {
          var c := items[i];
          assert items[..i + 1] == items[..i] + [c];
          JoinSnoc(" AND ", items[..i], c);
          if i > 0 {
            var joined := Join(" AND ", items[..i]);
            assert !EmptyString("WHERE " + joined);
            assert ("WHERE " + joined) + " AND " + c == "WHERE " + (joined + " AND " + c);
          }
          where := if where.None? || EmptyString(where.value) then Some("WHERE " + c)
                   else Some(where.value + " AND " + c);
          i := i + 1;
        }
        assert items[..i] == items;
      }
      findRequest := findRequest.(where := where);
    }

    /** `bindParam(key, value)`: binds `key` to `value`, replacing an earlier binding of it. */
    method BindParam(key: string, value: Value)
      modifies this`findRequest
      ensures findRequest == old(findRequest).(params := Put(old(findRequest).params, key, value))
      ensures Lookup(findRequest.params, key) == Some(value)
      ensures forall k :: k != key ==> Lookup(findRequest.params, k) == Lookup(old(findRequest).params, k)
    {
      findRequest := findRequest.(params := Put(findRequest.params, key, value));
    }

    /** `groupBy(columns)`: sets the GROUP BY clause, replacing an earlier one. */
    method GroupBy(columns: StrOrList)
      modifies this`findRequest
      ensures findRequest == old(findRequest).(groupBy := Some(GroupByClause(columns)))
    {
      if columns.List? {
        findRequest := findRequest.(groupBy := Some("GROUP BY " + Join(",", columns.items)));
      } else {
        findRequest := findRequest.(groupBy := Some("GROUP BY " + columns.s));
      }
    }

    /** `orderBy(column, order)`: sets the ORDER BY clause, descending only for the integer -1. */
    method OrderBy(column: string, order: Value)
      modifies this`findRequest
      ensures findRequest == old(findRequest).(order := Some(OrderClause(column, order)))
    {
      findRequest := findRequest.(order := Some(OrderClause(column, order)));
    }

    /** `limit(page, perPage)`: sets the LIMIT clause for a 1-based page. */
    method Limit(page: int, perPage: int)
      modifies this`findRequest
      ensures findRequest == old(findRequest).(limit := Some(LimitClause(page, perPage)))
    {
      var start := page * perPage - perPage;
      findRequest := findRequest.(limit := Some("LIMIT " + IntToString(start) + "," + IntToString(perPage)));
    }

    /**
     * `fetch()`: prepares the SELECT for the pending query, binds every pending
     * parameter, and resets the builder, so that an immediately following fetch
     * selects the whole table.
     */
    method Fetch() returns (st: Statement)
      modifies this`findRequest
      ensures st == Statement(SelectSql(tableName, old(findRequest)), old(findRequest).params)
      ensures findRequest == NoRequest
      ensures SelectSql(tableName, findRequest) == "SELECT * FROM " + tableName
    {
      var request := "SELECT * FROM " + tableName;
      request := request + (if findRequest.where.Some? && !EmptyString(findRequest.where.value) then " " + findRequest.where.value else "");
      request := request + (if findRequest.groupBy.Some? && !EmptyString(findRequest.groupBy.value) then " " + findRequest.groupBy.value else "");
      request := request + (if findRequest.order.Some? && !EmptyString(findRequest.order.value) then " " + findRequest.order.value else "");
      request := request + (if findRequest.limit.Some? && !EmptyString(findRequest.limit.value) then " " + findRequest.limit.value else "");
      var bindings: seq<(string, Value)> := [];
      var params := findRequest.params;
      var i := 0;
      while i < |params|
        invariant 0 <= i <= |params|
        invariant bindings == params[..i]
      {
        bindings := bindings + [params[i]];
        i := i + 1;
      }
      findRequest := NoRequest;
      st := Statement(request, bindings);
    }

    /** `save()`: prepares the INSERT or UPDATE of this record. */
    method Save() returns (st: Statement)
      requires Valid()
      ensures st == SaveStatement(tableName, config, columns)
    {
      var identifier := config.identifier;
      var id := ColumnValue(columns, identifier);
      if Empty(id) {
        var kept := RemoveColumns(columns, config.insertBlacklist);
        var names := Join(",", Keys(kept));
        var params := Join(",", Placeholders(Keys(kept)));
        var bindings := BindColumns(kept);
        st := Statement("INSERT INTO " + tableName + "(" + names + ") VALUES(" + params + ")", bindings);
      } else {
        var kept := RemoveColumns(Unset(columns, identifier), config.updateBlacklist);
        WithoutWithout(columns, [identifier], config.updateBlacklist);
        var list: seq<string> := [];
        var i := 0;
        while i < |kept|
          invariant 0 <= i <= |kept|
          invariant list == Assignments(Keys(kept[..i]))
        {
          assert Keys(kept[..i + 1]) == Keys(kept[..i]) + [kept[i].0];
          list := list + [kept[i].0 + "=:" + kept[i].0];
          i := i + 1;
        }
        assert kept[..i] == kept;
        var setList := if |list| > 0 then Join(",", list) else "";
        var bindings := BindColumns(kept);
        st := Statement("UPDATE " + tableName + " SET " + setList + " WHERE " + identifier + "=:id",
                        [("id", id)] + bindings);
      }
    }

    /** `remove()`: prepares the DELETE of this record, or nothing when its identifier is empty. */
    method Remove() returns (st: Option<Statement>)
      requires Valid()
      ensures st == RemoveStatement(tableName, config, columns)
    {
      var identifier := config.identifier;
      if !Empty(ColumnValue(columns, identifier)) {
        st := Some(Statement("DELETE FROM " + tableName + " WHERE " + identifier + "=:id",
                             [("id", ColumnValue(columns, identifier))]));
      } else {
        st := None;
      }
    }
  }

  /** The blacklist loops of `save`: `unset` every listed column in turn. */
  method RemoveColumns(columns: seq<(string, Value)>, blacklist: seq<string>)
    returns (kept: seq<(string, Value)>)
    ensures kept == Without(columns, blacklist)
  {
    kept := columns;
    WithoutNone(columns);
    if |blacklist| > 0 {
      var i := 0;
      while i < |blacklist|
        invariant 0 <= i <= |blacklist|
        invariant kept == Without(columns, blacklist[..i])
      {
        WithoutWithout(columns, blacklist[..i], [blacklist[i]]);
        assert blacklist[..i + 1] == blacklist[..i] + [blacklist[i]];
        kept := Unset(kept, blacklist[i]);
        i := i + 1;
      }
      assert blacklist[..i] == blacklist;
    }
  }

  /** The `bindParam(':' . $key, $value)` loops of `save`: every column under its placeholder. */
  method BindColumns(columns: seq<(string, Value)>) returns (bindings: seq<(string, Value)>)
    ensures bindings == PlaceholderBindings(columns)
  {
    bindings := [];
    var i := 0;
    while i < |columns|
      invariant 0 <= i <= |columns|
      invariant bindings == PlaceholderBindings(columns[..i])
    {
      bindings := bindings + [(":" + columns[i].0, columns[i].1)];
      i := i + 1;
    }
    assert columns[..i] == columns;
  }
}
