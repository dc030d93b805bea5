/**
 Which names of a set of tables may be logged (`SafeLoggableDataUtils`).

 From each table's metadata the utility collects: the table reference itself, when the
 table's name is loggable; the names of the row components whose names are loggable,
 always recorded for the reference, even when there are none; and, when the table has
 named columns, the long names of the loggable ones. The collected data is assembled by
 an immutable builder, which refuses to build when a reference was given row components
 (or column names) twice.
 */
module SafeLoggable {
  import opened Wrappers
  import opened Sequences
  import opened Bytes
  import opened NameComponents

  datatype TableReference = TableReference(namespace: string, tableName: string)

  datatype NamedColumnDescription = NamedColumnDescription(shortName: string, longName: string, logSafety: LogSafety)

  /**
   The parts of a table's metadata the utility reads: the table name's log safety, the
   row components, and the named columns, absent (`null`) for a table with dynamic columns.
   */
  datatype TableMetadata = TableMetadata(
    nameLogSafety: LogSafety,
    rowParts: seq<NameComponentDescription>,
    namedColumns: Option<set<NamedColumnDescription>>)

  predicate IsTableNameLoggable(m: TableMetadata) {
    m.nameLogSafety == Safe
  }

  predicate IsColumnNameLoggable(c: NamedColumnDescription) {
    c.logSafety == Safe
  }

  datatype SafeLoggableData = SafeLoggableData(
    permittedTableReferences: set<TableReference>,
    permittedRowComponents: map<TableReference, set<string>>,
    permittedColumnNames: map<TableReference, set<string>>)

  // ---------------------------------------------------------------------------
  // The names of one table
  // ---------------------------------------------------------------------------

  /** The names of the loggable row components, as a set. */
  function LoggableRowComponentNames(m: TableMetadata): (names: set<string>)
    ensures forall n :: n in names <==>
      exists i :: 0 <= i < |m.rowParts| && IsNameLoggable(m.rowParts[i]) && m.rowParts[i].componentName == n
  {
    set i | 0 <= i < |m.rowParts| && IsNameLoggable(m.rowParts[i]) :: m.rowParts[i].componentName
  }

  /** The long names of the loggable columns among `columns`. */
  function LoggableColumnNames(columns: set<NamedColumnDescription>): (names: set<string>)
    ensures forall n :: n in names <==> exists c :: c in columns && IsColumnNameLoggable(c) && c.longName == n
  {
    set c | c in columns && IsColumnNameLoggable(c) :: c.longName
  }

  /** `stream().filter(p).map(f).collect(Collectors.toSet())` over the elements `xs`. */
  function FilterMapToSet<T(!new), U>(xs: seq<T>, p: T -> bool, f: T -> U): set<U> {
    var mapped := Map(f, Filter(p, xs));
    set y | y in mapped
  }

  /** The pipeline collects the images under `f` of the elements satisfying `p`, and nothing else. */
  lemma FilterMapToSetIsImage<T(!new), U>(xs: seq<T>, p: T -> bool, f: T -> U, y: U)
    ensures y in FilterMapToSet(xs, p, f) <==> exists x :: x in xs && p(x) && f(x) == y
  {
    var kept := Filter(p, xs);
    var mapped := Map(f, kept);
    if y in mapped {
      var i :| 0 <= i < |mapped| && mapped[i] == y;
      assert kept[i] in kept;
    }
    if exists x :: x in xs && p(x) && f(x) == y {
      var x :| x in xs && p(x) && f(x) == y;
      assert x in kept;
      var i :| 0 <= i < |kept| && kept[i] == x;
      assert mapped[i] == y;
    }
  }

  /**
   Streaming the row parts in their order through the pipeline collects exactly the names
   of the loggable row components.
   */
  lemma RowComponentNamesPipeline(m: TableMetadata)
    ensures FilterMapToSet(m.rowParts, IsNameLoggable, (d: NameComponentDescription) => d.componentName)
         == LoggableRowComponentNames(m)
  {
    var f := (d: NameComponentDescription) => d.componentName;
    forall n
      ensures n in FilterMapToSet(m.rowParts, IsNameLoggable, f) <==> n in LoggableRowComponentNames(m)
    {
      FilterMapToSetIsImage(m.rowParts, IsNameLoggable, f, n);
      if n in LoggableRowComponentNames(m) {
        var i :| 0 <= i < |m.rowParts| && IsNameLoggable(m.rowParts[i]) && m.rowParts[i].componentName == n;
        assert m.rowParts[i] in m.rowParts;
      }
    }
  }

  /**
   Streaming the named columns through the pipeline, in whatever order the set hands them
   out, collects exactly the long names of the loggable columns.
   */
  lemma ColumnNamesPipeline(order: seq<NamedColumnDescription>, columns: set<NamedColumnDescription>)
    requires forall c :: c in order <==> c in columns
    ensures FilterMapToSet(order, IsColumnNameLoggable, (c: NamedColumnDescription) => c.longName)
         == LoggableColumnNames(columns)
  {
    var f := (c: NamedColumnDescription) => c.longName;
    forall n
      ensures n in FilterMapToSet(order, IsColumnNameLoggable, f) <==> n in LoggableColumnNames(columns)
    {
      FilterMapToSetIsImage(order, IsColumnNameLoggable, f, n);
    }
  }

  // ---------------------------------------------------------------------------
  // The builder
  // ---------------------------------------------------------------------------

  /**
   `ImmutableSafeLoggableData.Builder`: the data gathered so far, and whether some map key
   was put twice, which makes `build()` fail.
   */
  datatype Builder = Builder(
    tables: set<TableReference>,
    rowComponents: map<TableReference, set<string>>,
    columnNames: map<TableReference, set<string>>,
    duplicateKey: bool)

  const EmptyBuilder: Builder := Builder({}, map[], map[], false)

  /** `putPermitted...(ref, names)` on one of the builder's maps. */
  function PutEntry(entries: map<TableReference, set<string>>, ref: TableReference, names: set<string>): map<TableReference, set<string>> {
    entries[ref := names]
  }

  /** `addLoggableNamesToBuilder`: adds the loggable names of table `ref` to the builder. */
  function AddLoggableNamesToBuilder(b: Builder, ref: TableReference, m: TableMetadata): (r: Builder)
    ensures ref in r.tables <==> ref in b.tables || IsTableNameLoggable(m)
    ensures r.tables - {ref} == b.tables - {ref}
    ensures ref in r.rowComponents && r.rowComponents[ref] == LoggableRowComponentNames(m)
    ensures m.namedColumns.None? ==> r.columnNames == b.columnNames
    ensures m.namedColumns.Some? ==>
      ref in r.columnNames && r.columnNames[ref] == LoggableColumnNames(m.namedColumns.value)
    ensures r.rowComponents.Keys == b.rowComponents.Keys + {ref}
    ensures forall t :: t in b.rowComponents && t != ref ==> r.rowComponents[t] == b.rowComponents[t]
    ensures r.columnNames.Keys <= b.columnNames.Keys + {ref}
    ensures forall t :: t in b.columnNames && t != ref ==> t in r.columnNames && r.columnNames[t] == b.columnNames[t]
    ensures r.duplicateKey <==>
      b.duplicateKey || ref in b.rowComponents || (m.namedColumns.Some? && ref in b.columnNames)
  {
    var tables := if IsTableNameLoggable(m) then b.tables + {ref} else b.tables;
    RowComponentNamesPipeline(m);
    var names := FilterMapToSet(m.rowParts, IsNameLoggable, (d: NameComponentDescription) => d.componentName);
    var rows := PutEntry(b.rowComponents, ref, names);
    var duplicate := b.duplicateKey || ref in b.rowComponents;
    match m.namedColumns
    case None => Builder(tables, rows, b.columnNames, duplicate)
    case Some(columns) =>
      Builder(tables, rows, PutEntry(b.columnNames, ref, LoggableColumnNames(columns)),
              duplicate || ref in b.columnNames)
  }

  /** `build()`: the gathered data, or a failure when a map key was put twice. */
  function Build(b: Builder): (r: Result<SafeLoggableData, string>)
    ensures r.Success? <==> !b.duplicateKey
    ensures r.Success? ==>
      && r.value.permittedTableReferences == b.tables
      && r.value.permittedRowComponents == b.rowComponents
      && r.value.permittedColumnNames == b.columnNames
  {
    if b.duplicateKey then Failure("Multiple entries with same key")
    else Success(SafeLoggableData(b.tables, b.rowComponents, b.columnNames))
  }

  // ---------------------------------------------------------------------------
  // All tables
  // ---------------------------------------------------------------------------

  /**
   What the utility makes of the tables in `refs`, stated per reference: the loggable
   table references, every reference's loggable row components, and the loggable column
   names of the references with named columns.
   */
  function LoggableNamesOf(refs: set<TableReference>, metadata: TableReference -> TableMetadata): SafeLoggableData {
    SafeLoggableData(
      set ref | ref in refs && IsTableNameLoggable(metadata(ref)),
      map ref | ref in refs :: LoggableRowComponentNames(metadata(ref)),
      map ref | ref in refs && metadata(ref).namedColumns.Some? :: LoggableColumnNames(metadata(ref).namedColumns.value))
  }

  /** The builder after adding the tables in `refs`, each once, in any order. */
  function BuilderOf(refs: set<TableReference>, metadata: TableReference -> TableMetadata): Builder {
    var d := LoggableNamesOf(refs, metadata);
    Builder(d.permittedTableReferences, d.permittedRowComponents, d.permittedColumnNames, false)
  }

  /** Adding a table not yet added extends the builder's contents by that table's names. */
  lemma AddNewTable(refs: set<TableReference>, ref: TableReference, metadata: TableReference -> TableMetadata)
    requires ref !in refs
    ensures AddLoggableNamesToBuilder(BuilderOf(refs, metadata), ref, metadata(ref)) == BuilderOf(refs + {ref}, metadata)
  {
    var b := BuilderOf(refs, metadata);
    var m := metadata(ref);
    var after := BuilderOf(refs + {ref}, metadata);
    AddNewTableRows(refs, ref, metadata);
    AddNewTableColumns(refs, ref, metadata);
    assert after.tables == if IsTableNameLoggable(m) then b.tables + {ref} else b.tables;
  }

  lemma AddNewTableRows(refs: set<TableReference>, ref: TableReference, metadata: TableReference -> TableMetadata)
    requires ref !in refs
    ensures ref !in BuilderOf(refs, metadata).rowComponents
    ensures PutEntry(BuilderOf(refs, metadata).rowComponents, ref, LoggableRowComponentNames(metadata(ref)))
         == BuilderOf(refs + {ref}, metadata).rowComponents
  {
    var before := BuilderOf(refs, metadata).rowComponents;
    var after := BuilderOf(refs + {ref}, metadata).rowComponents;
    assert before[ref := LoggableRowComponentNames(metadata(ref))] == after;
  }

  lemma AddNewTableColumns(refs: set<TableReference>, ref: TableReference, metadata: TableReference -> TableMetadata)
    requires ref !in refs
    ensures ref !in BuilderOf(refs, metadata).columnNames
    ensures metadata(ref).namedColumns.None? ==>
      BuilderOf(refs, metadata).columnNames == BuilderOf(refs + {ref}, metadata).columnNames
    ensures metadata(ref).namedColumns.Some? ==>
      PutEntry(BuilderOf(refs, metadata).columnNames, ref, LoggableColumnNames(metadata(ref).namedColumns.value))
      == BuilderOf(refs + {ref}, metadata).columnNames
  {
    var before := BuilderOf(refs, metadata).columnNames;
    var after := BuilderOf(refs + {ref}, metadata).columnNames;
    if metadata(ref).namedColumns.None? {
      assert before == after;
    } else {
      assert before[ref := LoggableColumnNames(metadata(ref).namedColumns.value)] == after;
    }
  }

  /**
   The hydrated metadata of each table of `tableRefToMetadata`. A reference outside the map
   is never looked up; it is given the metadata hydrated from no bytes.
   */
  function HydratedMetadata(tableRefToMetadata: map<TableReference, Bytes>, hydrate: Bytes -> TableMetadata): TableReference -> TableMetadata {
    ref => if ref in tableRefToMetadata then hydrate(tableRefToMetadata[ref]) else hydrate([])
  }

  /**
   `fromTableMetadata`: hydrates each table's metadata and adds its names to one builder,
   visiting the tables in whatever order the map hands them out. The result does not
   depend on that order: it always builds, and holds exactly the names of every table.
   */
  method FromTableMetadata(tableRefToMetadata: map<TableReference, Bytes>, hydrate: Bytes -> TableMetadata)
    returns (r: Result<SafeLoggableData, string>)
    ensures r == Success(LoggableNamesOf(tableRefToMetadata.Keys, HydratedMetadata(tableRefToMetadata, hydrate)))
  {
    var metadata := HydratedMetadata(tableRefToMetadata, hydrate);
    var builder := EmptyBuilder;
    var remaining := tableRefToMetadata.Keys;
    assert builder == BuilderOf({}, metadata);
    while remaining != {}
      invariant remaining <= tableRefToMetadata.Keys
      invariant builder == BuilderOf(tableRefToMetadata.Keys - remaining, metadata)
      decreases |remaining|
    {
      var ref :| ref in remaining;
      var done := tableRefToMetadata.Keys - remaining;
      AddNewTable(done, ref, metadata);
      builder := AddLoggableNamesToBuilder(builder, ref, hydrate(tableRefToMetadata[ref]));
      assert done + {ref} == tableRefToMetadata.Keys - (remaining - {ref});
      remaining := remaining - {ref};
    }
    assert tableRefToMetadata.Keys - remaining == tableRefToMetadata.Keys;
    r := Build(builder);
  }

  // ---------------------------------------------------------------------------
  // Tables contribute independently
  // ---------------------------------------------------------------------------

  /** The union of what two disjoint groups of tables contribute. */
  function Combine(a: SafeLoggableData, b: SafeLoggableData): SafeLoggableData {
    SafeLoggableData(
      a.permittedTableReferences + b.permittedTableReferences,
      a.permittedRowComponents + b.permittedRowComponents,
      a.permittedColumnNames + b.permittedColumnNames)
  }

  /**
   Each table contributes on its own: the names of two disjoint groups of tables are the
   combination of the names of each group.
   */
  lemma LoggableNamesCombine(refs1: set<TableReference>, refs2: set<TableReference>, metadata: TableReference -> TableMetadata)
    requires refs1 !! refs2
    ensures LoggableNamesOf(refs1 + refs2, metadata)
         == Combine(LoggableNamesOf(refs1, metadata), LoggableNamesOf(refs2, metadata))
  {
    CombineRows(refs1, refs2, metadata);
    CombineColumns(refs1, refs2, metadata);
  }

  lemma CombineRows(refs1: set<TableReference>, refs2: set<TableReference>, metadata: TableReference -> TableMetadata)
    requires refs1 !! refs2
    ensures LoggableNamesOf(refs1 + refs2, metadata).permittedRowComponents
         == LoggableNamesOf(refs1, metadata).permittedRowComponents + LoggableNamesOf(refs2, metadata).permittedRowComponents
  {
    var all := LoggableNamesOf(refs1 + refs2, metadata).permittedRowComponents;
    var c := LoggableNamesOf(refs1, metadata).permittedRowComponents + LoggableNamesOf(refs2, metadata).permittedRowComponents;
    assert all == c;
  }

  lemma CombineColumns(refs1: set<TableReference>, refs2: set<TableReference>, metadata: TableReference -> TableMetadata)
    requires refs1 !! refs2
    ensures LoggableNamesOf(refs1 + refs2, metadata).permittedColumnNames
         == LoggableNamesOf(refs1, metadata).permittedColumnNames + LoggableNamesOf(refs2, metadata).permittedColumnNames
  {
    var all := LoggableNamesOf(refs1 + refs2, metadata).permittedColumnNames;
    var c := LoggableNamesOf(refs1, metadata).permittedColumnNames + LoggableNamesOf(refs2, metadata).permittedColumnNames;
    assert all == c;
  }

  /**
   One table on its own: the reference when its name is loggable, its row components, and
   its column names when it has named columns.
   */
  lemma LoggableNamesOfOneTable(ref: TableReference, metadata: TableReference -> TableMetadata)
    ensures var d := LoggableNamesOf({ref}, metadata);
      && (ref in d.permittedTableReferences <==> IsTableNameLoggable(metadata(ref)))
      && d.permittedRowComponents == map[ref := LoggableRowComponentNames(metadata(ref))]
      && (metadata(ref).namedColumns.None? ==> d.permittedColumnNames == map[])
      && (metadata(ref).namedColumns.Some? ==>
            d.permittedColumnNames == map[ref := LoggableColumnNames(metadata(ref).namedColumns.value)])
  {
    var d := LoggableNamesOf({ref}, metadata);
    assert d.permittedRowComponents == map[ref := LoggableRowComponentNames(metadata(ref))];
  }
}
