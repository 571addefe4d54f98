/** The admin list of the "events" post type (inc/events.php): two extra
    columns, one of them sortable, and the query rewrite that sorts by it. */
module Events {
  import opened PhpStrings
  import opened PhpArrays

  const DateColumn := "event_datum"
  const MainColumn := "hauptevent"

  /** add_custom_columns: the first two columns, then the date and main-event
      columns, then the rest. The labels are what the translation function
      returns for "Event-Datum" and "Hauptevent". */
  function AddCustomColumns(columns: PhpArray<string>, dateLabel: string, mainLabel: string): PhpArray<string> {
    Merge(Merge(Slice(columns, 0, Some(2)), [(DateColumn, dateLabel), (MainColumn, mainLabel)]), Slice(columns, 2, None))
  }

  /** When neither new column is there yet, the two are inserted after the
      first two columns, and every column keeps its place around them. */
  lemma {:induction false} AddCustomColumnsInserts(columns: PhpArray<string>, dateLabel: string, mainLabel: string)
    requires DistinctKeys(columns) && !HasKey(columns, DateColumn) && !HasKey(columns, MainColumn)
    ensures var m := if |columns| < 2 then |columns| else 2;
      AddCustomColumns(columns, dateLabel, mainLabel) == columns[..m] + [(DateColumn, dateLabel), (MainColumn, mainLabel)] + columns[m..]
    ensures |AddCustomColumns(columns, dateLabel, mainLabel)| == |columns| + 2
  {
    var m := if |columns| < 2 then |columns| else 2;
    var added: PhpArray<string> := [(DateColumn, dateLabel), (MainColumn, mainLabel)];
    SliceSpec(columns, 2);
    var head, tail := Slice(columns, 0, Some(2)), Slice(columns, 2, None);
    assert head == columns[..m] && tail == columns[m..];
    forall j | 0 <= j < |added| ensures !HasKey(head, added[j].0) {
      forall i | 0 <= i < |head| ensures head[i].0 != added[j].0 { assert head[i] == columns[i]; }
    }
    DistinctAppend(head, added);
    MergeFresh(head, added);
    forall j | 0 <= j < |tail| ensures !HasKey(head + added, tail[j].0) {
      assert tail[j] == columns[m + j];
      forall i | 0 <= i < |head + added| ensures (head + added)[i].0 != tail[j].0 {
        if i < m { assert (head + added)[i] == columns[i]; }
      }
    }
    DistinctAppend(head + added, tail);
    MergeFresh(head + added, tail);
  }

  /** add_custom_columns repeats no column. */
  lemma {:induction false} AddCustomColumnsDistinct(columns: PhpArray<string>, dateLabel: string, mainLabel: string)
    requires DistinctKeys(columns)
    ensures DistinctKeys(AddCustomColumns(columns, dateLabel, mainLabel))
  {
    SliceSpec(columns, 2);
    MergeKeepsOrder(Slice(columns, 0, Some(2)), [(DateColumn, dateLabel), (MainColumn, mainLabel)]);
    MergeKeepsOrder(Merge(Slice(columns, 0, Some(2)), [(DateColumn, dateLabel), (MainColumn, mainLabel)]), Slice(columns, 2, None));
  }

  /** A column's value is found in the columns from the third on, or else in the first two. */
  lemma {:induction false} ColumnsSplitAtTwo(columns: PhpArray<string>, k: string)
    requires DistinctKeys(columns)
    ensures Get(columns, k) ==
      if HasKey(Slice(columns, 2, None), k) then Get(Slice(columns, 2, None), k) else Get(Slice(columns, 0, Some(2)), k)
  {
    SliceSpec(columns, 2);
    MergeFresh(Slice(columns, 0, Some(2)), Slice(columns, 2, None));
    MergeGet(Slice(columns, 0, Some(2)), Slice(columns, 2, None), k);
  }

  /** Where the value of a column after add_custom_columns comes from: the
      columns from the third on, then the two new ones, then the first two. */
  lemma {:induction false} AddCustomColumnsSources(columns: PhpArray<string>, dateLabel: string, mainLabel: string, k: string)
    requires DistinctKeys(columns)
    ensures var (head, tail) := (Slice(columns, 0, Some(2)), Slice(columns, 2, None));
      var added: PhpArray<string> := [(DateColumn, dateLabel), (MainColumn, mainLabel)];
      Get(columns, k) == (if HasKey(tail, k) then Get(tail, k) else Get(head, k)) &&
      Get(AddCustomColumns(columns, dateLabel, mainLabel), k) ==
        if HasKey(tail, k) then Get(tail, k) else if HasKey(added, k) then Get(added, k) else Get(head, k)
  {
    var added: PhpArray<string> := [(DateColumn, dateLabel), (MainColumn, mainLabel)];
    ColumnsSplitAtTwo(columns, k);
    SliceSpec(columns, 2);
    var head, tail := Slice(columns, 0, Some(2)), Slice(columns, 2, None);
    MergeKeepsOrder(head, added);
    MergeGet(head, added, k);
    MergeGet(Merge(head, added), tail, k);
  }

  /** Every column other than the two new ones keeps its value. */
  lemma {:induction false} AddCustomColumnsKeepsOthers(columns: PhpArray<string>, dateLabel: string, mainLabel: string, k: string)
    requires DistinctKeys(columns) && k != DateColumn && k != MainColumn
    ensures Get(AddCustomColumns(columns, dateLabel, mainLabel), k) == Get(columns, k)
  {
    AddCustomColumnsSources(columns, dateLabel, mainLabel, k);
  }

  /** Each new column takes its label, unless it was already there from the
      third place on, where its old value wins. */
  lemma {:induction false} AddCustomColumnsLabels(columns: PhpArray<string>, dateLabel: string, mainLabel: string)
    requires DistinctKeys(columns)
    ensures Get(AddCustomColumns(columns, dateLabel, mainLabel), DateColumn) ==
      if HasKey(Slice(columns, 2, None), DateColumn) then Get(columns, DateColumn) else Some(dateLabel)
    ensures Get(AddCustomColumns(columns, dateLabel, mainLabel), MainColumn) ==
      if HasKey(Slice(columns, 2, None), MainColumn) then Get(columns, MainColumn) else Some(mainLabel)
  {
    var added: PhpArray<string> := [(DateColumn, dateLabel), (MainColumn, mainLabel)];
    AddCustomColumnsSources(columns, dateLabel, mainLabel, DateColumn);
    AddCustomColumnsSources(columns, dateLabel, mainLabel, MainColumn);
    GetAt(added, 0);
    GetAt(added, 1);
  }

  /** make_custom_columns_sortable: the date column sorts by "event_datum". */
  function MakeCustomColumnsSortable(columns: PhpArray<string>): PhpArray<string> {
    Set(columns, DateColumn, DateColumn)
  }

  /** The date column becomes sortable, nothing else changes, and a second
      call changes nothing more. */
  lemma {:induction false} MakeSortableMarksDate(columns: PhpArray<string>)
    requires DistinctKeys(columns)
    ensures DistinctKeys(MakeCustomColumnsSortable(columns))
    ensures Get(MakeCustomColumnsSortable(columns), DateColumn) == Some(DateColumn)
    ensures forall k :: k != DateColumn ==> Get(MakeCustomColumnsSortable(columns), k) == Get(columns, k)
    ensures MakeCustomColumnsSortable(MakeCustomColumnsSortable(columns)) == MakeCustomColumnsSortable(columns)
  {
    SetSpec(columns, DateColumn, DateColumn);
    SetSame(MakeCustomColumnsSortable(columns), DateColumn, DateColumn);
  }

  /** A query variable as WordPress hands it over: null, a boolean, an
      integer, a string, or any other value (an array or an object). */
  datatype QueryVar = Null | Bool(b: bool) | Int(i: int) | Str(s: string) | Other

  /** `"event_datum" == $v` under PHP 8 loose comparison: a string equals it
      only as the same string; a boolean compares with the string's truth
      value, which is true; an integer is compared as its decimal text, which
      is never "event_datum"; arrays and objects are never equal to it. */
  predicate LooselyEqualsDate(v: QueryVar) {
    match v
    case Str(s) => s == DateColumn
    case Bool(b) => b
    case _ => false
  }

  /** isset($vars["orderby"]) && "event_datum" == $vars["orderby"]. */
  predicate OrdersByDate(vars: PhpArray<QueryVar>) {
    match Get(vars, "orderby")
    case Some(v) => v != Null && LooselyEqualsDate(v)
    case None => false
  }

  /** sort_custom_column_entries_by_value: a request ordered by the date
      column is ordered by the value of the "event_datum" meta field instead. */
  function SortByDateValue(vars: PhpArray<QueryVar>): PhpArray<QueryVar> {
    if OrdersByDate(vars) then Merge(vars, [("meta_key", Str(DateColumn)), ("orderby", Str("meta_value"))])
    else vars
  }

  /** A request ordered by the date column gets meta_key "event_datum" and
      orderby "meta_value", and keeps every other variable and the order of
      its variables; any other request comes back as it was. */
  lemma {:induction false} SortByDateValueRewrites(vars: PhpArray<QueryVar>, k: string)
    requires DistinctKeys(vars)
    ensures DistinctKeys(SortByDateValue(vars))
    ensures OrdersByDate(vars) ==>
      Get(SortByDateValue(vars), "meta_key") == Some(Str(DateColumn)) &&
      Get(SortByDateValue(vars), "orderby") == Some(Str("meta_value"))
    ensures OrdersByDate(vars) ==>
      |vars| <= |SortByDateValue(vars)| && forall i :: 0 <= i < |vars| ==> SortByDateValue(vars)[i].0 == vars[i].0
    ensures k != "meta_key" && k != "orderby" ==> Get(SortByDateValue(vars), k) == Get(vars, k)
    ensures !OrdersByDate(vars) ==> SortByDateValue(vars) == vars
  {
    if OrdersByDate(vars) {
      var added: PhpArray<QueryVar> := [("meta_key", Str(DateColumn)), ("orderby", Str("meta_value"))];
      MergeKeepsOrder(vars, added);
      MergeGet(vars, added, k);
      MergeGet(vars, added, "meta_key");
      MergeGet(vars, added, "orderby");
      GetAt(added, 0);
      GetAt(added, 1);
    }
  }

  /** Rewriting the query twice is the same as rewriting it once. */
  lemma {:induction false} SortByDateValueIdempotent(vars: PhpArray<QueryVar>)
    requires DistinctKeys(vars)
    ensures SortByDateValue(SortByDateValue(vars)) == SortByDateValue(vars)
  {
    SortByDateValueRewrites(vars, "orderby");
  }
}
