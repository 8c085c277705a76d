/** Display strings and the walk up a record's parent chain: make_display_string,
    build_hierarchy and get_most_proximate_date. The backend is a map from uri
    to record; a fetch of a uri it lacks fails with NotFound. */
module Hierarchy {
  import opened Records
  import opened Strings
  import opened Dates
  import opened Formatters

  type Store = map<Uri, Record>

  /** The parent relation is well founded: a stored record's parent has a
      smaller rank than the record. The source has no cycle check and loops
      forever on a cyclic chain; the model considers acyclic stores only. */
  ghost predicate Ranked(store: Store, rank: Uri -> nat) {
    forall u :: u in store && store[u].parent.Some? ==> rank(store[u].parent.value) < rank(u)
  }

  /** What is left of the walk from `rec` upwards. */
  function Depth(rec: Record, rank: Uri -> nat): nat {
    if rec.parent.Some? then rank(rec.parent.value) + 1 else 0
  }

  /** make_display_string without the parent's title: sanitized title and
      formatted dates, either alone, or no value when both are missing. */
  function Label(rec: Record): Option<string> {
    if rec.title != "" && rec.dates != [] then Some(SanitizeTitle(rec.title) + ", " + FormattedDates(rec.dates))
    else if rec.title != "" then Some(SanitizeTitle(rec.title))
    else if rec.dates != [] then Some(FormattedDates(rec.dates))
    else None
  }

  /** make_display_string. With `addParentTitle`, a record that has dates but
      no title is shown after its parent's stored display string; reading
      the parent fails when the record has no parent (a KeyError in the
      source) or the parent cannot be fetched. */
  function DisplayString(store: Store, rec: Record, addParentTitle: bool): Result<Option<string>> {
    if rec.title == "" && rec.dates != [] && addParentTitle then
      match rec.parent
      case None => Err(KeyError("parent"))
      case Some(p) =>
        if p !in store then Err(NotFound(p))
        else Ok(Some(SanitizeTitle(store[p].displayString) + ", " + FormattedDates(rec.dates)))
    else Ok(Label(rec))
  }

  /** A title comes first, followed by the dates when there are any; the
      parent option plays no part. */
  lemma DisplayTitleFirst(store: Store, rec: Record, addParentTitle: bool)
    requires rec.title != ""
    ensures rec.dates != [] ==>
      DisplayString(store, rec, addParentTitle) == Ok(Some(SanitizeTitle(rec.title) + ", " + FormattedDates(rec.dates)))
    ensures rec.dates == [] ==> DisplayString(store, rec, addParentTitle) == Ok(Some(SanitizeTitle(rec.title)))
  {
  }

  /** An untitled dated record is shown by its dates, after its parent's
      stored display string when the parent option is set. */
  lemma DisplayParentTitle(store: Store, rec: Record)
    requires rec.title == "" && rec.dates != [] && rec.parent.Some? && rec.parent.value in store
    ensures DisplayString(store, rec, true) ==
      Ok(Some(SanitizeTitle(store[rec.parent.value].displayString) + ", " + FormattedDates(rec.dates)))
    ensures DisplayString(store, rec, false) == Ok(Some(FormattedDates(rec.dates)))
  {
  }

  /** There is no value exactly when the record has neither title nor dates. */
  lemma DisplayNone(store: Store, rec: Record, addParentTitle: bool)
    ensures DisplayString(store, rec, addParentTitle) == Ok(None) <==> rec.title == "" && rec.dates == []
  {
  }

  /** Without the parent option the store is never consulted and nothing fails. */
  lemma DisplayStringWithoutParent(store: Store, other: Store, rec: Record)
    ensures DisplayString(store, rec, false) == DisplayString(other, rec, false) == Ok(Label(rec))
  {
  }

  /** The parent option only fails on an untitled dated record whose parent is
      missing, and then says which. */
  lemma DisplayStringErrors(store: Store, rec: Record, addParentTitle: bool)
    ensures DisplayString(store, rec, addParentTitle).Err? <==>
      addParentTitle && rec.title == "" && rec.dates != [] && (rec.parent.None? || rec.parent.value !in store)
    ensures rec.title == "" && rec.dates != [] && addParentTitle && rec.parent.None? ==>
      DisplayString(store, rec, addParentTitle) == Err(KeyError("parent"))
  {
  }

  /** The records above `rec`, nearest first, as the source fetches them. */
  function Ancestors(store: Store, rec: Record, rank: Uri -> nat): (r: Result<seq<Record>>)
    requires Ranked(store, rank)
    ensures r.Ok? && r.value != [] ==> r.value[|r.value| - 1].parent.None?
    ensures r.Err? ==> r.error.NotFound? && r.error.uri !in store
    decreases Depth(rec, rank)
  {
    if rec.parent.None? then Ok([])
    else
      var p := rec.parent.value;
      if p !in store then Err(NotFound(p))
      else match Ancestors(store, store[p], rank)
        case Err(e) => Err(e)
        case Ok(rest) => Ok([store[p]] + rest)
  }

  function Labels(records: seq<Record>): (r: seq<Option<string>>)
    ensures |r| == |records|
  {
    if records == [] then [] else [Label(records[0])] + Labels(records[1..])
  }

  function Values(xs: seq<Option<string>>): (r: seq<string>)
    requires None !in xs
    ensures |r| == |xs|
  {
    if xs == [] then [] else [xs[0].value] + Values(xs[1..])
  }

  /** The specification of build_hierarchy: the ancestors' display strings,
      oldest first, joined by " <delimiter> "; "" for a record with no parent.
      A missing ancestor fails the fetch, and an ancestor with neither title
      nor dates makes the join fail (a TypeError in the source). */
  function Hierarchy(store: Store, rec: Record, delimiter: string, rank: Uri -> nat): Result<string>
    requires Ranked(store, rank)
  {
    match Ancestors(store, rec, rank)
    case Err(e) => Err(e)
    case Ok(ancestors) =>
      var titles := Reverse(Labels(ancestors));
      if titles == [] then Ok("")
      else if None in titles then Err(TypeError)
      else Ok(Join(" " + delimiter + " ", Values(titles)))
  }

  /** `records` in front of the chain `r`, or the error `r` reports. */
  function Prepend(records: seq<Record>, r: Result<seq<Record>>): Result<seq<Record>> {
    match r
    case Err(e) => Err(e)
    case Ok(rest) => Ok(records + rest)
  }

  lemma AncestorsStep(store: Store, visited: seq<Record>, current: Record, rank: Uri -> nat)
    requires Ranked(store, rank) && current.parent.Some? && current.parent.value in store
    ensures var parent := store[current.parent.value];
      Prepend(visited, Ancestors(store, current, rank)) == Prepend(visited + [parent], Ancestors(store, parent, rank))
  {
    var parent := store[current.parent.value];
    if Ancestors(store, parent, rank).Ok? {
      var rest := Ancestors(store, parent, rank).value;
      assert visited + ([parent] + rest) == (visited + [parent]) + rest;
    }
  }

  /** The hierarchy of a record whose ancestors are `chain`. */
  lemma HierarchyOfChain(store: Store, rec: Record, delimiter: string, rank: Uri -> nat, chain: seq<Record>)
    requires Ranked(store, rank) && Ancestors(store, rec, rank) == Ok(chain)
    ensures var titles := Reverse(Labels(chain));
      Hierarchy(store, rec, delimiter, rank) ==
        if titles == [] then Ok("")
        else if None in titles then Err(TypeError)
        else Ok(Join(" " + delimiter + " ", Values(titles)))
  {
  }

  /** build_hierarchy: fetch parents while there is one, collect their
      display strings, reverse, join. */
  method BuildHierarchy(store: Store, rec: Record, delimiter: string, ghost rank: Uri -> nat) returns (r: Result<string>)
    requires Ranked(store, rank)
    ensures r == Hierarchy(store, rec, delimiter, rank)
  {
    var parentTitles: seq<Option<string>> := [];
    ghost var visited: seq<Record> := [];
    var current := rec;
    assert Prepend([], Ancestors(store, rec, rank)) == Ancestors(store, rec, rank) by {
      if Ancestors(store, rec, rank).Ok? {
        assert [] + Ancestors(store, rec, rank).value == Ancestors(store, rec, rank).value;
      }
    }
    while current.parent.Some?
      invariant Ancestors(store, rec, rank) == Prepend(visited, Ancestors(store, current, rank))
      invariant parentTitles == Labels(visited)
      decreases Depth(current, rank)
    {
      var parentRef := current.parent.value;
      if parentRef !in store {
        return Err(NotFound(parentRef));
      }
      var parent := store[parentRef];
      var parentTitle := DisplayString(store, parent, false).value;
      LabelsSnoc(visited, parent);
      AncestorsStep(store, visited, current, rank);
      parentTitles := parentTitles + [parentTitle];
      visited := visited + [parent];
      current := parent;
    }
    assert visited + [] == visited;
    HierarchyOfChain(store, rec, delimiter, rank, visited);
    parentTitles := Reverse(parentTitles);
    if parentTitles == [] {
      return Ok("");
    }
    if None in parentTitles {
      return Err(TypeError);
    }
    r := Ok(Join(" " + delimiter + " ", Values(parentTitles)));
  }

  lemma {:induction false} LabelsSnoc(records: seq<Record>, rec: Record)
    ensures Labels(records + [rec]) == Labels(records) + [Label(rec)]
  {
    if records != [] {
      assert (records + [rec])[1..] == records[1..] + [rec];
      LabelsSnoc(records[1..], rec);
    }
  }

  /** A record with no parent has the empty hierarchy. */
  lemma RootHierarchy(store: Store, rec: Record, delimiter: string, rank: Uri -> nat)
    requires Ranked(store, rank) && rec.parent.None?
    ensures Hierarchy(store, rec, delimiter, rank) == Ok("")
  {
  }

  /** The record's own fields other than its parent never enter its hierarchy. */
  lemma HierarchyIgnoresOwnFields(store: Store, rec: Record, other: Record, delimiter: string, rank: Uri -> nat)
    requires Ranked(store, rank) && other.parent == rec.parent
    ensures Hierarchy(store, rec, delimiter, rank) == Hierarchy(store, other, delimiter, rank)
  {
  }

  lemma ReverseCons<T>(x: T, s: seq<T>)
    ensures Reverse([x] + s) == Reverse(s) + [x]
  {
    assert ([x] + s)[1..] == s;
  }

  lemma {:induction false} ValuesSnoc(xs: seq<Option<string>>, x: string)
    requires None !in xs
    ensures None !in xs + [Some(x)]
    ensures Values(xs + [Some(x)]) == Values(xs) + [x]
  {
    if xs != [] {
      assert (xs + [Some(x)])[1..] == xs[1..] + [Some(x)];
      assert forall y :: y in xs[1..] ==> y in xs;
      ValuesSnoc(xs[1..], x);
    }
  }

  /** The titles above a record are its parent's titles, then the parent's own. */
  lemma TitlesStep(parent: Record, rest: seq<Record>, title: string)
    requires Label(parent) == Some(title)
    ensures Reverse(Labels([parent] + rest)) == Reverse(Labels(rest)) + [Some(title)]
  {
    assert ([parent] + rest)[1..] == rest;
    assert Labels([parent] + rest) == [Some(title)] + Labels(rest);
    ReverseCons(Some(title), Labels(rest));
  }

  /** One step up the chain: the hierarchy of a record is its parent's
      hierarchy followed by the parent's own display string. */
  lemma HierarchyStep(store: Store, rec: Record, delimiter: string, rank: Uri -> nat, upper: string, title: string)
    requires Ranked(store, rank)
    requires rec.parent.Some? && rec.parent.value in store
    requires Hierarchy(store, store[rec.parent.value], delimiter, rank) == Ok(upper)
    requires Label(store[rec.parent.value]) == Some(title)
    ensures var separator := " " + delimiter + " ";
      Hierarchy(store, rec, delimiter, rank) ==
        Ok(if store[rec.parent.value].parent.None? then title else upper + separator + title)
  {
    var parent := store[rec.parent.value];
    var rest := Ancestors(store, parent, rank).value;
    AncestorsStep(store, [], rec, rank);
    assert [] + [parent] == [parent];
    assert Ancestors(store, rec, rank) == Ok([parent] + rest);
    HierarchyOfChain(store, parent, delimiter, rank, rest);
    HierarchyOfChain(store, rec, delimiter, rank, [parent] + rest);
    TitlesStep(parent, rest, title);
    var upperTitles := Reverse(Labels(rest));
    ValuesSnoc(upperTitles, title);
    JoinSnoc(" " + delimiter + " ", Values(upperTitles), title);
    assert parent.parent.None? <==> rest == [];
  }

  function ExampleRank(u: Uri): nat {
    if u == "/s" then 1 else 0
  }

  /** Worked case: a record under "Series" (stored at "/s") under "Collection"
      (stored at "/c") with delimiter ">" has the hierarchy "Collection > Series". */
  lemma HierarchyExample(collection: Record, series: Record, item: Record)
    requires collection.parent.None? && collection.title == "Collection" && collection.dates == []
    requires series.parent == Some("/c") && series.title == "Series" && series.dates == []
    requires item.parent == Some("/s")
    ensures var store := map["/c" := collection, "/s" := series];
      Ranked(store, ExampleRank) && Hierarchy(store, item, ">", ExampleRank) == Ok("Collection > Series")
  {
    var store: Store := map["/c" := collection, "/s" := series];
    ExampleSeriesLevel(collection, series);
    assert store["/s"] == series;
    ExampleTitles();
    assert Label(series) == Some("Series");
    HierarchyStep(store, item, ">", ExampleRank, "Collection", "Series");
    ExampleJoined();
  }

  lemma ExampleJoined()
    ensures "Collection" + (" " + ">" + " ") + "Series" == "Collection > Series"
  {
    assert " " + ">" + " " == " > ";
  }

  lemma ExampleSeriesLevel(collection: Record, series: Record)
    requires collection.parent.None? && collection.title == "Collection" && collection.dates == []
    requires series.parent == Some("/c")
    ensures var store := map["/c" := collection, "/s" := series];
      Ranked(store, ExampleRank) && Hierarchy(store, series, ">", ExampleRank) == Ok("Collection")
  {
    var store: Store := map["/c" := collection, "/s" := series];
    assert "/c" != "/s";
    assert store["/c"] == collection && store["/s"] == series;
    assert Ranked(store, ExampleRank);
    ExampleTitles();
    assert Label(collection) == Some("Collection");
    RootHierarchy(store, collection, ">", ExampleRank);
    HierarchyStep(store, series, ">", ExampleRank, "", "Collection");
  }

  lemma ExampleTitles()
    ensures SanitizeTitle("Collection") == "Collection" && SanitizeTitle("Series") == "Series"
  {
    CollectionTitle();
    SeriesTitle();
  }

  lemma CollectionTitle()
    ensures SanitizeTitle("Collection") == "Collection"
  {
    var t := "Collection";
    assert '<' !in t by {
      assert forall i :: 0 <= i < |t| ==> t[i] != '<';
    }
    PlainTitle(t);
  }

  lemma SeriesTitle()
    ensures SanitizeTitle("Series") == "Series"
  {
    var t := "Series";
    assert '<' !in t by {
      assert forall i :: 0 <= i < |t| ==> t[i] != '<';
    }
    PlainTitle(t);
  }

  /** A title with no tag and no surrounding space is kept as it is. */
  lemma PlainTitle(title: string)
    requires title != [] && '<' !in title && !IsSpace(title[0]) && !IsSpace(title[|title| - 1])
    ensures SanitizeTitle(title) == title
  {
    StripTagsWithoutOpen(title);
    TrimIdle(title);
  }

  /** The record get_most_proximate_date formats: the first record up the
      chain, starting with `rec` itself, that has dates, or the root when none has. */
  function NearestDated(store: Store, rec: Record, rank: Uri -> nat): (r: Result<Record>)
    requires Ranked(store, rank)
    ensures r.Ok? ==> r.value.dates != [] || r.value.parent.None?
    ensures rec.dates != [] || rec.parent.None? ==> r == Ok(rec)
    ensures r.Err? ==> r.error.NotFound? && r.error.uri !in store
    decreases Depth(rec, rank)
  {
    if rec.dates != [] || rec.parent.None? then Ok(rec)
    else
      var p := rec.parent.value;
      if p !in store then Err(NotFound(p)) else NearestDated(store, store[p], rank)
  }

  function ProximateDate(store: Store, rec: Record, rank: Uri -> nat): Result<string>
    requires Ranked(store, rank)
  {
    match NearestDated(store, rec, rank)
    case Err(e) => Err(e)
    case Ok(found) => Ok(FormattedDates(found.dates))
  }

  /** get_most_proximate_date: climb while the record has no dates and has a
      parent, then format the dates of where the climb stopped. */
  method MostProximateDate(store: Store, rec: Record, ghost rank: Uri -> nat) returns (r: Result<string>)
    requires Ranked(store, rank)
    ensures r == ProximateDate(store, rec, rank)
  {
    var current := rec;
    while current.dates == [] && current.parent.Some?
      invariant NearestDated(store, rec, rank) == NearestDated(store, current, rank)
      decreases Depth(current, rank)
    {
      var parentRef := current.parent.value;
      if parentRef !in store {
        return Err(NotFound(parentRef));
      }
      current := store[parentRef];
    }
    var dates := FormatDates(current.dates);
    r := Ok(dates);
  }

  /** The first record of a chain that has dates, or its last record. */
  function FirstDated(chain: seq<Record>): Record
    requires chain != []
  {
    if chain[0].dates != [] || |chain| == 1 then chain[0] else FirstDated(chain[1..])
  }

  /** The climb stops at the first record with dates among the record and its
      ancestors, in that order, or at the root. */
  lemma {:induction false} NearestDatedOnChain(store: Store, rec: Record, rank: Uri -> nat)
    requires Ranked(store, rank) && Ancestors(store, rec, rank).Ok?
    ensures NearestDated(store, rec, rank) == Ok(FirstDated([rec] + Ancestors(store, rec, rank).value))
    decreases Depth(rec, rank)
  {
    if rec.dates == [] && rec.parent.Some? {
      var parent := store[rec.parent.value];
      var rest := Ancestors(store, parent, rank).value;
      NearestDatedOnChain(store, parent, rank);
      assert ([rec] + ([parent] + rest))[1..] == [parent] + rest;
    }
  }
}
