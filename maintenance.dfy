/** Specifications of the client's bulk read-modify-write operations over the
    backend store: the two restriction sweeps, the instance repointing of
    merge_top_containers, find_instance_uris, the deletion rule of
    delete_single_resource_instances and the values add_enumeration_values
    appends. The methods that perform them live in the Client module. */
module Maintenance {
  import opened Records
  import opened Strings
  import opened Notes
  import Formatters

  type Store = map<Uri, Record>

  // ---------------------------------------------------------------------------
  // The note loop shared by unpublish_restrictions_by_text and
  // unpublish_expired_restrictions_for_resource

  /** A note the sweeps look at: a published access restriction. */
  predicate Candidate(n: Note) {
    n.noteType == "accessrestrict" && n.publish
  }

  /** One record's notes after a sweep, and the texts of the notes it
      unpublished, in note order. Formatting a candidate note can fail, which
      aborts the sweep. */
  function UnpublishNotes(notes: seq<Note>, cond: string -> bool): Result<(seq<Note>, seq<string>)>
  {
    if notes == [] then Ok(([], []))
    else
      match UnpublishNotes(notes[..|notes| - 1], cond)
      case Err(e) => Err(e)
      case Ok((front, texts)) =>
        var n := notes[|notes| - 1];
        if Candidate(n) then
          match FormatNote(n)
          case Err(e) => Err(e)
          case Ok(text) =>
            if cond(text) then Ok((front + [n.(publish := false)], texts + [text]))
            else Ok((front + [n], texts))
        else Ok((front + [n], texts))
  }

  /** What the sweep does to a single note. */
  function NoteAfter(n: Note, cond: string -> bool): Note {
    if Candidate(n) && FormatNote(n).Ok? && cond(FormatNote(n).value) then n.(publish := false) else n
  }

  /** A note changes only by losing its publish flag, and it changes exactly
      when it is a candidate whose text the condition accepts. */
  lemma NoteAfterOnlyUnpublishes(n: Note, cond: string -> bool)
    ensures NoteAfter(n, cond) == n.(publish := NoteAfter(n, cond).publish)
    ensures NoteAfter(n, cond).publish ==> n.publish
    ensures NoteAfter(n, cond) != n <==> Candidate(n) && FormatNote(n).Ok? && cond(FormatNote(n).value)
  {
  }

  /** The sweep of a record's notes fails exactly when some candidate note
      cannot be formatted. */
  lemma {:induction false} UnpublishNotesFails(notes: seq<Note>, cond: string -> bool)
    ensures UnpublishNotes(notes, cond).Err? <==> exists i :: 0 <= i < |notes| && Candidate(notes[i]) && FormatNote(notes[i]).Err?
  {
    if notes != [] {
      var init := notes[..|notes| - 1];
      UnpublishNotesFails(init, cond);
      assert forall i :: 0 <= i < |init| ==> init[i] == notes[i];
    }
  }

  /** When it succeeds, each note becomes `NoteAfter` of itself, and the texts
      logged, all accepted by the condition, are one per note that changed. */
  lemma {:induction false} UnpublishNotesShape(notes: seq<Note>, cond: string -> bool)
    ensures UnpublishNotes(notes, cond).Ok? ==>
      var (after, texts) := UnpublishNotes(notes, cond).value;
      && |after| == |notes|
      && (forall i :: 0 <= i < |notes| ==> after[i] == NoteAfter(notes[i], cond))
      && |texts| <= |notes|
      && (forall t :: t in texts ==> cond(t))
      && (texts == [] <==> after == notes)
  {
    if notes != [] && UnpublishNotes(notes, cond).Ok? {
      var init := notes[..|notes| - 1];
      var n := notes[|notes| - 1];
      UnpublishNotesShape(init, cond);
      NoteAfterOnlyUnpublishes(n, cond);
      var (front, texts) := UnpublishNotes(init, cond).value;
      var (after, texts') := UnpublishNotes(notes, cond).value;
      assert after == front + [NoteAfter(n, cond)];
      assert notes == init + [n];
      assert texts' == texts || texts' == texts + [FormatNote(n).value];
      if texts' == [] {
        assert after == init + [n];
      }
      if after == notes {
        assert front == init by {
          assert after[..|init|] == front;
          assert notes[..|init|] == init;
        }
      }
    }
  }

  /** The texts of the notes a sweep turns unpublished, in note order: one per
      note that `NoteAfter` changes. */
  function Flipped(notes: seq<Note>, cond: string -> bool): (r: seq<string>)
    ensures |r| <= |notes|
  {
    if notes == [] then []
    else
      var n := notes[|notes| - 1];
      Flipped(notes[..|notes| - 1], cond) + (if NoteAfter(n, cond) != n then [FormatNote(n).value] else [])
  }

  /** A successful sweep logs exactly one text per note it unpublished. */
  lemma {:induction false} UnpublishNotesLogsFlipped(notes: seq<Note>, cond: string -> bool)
    requires UnpublishNotes(notes, cond).Ok?
    ensures UnpublishNotes(notes, cond).value.1 == Flipped(notes, cond)
  {
    if notes != [] {
      var n := notes[|notes| - 1];
      UnpublishNotesLogsFlipped(notes[..|notes| - 1], cond);
      NoteAfterOnlyUnpublishes(n, cond);
    }
  }

  /** A second sweep of the swept notes changes nothing and logs nothing. */
  lemma {:induction false} UnpublishNotesIdempotent(notes: seq<Note>, cond: string -> bool)
    requires UnpublishNotes(notes, cond).Ok?
    ensures var after := UnpublishNotes(notes, cond).value.0;
      UnpublishNotes(after, cond) == Ok((after, []))
  {
    if notes != [] {
      var init := notes[..|notes| - 1];
      var n := notes[|notes| - 1];
      UnpublishNotesIdempotent(init, cond);
      var front := UnpublishNotes(init, cond).value.0;
      var after := UnpublishNotes(notes, cond).value.0;
      var m := after[|after| - 1];
      assert after == front + [m];
      assert after[..|after| - 1] == front;
      assert m == NoteAfter(n, cond);
    }
  }

  // ---------------------------------------------------------------------------
  // The record loop of the sweeps

  /** One entry of the log a sweep returns. */
  datatype LogEntry = LogEntry(uri: Uri, title: string, restriction: string)

  function Entries(uri: Uri, title: string, texts: seq<string>): (r: seq<LogEntry>)
    ensures |r| == |texts|
    ensures forall i :: 0 <= i < |r| ==> r[i] == LogEntry(uri, title, texts[i])
  {
    if texts == [] then [] else [LogEntry(uri, title, texts[0])] + Entries(uri, title, texts[1..])
  }

  /** Where a sweep leaves the store, the log it produced, and the error that
      stopped it, if one did; records written before the error stay written. */
  datatype SweepOutcome = SweepOutcome(store: Store, log: seq<LogEntry>, error: Option<Error>)

  /** The specification of the sweeps: for each uri in turn, fetch the record,
      sweep its notes, and write it back only when a note changed. */
  function Sweep(store: Store, uris: seq<Uri>, cond: string -> bool): SweepOutcome
    decreases |uris|
  {
    if uris == [] then SweepOutcome(store, [], None)
    else
      var u := uris[0];
      if u !in store then SweepOutcome(store, [], Some(NotFound(u)))
      else
        match UnpublishNotes(store[u].notes, cond)
        case Err(e) => SweepOutcome(store, [], Some(e))
        case Ok((notes, texts)) =>
          var written := if texts != [] then store[u := store[u].(notes := notes)] else store;
          var rest := Sweep(written, uris[1..], cond);
          SweepOutcome(rest.store, Entries(u, store[u].displayString, texts) + rest.log, rest.error)
  }

  /** The first step of a sweep over records that are all present and
      formattable: the rest of the sweep starts from the store with the first
      record written back when one of its notes changed. */
  lemma SweepFirst(store: Store, uris: seq<Uri>, cond: string -> bool)
    requires uris != [] && uris[0] in store && UnpublishNotes(store[uris[0]].notes, cond).Ok?
    ensures var u := uris[0];
      var (notes, texts) := UnpublishNotes(store[u].notes, cond).value;
      var written := if texts != [] then store[u := store[u].(notes := notes)] else store;
      var rest := Sweep(written, uris[1..], cond);
      Sweep(store, uris, cond) == SweepOutcome(rest.store, Entries(u, store[u].displayString, texts) + rest.log, rest.error)
  {
  }

  /** A sweep touches no record outside its uris and adds or removes no record. */
  lemma {:induction false} SweepFrame(store: Store, uris: seq<Uri>, cond: string -> bool)
    ensures var out := Sweep(store, uris, cond).store;
      && out.Keys == store.Keys
      && (forall u :: u in store && u !in uris ==> out[u] == store[u])
    decreases |uris|
  {
    if uris != [] && uris[0] in store {
      var u := uris[0];
      if UnpublishNotes(store[u].notes, cond).Ok? {
        var (notes, texts) := UnpublishNotes(store[u].notes, cond).value;
        var written := if texts != [] then store[u := store[u].(notes := notes)] else store;
        SweepFrame(written, uris[1..], cond);
        assert forall v :: v in uris[1..] ==> v in uris;
      }
    }
  }

  /** A sweep changes nothing in a record but its notes. */
  lemma {:induction false} SweepOnlyNotes(store: Store, uris: seq<Uri>, cond: string -> bool)
    ensures var out := Sweep(store, uris, cond).store;
      forall u :: u in store ==> u in out && out[u] == store[u].(notes := out[u].notes)
    decreases |uris|
  {
    SweepFrame(store, uris, cond);
    if uris != [] && uris[0] in store {
      var u := uris[0];
      if UnpublishNotes(store[u].notes, cond).Ok? {
        var (notes, texts) := UnpublishNotes(store[u].notes, cond).value;
        var written := if texts != [] then store[u := store[u].(notes := notes)] else store;
        var out := Sweep(written, uris[1..], cond).store;
        assert Sweep(store, uris, cond).store == out;
        SweepOnlyNotes(written, uris[1..], cond);
        forall v | v in store
          ensures out[v] == store[v].(notes := out[v].notes)
        {
          assert written[v] == store[v].(notes := written[v].notes);
          assert out[v] == written[v].(notes := out[v].notes);
        }
      }
    }
  }

  /** Every log entry names a swept uri, that record's display string, and a
      text the condition accepts. */
  lemma {:induction false} SweepLog(store: Store, uris: seq<Uri>, cond: string -> bool)
    ensures forall e :: e in Sweep(store, uris, cond).log ==>
      e.uri in uris && e.uri in store && e.title == store[e.uri].displayString && cond(e.restriction)
    decreases |uris|
  {
    if uris != [] && uris[0] in store {
      var u := uris[0];
      if UnpublishNotes(store[u].notes, cond).Ok? {
        var (notes, texts) := UnpublishNotes(store[u].notes, cond).value;
        var written := if texts != [] then store[u := store[u].(notes := notes)] else store;
        SweepLog(written, uris[1..], cond);
        UnpublishNotesShape(store[u].notes, cond);
        forall e | e in Sweep(store, uris, cond).log
          ensures e.uri in uris && e.uri in store && e.title == store[e.uri].displayString && cond(e.restriction)
        {
          var here := Entries(u, store[u].displayString, texts);
          if e in here {
            var i :| 0 <= i < |here| && here[i] == e;
            assert texts[i] in texts;
          } else {
            assert e.uri in uris[1..];
            SweepFrame(store, [u], cond);
            assert written.Keys == store.Keys;
            assert written[e.uri].displayString == store[e.uri].displayString;
          }
        }
      }
    }
  }

  /** The records at `uris` have nothing left for the sweep to do. */
  ghost predicate Settled(store: Store, uris: seq<Uri>, cond: string -> bool) {
    forall u :: u in uris ==> u in store && UnpublishNotes(store[u].notes, cond) == Ok((store[u].notes, []))
  }

  /** On settled records a sweep changes nothing and logs nothing. */
  lemma {:induction false} SettledSweep(store: Store, uris: seq<Uri>, cond: string -> bool)
    requires Settled(store, uris, cond)
    ensures Sweep(store, uris, cond) == SweepOutcome(store, [], None)
    decreases |uris|
  {
    if uris != [] {
      assert uris[0] in uris;
      assert forall v :: v in uris[1..] ==> v in uris;
      SettledSweep(store, uris[1..], cond);
    }
  }

  /** A sweep that finishes without error leaves every swept record settled. */
  lemma {:induction false} SweepSettles(store: Store, uris: seq<Uri>, cond: string -> bool)
    requires Sweep(store, uris, cond).error.None?
    ensures Settled(Sweep(store, uris, cond).store, uris, cond)
    decreases |uris|
  {
    if uris != [] {
      var u := uris[0];
      var (notes, texts) := UnpublishNotes(store[u].notes, cond).value;
      var written := if texts != [] then store[u := store[u].(notes := notes)] else store;
      var out := Sweep(store, uris, cond).store;
      SweepSettles(written, uris[1..], cond);
      UnpublishNotesIdempotent(store[u].notes, cond);
      UnpublishNotesShape(store[u].notes, cond);
      assert written[u].notes == notes;
      assert UnpublishNotes(written[u].notes, cond) == Ok((written[u].notes, []));
      if u !in uris[1..] {
        SweepFrame(written, uris[1..], cond);
      }
      assert forall v :: v in uris ==> v == u || v in uris[1..];
    }
  }

  /** Running a sweep again right after one that finished gives an empty log
      and leaves the store as it is. */
  lemma SecondSweepIdle(store: Store, uris: seq<Uri>, cond: string -> bool)
    requires Sweep(store, uris, cond).error.None?
    ensures var out := Sweep(store, uris, cond).store;
      Sweep(out, uris, cond) == SweepOutcome(out, [], None)
  {
    SweepSettles(store, uris, cond);
    SettledSweep(Sweep(store, uris, cond).store, uris, cond);
  }

  /** unpublish_restrictions_by_text's condition: the note text equals the given text. */
  function TextMatches(restrictionText: string): string -> bool {
    t => t == restrictionText
  }

  /** unpublish_expired_restrictions_for_resource's condition: the note holds a
      date whose `normal` value sorts before today. Extracting that value from
      the note's markup is the parameter `normalDate`. */
  function Expired(today: string, normalDate: string -> Option<string>): string -> bool {
    t => normalDate(t).Some? && LexLess(normalDate(t).value, today)
  }

  /** A restriction dated today or later is never unpublished. */
  lemma NotYetExpiredKept(today: string, normalDate: string -> Option<string>, t: string)
    requires normalDate(t).Some? && (normalDate(t).value == today || LexLess(today, normalDate(t).value))
    ensures !Expired(today, normalDate)(t)
  {
    LexLessStrict(normalDate(t).value, today);
  }

  // ---------------------------------------------------------------------------
  // merge_top_containers

  /** The instances of one archival object after the merge, as the source
      computes it: the comprehension reads every instance's sub-container
      reference, so an instance without one (a digital-object instance) fails
      with a KeyError. */
  function RepointAsWritten(instances: seq<Instance>, source: Uri, target: Uri): (r: Result<seq<Instance>>)
    ensures r.Err? <==> exists i :: 0 <= i < |instances| && instances[i].topContainer.None?
  {
    if instances == [] then Ok([])
    else if instances[0].topContainer.None? then Err(KeyError("sub_container"))
    else
      match RepointAsWritten(instances[1..], source, target)
      case Err(e) => Err(e)
      case Ok(rest) =>
        var i := instances[0];
        Ok([if i.topContainer == Some(source) then i.(topContainer := Some(target)) else i] + rest)
  }

  /** An archival object linked to a digital object as well as to the source
      container cannot be merged as written. */
  lemma RepointAsWrittenRejectsDigitalObject(source: Uri, target: Uri)
    ensures RepointAsWritten([Instance("digital_object", Some("/repositories/2/digital_objects/1"), None),
                              Instance("mixed_materials", None, Some(source))], source, target).Err?
  {
    var instances := [Instance("digital_object", Some("/repositories/2/digital_objects/1"), None),
                      Instance("mixed_materials", None, Some(source))];
    assert instances[0].topContainer.None?;
  }

  /** The repointing the merge intends: instances in the source container move
      to the target, and all others, digital-object instances included, stay. */
  function Repoint(instances: seq<Instance>, source: Uri, target: Uri): (r: seq<Instance>)
    ensures |r| == |instances|
    ensures forall i :: 0 <= i < |r| ==>
      r[i] == if instances[i].topContainer == Some(source) then instances[i].(topContainer := Some(target)) else instances[i]
  {
    if instances == [] then []
    else
      var i := instances[0];
      [if i.topContainer == Some(source) then i.(topContainer := Some(target)) else i] + Repoint(instances[1..], source, target)
  }

  /** Where the source code does not fail, it agrees with the corrected repointing. */
  lemma {:induction false} RepointAgrees(instances: seq<Instance>, source: Uri, target: Uri)
    requires RepointAsWritten(instances, source, target).Ok?
    ensures RepointAsWritten(instances, source, target) == Ok(Repoint(instances, source, target))
  {
    if instances != [] {
      RepointAgrees(instances[1..], source, target);
    }
  }

  /** After repointing no instance is left in the source container (unless it
      is also the target), and repointing again changes nothing. */
  lemma RepointClears(instances: seq<Instance>, source: Uri, target: Uri)
    requires source != target
    ensures forall i :: 0 <= i < |instances| ==> Repoint(instances, source, target)[i].topContainer != Some(source)
    ensures Repoint(Repoint(instances, source, target), source, target) == Repoint(instances, source, target)
  {
  }

  /** Repointing a second time changes nothing. */
  lemma RepointIdempotent(instances: seq<Instance>, source: Uri, target: Uri)
    ensures Repoint(Repoint(instances, source, target), source, target) == Repoint(instances, source, target)
  {
    var r := Repoint(instances, source, target);
    var rr := Repoint(r, source, target);
    assert forall i :: 0 <= i < |r| ==> rr[i] == r[i];
  }

  /** The specification of merge_top_containers' loop and final delete: each
      referencing archival object is fetched, repointed and written back to
      its own uri (a record whose `uri` differs is refused), then the source
      container is deleted. */
  function Merge(store: Store, referencing: seq<Uri>, source: Uri, target: Uri): (Store, Option<Error>)
    decreases |referencing|
  {
    if referencing == [] then
      if source in store then (store - {source}, None) else (store, Some(NotFound(source)))
    else
      var u := referencing[0];
      if u !in store then (store, Some(NotFound(u)))
      else if store[u].uri != u then (store, Some(UriMismatch(u, store[u].uri)))
      else
        var rec := store[u];
        Merge(store[u := rec.(instances := Repoint(rec.instances, source, target))], referencing[1..], source, target)
  }

  /** A merge completes exactly when every listed record exists and is
      stored under its own uri, and the source container exists. */
  lemma {:induction false} MergeSucceeds(store: Store, referencing: seq<Uri>, source: Uri, target: Uri)
    ensures Merge(store, referencing, source, target).1.None? <==>
      (forall u :: u in referencing ==> u in store && store[u].uri == u) && source in store
    decreases |referencing|
  {
    if referencing != [] {
      var u := referencing[0];
      if u in store && store[u].uri == u {
        var rec := store[u];
        var next := store[u := rec.(instances := Repoint(rec.instances, source, target))];
        MergeSucceeds(next, referencing[1..], source, target);
        assert forall v :: v in next <==> v in store;
        assert forall v :: v in next ==> next[v].uri == store[v].uri;
        assert forall v :: v in referencing ==> v == u || v in referencing[1..];
      }
    }
  }

  /** A merge that completes removes the source container and nothing else;
      it leaves every record it does not list as it was, and changes nothing
      in a listed record but its instances. */
  lemma {:induction false} MergeFrame(store: Store, referencing: seq<Uri>, source: Uri, target: Uri)
    ensures var (out, error) := Merge(store, referencing, source, target);
      && (error.None? ==> out.Keys == store.Keys - {source})
      && (forall u :: u in out && u !in referencing ==> u in store && out[u] == store[u])
      && (forall u :: u in out ==> u in store && out[u] == store[u].(instances := out[u].instances))
    decreases |referencing|
  {
    if referencing != [] {
      var u := referencing[0];
      if u in store && store[u].uri == u {
        var rec := store[u];
        var next := store[u := rec.(instances := Repoint(rec.instances, source, target))];
        MergeFrame(next, referencing[1..], source, target);
        var (out, error) := Merge(next, referencing[1..], source, target);
        assert forall v :: v in referencing[1..] ==> v in referencing;
        forall v | v in out
          ensures out[v] == store[v].(instances := out[v].instances)
        {
          assert next[v] == store[v].(instances := next[v].instances);
          assert out[v] == next[v].(instances := out[v].instances);
        }
      }
    }
  }

  /** After a merge that completes, no listed record other than the source
      itself has an instance left in the source container. */
  lemma {:induction false} MergeClears(store: Store, referencing: seq<Uri>, source: Uri, target: Uri)
    requires source != target
    ensures var (out, error) := Merge(store, referencing, source, target);
      error.None? ==> forall u :: u in referencing && u != source ==>
        u in out && forall i :: 0 <= i < |out[u].instances| ==> out[u].instances[i].topContainer != Some(source)
    ensures var (out, error) := Merge(store, referencing, source, target);
      error.None? ==> forall u :: u in referencing && u != source ==>
        (u in store && u in out && |out[u].instances| == |store[u].instances| &&
         forall i :: 0 <= i < |store[u].instances| && store[u].instances[i].topContainer == Some(source) ==>
           out[u].instances[i].topContainer == Some(target))
    decreases |referencing|
  {
    MergeRepoints(store, referencing, source, target);
    if referencing != [] {
      var u := referencing[0];
      if u in store && store[u].uri == u {
        var rec := store[u];
        var next := store[u := rec.(instances := Repoint(rec.instances, source, target))];
        MergeClears(next, referencing[1..], source, target);
        MergeFrame(next, referencing[1..], source, target);
        RepointClears(rec.instances, source, target);
        var (out, error) := Merge(next, referencing[1..], source, target);
        forall v | v in referencing && v != source && error.None?
          ensures v in out && forall i :: 0 <= i < |out[v].instances| ==> out[v].instances[i].topContainer != Some(source)
        {
          if v != u || u in referencing[1..] {
            assert v in referencing[1..];
          } else {
            assert out[u] == next[u];
          }
        }
      }
    }
  }

  /** After a merge that completes, each listed record other than the source
      holds its original instances repointed: every reference to the source
      container now names the target, and all other instances are as before. */
  lemma {:induction false} MergeRepoints(store: Store, referencing: seq<Uri>, source: Uri, target: Uri)
    ensures var (out, error) := Merge(store, referencing, source, target);
      error.None? ==> forall u :: u in referencing && u != source ==>
        u in store && u in out && out[u].instances == Repoint(store[u].instances, source, target)
    decreases |referencing|
  {
    if referencing != [] {
      var u := referencing[0];
      if u in store && store[u].uri == u {
        var rec := store[u];
        var next := store[u := rec.(instances := Repoint(rec.instances, source, target))];
        MergeRepoints(next, referencing[1..], source, target);
        MergeFrame(next, referencing[1..], source, target);
        RepointIdempotent(rec.instances, source, target);
        var (out, error) := Merge(next, referencing[1..], source, target);
        forall v | v in referencing && v != source && error.None?
          ensures v in store && v in out && out[v].instances == Repoint(store[v].instances, source, target)
        {
          if v in referencing[1..] {
            assert v != u ==> next[v] == store[v];
          } else {
            assert v == u;
            assert out[u] == next[u];
          }
        }
      }
    }
  }

  // ---------------------------------------------------------------------------
  // find_instance_uris and delete_single_resource_instances

  /** The references find_instance_uris collects from a record's instances,
      restricted to one instance type unless `instanceType` is "" (the
      default `False`): the digital object of a digital-object instance, the
      top container of any other. A missing reference is a KeyError. */
  function InstanceRefs(instances: seq<Instance>, instanceType: string): (r: Result<seq<Uri>>)
    ensures r.Ok? ==> |r.value| <= |instances|
  {
    if instances == [] then Ok([])
    else
      var i := instances[|instances| - 1];
      match InstanceRefs(instances[..|instances| - 1], instanceType)
      case Err(e) => Err(e)
      case Ok(refs) =>
        if instanceType != "" && i.instanceType != instanceType then Ok(refs)
        else if i.instanceType == "digital_object" then
          if i.digitalObject.None? then Err(KeyError("digital_object")) else Ok(refs + [i.digitalObject.value])
        else if i.topContainer.None? then Err(KeyError("sub_container"))
        else Ok(refs + [i.topContainer.value])
  }

  /** The references collected are exactly the digital objects or top
      containers of the instances of the requested type. */
  lemma {:induction false} InstanceRefsSources(instances: seq<Instance>, instanceType: string)
    ensures InstanceRefs(instances, instanceType).Ok? ==>
      forall u :: u in InstanceRefs(instances, instanceType).value <==>
        exists i :: 0 <= i < |instances| && (instanceType == "" || instances[i].instanceType == instanceType) &&
          (if instances[i].instanceType == "digital_object" then instances[i].digitalObject == Some(u)
           else instances[i].topContainer == Some(u))
  {
    InstanceRefsComplete(instances, instanceType);
    if instances != [] {
      var init := instances[..|instances| - 1];
      InstanceRefsSources(init, instanceType);
      if InstanceRefs(instances, instanceType).Ok? {
        forall u | u in InstanceRefs(instances, instanceType).value
          ensures exists i :: (0 <= i < |instances| && (instanceType == "" || instances[i].instanceType == instanceType) &&
            (if instances[i].instanceType == "digital_object" then instances[i].digitalObject == Some(u)
             else instances[i].topContainer == Some(u)))
        {
          if u in InstanceRefs(init, instanceType).value {
            var i :| 0 <= i < |init| && (instanceType == "" || init[i].instanceType == instanceType) &&
              (if init[i].instanceType == "digital_object" then init[i].digitalObject == Some(u)
               else init[i].topContainer == Some(u));
            assert instances[i] == init[i];
          } else {
            assert 0 <= |instances| - 1 < |instances|;
          }
        }
      }
    }
  }

  /** Two lists of references one after the other; the first error wins. */
  function Chain<T>(a: Result<seq<T>>, b: Result<seq<T>>): Result<seq<T>> {
    match a
    case Err(e) => Err(e)
    case Ok(x) =>
      match b
      case Err(e) => Err(e)
      case Ok(y) => Ok(x + y)
  }

  /** An instance the walk reads a reference from, but that lacks it. */
  predicate MissingRef(i: Instance, instanceType: string) {
    (instanceType == "" || i.instanceType == instanceType) &&
    (if i.instanceType == "digital_object" then i.digitalObject.None? else i.topContainer.None?)
  }

  /** The references of a single instance: none when its type is filtered
      out, otherwise its digital object or its top container. */
  lemma InstanceRefsSingle(i: Instance, instanceType: string)
    ensures InstanceRefs([i], instanceType) ==
      if instanceType != "" && i.instanceType != instanceType then Ok([])
      else if i.instanceType == "digital_object" then
        (if i.digitalObject.Some? then Ok([i.digitalObject.value]) else Err(KeyError("digital_object")))
      else if i.topContainer.Some? then Ok([i.topContainer.value]) else Err(KeyError("sub_container"))
  {
    assert [i][..0] == [];
    if i.digitalObject.Some? {
      assert [] + [i.digitalObject.value] == [i.digitalObject.value];
    }
    if i.topContainer.Some? {
      assert [] + [i.topContainer.value] == [i.topContainer.value];
    }
  }

  /** The references are collected instance by instance, in order, and the
      first instance lacking its reference decides the error. */
  lemma {:induction false} InstanceRefsAppend(a: seq<Instance>, b: seq<Instance>, instanceType: string)
    ensures InstanceRefs(a + b, instanceType) == Chain(InstanceRefs(a, instanceType), InstanceRefs(b, instanceType))
    decreases |b|
  {
    if b == [] {
      assert a + b == a;
      if InstanceRefs(a, instanceType).Ok? {
        assert InstanceRefs(a, instanceType).value + [] == InstanceRefs(a, instanceType).value;
      }
    } else {
      var init := b[..|b| - 1];
      var x := b[|b| - 1];
      InstanceRefsAppend(a, init, instanceType);
      assert (a + b)[..|a + b| - 1] == a + init;
      assert (a + b)[|a + b| - 1] == x;
      if InstanceRefs(a, instanceType).Ok? && InstanceRefs(init, instanceType).Ok? {
        var p, q := InstanceRefs(a, instanceType).value, InstanceRefs(init, instanceType).value;
        forall y: Uri ensures (p + q) + [y] == p + (q + [y]) {
          assert (p + q) + [y] == p + (q + [y]);
        }
      }
    }
  }

  /** find_instance_uris fails exactly when an instance of the requested type
      lacks its `digital_object` or `sub_container` reference. */
  lemma {:induction false} InstanceRefsFails(instances: seq<Instance>, instanceType: string)
    ensures InstanceRefs(instances, instanceType).Err? <==>
      exists k :: 0 <= k < |instances| && MissingRef(instances[k], instanceType)
  {
    if instances != [] {
      var init := instances[..|instances| - 1];
      InstanceRefsFails(init, instanceType);
      assert forall k :: 0 <= k < |init| ==> init[k] == instances[k];
      if InstanceRefs(init, instanceType).Ok? && !MissingRef(instances[|instances| - 1], instanceType) {
        assert forall k :: 0 <= k < |instances| - 1 ==> !MissingRef(instances[k], instanceType);
      }
    }
  }

  /** Every instance of the requested type contributes its reference. */
  lemma {:induction false} InstanceRefsComplete(instances: seq<Instance>, instanceType: string)
    ensures InstanceRefs(instances, instanceType).Ok? ==>
      forall k :: 0 <= k < |instances| && (instanceType == "" || instances[k].instanceType == instanceType) ==>
        if instances[k].instanceType == "digital_object" then
          (instances[k].digitalObject.Some? && instances[k].digitalObject.value in InstanceRefs(instances, instanceType).value)
        else
          (instances[k].topContainer.Some? && instances[k].topContainer.value in InstanceRefs(instances, instanceType).value)
  {
    if instances != [] && InstanceRefs(instances, instanceType).Ok? {
      var init := instances[..|instances| - 1];
      InstanceRefsComplete(init, instanceType);
      assert forall k :: 0 <= k < |init| ==> init[k] == instances[k];
    }
  }

  /** A digital-object instance built by make_digital_object_instance reads
      back, through find_instance_uris, as the digital object it names. */
  lemma DigitalObjectInstanceRefs(u: Uri)
    ensures InstanceRefs([Formatters.DigitalObjectInstance(u)], "") == Ok([u])
    ensures InstanceRefs([Formatters.DigitalObjectInstance(u)], "digital_object") == Ok([u])
  {
    InstanceRefsSingle(Formatters.DigitalObjectInstance(u), "");
    InstanceRefsSingle(Formatters.DigitalObjectInstance(u), "digital_object");
  }

  /** delete_single_resource_instances' rule: a digital object is deleted when
      it is linked from a single instance, a top container when it belongs to
      a single collection; any other uri is left alone. */
  predicate Deletable(u: Uri, rec: Record) {
    if Contains(u, "digital_objects") then |rec.linkedInstances| == 1
    else if Contains(u, "top_containers") then |rec.collection| == 1
    else false
  }

  /** Only uris naming a digital object or a top container are ever fetched. */
  predicate Inspected(u: Uri) {
    Contains(u, "digital_objects") || Contains(u, "top_containers")
  }

  /** Shared containers and digital objects are kept. */
  lemma SharedKept(u: Uri, rec: Record)
    ensures Contains(u, "digital_objects") && |rec.linkedInstances| != 1 ==> !Deletable(u, rec)
    ensures !Contains(u, "digital_objects") && Contains(u, "top_containers") && |rec.collection| != 1 ==> !Deletable(u, rec)
    ensures !Inspected(u) ==> !Deletable(u, rec)
  {
  }

  // ---------------------------------------------------------------------------
  // add_enumeration_values

  /** The new values not already in the enumeration, in the order given;
      duplicates among the new values are kept. */
  function MissingValues(newValues: seq<string>, existing: seq<string>): (r: seq<string>)
    ensures |r| <= |newValues|
    ensures forall x :: x in r <==> x in newValues && x !in existing
  {
    if newValues == [] then []
    else (if newValues[0] !in existing then [newValues[0]] else []) + MissingValues(newValues[1..], existing)
  }

  /** After the values are appended, none is missing any more, and the
      existing values keep their places. */
  lemma AddedValuesPresent(newValues: seq<string>, existing: seq<string>)
    ensures var added := existing + MissingValues(newValues, existing);
      && MissingValues(newValues, added) == []
      && added[..|existing|] == existing
  {
    var added := existing + MissingValues(newValues, existing);
    assert forall x :: x in newValues ==> x in added;
    if MissingValues(newValues, added) != [] {
      assert MissingValues(newValues, added)[0] in MissingValues(newValues, added);
    }
  }

  /** The values to add are chosen one by one, in the order given. */
  lemma {:induction false} MissingValuesAppend(a: seq<string>, b: seq<string>, existing: seq<string>)
    ensures MissingValues(a + b, existing) == MissingValues(a, existing) + MissingValues(b, existing)
  {
    if a != [] {
      MissingValuesAppend(a[1..], b, existing);
      MissingValuesHead(a, b, existing);
      var head := if a[0] !in existing then [a[0]] else [];
      var rest, tail := MissingValues(a[1..], existing), MissingValues(b, existing);
      assert head + (rest + tail) == (head + rest) + tail;
    } else {
      assert a + b == b;
    }
  }

  lemma MissingValuesHead(a: seq<string>, b: seq<string>, existing: seq<string>)
    requires a != []
    ensures MissingValues(a + b, existing) ==
      (if a[0] !in existing then [a[0]] else []) + MissingValues(a[1..] + b, existing)
  {
    assert (a + b)[0] == a[0] && (a + b)[1..] == a[1..] + b;
  }

  /** A value given twice and absent from the enumeration is appended twice. */
  lemma DuplicatesKept(x: string, existing: seq<string>)
    requires x !in existing
    ensures MissingValues([x, x], existing) == [x, x]
  {
    assert [x, x][1..] == [x];
    assert [x][1..] == [];
  }
}
