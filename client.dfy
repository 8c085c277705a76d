/** The client's operations that read and write the backend. The backend is
    a map from uri to record: a GET is a lookup, a POST of a record to its
    uri an overwrite, a DELETE a removal; each fails with NotFound when the
    uri is absent. */
module Client {
  import opened Records
  import opened Strings
  import opened Notes
  import opened TreeWalk
  import opened Maintenance

  // ---------------------------------------------------------------------------
  // Writing through post_aspace_json and update_aspace_object

  /** post_aspace_json as written passes a `json` keyword that `_post` does
      not accept, so every call fails with a TypeError before anything is
      sent. */
  function PostAsWritten(store: Store, uri: Uri, rec: Record): (Store, Option<Error>) {
    (store, Some(TypeError))
  }

  /** post_aspace_json as intended: the record replaces the one at `uri`. */
  function Post(store: Store, uri: Uri, rec: Record): (r: (Store, Option<Error>))
    ensures r.1.None? <==> uri in store
    ensures r.1.None? ==> r.0.Keys == store.Keys && r.0[uri] == rec
    ensures forall v :: v in store && v != uri ==> v in r.0 && r.0[v] == store[v]
  {
    if uri in store then (store[uri := rec], None) else (store, Some(NotFound(uri)))
  }

  /** Whatever record is posted to an existing uri, the code as written leaves
      the store as it was, while the intended post stores it. */
  lemma PostAsWrittenNeverWrites(store: Store, uri: Uri, rec: Record)
    requires uri in store && store[uri] != rec
    ensures PostAsWritten(store, uri, rec).0[uri] != rec
    ensures Post(store, uri, rec).0[uri] == rec
  {
  }

  /** update_aspace_object: a record is written only to the uri it names. */
  function Update(store: Store, uri: Uri, rec: Record): (Store, Option<Error>) {
    if uri == rec.uri then Post(store, uri, rec) else (store, Some(UriMismatch(uri, rec.uri)))
  }

  /** An update succeeds exactly when the record names the uri and the uri
      exists; a later read returns the record, nothing else changes, and the
      same update again is a no-op. */
  lemma UpdateThenRead(store: Store, uri: Uri, rec: Record)
    ensures var (out, error) := Update(store, uri, rec);
      && (error.None? <==> uri == rec.uri && uri in store)
      && (uri != rec.uri ==> error == Some(UriMismatch(uri, rec.uri)) && out == store)
      && (error.None? ==> out.Keys == store.Keys && out[uri] == rec && Update(out, uri, rec) == (out, None))
      && (forall v :: v in store && v != uri ==> v in out && out[v] == store[v])
  {
    if uri == rec.uri && uri in store {
      var out := store[uri := rec];
      assert out[uri := rec] == out;
    }
  }

  // ---------------------------------------------------------------------------
  // unpublish_aspace_object

  /** What unpublish_aspace_object returns: the backend's answer to the post,
      or the message for a record already unpublished. */
  datatype UnpublishReply = Posted | AlreadyUnpublished(message: string)

  function Unpublish(store: Store, uri: Uri): (Store, Result<UnpublishReply>) {
    if uri !in store then (store, Err(NotFound(uri)))
    else if store[uri].publish then (store[uri := store[uri].(publish := false)], Ok(Posted))
    else (store, Ok(AlreadyUnpublished(uri + " already unpublished")))
  }

  /** Unpublishing clears the flag and nothing else, and a second call only
      reports that the record is already unpublished. */
  lemma UnpublishTwice(store: Store, uri: Uri)
    requires uri in store
    ensures var out := Unpublish(store, uri).0;
      && out.Keys == store.Keys
      && out[uri] == store[uri].(publish := false)
      && (forall v :: v in store && v != uri ==> out[v] == store[v])
      && Unpublish(out, uri) == (out, Ok(AlreadyUnpublished(uri + " already unpublished")))
  {
  }

  // ---------------------------------------------------------------------------
  // add_enumeration_values

  function EnumerationUri(enumerationId: string): Uri {
    "/config/enumerations/" + enumerationId
  }

  /** add_enumeration_values: the missing values are appended and the
      enumeration is posted back, but only when some value is missing. */
  function AddValues(store: Store, uri: Uri, newValues: seq<string>): (Store, Option<Error>) {
    if uri !in store then (store, Some(NotFound(uri)))
    else
      var missing := MissingValues(newValues, store[uri].values);
      if missing == [] then (store, None)
      else Post(store, uri, store[uri].(values := store[uri].values + missing))
  }

  /** Adding values keeps the old ones in place, makes every new one present,
      and adding the same values again changes nothing. */
  lemma {:induction false} AddValuesTwice(store: Store, uri: Uri, newValues: seq<string>)
    requires uri in store
    ensures var (out, error) := AddValues(store, uri, newValues);
      && error.None?
      && out.Keys == store.Keys
      && out[uri].values[..|store[uri].values|] == store[uri].values
      && (forall x :: x in newValues ==> x in out[uri].values)
      && AddValues(out, uri, newValues) == (out, None)
  {
    var existing := store[uri].values;
    var missing := MissingValues(newValues, existing);
    AddedValuesPresent(newValues, existing);
    var out := AddValues(store, uri, newValues).0;
    assert forall x :: x in newValues ==> x in existing || x in missing;
    if missing != [] {
      assert out[uri].values == existing + missing;
    }
  }

  // ---------------------------------------------------------------------------
  // delete_single_resource_instances and remove_resource_associations

  /** delete_single_resource_instances: only digital objects and top
      containers are fetched, and one is deleted when `Deletable` holds. */
  function DeleteSingle(store: Store, u: Uri): (Store, Option<Error>) {
    if !Inspected(u) then (store, None)
    else if u !in store then (store, Some(NotFound(u)))
    else if Deletable(u, store[u]) then (store - {u}, None)
    else (store, None)
  }

  /** Deleting removes at most the uri given, exactly when it is deletable. */
  lemma DeleteSingleOutcome(store: Store, u: Uri)
    ensures var (out, error) := DeleteSingle(store, u);
      && (error.Some? <==> Inspected(u) && u !in store)
      && (forall v :: v in out <==> v in store && !(v == u && Deletable(u, store[u])))
      && (forall v :: v in out ==> out[v] == store[v])
  {
  }

  /** The references find_instance_uris collects over several records, in order. */
  function CollectRefs(store: Store, uris: seq<Uri>, instanceType: string): (r: Result<seq<Uri>>)
    decreases |uris|
  {
    if uris == [] then Ok([])
    else
      var u := uris[|uris| - 1];
      match CollectRefs(store, uris[..|uris| - 1], instanceType)
      case Err(e) => Err(e)
      case Ok(refs) =>
        if u !in store then Err(NotFound(u))
        else
          match InstanceRefs(store[u].instances, instanceType)
          case Err(e) => Err(e)
          case Ok(more) => Ok(refs + more)
  }

  /** Each collected reference comes from one of the records walked. */
  lemma {:induction false} CollectRefsSources(store: Store, uris: seq<Uri>, instanceType: string, x: Uri)
    requires CollectRefs(store, uris, instanceType).Ok? && x in CollectRefs(store, uris, instanceType).value
    ensures exists u :: (u in uris && u in store && InstanceRefs(store[u].instances, instanceType).Ok? &&
      x in InstanceRefs(store[u].instances, instanceType).value)
    decreases |uris|
  {
    var init := uris[..|uris| - 1];
    var u := uris[|uris| - 1];
    var refs := CollectRefs(store, init, instanceType).value;
    if x in refs {
      CollectRefsSources(store, init, instanceType, x);
      var w :| w in init && w in store && InstanceRefs(store[w].instances, instanceType).Ok? &&
        x in InstanceRefs(store[w].instances, instanceType).value;
      assert w in uris;
    } else {
      assert u in uris;
    }
  }

  /** The references are collected record by record, in the order listed. */
  lemma {:induction false} CollectRefsAppend(store: Store, a: seq<Uri>, b: seq<Uri>, instanceType: string)
    ensures CollectRefs(store, a + b, instanceType) ==
      Chain(CollectRefs(store, a, instanceType), CollectRefs(store, b, instanceType))
    decreases |b|
  {
    if b == [] {
      assert a + b == a;
      if CollectRefs(store, a, instanceType).Ok? {
        assert CollectRefs(store, a, instanceType).value + [] == CollectRefs(store, a, instanceType).value;
      }
    } else {
      var init := b[..|b| - 1];
      CollectRefsAppend(store, a, init, instanceType);
      assert (a + b)[..|a + b| - 1] == a + init;
      assert (a + b)[|a + b| - 1] == b[|b| - 1];
      if CollectRefs(store, a, instanceType).Ok? && CollectRefs(store, init, instanceType).Ok? {
        var p, q := CollectRefs(store, a, instanceType).value, CollectRefs(store, init, instanceType).value;
        forall more: seq<Uri> ensures (p + q) + more == p + (q + more) {
          assert (p + q) + more == p + (q + more);
        }
      }
    }
  }

  /** The collection fails exactly when a listed record is missing or one of
      its instances lacks its reference. */
  lemma {:induction false} CollectRefsFails(store: Store, uris: seq<Uri>, instanceType: string)
    ensures CollectRefs(store, uris, instanceType).Err? <==>
      exists u :: u in uris && (u !in store || InstanceRefs(store[u].instances, instanceType).Err?)
    decreases |uris|
  {
    if uris != [] {
      var init := uris[..|uris| - 1];
      CollectRefsFails(store, init, instanceType);
      assert forall u :: u in uris <==> u in init || u == uris[|uris| - 1];
    }
  }

  /** When the collection succeeds, every reference of every listed record
      is among the collected ones. */
  lemma {:induction false} CollectRefsComplete(store: Store, uris: seq<Uri>, instanceType: string)
    ensures CollectRefs(store, uris, instanceType).Ok? ==>
      forall u :: u in uris ==>
        (u in store && InstanceRefs(store[u].instances, instanceType).Ok? &&
         forall x :: x in InstanceRefs(store[u].instances, instanceType).value ==> x in CollectRefs(store, uris, instanceType).value)
    decreases |uris|
  {
    if uris != [] && CollectRefs(store, uris, instanceType).Ok? {
      var init := uris[..|uris| - 1];
      CollectRefsComplete(store, init, instanceType);
      assert forall u :: u in uris ==> u in init || u == uris[|uris| - 1];
    }
  }

  // ---------------------------------------------------------------------------
  // The client object

  /** What the two restriction sweeps return: a message when no text was
      given, the log of what they unpublished, or the error that stopped them. */
  datatype SweepReply = Message(text: string) | Logged(entries: seq<LogEntry>) | Raised(error: Error)

  function Reply(out: SweepOutcome): SweepReply {
    if out.error.Some? then Raised(out.error.value) else Logged(out.log)
  }

  /** The log gathered so far in front of what the rest of a sweep produces. */
  function Prefixed(log: seq<LogEntry>, out: SweepOutcome): SweepOutcome {
    SweepOutcome(out.store, log + out.log, out.error)
  }

  /** The sweep of one record's notes, note by note. */
  method SweepNotes(notes: seq<Note>, cond: string -> bool) returns (r: Result<(seq<Note>, seq<string>)>)
    ensures r == UnpublishNotes(notes, cond)
  {
    var after: seq<Note> := [];
    var texts: seq<string> := [];
    for j := 0 to |notes|
      invariant UnpublishNotes(notes[..j], cond) == Ok((after, texts))
    {
      assert notes[..j + 1][..j] == notes[..j];
      var n := notes[j];
      if n.noteType == "accessrestrict" && n.publish {
        var text := FormatNote(n);
        if text.Err? {
          assert notes[..j + 1] == notes[..j] + [n];
          NotesPrefixError(notes, j + 1, cond);
          return Err(text.error);
        }
        if cond(text.value) {
          after := after + [n.(publish := false)];
          texts := texts + [text.value];
        } else {
          after := after + [n];
        }
      } else {
        after := after + [n];
      }
    }
    assert notes[..|notes|] == notes;
    r := Ok((after, texts));
  }

  /** A failure on a prefix of the notes is the failure of the whole sweep. */
  lemma {:induction false} NotesPrefixError(notes: seq<Note>, k: nat, cond: string -> bool)
    requires k <= |notes| && UnpublishNotes(notes[..k], cond).Err?
    ensures UnpublishNotes(notes, cond) == UnpublishNotes(notes[..k], cond)
    decreases |notes| - k
  {
    if k < |notes| {
      assert notes[..k + 1][..k] == notes[..k];
      NotesPrefixError(notes, k + 1, cond);
    } else {
      assert notes[..k] == notes;
    }
  }

  /** The references of one record's instances, instance by instance. */
  method InstanceRefsOf(instances: seq<Instance>, instanceType: string) returns (r: Result<seq<Uri>>)
    ensures r == InstanceRefs(instances, instanceType)
  {
    var refs: seq<Uri> := [];
    for j := 0 to |instances|
      invariant InstanceRefs(instances[..j], instanceType) == Ok(refs)
    {
      assert instances[..j + 1][..j] == instances[..j];
      var i := instances[j];
      if instanceType == "" || i.instanceType == instanceType {
        if i.instanceType == "digital_object" {
          if i.digitalObject.None? {
            RefsPrefixError(instances, j + 1, instanceType);
            return Err(KeyError("digital_object"));
          }
          refs := refs + [i.digitalObject.value];
        } else {
          if i.topContainer.None? {
            RefsPrefixError(instances, j + 1, instanceType);
            return Err(KeyError("sub_container"));
          }
          refs := refs + [i.topContainer.value];
        }
      }
    }
    assert instances[..|instances|] == instances;
    r := Ok(refs);
  }

  /** A failure on a prefix of the instances is the failure for all of them. */
  lemma {:induction false} RefsPrefixError(instances: seq<Instance>, k: nat, instanceType: string)
    requires k <= |instances| && InstanceRefs(instances[..k], instanceType).Err?
    ensures InstanceRefs(instances, instanceType) == InstanceRefs(instances[..k], instanceType)
    decreases |instances| - k
  {
    if k < |instances| {
      assert instances[..k + 1][..k] == instances[..k];
      RefsPrefixError(instances, k + 1, instanceType);
    } else {
      assert instances[..k] == instances;
    }
  }

  /** The instances repointed from one container to another, one by one. */
  method RepointInstances(instances: seq<Instance>, source: Uri, target: Uri) returns (r: seq<Instance>)
    ensures r == Repoint(instances, source, target)
  {
    r := instances;
    for j := 0 to |instances|
      invariant |r| == |instances|
      invariant forall k :: 0 <= k < j ==> r[k] == Repoint(instances, source, target)[k]
      invariant forall k :: j <= k < |r| ==> r[k] == instances[k]
    {
      if r[j].topContainer == Some(source) {
        r := r[j := r[j].(topContainer := Some(target))];
      }
    }
  }

  class ASpaceClient {
    /** The backend's records. */
    var store: Store
    /** The repository uri prefix, "/repositories/" followed by its number. */
    const repository: string

    constructor (repositoryNumber: string, records: Store)
      ensures repository == "/repositories/" + repositoryNumber
      ensures store == records
    {
      repository := "/repositories/" + repositoryNumber;
      store := records;
    }

    /** update_aspace_object. */
    method UpdateObject(uri: Uri, rec: Record) returns (error: Option<Error>)
      modifies this
      ensures (store, error) == Update(old(store), uri, rec)
    {
      if uri == rec.uri {
        if uri in store {
          store := store[uri := rec];
          error := None;
        } else {
          error := Some(NotFound(uri));
        }
      } else {
        error := Some(UriMismatch(uri, rec.uri));
      }
    }

    /** unpublish_aspace_object. */
    method UnpublishObject(uri: Uri) returns (r: Result<UnpublishReply>)
      modifies this
      ensures (store, r) == Unpublish(old(store), uri)
    {
      if uri !in store {
        return Err(NotFound(uri));
      }
      var rec := store[uri];
      if rec.publish {
        store := store[uri := rec.(publish := false)];
        r := Ok(Posted);
      } else {
        r := Ok(AlreadyUnpublished(uri + " already unpublished"));
      }
    }

    /** add_enumeration_values. */
    method AddEnumerationValues(enumerationId: string, newValues: seq<string>) returns (error: Option<Error>)
      modifies this
      ensures (store, error) == AddValues(old(store), EnumerationUri(enumerationId), newValues)
    {
      var uri := EnumerationUri(enumerationId);
      if uri !in store {
        return Some(NotFound(uri));
      }
      var enumeration := store[uri];
      var valuesToAdd := MissingValues(newValues, enumeration.values);
      error := None;
      if valuesToAdd != [] {
        store := store[uri := enumeration.(values := enumeration.values + valuesToAdd)];
      }
    }

    /** merge_top_containers, given the archival objects the backend lists for
      the source container: each is repointed to the target and written back
      to its uri, then the source container is deleted. */
    method MergeTopContainers(sourceId: string, targetId: string, referencing: seq<Uri>) returns (error: Option<Error>)
      modifies this
      ensures (store, error) == Merge(old(store), referencing,
        repository + "/top_containers/" + sourceId, repository + "/top_containers/" + targetId)
    {
      var sourceUri := repository + "/top_containers/" + sourceId;
      var targetUri := repository + "/top_containers/" + targetId;
      for i := 0 to |referencing|
        invariant Merge(old(store), referencing, sourceUri, targetUri) == Merge(store, referencing[i..], sourceUri, targetUri)
      {
        assert referencing[i..][1..] == referencing[i + 1..];
        var u := referencing[i];
        if u !in store {
          return Some(NotFound(u));
        }
        var archivalObject := store[u];
        var instances := RepointInstances(archivalObject.instances, sourceUri, targetUri);
        error := UpdateObject(u, archivalObject.(instances := instances));
        if error.Some? {
          return;
        }
      }
      if sourceUri !in store {
        return Some(NotFound(sourceUri));
      }
      store := store - {sourceUri};
      error := None;
    }

    /** find_instance_uris; the instance type "" stands for no filter. */
    method FindInstanceUris(uri: Uri, instanceType: string) returns (r: Result<seq<Uri>>)
      ensures r == if uri in store then InstanceRefs(store[uri].instances, instanceType) else Err(NotFound(uri))
      ensures uri in store ==>
        (r.Err? <==> exists k :: 0 <= k < |store[uri].instances| && MissingRef(store[uri].instances[k], instanceType))
      ensures r.Ok? ==> forall k ::
        (0 <= k < |store[uri].instances| &&
         (instanceType == "" || store[uri].instances[k].instanceType == instanceType)) ==>
          if store[uri].instances[k].instanceType == "digital_object" then
            (store[uri].instances[k].digitalObject.Some? && store[uri].instances[k].digitalObject.value in r.value)
          else
            (store[uri].instances[k].topContainer.Some? && store[uri].instances[k].topContainer.value in r.value)
    {
      if uri !in store {
        return Err(NotFound(uri));
      }
      r := InstanceRefsOf(store[uri].instances, instanceType);
      InstanceRefsFails(store[uri].instances, instanceType);
      InstanceRefsComplete(store[uri].instances, instanceType);
    }

    /** delete_single_resource_instances. */
    method DeleteSingleResourceInstances(u: Uri) returns (error: Option<Error>)
      modifies this
      ensures (store, error) == DeleteSingle(old(store), u)
    {
      error := None;
      if Contains(u, "digital_objects") {
        if u !in store {
          return Some(NotFound(u));
        }
        if |store[u].linkedInstances| == 1 {
          store := store - {u};
        }
      } else if Contains(u, "top_containers") {
        if u !in store {
          return Some(NotFound(u));
        }
        if |store[u].collection| == 1 {
          store := store - {u};
        }
      }
    }

    /** The instance references of several records, concatenated in order. */
    method CollectInstanceUris(uris: seq<Uri>) returns (r: Result<seq<Uri>>)
      ensures r == CollectRefs(store, uris, "")
    {
      var instanceUris: seq<Uri> := [];
      for i := 0 to |uris|
        invariant CollectRefs(store, uris[..i], "") == Ok(instanceUris)
      {
        assert uris[..i + 1][..i] == uris[..i];
        var more := FindInstanceUris(uris[i], "");
        if more.Err? {
          CollectPrefixError(store, uris, i + 1);
          return Err(more.error);
        }
        instanceUris := instanceUris + more.value;
      }
      assert uris[..|uris|] == uris;
      r := Ok(instanceUris);
    }

    /** The deletion loop of remove_resource_associations: each distinct uri
      is handed to delete_single_resource_instances once, in no particular
      order; the first failure stops the loop, so on failure which of the
      uris were already deleted is left open. */
    method DeleteUnshared(instanceUris: seq<Uri>) returns (error: Option<Error>)
      modifies this
      ensures error.None? <==> forall v :: v in instanceUris && Inspected(v) ==> v in old(store)
      ensures forall v :: v in old(store) && v !in store ==> v in instanceUris && Deletable(v, old(store)[v])
      ensures error.None? ==> forall v :: v in store <==> v in old(store) && !(v in instanceUris && Deletable(v, old(store)[v]))
      ensures forall v :: v in store ==> v in old(store) && store[v] == old(store)[v]
    {
      var pending := set v | v in instanceUris;
      ghost var distinct := pending;
      while pending != {}
        invariant pending <= distinct
        invariant forall v :: v in instanceUris && v !in pending && Inspected(v) ==> v in old(store)
        invariant forall v :: v in pending ==> (v in store <==> v in old(store))
        invariant forall v :: v in old(store) && v !in store ==> v in instanceUris && v !in pending && Deletable(v, old(store)[v])
        invariant forall v :: v in old(store) && v in instanceUris && v !in pending && Deletable(v, old(store)[v]) ==> v !in store
        invariant forall v :: v in store ==> v in old(store) && store[v] == old(store)[v]
        decreases pending
      {
        var u :| u in pending;
        ghost var before := store;
        error := DeleteSingleResourceInstances(u);
        DeleteSingleOutcome(before, u);
        pending := pending - {u};
        if error.Some? {
          assert Inspected(u) && u !in old(store);
          return;
        }
      }
      error := None;
    }

    /** remove_resource_associations, given the resource tree's children:
      the instances of every child that has some are collected, and each
      distinct one is deleted when nothing else uses it. */
    method RemoveResourceAssociations(children: seq<TreeNode>) returns (error: Option<Error>)
      modifies this
      ensures var refs := CollectRefs(old(store), WithInstances(children, ""), "");
        && (refs.Err? ==> error == Some(refs.error) && store == old(store))
        && (refs.Ok? ==> (error.None? <==> forall v :: v in refs.value && Inspected(v) ==> v in old(store)))
        && (refs.Ok? ==> forall v :: v in old(store) && v !in store ==> v in refs.value && Deletable(v, old(store)[v]))
        && (refs.Ok? && error.None? ==> forall v :: v in store <==> v in old(store) && !(v in refs.value && Deletable(v, old(store)[v])))
        && (forall v :: v in store ==> v in old(store) && store[v] == old(store)[v])
    {
      var childrenWithInstances := ChildrenWithInstances(children, "");
      var instanceUris := CollectInstanceUris(childrenWithInstances);
      if instanceUris.Err? {
        return Some(instanceUris.error);
      }
      error := DeleteUnshared(instanceUris.value);
    }

    /** The loop the two restriction sweeps share: every uri's notes are
      swept and the record is posted back when one of them changed. */
    method RunSweep(uris: seq<Uri>, cond: string -> bool) returns (r: SweepReply)
      modifies this
      ensures var out := Sweep(old(store), uris, cond);
        store == out.store && r == Reply(out)
    {
      var log: seq<LogEntry> := [];
      for i := 0 to |uris|
        invariant Sweep(old(store), uris, cond) == Prefixed(log, Sweep(store, uris[i..], cond))
      {
        assert uris[i..][1..] == uris[i + 1..];
        var u := uris[i];
        if u !in store {
          return Raised(NotFound(u));
        }
        var archivalObject := store[u];
        var swept := SweepNotes(archivalObject.notes, cond);
        if swept.Err? {
          return Raised(swept.error);
        }
        var (notes, texts) := swept.value;
        SweepFirst(store, uris[i..], cond);
        var entries := Entries(u, archivalObject.displayString, texts);
        if texts != [] {
          store := store[u := archivalObject.(notes := notes)];
        }
        ghost var rest := Sweep(store, uris[i + 1..], cond);
        LogRegroup(log, entries, rest.log);
        log := log + entries;
      }
      assert uris[|uris|..] == [];
      r := Logged(log);
    }

    /** unpublish_restrictions_by_text; the text "" stands for none given. */
    method UnpublishRestrictionsByText(children: seq<TreeNode>, restrictionText: string) returns (r: SweepReply)
      modifies this
      ensures restrictionText == "" ==> r == Message("No restriction text provided") && store == old(store)
      ensures restrictionText != "" ==>
        var out := Sweep(old(store), Flatten(children), TextMatches(restrictionText));
        store == out.store && r == Reply(out)
    {
      if restrictionText == "" {
        return Message("No restriction text provided");
      }
      var uris := ArchivalObjectUris(children);
      r := RunSweep(uris, TextMatches(restrictionText));
    }

    /** unpublish_expired_restrictions_for_resource, with today's date and the
      reading of a note's date given as parameters. */
    method UnpublishExpiredRestrictions(children: seq<TreeNode>, today: string, normalDate: string -> Option<string>)
      returns (r: SweepReply)
      modifies this
      ensures var out := Sweep(old(store), Flatten(children), Expired(today, normalDate));
        store == out.store && r == Reply(out)
    {
      var uris := ArchivalObjectUris(children);
      r := RunSweep(uris, Expired(today, normalDate));
    }
  }

  lemma LogRegroup(a: seq<LogEntry>, b: seq<LogEntry>, c: seq<LogEntry>)
    ensures (a + b) + c == a + (b + c)
  {
  }

  /** A failure on a prefix of the uris is the failure for all of them. */
  lemma {:induction false} CollectPrefixError(store: Store, uris: seq<Uri>, k: nat)
    requires k <= |uris| && CollectRefs(store, uris[..k], "").Err?
    ensures CollectRefs(store, uris, "") == CollectRefs(store, uris[..k], "")
    decreases |uris| - k
  {
    if k < |uris| {
      assert uris[..k + 1][..k] == uris[..k];
      CollectPrefixError(store, uris, k + 1);
    } else {
      assert uris[..k] == uris;
    }
  }
}
