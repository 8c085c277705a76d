/** The JSON records the archival-description backend hands out, as the client
    reads them.  A key that is absent, null or falsy in the JSON is the empty
    string, the empty sequence or `None` here. */
module Records {

  datatype Option<T> = None | Some(value: T)

  /** The exceptions the client lets escape: a backend answer with an unexpected
      status (404 for a missing record), the uri check of update_aspace_object,
      and the Python errors a malformed record provokes. */
  datatype Error =
    | NotFound(uri: string)
    | UriMismatch(supplied: string, recorded: string)
    | KeyError(key: string)
    | IndexError
    | TypeError

  datatype Result<T> = Ok(value: T) | Err(error: Error)

  type Uri = string

  /** One entry of a record's `dates` list. */
  datatype DateEntry = DateEntry(dateType: string, expression: string, begin: string, end: string)

  /** One entry of a record's `extents` list; `number` is the backend's string. */
  datatype Extent = Extent(
    number: string,
    extentType: string,
    containerSummary: string,
    physicalDetails: string,
    dimensions: string)

  /** A note as the backend serialises it: single-part notes (`jsonmodel_type`
      "note_singlepart") keep their text in `content`; the other note models
      that the client reads keep it in `subnotes`, each reduced here to its
      `content` string, and None when the key is absent. */
  datatype Note = Note(
    noteType: string,
    publish: bool,
    jsonmodelType: string,
    content: seq<string>,
    subnotes: Option<seq<string>>)

  /** An instance links a record to a digital object (`digital_object.ref`) or to
      a top container (`sub_container.top_container.ref`); a missing dict is None. */
  datatype Instance = Instance(instanceType: string, digitalObject: Option<Uri>, topContainer: Option<Uri>)

  datatype LinkedAgent = LinkedAgent(ref: Uri, role: string, terms: seq<string>)

  /** One node of a resource's tree projection. */
  datatype TreeNode = TreeNode(recordUri: Uri, hasChildren: bool, instanceTypes: seq<string>, children: seq<TreeNode>)

  /** A full record: archival object, resource, top container, digital object
      or enumeration, each using the fields it has. */
  datatype Record = Record(
    uri: Uri,
    title: string,
    displayString: string,
    dates: seq<DateEntry>,
    parent: Option<Uri>,
    notes: seq<Note>,
    extents: seq<Extent>,
    instances: seq<Instance>,
    linkedAgents: seq<LinkedAgent>,
    publish: bool,
    userDefined: map<string, string>,
    eadId: string,
    id0: string,
    fileVersions: seq<Uri>,
    digitalObjectId: string,
    linkedInstances: seq<Uri>,
    collection: seq<Uri>,
    values: seq<string>)

  /** A record at `uri` with every other key absent. */
  function Blank(uri: Uri): Record
  {
    Record(uri, "", "", [], None, [], [], [], [], false, map[], "", "", [], "", [], [], [])
  }
}
