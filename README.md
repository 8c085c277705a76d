# bhlaspaceapiclient in Dafny

A model of the logic inside `bhlaspaceapiclient/client.py`, the Bentley
Historical Library's client for an ArchivesSpace backend, with proofs about
that logic. The HTTP layer is replaced by an abstract backend store
(`map<Uri, Record>`): a GET is a lookup that fails with `NotFound` when the
uri is absent, a POST overwrites the whole record, and a DELETE removes the
key. Above that store the model covers four groups of behaviour:

- **Record formatters** (modules `Strings`, `Dates`, `Extents`, `Notes`,
  `Formatters`). These cover date, extent and note formatting, title
  sanitizing, agent-name punctuation, collection ids, classifications, links,
  agent roles, and how id lookups and ref ids are resolved.
- **Tree walkers** (module `TreeWalk`). These are the two recursive walks
  over a resource tree's `{record_uri, has_children, instance_types,
  children}` projection. The walks take an explicit accumulator. The
  source's shared mutable default list is modelled as a class, which shows
  how results leak from one call into the next.
- **Hierarchy and display strings** (module `Hierarchy`). These cover
  `make_display_string`, `build_hierarchy` and `get_most_proximate_date`,
  which walk `parent` references through the store. The parent relation is
  required to be well founded: a ghost rank must decrease from child to
  parent.
- **Bulk read-modify-write operations** (modules `Maintenance` and
  `Client`). The class `Client.ASpaceClient` holds the store and offers
  update, unpublish, enumeration values, top-container merge, resource
  disassociation and the two access-restriction sweeps. Most methods are
  proved equal to a specification function in `Maintenance` or `Client`.
  The deletion loop of `remove_resource_associations` is specified instead
  by what it removes and keeps. The lemmas beside the specification
  functions state frame conditions, idempotence and error behaviour. The
  resource-level methods walk the tree with a fresh accumulator, which is
  the corrected walk of the first finding below, not the shared default
  list the source uses. Update, enumeration values and the top-container
  merge post through the corrected `Client.Post` of the third finding below.
  As written, update and enumeration values raise a TypeError at their first
  post and write nothing. The merge also repoints through the corrected
  `Maintenance.Repoint` of the second finding below. As written, it handles
  the listed records in order and stops at the first one that either raises
  a KeyError or is posted. A record raises the KeyError when it has an
  instance without a top container, such as a digital-object instance, and
  it raises before its post. Any other record raises the TypeError at its
  post.

Absent or falsy JSON keys are modelled as `""`, `[]` or `None`. Exceptions
are modelled as `Error` values: `NotFound`, `UriMismatch`, `KeyError`,
`IndexError` and `TypeError`. An operation that stops on an exception keeps
the writes it already made.

`format_dates` keeps the text of an inclusive date entry even when that text
is empty, so `", "` separators can surround an empty piece.

## Model

| member | source | states |
|---|---|---|
| Strings.TrimStart | bhlaspaceapiclient/client.py:530 | `lstrip`: the result is a suffix of the input that does not start with whitespace |
| Strings.TrimEnd | bhlaspaceapiclient/client.py:530 | `rstrip`: the result is a prefix of the input that does not end with whitespace |
| Strings.TrimStartDropsSpace | bhlaspaceapiclient/client.py:530 | every character that `lstrip` drops is whitespace |
| Strings.TrimEndDropsSpace | bhlaspaceapiclient/client.py:530 | every character that `rstrip` drops is whitespace |
| Strings.StripOffset | bhlaspaceapiclient/client.py:541 | `strip()` leaves a contiguous infix of its input |
| Strings.StripIsTrimmed | bhlaspaceapiclient/client.py:541 | a stripped string has no whitespace at either end, and stripping is idempotent |
| Strings.TrimIdle | bhlaspaceapiclient/client.py:530 | a string with no whitespace at either end is left unchanged by `strip()` |
| Strings.JoinSnoc | bhlaspaceapiclient/client.py:533 | joining one more part adds the separator and that part, except after an empty list |
| Strings.ContainsInfix | bhlaspaceapiclient/client.py:456 | `sub in s` holds whenever `s` is built around `sub` |
| Strings.RemoveAll | bhlaspaceapiclient/client.py:264 | `str.replace(pat, "")` never lengthens the string |
| Strings.RemoveAllAbsent | bhlaspaceapiclient/client.py:264 | replacing a pattern that does not occur leaves the string unchanged |
| Strings.TrimTrailing | bhlaspaceapiclient/client.py:693 | `rstrip(".")`: the result is a prefix with no trailing dot, and only dots were removed |
| Strings.SplitNoSep | bhlaspaceapiclient/client.py:641 | `split` of a text without the separator gives the text itself as the only field |
| Strings.SplitAppend | bhlaspaceapiclient/client.py:641 | `split` over `a + sep + b` gives the fields of `a` followed by the fields of `b` |
| Strings.SplitFront | bhlaspaceapiclient/client.py:641 | a separator-free prefix becomes the first field |
| Strings.JoinSplit | bhlaspaceapiclient/client.py:641 | joining the fields of a split with the same separator gives back the original string |
| Strings.SplitLast | bhlaspaceapiclient/client.py:299 | `split("/")[-1]` is the text after the last separator |
| Strings.NatToString | bhlaspaceapiclient/client.py:257 | a decimal count is a non-empty string of digits |
| Strings.NatToStringValue | bhlaspaceapiclient/client.py:257 | the digits written for a count denote that count |
| Strings.LexLessStrict | bhlaspaceapiclient/client.py:585 | string `<` is irreflexive and asymmetric |
| Strings.ReverseSnoc | bhlaspaceapiclient/client.py:488 | reversing a list with one more element puts that element first |
| Dates.EntryText | bhlaspaceapiclient/client.py:521-528 | a date entry's text is non-empty only when it has an expression or a begin date |
| Dates.FormatDates | bhlaspaceapiclient/client.py:516-538 | the loop computes `FormattedDates`: the comma-join of the inclusive texts, followed by the first bulk text in parentheses |
| Dates.TextsOfTypeAppend | bhlaspaceapiclient/client.py:520-532 | collecting texts of one date type distributes over concatenation, so order is preserved |
| Dates.EntryTextStripped | bhlaspaceapiclient/client.py:530-532 | every collected text is stripped |
| Dates.TextsSkipOther | bhlaspaceapiclient/client.py:529-532 | an entry of another type contributes no text of the given type |
| Dates.OtherDateTypesIgnored | bhlaspaceapiclient/client.py:529-532 | entries that are neither inclusive nor bulk do not change the output |
| Dates.InclusiveEntryAppended | bhlaspaceapiclient/client.py:529-535 | an extra inclusive entry adds `", " + its text`, or its text alone when it is the first, and the bulk suffix stays last |
| Dates.LaterBulkIgnored | bhlaspaceapiclient/client.py:534-535 | only the first bulk entry is shown |
| Dates.BulkOnly | bhlaspaceapiclient/client.py:533-535 | with bulk entries but no inclusive ones, the output is just ` (bulk X)` |
| Dates.SingleInclusive | bhlaspaceapiclient/client.py:516-536 | a single inclusive entry formats as its own text |
| Dates.FormattedOneAndBulk | bhlaspaceapiclient/client.py:533-535 | one inclusive text `t` and one bulk text `u` give `t (bulk u)` |
| Dates.InclusiveThenBulk | bhlaspaceapiclient/client.py:529-535 | an inclusive entry followed by a bulk entry gives `inclusive (bulk bulk)` |
| Dates.RangeEntryText | bhlaspaceapiclient/client.py:522-526 | without an expression, begin and end become `begin-end` |
| Dates.DateExampleRange | bhlaspaceapiclient/client.py:516-538 | an inclusive entry 1900 to 1910 formats as `1900-1910` |
| Dates.DateExampleBulk | bhlaspaceapiclient/client.py:516-538 | inclusive `1900-1910` plus bulk `1905` formats as `1900-1910 (bulk 1905)` |
| Extents.Truthy | bhlaspaceapiclient/client.py:624-625 | the filtered parts are all non-empty and never more numerous than the input |
| Extents.TruthyOfThree | bhlaspaceapiclient/client.py:624-625 | container summary, physical details and dimensions are kept in that order when non-empty |
| Extents.ExtentTexts | bhlaspaceapiclient/client.py:618-630 | one formatted text per extent |
| Extents.ParseExtents | bhlaspaceapiclient/client.py:615-634 | the loop computes the `"; "`-join of the extent texts |
| Extents.ExtentAppended | bhlaspaceapiclient/client.py:630-632 | an extra extent adds `"; " + its text`, or its text alone when it is the first |
| Extents.ExtentParenthetical | bhlaspaceapiclient/client.py:619-629 | the parenthetical is absent exactly when all three optional parts are empty, and the text is then `number extent_type` |
| Extents.SingleExtent | bhlaspaceapiclient/client.py:631-632 | one extent gives its own text |
| Extents.ExtentExampleDimensions | bhlaspaceapiclient/client.py:615-634 | `3 boxes` with dimensions `10x12` gives `3 boxes (10x12)` |
| Extents.ExtentExamplePlain | bhlaspaceapiclient/client.py:615-634 | `3 boxes` with no optional parts gives `3 boxes` |
| Notes.FormatNoteShowsFirstText | bhlaspaceapiclient/client.py:559-563 | a single-part note shows its first content item and any other note its first subnote; later items are ignored |
| Notes.FindNotesByType | bhlaspaceapiclient/client.py:543-549 | the result holds exactly the notes of the given type, all of that type |
| Notes.NoteByTypeIsFirstOfType | bhlaspaceapiclient/client.py:551-557 | `find_note_by_type` formats the first note of the type, or gives `""` when there is none |
| Notes.NotesByTypeAppend | bhlaspaceapiclient/client.py:544-545 | the filter keeps note order |
| Formatters.TagEnd | bhlaspaceapiclient/client.py:541 | a found tag end lies inside the text |
| Formatters.StripTags | bhlaspaceapiclient/client.py:541 | removing tags never lengthens the text |
| Formatters.TagEndStaysOpen | bhlaspaceapiclient/client.py:541 | text in which an open tag is never closed stays so after tag removal |
| Formatters.StripTagsLeavesNoTag | bhlaspaceapiclient/client.py:541 | no closable `<…>` span is left after the substitution |
| Formatters.StripTagsIdle | bhlaspaceapiclient/client.py:541 | text without a closable tag is unchanged |
| Formatters.StripTagsWithoutOpen | bhlaspaceapiclient/client.py:541 | text without `<` is unchanged |
| Formatters.StripTagsIdempotent | bhlaspaceapiclient/client.py:541 | a second substitution changes nothing |
| Formatters.NoTagStrip | bhlaspaceapiclient/client.py:541 | stripping whitespace keeps text tag-free |
| Formatters.SanitizeTitleIdempotent | bhlaspaceapiclient/client.py:540-541 | a sanitized title is tag-free, and sanitizing it again changes nothing |
| Formatters.TagRemoved | bhlaspaceapiclient/client.py:541 | a leading `<…>` span without `>` or newline inside is removed whole, non-greedily |
| Formatters.TagEndAt | bhlaspaceapiclient/client.py:541 | the tag closes at the first `>` when no newline comes before it |
| Formatters.VerifyPunctuation | bhlaspaceapiclient/client.py:699-702 | the result ends in `.`, `)` or `-`, extends the input by at most one character, and equals the input exactly when the input already ends that way |
| Formatters.VerifyPunctuationIdempotent | bhlaspaceapiclient/client.py:699-702 | punctuating twice is punctuating once |
| Formatters.AgentNameShape | bhlaspaceapiclient/client.py:688-697 | with terms, the name is the title without trailing dots, then ` -- `, then the terms joined by ` -- `, punctuated; without terms it is the punctuated title |
| Formatters.LeadingNumber | bhlaspaceapiclient/client.py:639-643 | the match of `^[\d\.]+`: the longest prefix of digits and dots |
| Formatters.SplitTwoFields | bhlaspaceapiclient/client.py:641 | splitting on `-` peels off two dash-free leading fields |
| Formatters.CollectionIdFromEadId | bhlaspaceapiclient/client.py:640-641 | with an EAD id, the collection id is everything after its second dash |
| Formatters.CollectionIdFromIdentifier | bhlaspaceapiclient/client.py:638-645 | without an EAD id, the collection id is the longest digit-and-dot prefix of the stripped identifier (possibly `""`) |
| Formatters.Classifications | bhlaspaceapiclient/client.py:240-247 | at most one classification per field looked at |
| Formatters.ClassificationsAreSetValues | bhlaspaceapiclient/client.py:244-246 | a value is returned exactly when it is non-empty and stored under one of the fields |
| Formatters.GetBhlClassifications | bhlaspaceapiclient/client.py:240-247 | the loop over `enum_1`, `enum_2` and `enum_3` computes `Classifications`, so there are at most three |
| Formatters.ArchivalObjectLinkNumber | bhlaspaceapiclient/client.py:298-300 | the link names the archival object by the number after the last `/` |
| Formatters.CreateDigitalObject | bhlaspaceapiclient/client.py:302-314 | the object keeps the title and publish flag, and its id is the identifier or, when that is empty, the fresh id |
| Formatters.CreatedLinkReadBack | bhlaspaceapiclient/client.py:648-652 | reading the link back from a created digital object gives the link it was created with |
| Formatters.AgentsByRole | bhlaspaceapiclient/client.py:665-667 | exactly the refs of the agents that have the role |
| Formatters.AgentsByRoleAppend | bhlaspaceapiclient/client.py:665-667 | the refs are kept in the agents' list order, repeats included: the filter of a concatenation is the concatenation of the filters |
| Formatters.FirstAgentByRole | bhlaspaceapiclient/client.py:669-673 | the first ref returned, the `agents[0]` that `get_first_agent_by_role` fetches, is that of the first agent in the list with the role |
| Formatters.FindById | bhlaspaceapiclient/client.py:254-257 | resolved exactly when one archival object is returned, to its ref; otherwise an error message naming the id type and value |
| Formatters.RefIdPrefixDropped | bhlaspaceapiclient/client.py:262-265 | a ref id of the form `aspace_` + rest, with no other occurrence, resolves to rest |
| Formatters.RefIdWithoutPrefixKept | bhlaspaceapiclient/client.py:262-265 | a ref id without the prefix is unchanged |
| Formatters.RefIdInnerOccurrenceRemoved | bhlaspaceapiclient/client.py:263-264 | every occurrence is removed, not only the prefix: `aspace_aspace_1` becomes `1` |
| TreeWalk.Uris | bhlaspaceapiclient/client.py:713 | one uri per node |
| TreeWalk.PreorderAppend | bhlaspaceapiclient/client.py:712-716 | the pre-order of a concatenation is the concatenation of pre-orders |
| TreeWalk.UrisAppend | bhlaspaceapiclient/client.py:713 | uris distribute over concatenation |
| TreeWalk.KeepAppend | bhlaspaceapiclient/client.py:722-726 | the instance filter distributes over concatenation |
| TreeWalk.PreorderSnoc | bhlaspaceapiclient/client.py:712-716 | a child contributes itself, then its subtree only when `has_children` is set |
| TreeWalk.FlattenSnoc | bhlaspaceapiclient/client.py:712-716 | one more child adds its uri and then, when flagged, its descendants' uris |
| TreeWalk.WithInstancesSnoc | bhlaspaceapiclient/client.py:721-729 | one more child adds its uri when it qualifies, then the qualifying descendants when flagged |
| TreeWalk.ExtractUris | bhlaspaceapiclient/client.py:711-717 | the result is the incoming accumulator followed by the pre-order uris of the tree |
| TreeWalk.FindChildrenWithInstances | bhlaspaceapiclient/client.py:720-731 | the result is the incoming accumulator followed by the pre-order uris of the qualifying nodes |
| TreeWalk.KeptSubsequence | bhlaspaceapiclient/client.py:722-726 | filtering keeps an order-preserving subsequence |
| TreeWalk.WithInstancesIsSubsequence | bhlaspaceapiclient/client.py:711-731 | the nodes with instances form an order-preserving subsequence of the flattened tree |
| TreeWalk.UrisMembers | bhlaspaceapiclient/client.py:713 | a uri is listed exactly when some node has it |
| TreeWalk.KeepMembers | bhlaspaceapiclient/client.py:722-726 | a node is kept exactly when it qualifies |
| TreeWalk.WithInstancesMembers | bhlaspaceapiclient/client.py:720-731 | a uri is found exactly when some reachable qualifying node has it |
| TreeWalk.AllQualifyGivesFlatten | bhlaspaceapiclient/client.py:722-726 | with no type filter, nodes that all have instances are all kept |
| TreeWalk.ChildlessFlagHidesChildren | bhlaspaceapiclient/client.py:711-729 | a node whose `has_children` is false hides its children from both walks |
| TreeWalk.NonQualifyingNodeSearched | bhlaspaceapiclient/client.py:727-729 | a node that does not qualify is still searched below |
| TreeWalk.SharedDefaults.ExtractWithDefault | bhlaspaceapiclient/client.py:711-717 | without an accumulator argument, the shared default list grows by the tree's uris and is returned |
| TreeWalk.SharedDefaults.FindWithDefault | bhlaspaceapiclient/client.py:720-731 | the same for the instance walk, whose default list is separate |
| TreeWalk.LeakAcrossCalls | bhlaspaceapiclient/client.py:711-717 | a second call on the same tree returns the first result twice over |
| TreeWalk.LeakAcrossFindCalls | bhlaspaceapiclient/client.py:720-731 | the same leak for `find_children_with_instances` |
| TreeWalk.ArchivalObjectUris | bhlaspaceapiclient/client.py:565-569 | with a fresh accumulator, the resource's archival object uris are exactly the flattened tree |
| TreeWalk.ChildrenWithInstances | bhlaspaceapiclient/client.py:441-442 | with a fresh accumulator, the qualifying uris form a subsequence of the flattened tree |
| Hierarchy.DisplayTitleFirst | bhlaspaceapiclient/client.py:495-498 | a title comes first, with `", "` and the dates when there are any, whatever `add_parent_title` says |
| Hierarchy.DisplayParentTitle | bhlaspaceapiclient/client.py:499-507 | dates without a title follow the parent's sanitized display string when asked, and stand alone otherwise |
| Hierarchy.DisplayNone | bhlaspaceapiclient/client.py:494-507 | there is no display string exactly when both title and dates are missing |
| Hierarchy.DisplayStringWithoutParent | bhlaspaceapiclient/client.py:494-507 | without `add_parent_title` the store plays no part |
| Hierarchy.DisplayStringErrors | bhlaspaceapiclient/client.py:500-502 | the call fails exactly when the parent must be read and is missing; without a parent it is a KeyError |
| Hierarchy.Ancestors | bhlaspaceapiclient/client.py:482-487 | the chain of fetched parents ends at a root, and a failure names a uri absent from the store |
| Hierarchy.Labels | bhlaspaceapiclient/client.py:485 | one display string per ancestor |
| Hierarchy.AncestorsStep | bhlaspaceapiclient/client.py:482-487 | one iteration of the loop moves one parent from the chain still to walk into the visited list |
| Hierarchy.BuildHierarchy | bhlaspaceapiclient/client.py:480-492 | the loop that appends and then reverses computes `Hierarchy` |
| Hierarchy.LabelsSnoc | bhlaspaceapiclient/client.py:486 | appending an ancestor appends its display string |
| Hierarchy.RootHierarchy | bhlaspaceapiclient/client.py:489-492 | a record without a parent gives `""` |
| Hierarchy.HierarchyIgnoresOwnFields | bhlaspaceapiclient/client.py:480-492 | the record's own title and dates never appear; only its parent matters |
| Hierarchy.ValuesSnoc | bhlaspaceapiclient/client.py:490 | present display strings are kept in order |
| Hierarchy.TitlesStep | bhlaspaceapiclient/client.py:486-488 | the nearest parent's display string ends the reversed list |
| Hierarchy.HierarchyStep | bhlaspaceapiclient/client.py:480-492 | a record's hierarchy is its parent's hierarchy followed by the delimiter and the parent's display string, or that display string alone when the parent is a root |
| Hierarchy.HierarchyExample | bhlaspaceapiclient/client.py:480-492 | an item under series "Series" under collection "Collection" gives `Collection > Series` |
| Hierarchy.ExampleSeriesLevel | bhlaspaceapiclient/client.py:480-492 | the series itself gives `Collection` |
| Hierarchy.PlainTitle | bhlaspaceapiclient/client.py:540-541 | a title without `<` and with no surrounding whitespace is unchanged by sanitizing |
| Hierarchy.NearestDated | bhlaspaceapiclient/client.py:510-512 | the loop stops at the record itself when it has dates or no parent; otherwise at the nearest ancestor that has dates, or at the root |
| Hierarchy.MostProximateDate | bhlaspaceapiclient/client.py:509-514 | the loop computes the formatted dates of `NearestDated` |
| Hierarchy.NearestDatedOnChain | bhlaspaceapiclient/client.py:509-514 | the nearest dated record is the first dated record on the chain from the record to its root, or the root |
| Maintenance.NoteAfterOnlyUnpublishes | bhlaspaceapiclient/client.py:580-587 | a note only ever loses its publish flag, and changes exactly when it is a published `accessrestrict` note whose text meets the condition |
| Maintenance.UnpublishNotesFails | bhlaspaceapiclient/client.py:580-581 | a record's sweep fails exactly when some candidate note cannot be formatted |
| Maintenance.UnpublishNotesShape | bhlaspaceapiclient/client.py:579-589 | each note becomes its `NoteAfter`, every logged text meets the condition, and nothing is logged exactly when nothing changed |
| Maintenance.Flipped | bhlaspaceapiclient/client.py:588-589 | never more texts than notes |
| Maintenance.UnpublishNotesLogsFlipped | bhlaspaceapiclient/client.py:586-589 | exactly one text is logged per note unpublished, in note order |
| Maintenance.UnpublishNotesIdempotent | bhlaspaceapiclient/client.py:580 | sweeping the swept notes again changes and logs nothing |
| Maintenance.Entries | bhlaspaceapiclient/client.py:588-589 | one `{uri, title, restriction}` entry per logged text |
| Maintenance.SweepFrame | bhlaspaceapiclient/client.py:576-591 | a sweep keeps the set of records, and leaves records it does not visit unchanged |
| Maintenance.SweepOnlyNotes | bhlaspaceapiclient/client.py:586 | a sweep changes nothing in a record but its notes |
| Maintenance.SweepLog | bhlaspaceapiclient/client.py:588-589 | every log entry names a visited, stored record, carries that record's display string, and has a restriction that meets the condition |
| Maintenance.SettledSweep | bhlaspaceapiclient/client.py:611-612 | over settled records a sweep writes nothing and logs nothing |
| Maintenance.SweepSettles | bhlaspaceapiclient/client.py:600-612 | after a successful sweep, every visited record is settled |
| Maintenance.SecondSweepIdle | bhlaspaceapiclient/client.py:594-613 | an immediate second run returns an empty log and changes nothing |
| Maintenance.NotYetExpiredKept | bhlaspaceapiclient/client.py:585 | a restriction dated today or later is not expired |
| Maintenance.RepointAsWritten | bhlaspaceapiclient/client.py:408-409 | the comprehension raises a KeyError exactly when some instance has no top container |
| Maintenance.RepointAsWrittenRejectsDigitalObject | bhlaspaceapiclient/client.py:408-409 | a record with a digital-object instance cannot be merged as written |
| Maintenance.Repoint | bhlaspaceapiclient/client.py:408-411 | instances in the source container now point at the target, and all other instances are unchanged |
| Maintenance.RepointAgrees | bhlaspaceapiclient/client.py:408-411 | whenever the code as written succeeds, it agrees with `Repoint` |
| Maintenance.RepointClears | bhlaspaceapiclient/client.py:410-411 | no instance refers to the source afterwards, and repointing again changes nothing |
| Maintenance.RepointIdempotent | bhlaspaceapiclient/client.py:410-411 | repointing a second time changes nothing, whatever the source and target |
| Maintenance.MergeSucceeds | bhlaspaceapiclient/client.py:397-413 | with the corrected post and the corrected repointing, the merge completes exactly when every listed record exists under its own uri and the source container exists |
| Maintenance.MergeFrame | bhlaspaceapiclient/client.py:397-413 | with the corrected post and the corrected repointing, on success exactly the source is removed, unlisted records are unchanged, and listed records change only in their instances |
| Maintenance.MergeClears | bhlaspaceapiclient/client.py:405-412 | with the corrected post and the corrected repointing, on success no listed record other than the source still refers to the source container, and each instance that did now refers to the target |
| Maintenance.MergeRepoints | bhlaspaceapiclient/client.py:405-412 | with the corrected post and the corrected repointing, on success each listed record other than the source holds its original instances with every source reference moved to the target, and nothing else changed |
| Maintenance.InstanceRefs | bhlaspaceapiclient/client.py:465-478 | at most one reference per instance (which ones, in which order and when it fails are stated by the lemmas below) |
| Maintenance.InstanceRefsSources | bhlaspaceapiclient/client.py:469-477 | on success a uri is collected exactly when an instance of the requested type refers to it: through its digital object for a digital-object instance, otherwise through its top container |
| Maintenance.InstanceRefsSingle | bhlaspaceapiclient/client.py:469-477 | one instance gives no reference when its type is filtered out, else its digital object or top container, else a KeyError |
| Maintenance.InstanceRefsAppend | bhlaspaceapiclient/client.py:472-477 | references are collected instance by instance in order, and the first instance lacking its reference decides the error |
| Maintenance.InstanceRefsFails | bhlaspaceapiclient/client.py:472-477 | the call fails exactly when an instance of the requested type lacks its `digital_object` or `sub_container` reference |
| Maintenance.InstanceRefsComplete | bhlaspaceapiclient/client.py:469-477 | on success every instance of the requested type contributes its reference |
| Maintenance.DigitalObjectInstanceRefs | bhlaspaceapiclient/client.py:320-321 | an instance made by `make_digital_object_instance` reads back through `find_instance_uris`, with or without the `digital_object` filter, as the digital object it names |
| Maintenance.SharedKept | bhlaspaceapiclient/client.py:455-463 | a digital object with other than one linked instance, a top container with other than one collection, or any other uri is never deleted |
| Maintenance.MissingValues | bhlaspaceapiclient/client.py:433-434 | a value is added exactly when it is requested and not already present |
| Maintenance.MissingValuesAppend | bhlaspaceapiclient/client.py:433-434 | the values to add are chosen one by one in the order given, so order is kept and duplicates among new values are not collapsed |
| Maintenance.AddedValuesPresent | bhlaspaceapiclient/client.py:433-436 | existing values keep their order in front, and afterwards nothing requested is missing |
| Maintenance.DuplicatesKept | bhlaspaceapiclient/client.py:433-434 | a new value requested twice is appended twice |
| Client.Post | bhlaspaceapiclient/client.py:170-172 | a post succeeds exactly when the uri exists; it then overwrites that record, and every other record is unchanged |
| Client.PostAsWrittenNeverWrites | bhlaspaceapiclient/client.py:152-172 | as written, the post raises before writing, so the record is not updated |
| Client.UpdateThenRead | bhlaspaceapiclient/client.py:178-183 | with the corrected post, an update succeeds exactly when the uris match and the record exists; a mismatch raises and changes nothing; after success a read returns the record and repeating the update is a no-op |
| Client.UnpublishTwice | bhlaspaceapiclient/client.py:354-362 | unpublishing changes only the publish flag, and a second call reports `already unpublished` |
| Client.AddValuesTwice | bhlaspaceapiclient/client.py:431-437 | with the corrected post, existing values keep their order in front, every requested value is present afterwards, and repeating the call changes nothing |
| Client.DeleteSingleOutcome | bhlaspaceapiclient/client.py:455-463 | only an inspected uri can fail (when it is absent), and only a deletable record is removed |
| Client.CollectRefsSources | bhlaspaceapiclient/client.py:444-445 | every collected instance uri comes from one of the listed records |
| Client.CollectRefsAppend | bhlaspaceapiclient/client.py:444-445 | references are collected record by record in the order listed, and the first failure wins |
| Client.CollectRefsFails | bhlaspaceapiclient/client.py:444-445 | collecting fails exactly when a listed record is missing or one of its instances lacks its reference |
| Client.CollectRefsComplete | bhlaspaceapiclient/client.py:444-445 | on success every reference of every listed record is collected |
| Client.SweepNotes | bhlaspaceapiclient/client.py:579-589 | the note loop computes `UnpublishNotes` |
| Client.NotesPrefixError | bhlaspaceapiclient/client.py:581 | a failure on a prefix of the notes is the failure of the whole loop |
| Client.InstanceRefsOf | bhlaspaceapiclient/client.py:465-478 | the loop computes `InstanceRefs` |
| Client.RefsPrefixError | bhlaspaceapiclient/client.py:472-477 | a failure on a prefix of the instances is the failure of the whole loop |
| Client.RepointInstances | bhlaspaceapiclient/client.py:410-411 | the in-place loop computes `Repoint` |
| Client.CollectPrefixError | bhlaspaceapiclient/client.py:444-445 | a failure on a prefix of the uris is the failure of the whole loop |
| Client.ASpaceClient.constructor | bhlaspaceapiclient/client.py:46 | the client starts on the given store, with the repository prefix `/repositories/N` |
| Client.ASpaceClient.UpdateObject | bhlaspaceapiclient/client.py:178-183 | with the corrected post, the store and the error are those of `Update` |
| Client.ASpaceClient.UnpublishObject | bhlaspaceapiclient/client.py:354-362 | the store and the reply are those of `Unpublish` |
| Client.ASpaceClient.AddEnumerationValues | bhlaspaceapiclient/client.py:431-437 | with the corrected post, the store and the error are those of `AddValues` on `/config/enumerations/<id>` |
| Client.ASpaceClient.MergeTopContainers | bhlaspaceapiclient/client.py:397-413 | with the corrected post and the corrected repointing, the store and the error are those of `Merge` from `<repository>/top_containers/<source>` to `.../<target>` |
| Client.ASpaceClient.FindInstanceUris | bhlaspaceapiclient/client.py:465-478 | the references of the fetched record's instances, or `NotFound`; it fails exactly when an instance of the requested type lacks its reference, and on success every such instance contributes its reference |
| Client.ASpaceClient.DeleteSingleResourceInstances | bhlaspaceapiclient/client.py:455-463 | the store and the error are those of `DeleteSingle` |
| Client.ASpaceClient.CollectInstanceUris | bhlaspaceapiclient/client.py:443-445 | the loop computes `CollectRefs` with no type filter |
| Client.ASpaceClient.DeleteUnshared | bhlaspaceapiclient/client.py:446-447 | the deletion loop fails exactly when an inspected uri is absent, removes only listed deletable records, removes all of them on success, and changes no kept record |
| Client.ASpaceClient.RemoveResourceAssociations | bhlaspaceapiclient/client.py:439-447 | the same, for the instance uris of the tree's children that have instances, found by the corrected walk with a fresh accumulator; a failed lookup changes nothing |
| Client.ASpaceClient.RunSweep | bhlaspaceapiclient/client.py:576-592 | the record loop leaves the store of `Sweep` and returns its log or its error |
| Client.ASpaceClient.UnpublishRestrictionsByText | bhlaspaceapiclient/client.py:594-613 | without text it replies `No restriction text provided` and changes nothing; otherwise it sweeps the tree, flattened by the corrected walk with a fresh accumulator, for notes equal to the text |
| Client.ASpaceClient.UnpublishExpiredRestrictions | bhlaspaceapiclient/client.py:571-592 | it sweeps the tree, flattened by the corrected walk with a fresh accumulator, for restrictions whose normal date sorts before today |

## Left out

- Interactive configuration, login and logout (`bhlaspaceapiclient/client.py:41-127`, 162-164) are not modelled. They rely on stdin, passwords, configuration files and process exit.
- HTTP transport (`_request`, `_get`, `_put`, `_post`, `_delete`, 129-160) is not modelled. A failed GET, POST or DELETE becomes `NotFound`. The JSON-decoding check and response bodies are not modelled: a successful post answers `Posted`.
- The single-GET getters and posting helpers are not modelled: `list_resources`, `get_resource`, `get_archival_object`, `get_resource_tree`, `get_enumeration`, `get_top_container*`, `get_metadata_for_container`, `post_top_container`, `post_digital_object`, `post_archival_object_children` and similar. Their responses (the resource tree, the archival objects that refer to a container, the find_by_id lookup list) are parameters of the operations that use them.
- EAD import and export (323-352) are file and network I/O.
- `transfer_archival_object`, `set_archival_object_parent`, `make_resource_link`, `make_archival_object_link_from_id`, `make_archival_object_link_from_json`, `resolve_component_id`, `unpublish_resource` and `get_resource_children_with_instances` are one-line compositions of modelled operations with a GET or a POST. They add no logic of their own.
- `get_digital_object_instance_links`, `get_first_agent_by_role`, `get_linked_agents`, `get_linked_subjects`, `get_accession_source` and `get_resource_creator` fetch each agent, subject or digital object. Their logic is `AgentsByRole`, `LinkFromDigitalObject`, `ConstructAgentName` and `VerifyPunctuation` applied to fetched records.
- The lxml parsing of a restriction note (582-584) is the parameter `normalDate`, and a parse error is not modelled.
- UnpublishExpiredRestrictions (Client.ASpaceClient.UnpublishExpiredRestrictions): a `<date>` without a `normal` attribute raises a KeyError at client.py:585 and stops the sweep. The model has `normalDate` give no value for it, so the note is kept and the sweep goes on. `datetime.today()` (572) is the parameter `today`.
- `uuid.uuid4()` (308) is the parameter `freshId`.
- The iteration order of `set(instance_uris)` (446) is not fixed. The model deletes the distinct uris in an arbitrary order, and its contracts do not depend on that order.
- Whitespace for `strip()` is limited to ASCII (space, tab to carriage return, and 0x1C to 0x1F), and digits for `\d` are ASCII only. Python also counts other Unicode characters.
- `sanitize_title`'s regex is modelled for the leftmost, non-greedy `<.*?>` match. A `<` whose closing `>` comes only after a newline is left alone, because `.` does not match a newline.
- Parent chains are required to be well founded (`Ranked`). The source loops forever on a cycle, and the model does not describe that.
- KeyErrors on keys the backend always supplies are not modelled, such as `uri`, `notes`, `instances`, `date_type`, `number`, `linked_agents`, `display_string`, `type`, `publish`, `jsonmodel_type`, `extent_type`, `id_0`, `instance_type`, and `record_uri`, `has_children` and `children` in the tree. Absent optional keys are modelled as empty values.
- Notes.FindNotesByType: when no note has the type, the source returns the string `""` (client.py:549), and the model returns the empty list `[]`. Both are falsy, and iterating over either yields nothing; a caller that tests the type or concatenates lists would see the difference.
- Classifications (Formatters.Classifications, Formatters.GetBhlClassifications): a record without `user_defined` raises a KeyError at client.py:243. The model treats a missing `user_defined` as an empty map and returns no classifications.
- InstanceRefs (Maintenance.InstanceRefs): its own contract bounds the length only. Which references it collects, in which order and when it fails are stated by InstanceRefsSingle, InstanceRefsAppend, InstanceRefsFails, InstanceRefsComplete and InstanceRefsSources.
- CollectRefsSources (Client.CollectRefsSources): states provenance only. That every listed record's references are collected is stated by Client.CollectRefsComplete, and their order by Client.CollectRefsAppend.
- MissingValues (Maintenance.MissingValues): its own contract states membership only. Order and duplicates are stated by Maintenance.MissingValuesAppend.
- TreeWalk.SharedDefaults.ExtractWithDefault, TreeWalk.SharedDefaults.FindWithDefault: the list they return is a value. In Python the caller receives the shared default list itself, so a caller that appends to it also changes what later calls return. That aliasing is not modelled.
- Hierarchy.Hierarchy: joining a list that holds Python `None` raises a TypeError. The model reports `TypeError` without the message.
- Client.ASpaceClient.RunSweep: when a sweep raises, the source loses the log it had built. The model still returns the error, and the store keeps the records already written.
- Client.ASpaceClient.constructor: the backend and frontend URLs are left out. Only the repository prefix is kept.

## Findings

| source | as written | input that shows it | evidently intended | confidence | as-written member | corrected member |
|---|---|---|---|---|---|---|
| bhlaspaceapiclient/client.py:711-731 | the accumulators `archival_object_uris=[]` and `children_with_instances=[]` are mutable defaults, shared by every call that does not pass them, as at 567 and 441 | two calls of `get_resource_archival_object_uris` on a resource with one child: the second returns that child's uri twice | each call starts from an empty list | high, not executed | TreeWalk.LeakAcrossCalls | TreeWalk.ArchivalObjectUris |
| bhlaspaceapiclient/client.py:408-409 | the comprehension reads `instance["sub_container"]["top_container"]["ref"]` for every instance | an archival object in the source container that also has a `digital_object` instance, which has no `sub_container`: KeyError, and the merge stops | skip instances without a top container | high, not executed | Maintenance.RepointAsWrittenRejectsDigitalObject | Maintenance.Repoint |
| bhlaspaceapiclient/client.py:152-172 | `post_aspace_json` passes `json=` to `_post`, which takes no such argument | any `update_aspace_object` on an existing record with a matching uri raises TypeError before anything is posted; so do `update_enumeration`, `update_top_container` and merges | post the record as the request body | high, not executed | Client.PostAsWrittenNeverWrites | Client.Post |
