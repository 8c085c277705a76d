/** The remaining record formatters of the client: titles, punctuation, agent
    names, collection ids, classifications, links, agent roles, id lookups and
    the digital-object builders. */
module Formatters {
  import opened Records
  import opened Strings

  // ---------------------------------------------------------------------------
  // sanitize_title: re.sub(r"<.*?>", "", title).strip()

  /** Where a tag opened just before `s` closes: the first '>' of `s`, provided
      no newline comes before it (the regex's `.` does not match a newline). */
  function TagEnd(s: string): (r: Option<nat>)
    ensures r.Some? ==> r.value < |s|
    decreases |s|
  {
    if s == [] then None
    else if s[0] == '>' then Some(0)
    else if s[0] == '\n' then None
    else match TagEnd(s[1..])
      case None => None
      case Some(k) => Some(k + 1)
  }

  /** The substitution: scanning from the left, each '<' that a later '>' on the
      same line closes starts a span that is removed up to that first '>';
      every other character is kept. */
  function StripTags(s: string): (r: string)
    ensures |r| <= |s|
    decreases |s|
  {
    if s == [] then []
    else if s[0] == '<' && TagEnd(s[1..]).Some? then StripTags(s[TagEnd(s[1..]).value + 2..])
    else [s[0]] + StripTags(s[1..])
  }

  /** The pattern `<.*?>` has no match in `s`. */
  ghost predicate NoTag(s: string) {
    forall i :: 0 <= i < |s| && s[i] == '<' ==> Unclosed(s, i)
  }

  /** No '>' closes a tag opened at position `i`. */
  ghost predicate Unclosed(s: string, i: nat)
    requires i < |s|
  {
    TagEnd(s[i + 1..]).None?
  }

  /** sanitize_title. */
  function SanitizeTitle(title: string): string {
    Strip(StripTags(title))
  }

  /** Text with no '>' before its first newline keeps that property once its
      tags are removed: removed spans all lie after that newline. */
  lemma {:induction false} TagEndStaysOpen(t: string)
    requires TagEnd(t).None?
    ensures TagEnd(StripTags(t)).None?
    decreases |t|
  {
    if t != [] && t[0] != '\n' {
      TagEndStaysOpen(t[1..]);
      assert StripTags(t) == [t[0]] + StripTags(t[1..]);
      assert ([t[0]] + StripTags(t[1..]))[1..] == StripTags(t[1..]);
    }
  }

  lemma NoTagCons(c: char, r: string)
    requires NoTag(r)
    requires c == '<' ==> TagEnd(r).None?
    ensures NoTag([c] + r)
  {
    var s := [c] + r;
    forall i | 0 <= i < |s| && s[i] == '<'
      ensures Unclosed(s, i)
    {
      if i > 0 {
        assert s[i + 1..] == r[i..];
        assert r[i - 1] == '<' && Unclosed(r, i - 1);
      } else {
        assert s[1..] == r;
      }
    }
  }

  /** After the substitution no tag is left: the pattern matches nowhere. */
  lemma {:induction false} StripTagsLeavesNoTag(s: string)
    ensures NoTag(StripTags(s))
    decreases |s|
  {
    if s != [] {
      if s[0] == '<' && TagEnd(s[1..]).Some? {
        StripTagsLeavesNoTag(s[TagEnd(s[1..]).value + 2..]);
      } else {
        StripTagsLeavesNoTag(s[1..]);
        if s[0] == '<' {
          TagEndStaysOpen(s[1..]);
        }
        NoTagCons(s[0], StripTags(s[1..]));
      }
    }
  }

  /** Text without a tag is left alone by the substitution. */
  lemma {:induction false} StripTagsIdle(s: string)
    requires NoTag(s)
    ensures StripTags(s) == s
    decreases |s|
  {
    if s != [] {
      assert s[0] == '<' ==> Unclosed(s, 0);
      forall i | 0 <= i < |s[1..]| && s[1..][i] == '<'
        ensures Unclosed(s[1..], i)
      {
        assert s[1..][i + 1..] == s[i + 2..];
        assert s[i + 1] == '<' && Unclosed(s, i + 1);
      }
      StripTagsIdle(s[1..]);
    }
  }

  /** Text without a '<' has no tag to remove. */
  lemma {:induction false} StripTagsWithoutOpen(s: string)
    requires '<' !in s
    ensures StripTags(s) == s
    decreases |s|
  {
    if s != [] {
      assert s[0] in s;
      StripTagsWithoutOpen(s[1..]);
      assert [s[0]] + s[1..] == s;
    }
  }

  /** Removing tags twice is the same as removing them once. */
  lemma StripTagsIdempotent(s: string)
    ensures StripTags(StripTags(s)) == StripTags(s)
  {
    StripTagsLeavesNoTag(s);
    StripTagsIdle(StripTags(s));
  }

  lemma {:induction false} TagEndPrefix(t: string, m: nat)
    requires m <= |t| && TagEnd(t).None?
    ensures TagEnd(t[..m]).None?
  {
    if m > 0 && t[0] != '\n' {
      assert t[..m][1..] == t[1..][..m - 1];
      TagEndPrefix(t[1..], m - 1);
    }
  }

  /** Cutting text at both ends cannot create a tag. */
  lemma NoTagInfix(s: string, k: nat, m: nat, t: string)
    requires k <= m <= |s| && NoTag(s) && t == s[k..m]
    ensures NoTag(t)
  {
    forall i | 0 <= i < |t| && t[i] == '<'
      ensures Unclosed(t, i)
    {
      assert s[k + i] == '<' && Unclosed(s, k + i);
      assert t[i + 1..] == s[k + i + 1..][..m - (k + i + 1)];
      TagEndPrefix(s[k + i + 1..], m - (k + i + 1));
    }
  }

  /** Stripping whitespace cannot create a tag. */
  lemma NoTagStrip(u: string)
    requires NoTag(u)
    ensures NoTag(Strip(u))
  {
    var k := StripOffset(u);
    NoTagInfix(u, k, k + |Strip(u)|, Strip(u));
  }

  /** A sanitized title has no tag left, and sanitizing it again changes nothing. */
  lemma SanitizeTitleIdempotent(title: string)
    ensures NoTag(SanitizeTitle(title))
    ensures SanitizeTitle(SanitizeTitle(title)) == SanitizeTitle(title)
  {
    var u := StripTags(title);
    var r := Strip(u);
    StripTagsLeavesNoTag(title);
    NoTagStrip(u);
    StripTagsIdle(r);
    StripIsTrimmed(u);
  }

  /** A tag free of '>' and newlines in front of the text is removed whole. */
  lemma TagRemoved(inner: string, rest: string)
    requires '>' !in inner && '\n' !in inner
    ensures StripTags("<" + inner + ">" + rest) == StripTags(rest)
  {
    var s := "<" + inner + ">" + rest;
    TagEndAt(inner + ">" + rest, |inner|);
    assert s[1..] == inner + ">" + rest;
    assert s[|inner| + 2..] == rest;
  }

  lemma {:induction false} TagEndAt(s: string, k: nat)
    requires k < |s| && s[k] == '>' && '>' !in s[..k] && '\n' !in s[..k]
    ensures TagEnd(s) == Some(k)
  {
    if k > 0 {
      assert s[0] in s[..k];
      assert s[1..][..k - 1] == s[1..k];
      TagEndAt(s[1..], k - 1);
    }
  }

  // ---------------------------------------------------------------------------
  // verify_punctuation

  predicate EndsWithPunctuation(s: string) {
    EndsWith(s, ".") || EndsWith(s, ")") || EndsWith(s, "-")
  }

  /** verify_punctuation: a name that does not end in '.', ')' or '-' gets a '.'. */
  function VerifyPunctuation(s: string): (r: string)
    ensures EndsWithPunctuation(r)
    ensures StartsWith(r, s) && |r| <= |s| + 1
    ensures r == s <==> EndsWithPunctuation(s)
  {
    if EndsWithPunctuation(s) then s else s + "."
  }

  /** Applying verify_punctuation twice adds nothing more. */
  lemma VerifyPunctuationIdempotent(s: string)
    ensures VerifyPunctuation(VerifyPunctuation(s)) == VerifyPunctuation(s)
  {
  }

  // ---------------------------------------------------------------------------
  // construct_agent_name, with the agent's fetched title passed in

  /** construct_agent_name: with subdivision terms, the title loses its
      trailing dots and is joined with the terms by " -- "; the result is
      punctuated either way. */
  function ConstructAgentName(agentTitle: string, terms: seq<string>): string {
    var name :=
      if terms != [] then
        var head := if EndsWith(agentTitle, ".") then TrimTrailing(agentTitle, '.') else agentTitle;
        Join(" -- ", [head] + terms)
      else agentTitle;
    VerifyPunctuation(name)
  }

  /** With terms, the name is the title without trailing dots, " -- ", then
      the terms joined by " -- ", punctuated; without terms, the punctuated title. */
  lemma AgentNameShape(agentTitle: string, terms: seq<string>)
    ensures terms == [] ==> ConstructAgentName(agentTitle, terms) == VerifyPunctuation(agentTitle)
    ensures terms != [] ==>
      ConstructAgentName(agentTitle, terms) ==
      VerifyPunctuation(TrimTrailing(agentTitle, '.') + " -- " + Join(" -- ", terms))
  {
    if terms != [] {
      var head := TrimTrailing(agentTitle, '.');
      assert !EndsWith(agentTitle, ".") ==> head == agentTitle;
      assert ([head] + terms)[1..] == terms;
    }
  }

  // ---------------------------------------------------------------------------
  // get_collection_id

  predicate IsNumberChar(c: char) {
    '0' <= c <= '9' || c == '.'
  }

  /** The match of `^[\d\.]+` at the start of `s`, or "" when there is none:
      the longest prefix of digits and dots. */
  function LeadingNumber(s: string): (r: string)
    ensures StartsWith(s, r)
    ensures forall i :: 0 <= i < |r| ==> IsNumberChar(r[i])
    ensures |r| == |s| || !IsNumberChar(s[|r|])
  {
    if s != [] && IsNumberChar(s[0]) then [s[0]] + LeadingNumber(s[1..]) else ""
  }

  /** `parts[2:]`. */
  function DropTwo(parts: seq<string>): seq<string> {
    if |parts| >= 2 then parts[2..] else []
  }

  /** get_collection_id: from the EAD id when there is one (its dash-separated
      fields from the third on), else the leading number of the stripped
      identifier, else "". */
  function CollectionId(eadId: string, id0: string): string {
    var identifier := Strip(id0);
    if eadId != "" then Join("-", DropTwo(Split(eadId, '-')))
    else LeadingNumber(identifier)
  }

  lemma SplitTwoFields(a: string, b: string, rest: string)
    requires '-' !in a && '-' !in b
    ensures Split(a + "-" + b + "-" + rest, '-') == [a, b] + Split(rest, '-')
  {
    assert a + "-" + b + "-" + rest == a + ['-'] + (b + ['-'] + rest);
    SplitFront(a, '-', b + ['-'] + rest);
    SplitFront(b, '-', rest);
  }

  /** An EAD id "<a>-<b>-<rest>" yields exactly <rest>, dashes in it included. */
  lemma CollectionIdFromEadId(a: string, b: string, rest: string, id0: string)
    requires '-' !in a && '-' !in b
    ensures CollectionId(a + "-" + b + "-" + rest, id0) == rest
  {
    var ead := a + "-" + b + "-" + rest;
    SplitTwoFields(a, b, rest);
    var parts := Split(ead, '-');
    assert parts[2..] == Split(rest, '-');
    JoinSplit(rest, '-');
    assert ead != "";
  }

  /** Without an EAD id the result is the longest digits-and-dots prefix of the
      stripped identifier, so "" when it does not start with one. */
  lemma CollectionIdFromIdentifier(id0: string)
    ensures var r, ident := CollectionId("", id0), Strip(id0);
      && StartsWith(ident, r)
      && (forall i :: 0 <= i < |r| ==> IsNumberChar(r[i]))
      && (|r| == |ident| || !IsNumberChar(ident[|r|]))
  {
  }

  // ---------------------------------------------------------------------------
  // get_bhl_classifications

  const ClassificationFields: seq<string> := ["enum_1", "enum_2", "enum_3"]

  /** The set values of the given user-defined fields, in field order. */
  function Classifications(userDefined: map<string, string>, fields: seq<string>): (r: seq<string>)
    ensures |r| <= |fields|
  {
    if fields == [] then []
    else
      var f := fields[|fields| - 1];
      Classifications(userDefined, fields[..|fields| - 1]) +
        (if f in userDefined && userDefined[f] != "" then [userDefined[f]] else [])
  }

  /** A value is reported exactly when it is the non-empty value of one of the fields. */
  lemma {:induction false} ClassificationsAreSetValues(userDefined: map<string, string>, fields: seq<string>, x: string)
    ensures x in Classifications(userDefined, fields) <==>
      x != "" && exists f :: f in fields && f in userDefined && userDefined[f] == x
  {
    if fields != [] {
      var init := fields[..|fields| - 1];
      var f := fields[|fields| - 1];
      ClassificationsAreSetValues(userDefined, init, x);
      assert fields == init + [f];
      if exists g :: g in fields && g in userDefined && userDefined[g] == x {
        var g :| g in fields && g in userDefined && userDefined[g] == x;
        if g != f {
          assert g in init;
        }
      }
    }
  }

  /** get_bhl_classifications: a loop over enum_1, enum_2, enum_3 collecting the
      values that are set. */
  method GetBhlClassifications(userDefined: map<string, string>) returns (r: seq<string>)
    ensures r == Classifications(userDefined, ClassificationFields)
    ensures |r| <= 3
  {
    r := [];
    var fields := ClassificationFields;
    for i := 0 to |fields|
      invariant r == Classifications(userDefined, fields[..i])
    {
      assert fields[..i + 1][..i] == fields[..i];
      var field := fields[i];
      if field in userDefined && userDefined[field] != "" {
        r := r + [userDefined[field]];
      }
    }
    assert fields[..|fields|] == fields;
  }

  // ---------------------------------------------------------------------------
  // make_archival_object_link, parse_link_from_digital_object,
  // create_digital_object, make_digital_object_instance

  /** make_archival_object_link: the front-end tree link, numbered by the last
      path segment of the archival object's uri. */
  function ArchivalObjectLink(frontendUrl: string, resourceNumber: string, uri: Uri): string {
    frontendUrl + "/resources/" + resourceNumber + "#tree::archival_object_" + LastSegment(uri)
  }

  /** The link names the archival object by the number after the final '/'. */
  lemma ArchivalObjectLinkNumber(frontendUrl: string, resourceNumber: string, prefix: string, number: string)
    requires '/' !in number
    ensures ArchivalObjectLink(frontendUrl, resourceNumber, prefix + "/" + number) ==
      frontendUrl + "/resources/" + resourceNumber + "#tree::archival_object_" + number
  {
    assert prefix + "/" + number == prefix + ['/'] + number;
    SplitLast(prefix, '/', number);
  }

  /** parse_link_from_digital_object: the first file version's uri, else the
      digital object's identifier. */
  function LinkFromDigitalObject(digitalObject: Record): Uri {
    if digitalObject.fileVersions != [] then digitalObject.fileVersions[0] else digitalObject.digitalObjectId
  }

  /** create_digital_object, with the uuid drawn by the source passed in as
      `freshId`: a digital object with one file version and one note. */
  function CreateDigitalObject(title: string, link: Uri, identifier: string, publish: bool,
                               noteContent: string, freshId: string): (r: Record)
    ensures r.title == title && r.publish == publish
    ensures r.digitalObjectId == if identifier != "" then identifier else freshId
  {
    Blank("").(
      title := title,
      digitalObjectId := if identifier != "" then identifier else freshId,
      publish := publish,
      notes := [Note("note", true, "note_digital_object", [noteContent], None)],
      fileVersions := [link])
  }

  /** The link a digital object is created with is the link read back from it. */
  lemma CreatedLinkReadBack(title: string, link: Uri, identifier: string, publish: bool,
                            noteContent: string, freshId: string)
    ensures LinkFromDigitalObject(CreateDigitalObject(title, link, identifier, publish, noteContent, freshId)) == link
  {
  }

  /** make_digital_object_instance. */
  function DigitalObjectInstance(digitalObjectUri: Uri): (r: Instance)
    ensures r.instanceType == "digital_object" && r.digitalObject == Some(digitalObjectUri)
  {
    Instance("digital_object", Some(digitalObjectUri), None)
  }

  // ---------------------------------------------------------------------------
  // get_agents_by_role

  /** get_agents_by_role: the refs of the linked agents with the role, in order. */
  function AgentsByRole(agents: seq<LinkedAgent>, role: string): (r: seq<Uri>)
    ensures |r| <= |agents|
    ensures forall x :: x in r <==> exists a :: a in agents && a.role == role && a.ref == x
  {
    if agents == [] then []
    else
      var rest := AgentsByRole(agents[1..], role);
      assert forall a :: a in agents[1..] ==> a in agents;
      assert forall a :: a in agents ==> a == agents[0] || a in agents[1..];
      (if agents[0].role == role then [agents[0].ref] else []) + rest
  }

  /** The filter keeps list order and repeats: it distributes over concatenation. */
  lemma {:induction false} AgentsByRoleAppend(a: seq<LinkedAgent>, b: seq<LinkedAgent>, role: string)
    ensures AgentsByRole(a + b, role) == AgentsByRole(a, role) + AgentsByRole(b, role)
  {
    if a == [] {
      assert a + b == b;
    } else {
      AgentsByRoleAppend(a[1..], b, role);
      AgentsByRoleHead(a, b, role);
      var head := if a[0].role == role then [a[0].ref] else [];
      var rest, tail := AgentsByRole(a[1..], role), AgentsByRole(b, role);
      assert head + (rest + tail) == (head + rest) + tail;
    }
  }

  lemma AgentsByRoleHead(a: seq<LinkedAgent>, b: seq<LinkedAgent>, role: string)
    requires a != []
    ensures AgentsByRole(a + b, role) ==
      (if a[0].role == role then [a[0].ref] else []) + AgentsByRole(a[1..] + b, role)
  {
    assert (a + b)[0] == a[0] && (a + b)[1..] == a[1..] + b;
  }

  /** get_first_agent_by_role's `agents[0]` is the ref of the first agent in the
      list that has the role. */
  lemma {:induction false} FirstAgentByRole(agents: seq<LinkedAgent>, role: string, k: nat)
    requires k < |agents| && agents[k].role == role
    requires forall j :: 0 <= j < k ==> agents[j].role != role
    ensures AgentsByRole(agents, role) != [] && AgentsByRole(agents, role)[0] == agents[k].ref
  {
    if k > 0 {
      FirstAgentByRole(agents[1..], role, k - 1);
    }
  }

  // ---------------------------------------------------------------------------
  // find_by_id and resolve_refid, with the backend's lookup answer passed in

  datatype Lookup = Resolved(ref: Uri) | Unresolved(message: string)

  /** find_by_id: success exactly when the lookup returned one archival object. */
  function FindById(refs: seq<Uri>, idType: string, idValue: string): (r: Lookup)
    ensures r.Resolved? <==> |refs| == 1
    ensures r.Resolved? ==> r.ref == refs[0]
    ensures r.Unresolved? ==> StartsWith(r.message, "Error resolving " + idType + " " + idValue + ": ")
  {
    if |refs| == 1 then Resolved(refs[0])
    else Unresolved("Error resolving " + idType + " " + idValue + ": " + NatToString(|refs|) + " archival objects returned")
  }

  /** resolve_refid's id: when it starts with "aspace_", every occurrence of
      "aspace_" is removed, not only the leading one. */
  function ResolveRefId(refId: string): string {
    if StartsWith(refId, "aspace_") then RemoveAll(refId, "aspace_") else refId
  }

  /** A ref id with the prefix and no other occurrence loses just the prefix;
      one without the prefix is unchanged. */
  lemma RefIdPrefixDropped(rest: string)
    requires !Contains(rest, "aspace_")
    ensures ResolveRefId("aspace_" + rest) == rest
  {
    var s := "aspace_" + rest;
    assert s[..7] == "aspace_";
    assert s[7..] == rest;
    RemoveAllAbsent(rest, "aspace_");
  }

  lemma RefIdWithoutPrefixKept(refId: string)
    requires !StartsWith(refId, "aspace_")
    ensures ResolveRefId(refId) == refId
  {
  }

  /** An inner "aspace_" is removed too, not only the prefix:
      "aspace_aspace_1" becomes "1" rather than "aspace_1". */
  lemma RefIdInnerOccurrenceRemoved()
    ensures ResolveRefId("aspace_aspace_1") == "1"
  {
    var s := "aspace_aspace_1";
    assert s[..7] == "aspace_";
    var t := s[7..];
    assert t == "aspace_1";
    assert t[..7] == "aspace_" && t[7..] == "1";
    assert RemoveAll("1", "aspace_") == "1";
    assert RemoveAll(t, "aspace_") == "1";
  }
}
