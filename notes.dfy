/** The note resolver of the client: format_note, find_notes_by_type and
    find_note_by_type. */
module Notes {
  import opened Records

  /** format_note: the first content string of a single-part note, the content
      of the first subnote of any other note; an empty list is an IndexError
      and a note without subnotes a KeyError. */
  function FormatNote(n: Note): Result<string>
  {
    if n.jsonmodelType == "note_singlepart" then
      if n.content == [] then Err(IndexError) else Ok(n.content[0])
    else
      match n.subnotes
      case None => Err(KeyError("subnotes"))
      case Some(subnotes) => if subnotes == [] then Err(IndexError) else Ok(subnotes[0])
  }

  /** Only the first text of a note is surfaced: texts added after it never
      change what format_note returns. */
  lemma FormatNoteShowsFirstText(n: Note, more: seq<string>)
    ensures n.jsonmodelType == "note_singlepart" && n.content != [] ==>
      FormatNote(n.(content := n.content + more)) == FormatNote(n) == Ok(n.content[0])
    ensures n.jsonmodelType != "note_singlepart" && n.subnotes.Some? && n.subnotes.value != [] ==>
      FormatNote(n.(subnotes := Some(n.subnotes.value + more))) == FormatNote(n) == Ok(n.subnotes.value[0])
  {
  }

  /** find_notes_by_type: the notes of the given type, in their order (the
      source returns "" instead of an empty list; both are empty here). */
  function FindNotesByType(notes: seq<Note>, noteType: string): (r: seq<Note>)
    ensures |r| <= |notes|
    ensures forall n :: n in r <==> n in notes && n.noteType == noteType
    ensures forall i :: 0 <= i < |r| ==> r[i].noteType == noteType
  {
    if notes == [] then []
    else (if notes[0].noteType == noteType then [notes[0]] else []) + FindNotesByType(notes[1..], noteType)
  }

  /** find_note_by_type, stated as a search: the formatted first note of the
      type, or "" when there is none. */
  function FindNoteByType(notes: seq<Note>, noteType: string): Result<string>
  {
    if notes == [] then Ok("")
    else if notes[0].noteType == noteType then FormatNote(notes[0])
    else FindNoteByType(notes[1..], noteType)
  }

  /** find_note_by_type formats the first of the notes find_notes_by_type returns. */
  lemma {:induction false} NoteByTypeIsFirstOfType(notes: seq<Note>, noteType: string)
    ensures var found := FindNotesByType(notes, noteType);
      FindNoteByType(notes, noteType) == if found == [] then Ok("") else FormatNote(found[0])
  {
    if notes != [] {
      NoteByTypeIsFirstOfType(notes[1..], noteType);
    }
  }

  /** Order is kept: the notes found for a list extended at the end are those
      found before followed by those found in the extension. */
  lemma {:induction false} NotesByTypeAppend(a: seq<Note>, b: seq<Note>, noteType: string)
    ensures FindNotesByType(a + b, noteType) == FindNotesByType(a, noteType) + FindNotesByType(b, noteType)
  {
    if a == [] {
      assert a + b == b;
    } else {
      assert (a + b)[1..] == a[1..] + b;
      NotesByTypeAppend(a[1..], b, noteType);
    }
  }
}
