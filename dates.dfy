/** The date formatter of the client (format_dates): one display string from a
    record's list of date entries. */
module Dates {
  import opened Records
  import opened Strings

  /** The text of one entry: its expression when set, else "begin-end" when both
      ends are set, else begin alone, else nothing; stripped in every case.
      Only an entry with an expression or a begin yields any text. */
  function EntryText(d: DateEntry): (t: string)
    ensures t != "" ==> d.expression != "" || d.begin != ""
  {
    Strip(RawText(d))
  }

  /** The text of one entry before stripping. */
  function RawText(d: DateEntry): string {
    if d.expression != "" then d.expression
    else if d.begin != "" && d.end != "" then d.begin + "-" + d.end
    else if d.begin != "" then d.begin
    else ""
  }

  /** The texts of the entries of one date type, in list order. */
  function TextsOfType(dates: seq<DateEntry>, dateType: string): (r: seq<string>)
    ensures |r| <= |dates|
  {
    if dates == [] then []
    else
      var last := dates[|dates| - 1];
      TextsOfType(dates[..|dates| - 1], dateType) + (if last.dateType == dateType then [EntryText(last)] else [])
  }

  /** The " (bulk ...)" tail: present when a bulk entry exists, showing the first. */
  function BulkSuffix(dates: seq<DateEntry>): string {
    var bulk := TextsOfType(dates, "bulk");
    if bulk != [] then " (bulk " + bulk[0] + ")" else ""
  }

  /** The specification of format_dates. */
  function FormattedDates(dates: seq<DateEntry>): string {
    if dates == [] then ""
    else Join(", ", TextsOfType(dates, "inclusive")) + BulkSuffix(dates)
  }

  /** format_dates: one pass over the entries, collecting inclusive and bulk
      texts, then the comma-join of the inclusive ones and the first bulk one. */
  method FormatDates(dates: seq<DateEntry>) returns (r: string)
    ensures r == FormattedDates(dates)
  {
    if dates == [] {
      return "";
    }
    var inclusive: seq<string> := [];
    var bulk: seq<string> := [];
    for i := 0 to |dates|
      invariant inclusive == TextsOfType(dates[..i], "inclusive")
      invariant bulk == TextsOfType(dates[..i], "bulk")
    {
      TextsOfTypeStep(dates, i, "inclusive");
      TextsOfTypeStep(dates, i, "bulk");
      var d := dates[i];
      var text := Strip(RawText(d));
      if d.dateType == "inclusive" {
        inclusive := inclusive + [text];
      }
      if d.dateType == "bulk" {
        bulk := bulk + [text];
      }
    }
    assert dates[..|dates|] == dates;
    r := Join(", ", inclusive);
    if bulk != [] {
      r := r + " (bulk " + bulk[0] + ")";
    }
  }

  /** One more entry extends the texts of its type by its own text. */
  lemma TextsOfTypeStep(dates: seq<DateEntry>, i: nat, dateType: string)
    requires i < |dates|
    ensures TextsOfType(dates[..i + 1], dateType) ==
      TextsOfType(dates[..i], dateType) + (if dates[i].dateType == dateType then [EntryText(dates[i])] else [])
  {
    assert dates[..i + 1][..i] == dates[..i];
  }

  lemma {:induction false} TextsOfTypeAppend(a: seq<DateEntry>, b: seq<DateEntry>, dateType: string)
    ensures TextsOfType(a + b, dateType) == TextsOfType(a, dateType) + TextsOfType(b, dateType)
    decreases |b|
  {
    if b == [] {
      assert a + b == a;
    } else {
      assert (a + b)[..|a + b| - 1] == a + b[..|b| - 1];
      TextsOfTypeAppend(a, b[..|b| - 1], dateType);
    }
  }

  /** Every entry's text is stripped: it neither starts nor ends with whitespace. */
  lemma EntryTextStripped(d: DateEntry)
    ensures var t := EntryText(d); t == [] || (!IsSpace(t[0]) && !IsSpace(t[|t| - 1]))
  {
    StripIsTrimmed(RawText(d));
  }

  /** An entry of another type contributes no text of type `dateType`. */
  lemma {:induction false} TextsSkipOther(a: seq<DateEntry>, d: DateEntry, b: seq<DateEntry>, dateType: string)
    requires d.dateType != dateType
    ensures TextsOfType(a + [d] + b, dateType) == TextsOfType(a + b, dateType)
  {
    TextsOfTypeAppend(a + [d], b, dateType);
    TextsOfTypeAppend(a, [d], dateType);
    TextsOfTypeAppend(a, b, dateType);
    assert [d][..0] == [];
  }

  /** Entries whose type is neither inclusive nor bulk do not affect the result,
      wherever they stand. */
  lemma OtherDateTypesIgnored(a: seq<DateEntry>, d: DateEntry, b: seq<DateEntry>)
    requires d.dateType != "inclusive" && d.dateType != "bulk"
    ensures FormattedDates(a + [d] + b) == FormattedDates(a + b)
  {
    TextsSkipOther(a, d, b, "inclusive");
    TextsSkipOther(a, d, b, "bulk");
  }

  /** A further inclusive entry adds ", " and its text to the inclusive part,
      even when that text is empty: empty entries are not dropped. */
  lemma InclusiveEntryAppended(dates: seq<DateEntry>, d: DateEntry)
    requires d.dateType == "inclusive"
    ensures var inclusive := TextsOfType(dates, "inclusive");
      FormattedDates(dates + [d]) ==
        (if inclusive == [] then EntryText(d) else Join(", ", inclusive) + ", " + EntryText(d)) + BulkSuffix(dates)
  {
    TextsOfTypeAppend(dates, [d], "inclusive");
    TextsOfTypeAppend(dates, [d], "bulk");
    assert TextsOfType([d], "inclusive") == [EntryText(d)];
    assert TextsOfType([d], "bulk") == [];
    JoinSnoc(", ", TextsOfType(dates, "inclusive"), EntryText(d));
  }

  /** Only the first bulk entry is surfaced: further bulk entries change nothing. */
  lemma LaterBulkIgnored(dates: seq<DateEntry>, d: DateEntry)
    requires d.dateType == "bulk" && TextsOfType(dates, "bulk") != []
    ensures FormattedDates(dates + [d]) == FormattedDates(dates)
  {
    TextsSkipOther(dates, d, [], "inclusive");
    assert dates + [d] + [] == dates + [d] && dates + [] == dates;
    TextsOfTypeAppend(dates, [d], "bulk");
    assert [d][..0] == [];
    assert TextsOfType([d], "bulk") == [EntryText(d)];
  }

  /** With no inclusive entry the result is the bulk tail alone, leading space included. */
  lemma BulkOnly(dates: seq<DateEntry>)
    requires dates != [] && TextsOfType(dates, "inclusive") == [] && TextsOfType(dates, "bulk") != []
    ensures FormattedDates(dates) == " (bulk " + TextsOfType(dates, "bulk")[0] + ")"
  {
  }

  lemma TextsOfSingle(d: DateEntry, dateType: string)
    ensures TextsOfType([d], dateType) == if d.dateType == dateType then [EntryText(d)] else []
  {
    assert [d][..0] == [];
  }

  /** A lone inclusive entry is shown as its own text. */
  lemma SingleInclusive(d: DateEntry)
    requires d.dateType == "inclusive"
    ensures FormattedDates([d]) == EntryText(d)
  {
    TextsOfSingle(d, "inclusive");
    TextsOfSingle(d, "bulk");
  }

  lemma TextsOfPair(a: DateEntry, b: DateEntry, dateType: string)
    ensures TextsOfType([a, b], dateType) ==
      (if a.dateType == dateType then [EntryText(a)] else []) + (if b.dateType == dateType then [EntryText(b)] else [])
  {
    TextsOfSingle(a, dateType);
    TextsOfSingle(b, dateType);
    TextsOfTypeAppend([a], [b], dateType);
    assert [a] + [b] == [a, b];
  }

  lemma FormattedOneAndBulk(dates: seq<DateEntry>, t: string, u: string)
    requires dates != [] && TextsOfType(dates, "inclusive") == [t] && TextsOfType(dates, "bulk") == [u]
    ensures FormattedDates(dates) == t + " (bulk " + u + ")"
  {
  }

  /** An inclusive entry followed by a bulk entry: "<inclusive> (bulk <bulk>)". */
  lemma InclusiveThenBulk(a: DateEntry, b: DateEntry)
    requires a.dateType == "inclusive" && b.dateType == "bulk"
    ensures FormattedDates([a, b]) == EntryText(a) + " (bulk " + EntryText(b) + ")"
  {
    TextsOfPair(a, b, "inclusive");
    TextsOfPair(a, b, "bulk");
    FormattedOneAndBulk([a, b], EntryText(a), EntryText(b));
  }

  lemma RangeEntryText()
    ensures EntryText(DateEntry("inclusive", "", "1900", "1910")) == "1900-1910"
  {
    TrimIdle("1900-1910");
    assert "1900" + "-" + "1910" == "1900-1910";
  }

  /** Worked case: a begin/end pair without expression gives "begin-end". */
  lemma DateExampleRange()
    ensures FormattedDates([DateEntry("inclusive", "", "1900", "1910")]) == "1900-1910"
  {
    var d := DateEntry("inclusive", "", "1900", "1910");
    RangeEntryText();
    SingleInclusive(d);
  }

  /** An expression with no surrounding whitespace is shown as it is. */
  lemma PlainExpression(dateType: string, e: string)
    requires e != "" && !IsSpace(e[0]) && !IsSpace(e[|e| - 1])
    ensures EntryText(DateEntry(dateType, e, "", "")) == e
  {
    TrimIdle(e);
  }

  /** An inclusive and a bulk expression, both already trimmed, are shown as
      "<inclusive> (bulk <bulk>)". */
  lemma InclusiveAndBulkExpressions(i: string, b: string)
    requires i != "" && !IsSpace(i[0]) && !IsSpace(i[|i| - 1])
    requires b != "" && !IsSpace(b[0]) && !IsSpace(b[|b| - 1])
    ensures FormattedDates([DateEntry("inclusive", i, "", ""), DateEntry("bulk", b, "", "")]) == i + " (bulk " + b + ")"
  {
    PlainExpression("inclusive", i);
    PlainExpression("bulk", b);
    InclusiveThenBulk(DateEntry("inclusive", i, "", ""), DateEntry("bulk", b, "", ""));
  }

  /** Worked case: one inclusive and one bulk entry. */
  lemma DateExampleBulk()
    ensures FormattedDates([DateEntry("inclusive", "1900-1910", "", ""), DateEntry("bulk", "1905", "", "")])
      == "1900-1910 (bulk 1905)"
  {
    InclusiveAndBulkExpressions("1900-1910", "1905");
    BulkExampleJoined();
  }

  lemma BulkExampleJoined()
    ensures "1900-1910" + " (bulk " + "1905" + ")" == "1900-1910 (bulk 1905)"
  {
  }
}
