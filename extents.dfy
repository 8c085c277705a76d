/** The extent formatter of the client (parse_extents). */
module Extents {
  import opened Records
  import opened Strings

  /** The non-empty members of a list, in order (a truthiness filter). */
  function Truthy(xs: seq<string>): (r: seq<string>)
    ensures |r| <= |xs|
    ensures forall i :: 0 <= i < |r| ==> r[i] != ""
  {
    if xs == [] then []
    else (if xs[0] != "" then [xs[0]] else []) + Truthy(xs[1..])
  }

  lemma TruthyOfThree(a: string, b: string, c: string)
    ensures Truthy([a, b, c]) ==
      (if a != "" then [a] else []) + (if b != "" then [b] else []) + (if c != "" then [c] else [])
  {
    assert [c][1..] == [];
    assert Truthy([c]) == (if c != "" then [c] else []);
    assert [b, c][1..] == [c];
    assert Truthy([b, c]) == (if b != "" then [b] else []) + Truthy([c]);
    assert [a, b, c][1..] == [b, c];
  }

  /** The optional parts of an extent, in the order summary, details, dimensions. */
  function Parenthetical(e: Extent): seq<string> {
    Truthy([e.containerSummary, e.physicalDetails, e.dimensions])
  }

  /** "<number> <extent_type>", followed by " (a; b; c)" when an optional part is set. */
  function ExtentText(e: Extent): string {
    var parts := Parenthetical(e);
    e.number + " " + e.extentType + (if parts != [] then " (" + Join("; ", parts) + ")" else "")
  }

  /** The formatted extents, in list order. */
  function ExtentTexts(extents: seq<Extent>): (r: seq<string>)
    ensures |r| == |extents|
  {
    if extents == [] then [] else ExtentTexts(extents[..|extents| - 1]) + [ExtentText(extents[|extents| - 1])]
  }

  /** The specification of parse_extents: the formatted extents joined by "; ". */
  function ParsedExtents(extents: seq<Extent>): string {
    Join("; ", ExtentTexts(extents))
  }

  /** parse_extents: formats each extent in a loop, then joins them. */
  method ParseExtents(extents: seq<Extent>) returns (r: string)
    ensures r == ParsedExtents(extents)
  {
    var parsed: seq<string> := [];
    for i := 0 to |extents|
      invariant parsed == ExtentTexts(extents[..i])
    {
      assert extents[..i + 1][..i] == extents[..i];
      var extent := extents[i];
      var parsedExtent := extent.number + " " + extent.extentType;
      var parentheticalParts := Truthy([extent.containerSummary, extent.physicalDetails, extent.dimensions]);
      if parentheticalParts != [] {
        var parenthetical := Join("; ", parentheticalParts);
        parsedExtent := parsedExtent + " (" + parenthetical + ")";
      }
      assert parsedExtent == ExtentText(extent);
      parsed := parsed + [parsedExtent];
    }
    assert extents[..|extents|] == extents;
    if parsed != [] {
      r := Join("; ", parsed);
    } else {
      r := "";
    }
  }

  /** Each further extent adds "; " and its own text; the first adds its text alone. */
  lemma ExtentAppended(extents: seq<Extent>, e: Extent)
    ensures ParsedExtents(extents + [e]) ==
      if extents == [] then ExtentText(e) else ParsedExtents(extents) + "; " + ExtentText(e)
  {
    assert (extents + [e])[..|extents|] == extents;
    JoinSnoc("; ", ExtentTexts(extents), ExtentText(e));
  }

  /** The parenthetical appears exactly when one of the optional parts is set;
      without it the text is "<number> <extent_type>". */
  lemma ExtentParenthetical(e: Extent)
    ensures Parenthetical(e) == [] <==> (e.containerSummary == "" && e.physicalDetails == "" && e.dimensions == "")
    ensures Parenthetical(e) == [] ==> ExtentText(e) == e.number + " " + e.extentType
  {
    TruthyOfThree(e.containerSummary, e.physicalDetails, e.dimensions);
  }

  lemma SingleExtent(e: Extent)
    ensures ParsedExtents([e]) == ExtentText(e)
  {
    assert [e][..0] == [];
  }

  /** Worked case: a number, a type and dimensions give "3 boxes (10x12)". */
  lemma ExtentExampleDimensions()
    ensures ParsedExtents([Extent("3", "boxes", "", "", "10x12")]) == "3 boxes (10x12)"
  {
    var e := Extent("3", "boxes", "", "", "10x12");
    SingleExtent(e);
    TruthyOfThree("", "", "10x12");
    assert Join("; ", ["10x12"]) == "10x12";
  }

  /** Worked case: no optional part gives "3 boxes". */
  lemma ExtentExamplePlain()
    ensures ParsedExtents([Extent("3", "boxes", "", "", "")]) == "3 boxes"
  {
    var e := Extent("3", "boxes", "", "", "");
    SingleExtent(e);
    ExtentParenthetical(e);
  }
}
