/** Writing a row with `MSProjectExporter` and reading the task back with
    `MSProjectImporter`: which fields survive the round trip, and how the
    exporter's predecessor UID relates to the ids `GanttCalculator` reads
    from the same dependency text. */
module Interchange {
  import opened Base
  import opened Text
  import opened Dependencies
  import opened Importer
  import opened Exporter
  import opened XmlTask

  /** Each of the three levels comes back as itself; any other level is
      written as 500 and comes back as Medium. */
  lemma PriorityRoundTrip(level: string)
    ensures ParsePriority(IntToString(PriorityCode(level))) ==
            if level == "High" || level == "Medium" || level == "Low" then level else "Medium"
  {
    ParseIntOfIntToString(PriorityCode(level));
  }

  /** A positive duration comes back as its hours (truncated) over 8: the
      same number of days when it is a whole number of eighths, and never
      more than an eighth of a day less. */
  lemma DurationRoundTrip(days: real)
    requires days > 0.0
    ensures var back := ParseDuration(DurationText(days).value);
            back == Truncate(days * 8.0) as real / 8.0 && days - 0.125 < back <= days
  {
    ParseDurationOfHours(Truncate(days * 8.0));
  }

  /** Whole days come back exactly. */
  lemma WholeDaysRoundTrip(days: nat)
    requires days > 0
    ensures ParseDuration(DurationText(days as real).value) == days as real
  {
    var h := 8 * days;
    assert Truncate(days as real * 8.0) == h;
    assert DurationText(days as real).value == "PT" + IntToString(h) + "H0M0S";
    ParseDurationOfHours(h);
    assert h as real / 8.0 == days as real;
  }

  /** What the importer reads back from an exported task. The progress
      comes back truncated to an integer (a fraction below 1 written as "0"
      reads as 0 too), a duration as its truncated eighths of a day, a level
      outside High / Medium / Low as Medium, a blank name as "Unnamed Task";
      Critical is always read as false. */
  lemma ExportThenImport(row: Row, index: nat)
    ensures var r := ExtractTask(ExportTask(row, index).elements);
            && r.id == row.taskId.GetOr(NatToString(index))
            && r.name == (if row.name.GetOr("Unnamed Task") != "" then row.name.GetOr("Unnamed Task") else "Unnamed Task")
            && r.durationDays == (if row.durationDays > 0.0 then Truncate(row.durationDays * 8.0) as real / 8.0 else 0.0)
            && r.progress == Truncate(row.progress)
            && r.status == Status(Truncate(row.progress))
            && r.priority == (if row.priority == "High" || row.priority == "Medium" || row.priority == "Low" then row.priority else "Medium")
            && r.notes == row.notes
            && r.milestone == NamesMilestone(row.name)
            && !r.critical
  {
    var e := ExportTask(row, index).elements;
    ImportedDuration(row.durationDays, e);
    ImportedProgress(row.progress, e);
    PriorityRoundTrip(row.priority);
  }

  /** The duration the importer reads from elements that carry what the
      exporter writes for `days`. */
  lemma ImportedDuration(days: real, e: Elements)
    requires Duration in e <==> days > 0.0
    requires days > 0.0 ==> e[Duration] == DurationText(days).value
    ensures ExtractTask(e).durationDays == if days > 0.0 then Truncate(days * 8.0) as real / 8.0 else 0.0
  {
    if days > 0.0 {
      DurationRoundTrip(days);
    }
  }

  /** The progress the importer reads from elements that carry what the
      exporter writes for `progress`. */
  lemma ImportedProgress(progress: real, e: Elements)
    requires PercentComplete in e <==> progress != 0.0
    requires progress != 0.0 ==> e[PercentComplete] == PercentText(progress).value
    ensures ExtractTask(e).progress == Truncate(progress)
  {
    if progress != 0.0 {
      ParsePercentOfIntToString(Truncate(progress));
    } else {
      ParseIntOfLiteral(0, "0");
    }
  }

  /** The exporter writes the digits of the whole dependency text as one
      UID: for a text without commas that is the one id the calculator
      reads from it. */
  lemma SingleTermUid(deps: string)
    requires ',' !in deps && Digits(deps) != []
    ensures PredecessorLink(TextCell(deps)) == Some(Link(Some(Digits(deps))))
    ensures ParseDependencyIds(deps) == [DecimalValue(Digits(deps))]
  {
    SplitWithoutSeparator(deps, ',');
    assert Split(deps, ',') == [deps];
    assert IdsOfTerms([deps])[1..] == IdsOfTerms([]);
  }

  /** For a list of ids written "a,b,...", the exported UID runs all their
      digits together, while the calculator reads the ids back one by one. */
  lemma ListUid(ids: seq<nat>)
    requires |ids| > 0
    ensures PredecessorLink(TextCell(Join(RenderIds(ids), ','))) == Some(Link(Some(Concat(RenderIds(ids)))))
    ensures ParseDependencyIds(Join(RenderIds(ids), ',')) == ids
  {
    ParseRenderedIds(ids);
    DigitsOfRendered(RenderIds(ids));
    assert Concat(RenderIds(ids)) != [] by {
      ConcatStartsWith(RenderIds(ids));
    }
  }

  /** The texts of a list, one after the other. */
  function Concat(pieces: seq<string>): (r: string)
    ensures |r| >= if pieces == [] then 0 else |pieces[0]|
    decreases |pieces|
  {
    if pieces == [] then [] else pieces[0] + Concat(pieces[1..])
  }

  lemma ConcatStartsWith(pieces: seq<string>)
    requires |pieces| > 0
    ensures Concat(pieces)[..|pieces[0]|] == pieces[0]
  {
  }

  /** Digit-only texts joined by commas hold exactly their digits, run together. */
  lemma {:induction false} DigitsOfRendered(pieces: seq<string>)
    requires forall k :: 0 <= k < |pieces| ==> AllDigits(pieces[k])
    ensures Digits(Join(pieces, ',')) == Concat(pieces)
    decreases |pieces|
  {
    if |pieces| == 1 {
      assert Join(pieces, ',') == pieces[0];
      assert Concat(pieces) == pieces[0] + Concat([]);
    } else if |pieces| > 1 {
      DigitsOfRendered(pieces[1..]);
      DigitsConcat(pieces[0] + [','], Join(pieces[1..], ','));
      DigitsConcat(pieces[0], [',']);
      assert Digits([',']) == [];
    }
  }
}
