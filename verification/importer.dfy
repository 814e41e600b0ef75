/** The field decoders of `MSProjectImporter`: how the text of the child
    elements of one MS Project `<Task>` becomes the values of a task row.
    Walking the XML tree is not modelled; a task is given as the text of
    its child elements, by tag. */
module Importer {
  import opened Base
  import opened Text
  import opened XmlTask

  /** `_get_text`: the text of the child with this tag, or `default` when
      there is no such child or its text is empty. */
  function GetText(elements: Elements, tag: Tag, default: string): (r: string)
    ensures tag in elements && elements[tag] != "" ==> r == elements[tag]
    ensures !(tag in elements && elements[tag] != "") ==> r == default
    ensures r == "" ==> default == ""
  {
    if tag in elements && elements[tag] != "" then elements[tag] else default
  }

  /** `_parse_priority`: MS Project's 0..1000 priority to the three levels;
      text `int()` rejects counts as the default 500, Medium. */
  function ParsePriority(s: string): (r: string)
    ensures r == "High" || r == "Medium" || r == "Low"
    ensures ParseInt(s).None? ==> r == "Medium"
    ensures ParseInt(s).Some? ==> (r == "High" <==> ParseInt(s).value >= 700)
    ensures ParseInt(s).Some? ==> (r == "Low" <==> ParseInt(s).value < 300)
  {
    match ParseInt(s)
    case None => "Medium"
    case Some(p) => if p >= 700 then "High" else if p >= 300 then "Medium" else "Low"
  }

  /** The levels in increasing order of urgency. */
  function PriorityRank(level: string): int {
    if level == "High" then 2 else if level == "Medium" then 1 else 0
  }

  /** A higher number never reads as a lower level. */
  lemma ParsePriorityMonotone(a: int, b: int)
    requires a <= b
    ensures PriorityRank(ParsePriority(IntToString(a))) <= PriorityRank(ParsePriority(IntToString(b)))
  {
    ParseIntOfIntToString(a);
    ParseIntOfIntToString(b);
  }

  /** `_parse_percent`: `int(text)`, or 0 when `int()` rejects the text;
      in particular a text with no digit at all reads as 0. */
  function ParsePercent(s: string): (r: int)
    ensures ParseInt(s).None? ==> r == 0
    ensures Digits(s) == [] ==> r == 0
  {
    StripKeepsDigits(IntBlanks, s);
    ParseInt(s).GetOr(0)
  }

  /** `int()` ignores white space around the number: a percentage written
      with `str` and padded with any white space reads back unchanged. */
  lemma ParsePercentPadded(n: int, pre: string, post: string)
    requires AllBlank(IntBlanks, pre) && AllBlank(IntBlanks, post)
    ensures ParsePercent(pre + IntToString(n) + post) == n
  {
    var t := IntToString(n);
    NoLettersInIntToString(n);
    assert !IsBlank(IntBlanks, t[0]) && !IsBlank(IntBlanks, t[|t| - 1]);
    StripPadded(IntBlanks, pre, t, post);
    StripUnchanged(IntBlanks, t);
    ParseIntOfIntToString(n);
    assert ParseInt(pre + t + post) == ParseInt(t);
  }

  /** `int(str(n)) == n`: a percentage written out reads back unchanged. */
  lemma ParsePercentOfIntToString(n: int)
    ensures ParsePercent(IntToString(n)) == n
  {
    ParseIntOfIntToString(n);
  }

  /** The status `_extract_tasks` derives from the progress. */
  function Status(progress: int): (r: string)
    ensures r == "Not Started" || r == "Completed" || r == "In Progress"
    ensures r == "Not Started" <==> progress == 0
    ensures r == "Completed" <==> progress == 100
  {
    if progress == 0 then "Not Started"
    else if progress == 100 then "Completed"
    else "In Progress"
  }

  /** `duration_str.split('PT')[1].split('H')[0]`: the text between the
      first "PT" and the next "PT" or "H"; None when there is no "PT" (the
      IndexError of `[1]`). */
  function HoursText(s: string): Option<string> {
    match AfterFirst(s, "PT")
    case None => None
    case Some(rest) => Some(BeforeFirst(BeforeFirst(rest, "PT"), "H"))
  }

  /** The hour count `_parse_duration` reads: h for "PT<h>H...", and 0 for
      an empty text, for "0", for a text without "H", and whenever the hour
      count cannot be read. */
  function DurationHours(s: string): (h: int)
    ensures s == "" || s == "0" || !Contains(s, "H") ==> h == 0
  {
    if s == "" || s == "0" then 0
    else if !Contains(s, "H") then 0
    else
      match HoursText(s)
      case None => 0
      case Some(t) => ParseInt(t).GetOr(0)
  }

  /** `_parse_duration`: the hour count over an 8-hour day. */
  function ParseDuration(s: string): (r: real)
    ensures s == "" || s == "0" || !Contains(s, "H") ==> r == 0.0
    ensures HoursText(s).None? ==> r == 0.0
    ensures HoursText(s).Some? && ParseInt(HoursText(s).value).None? ==> r == 0.0
  {
    DurationHours(s) as real / 8.0
  }

  /** After "PT", a run of digits and minus signs followed by "H" is the
      hour text, whatever comes after the "H". */
  lemma HoursBeforeH(t: string, rest: string)
    requires forall k :: 0 <= k < |t| ==> t[k] == '-' || IsDigit(t[k])
    ensures BeforeFirst(BeforeFirst(t + "H" + rest, "PT"), "H") == t
  {
    var u := t + "H";
    var x := u + rest;
    var y := BeforeFirst(x, "PT");
    forall j | 0 <= j < |u|
      ensures !OccursAt(x, "PT", j)
    {
      assert x[j] == u[j];
      if j + 2 <= |x| {
        assert x[j..j + 2][0] == x[j];
      }
    }
    assert |y| >= |u|;
    assert y[..|u|] == x[..|u|] == u;
    forall j | 0 <= j < |t|
      ensures !OccursAt(y, "H", j)
    {
      assert y[j..j + 1][0] == y[j] == t[j];
    }
    assert y[|t|] == u[|t|] == 'H';
    assert y[|t|..|t| + 1] == "H";
    IndexFromFirst(y, "H", 0, |t|);
    assert y[..|t|] == u[..|t|] == t;
  }

  /** "PT<h>H..." reads back as h / 8 days, whatever follows the "H". */
  lemma ParseDurationReadsHours(h: int, rest: string)
    ensures ParseDuration("PT" + IntToString(h) + "H" + rest) == h as real / 8.0
  {
    var t := IntToString(h);
    var x := t + "H" + rest;
    var s := "PT" + t + "H" + rest;
    assert s == "PT" + x;
    assert OccursAt(s, "PT", 0);
    assert IndexOf(s, "PT") == Some(0);
    assert s[2..] == x;
    assert AfterFirst(s, "PT") == Some(x);
    NoLettersInIntToString(h);
    HoursBeforeH(t, rest);
    assert HoursText(s) == Some(t);
    assert Contains(s, "H") by {
      assert s[2 + |t|..3 + |t|] == "H";
      assert OccursAt(s, "H", 2 + |t|);
    }
    ParseIntOfIntToString(h);
  }

  /** The duration text the exporter writes, "PT<h>H0M0S", reads back as h / 8 days. */
  lemma ParseDurationOfHours(h: int)
    ensures ParseDuration("PT" + IntToString(h) + "H0M0S") == h as real / 8.0
  {
    ExporterDurationShape(IntToString(h));
    ParseDurationReadsHours(h, "0M0S");
  }

  /** The exporter's duration text splits after its "H". */
  lemma ExporterDurationShape(t: string)
    ensures "PT" + t + "H0M0S" == "PT" + t + "H" + "0M0S"
  {
  }

  /** `str(i)` holds only digits and a minus sign. */
  lemma NoLettersInIntToString(i: int)
    ensures forall k :: 0 <= k < |IntToString(i)| ==> IntToString(i)[k] == '-' || IsDigit(IntToString(i)[k])
  {
    var m: nat := if i < 0 then -i else i;
    assert AllDigits(NatToString(m));
  }

  /** The values `_extract_tasks` reads from one `<Task>` (dates, resource
      names and the predecessor text are not modelled). */
  datatype ImportedTask = ImportedTask(
    id: string,
    name: string,
    durationDays: real,
    progress: int,
    priority: string,
    notes: string,
    milestone: bool,
    critical: bool,
    status: string)

  /** One iteration of the `_extract_tasks` loop, with its defaults: a
      missing Duration reads as "0", PercentComplete as "0", Priority as
      "500", Milestone and Critical as "0". */
  function ExtractTask(elements: Elements): (r: ImportedTask)
    ensures r.milestone <==> Milestone in elements && elements[Milestone] == "1"
    ensures r.critical <==> Critical in elements && elements[Critical] == "1"
    ensures r.status == Status(r.progress)
  {
    var progress := ParsePercent(GetText(elements, PercentComplete, "0"));
    ImportedTask(
      GetText(elements, ID, ""),
      GetText(elements, Name, "Unnamed Task"),
      ParseDuration(GetText(elements, Duration, "0")),
      progress,
      ParsePriority(GetText(elements, Priority, "500")),
      GetText(elements, Notes, ""),
      GetText(elements, Milestone, "0") == "1",
      GetText(elements, Critical, "0") == "1",
      Status(progress))
  }

  /** Missing elements read as their defaults: no duration, no progress
      (so not started), medium priority, not a milestone, not critical. */
  lemma ExtractTaskDefaults(elements: Elements)
    ensures var r := ExtractTask(elements);
            && (Duration !in elements ==> r.durationDays == 0.0)
            && (PercentComplete !in elements ==> r.progress == 0 && r.status == "Not Started")
            && (Priority !in elements ==> r.priority == "Medium")
            && (Milestone !in elements ==> !r.milestone)
            && (Critical !in elements ==> !r.critical)
  {
    ParseIntOfLiteral(0, "0");
    ParseIntOfLiteral(500, "500");
  }

  /** `int()` of the decimal text of a number. */
  lemma ParseIntOfLiteral(n: nat, s: string)
    requires s == NatToString(n)
    ensures ParseInt(s) == Some(n)
  {
    ParseIntOfIntToString(n);
  }
}
