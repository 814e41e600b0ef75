/** The field encoders of `MSProjectExporter._add_task`: how one row of the
    Gantt sheet becomes the child elements of an MS Project `<Task>`.
    Building and writing the XML tree is not modelled; a task is given as
    the text of its child elements, by tag, plus its predecessor link. */
module Exporter {
  import opened Base
  import opened Text
  import opened XmlTask

  /** A `Dependencies` cell: text, or a number (a cell holding just `3`). */
  datatype DependencyCell = TextCell(text: string) | NumberCell(value: int)

  /** The cells of a sheet row `_add_task` reads. An absent `Task ID` or
      `Task Name` column is None; an empty numeric cell reads as 0. */
  datatype Row = Row(
    taskId: Option<string>,
    name: Option<string>,
    durationDays: real,
    progress: real,
    priority: string,
    notes: string,
    dependencies: DependencyCell)

  /** The `<PredecessorLink>` element: its `<PredecessorUID>` text when it
      has one (always with `<Type>1</Type>`, finish-to-start). */
  datatype Link = Link(predecessorUid: Option<string>)

  /** The exported `<Task>`: its simple child elements by tag, and the
      predecessor link when one is written. */
  datatype ExportedTask = ExportedTask(elements: Elements, link: Option<Link>)

  /** `int(x)` on a float: truncation toward zero. */
  function Truncate(x: real): (r: int)
    ensures x >= 0.0 ==> r as real <= x < r as real + 1.0
    ensures x < 0.0 ==> r as real - 1.0 < x <= r as real
  {
    if x >= 0.0 then x.Floor else -((-x).Floor)
  }

  /** The `priority_map` lookup, 500 for any other level. */
  function PriorityCode(level: string): (code: int)
    ensures code == 800 || code == 500 || code == 200
    ensures code == 800 <==> level == "High"
    ensures code == 200 <==> level == "Low"
  {
    if level == "High" then 800
    else if level == "Medium" then 500
    else if level == "Low" then 200
    else 500
  }

  /** The `<Duration>` text: "PT<hours>H0M0S" with 8 hours a day, for a
      positive duration only. */
  function DurationText(days: real): (r: Option<string>)
    ensures r.Some? <==> days > 0.0
  {
    if days > 0.0 then Some("PT" + IntToString(Truncate(days * 8.0)) + "H0M0S") else None
  }

  /** The `<PercentComplete>` text, for a non-zero progress only. */
  function PercentText(progress: real): (r: Option<string>)
    ensures r.Some? <==> progress != 0.0
  {
    if progress != 0.0 then Some(IntToString(Truncate(progress))) else None
  }

  /** A `<Milestone>1</Milestone>` is written when the lower-cased name
      contains "milestone". */
  predicate NamesMilestone(name: Option<string>) {
    Contains(Lower(name.GetOr("")), "milestone")
  }

  /** The predecessor link for a dependency cell: none for an empty cell;
      for blank text, or for a number (whose missing `strip` raises and is
      swallowed), an empty link; otherwise the digits of the whole text, all
      run together, as one predecessor UID when there are any. */
  function PredecessorLink(deps: DependencyCell): (r: Option<Link>)
    ensures r.None? <==> deps == TextCell("") || deps == NumberCell(0)
    ensures deps.NumberCell? && r.Some? ==> r.value.predecessorUid.None?
    ensures deps.TextCell? && deps.text != "" && Digits(deps.text) == [] ==> r == Some(Link(None))
    ensures r.Some? && r.value.predecessorUid.Some? ==>
              deps.TextCell? && AllDigits(r.value.predecessorUid.value) && r.value.predecessorUid.value != [] &&
              r.value.predecessorUid.value == Digits(deps.text)
    ensures deps.TextCell? && Digits(deps.text) != [] ==> r == Some(Link(Some(Digits(deps.text))))
  {
    match deps
    case NumberCell(n) => if n != 0 then Some(Link(None)) else None
    case TextCell(t) =>
      StripKeepsDigits(StrBlanks, t);
      if t == "" then None
      else if Strip(StrBlanks, t) == [] then Some(Link(None))
      else
        var uid := Digits(t);
        Some(Link(if uid != [] then Some(uid) else None))
  }

  /** The text `_add_task` writes under each tag for the row at 1-based
      position `index`; None when it writes no such element. */
  function ElementText(row: Row, index: nat, tag: Tag): Option<string> {
    match tag
    case UID => Some(NatToString(index))
    case ID => Some(row.taskId.GetOr(NatToString(index)))
    case Name => Some(row.name.GetOr("Unnamed Task"))
    case Duration => DurationText(row.durationDays)
    case PercentComplete => PercentText(row.progress)
    case Priority => Some(IntToString(PriorityCode(row.priority)))
    case Notes => if row.notes != "" then Some(row.notes) else None
    case Milestone => if NamesMilestone(row.name) then Some("1") else None
    case Critical => Some("0")
  }

  const AllTags: set<Tag> := {UID, ID, Name, Duration, PercentComplete, Priority, Notes, Milestone, Critical}

  /** The simple child elements `_add_task` writes: one per tag it writes
      anything under. */
  function ExportElements(row: Row, index: nat): (e: Elements)
    ensures forall t :: t in e <==> ElementText(row, index, t).Some?
    ensures forall t :: t in e ==> e[t] == ElementText(row, index, t).value
  {
    map t | t in AllTags && ElementText(row, index, t).Some? :: ElementText(row, index, t).value
  }

  /** `_add_task` for the row at 1-based position `index`. */
  function ExportTask(row: Row, index: nat): (r: ExportedTask)
    ensures Critical in r.elements && r.elements[Critical] == "0"
    ensures Duration in r.elements <==> row.durationDays > 0.0
    ensures PercentComplete in r.elements <==> row.progress != 0.0
    ensures Notes in r.elements <==> row.notes != ""
    ensures Milestone in r.elements <==> NamesMilestone(row.name)
    ensures Milestone in r.elements ==> r.elements[Milestone] == "1"
    ensures UID in r.elements && r.elements[UID] == NatToString(index)
    ensures ID in r.elements && r.elements[ID] == row.taskId.GetOr(NatToString(index))
    ensures Name in r.elements && r.elements[Name] == row.name.GetOr("Unnamed Task")
    ensures Priority in r.elements && r.elements[Priority] == IntToString(PriorityCode(row.priority))
    ensures row.durationDays > 0.0 ==> Duration in r.elements && r.elements[Duration] == DurationText(row.durationDays).value
    ensures row.progress != 0.0 ==> PercentComplete in r.elements && r.elements[PercentComplete] == PercentText(row.progress).value
    ensures row.notes != "" ==> Notes in r.elements && r.elements[Notes] == row.notes
    ensures r.link == PredecessorLink(row.dependencies)
  {
    var elements := ExportElements(row, index);
    assert ElementText(row, index, Critical) == Some("0");
    assert ElementText(row, index, UID).Some? && ElementText(row, index, ID).Some?;
    assert ElementText(row, index, Name).Some? && ElementText(row, index, Priority).Some?;
    ExportedTask(elements, PredecessorLink(row.dependencies))
  }
}
