/** The part of an MS Project `<Task>` element the importer and the
    exporter both touch: its simple child elements, by tag. */
module XmlTask {
  /** The child element tags of `<Task>` that carry a single text value
      (start and finish dates, resource names and the predecessor link are
      not modelled here). */
  datatype Tag = UID | ID | Name | Duration | PercentComplete | Priority | Notes | Milestone | Critical

  /** For each tag present, the text of the first child with that tag (""
      when the child has no text). */
  type Elements = map<Tag, string>
}
