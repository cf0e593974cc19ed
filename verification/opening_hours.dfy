/** The `opening-hours` global: a list of day ranges with their times. */
module OpeningHours {
  import opened Common

  /** An entry of the `hours` array. The times are the stored text. */
  datatype HoursEntry = HoursEntry(
    dayRange: Option<string>,
    openingTime: Option<string>,
    closingTime: Option<string>,
    isClosed: bool)

  /** A text field is truthy: present and non-empty. */
  predicate Present(s: Option<string>) {
    s.Some? && |s.value| > 0
  }
}
