/** The filter record the web client keeps and sends with every query. */
module ClientTypes {
  import opened Wrappers

  /** The properties of `LogFilters`. */
  datatype FilterField = Level | Source | StartDate | EndDate | SearchTerm

  /** A `LogFilters` object. A property can be missing, or present and `undefined` (None): object
      spread keeps a property it sets to `undefined` among the object's keys. */
  type LogFilters = map<FilterField, Option<string>>

  /** Reading a property: a missing one reads as `undefined`. */
  function Get(f: LogFilters, field: FilterField): Option<string>
  {
    if field in f then f[field] else None
  }
}
