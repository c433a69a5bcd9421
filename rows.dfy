/**
 * The records of the two tables the bill-rate update works on, the
 * five-field composite key that matches them, and the errors the update
 * can end with.
 */
module Rows {
  import opened Wrappers

  /** A calendar date as produced by date parsing; only equality is used. */
  datatype Date = Date(year: int, month: int, day: int)

  /**
   * The composite key (person.key, project.key, laborCategory.name,
   * beginDate, endDate) on which overrides are grouped and joined.
   */
  datatype Key = Key(person: int, project: int, laborCategory: string, beginDate: Date, endDate: Date)

  /**
   * One row of the planned matrix. Any cell may be null; `others` holds
   * the cells of every column that the update does not look at.
   */
  datatype PlannedRow = PlannedRow(
    person: Option<int>,
    project: Option<int>,
    laborCategory: Option<string>,
    beginDate: Option<Date>,
    endDate: Option<Date>,
    billRate: Option<real>,
    others: seq<string>)

  /**
   * One row of the labor-category table after its columns are renamed: the
   * key cells and the rate as currency text (for example "$1,250.00").
   */
  datatype RawOverride = RawOverride(
    person: Option<int>,
    project: Option<int>,
    laborCategory: Option<string>,
    beginDate: Option<Date>,
    endDate: Option<Date>,
    newBillRate: Option<string>)

  /** An override after normalisation: a full key and a numeric rate. */
  datatype Override = Override(key: Key, rate: real)

  /** A planned-matrix row with the override rate the left join attached. */
  datatype JoinedRow = JoinedRow(row: PlannedRow, newBillRate: Option<real>)

  /** Why the update ends without writing anything. */
  datatype Error =
    | MissingColumn(name: string)
    | MalformedRate(text: string)
    | RowCountMismatch(original: nat, updated: nat)

  /** The key of a planned row, or None when one of its key cells is null. */
  function PlannedKey(r: PlannedRow): (k: Option<Key>)
    ensures k.Some? <==>
      r.person.Some? && r.project.Some? && r.laborCategory.Some? && r.beginDate.Some? && r.endDate.Some?
    ensures k.Some? ==>
      k.value.person == r.person.value && k.value.project == r.project.value &&
      k.value.laborCategory == r.laborCategory.value &&
      k.value.beginDate == r.beginDate.value && k.value.endDate == r.endDate.value
  {
    if r.person.Some? && r.project.Some? && r.laborCategory.Some? && r.beginDate.Some? && r.endDate.Some?
    then Some(Key(r.person.value, r.project.value, r.laborCategory.value, r.beginDate.value, r.endDate.value))
    else None
  }
}
