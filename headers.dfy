/**
 * Column names of the two tables: whitespace is stripped from every name,
 * the labor-category table's source names are renamed onto the planned
 * matrix's names, and the columns the update needs are looked up.
 */
module Headers {
  import opened Wrappers
  import Text

  /** The five columns of the composite key, in the order the update names them. */
  const KeyColumns: seq<string> := ["person.key", "project.key", "laborCategory.name", "beginDate", "endDate"]

  /** The temporary column that carries an override rate through the join. */
  const HelperColumn: string := "new_billRate"

  /** The planned matrix's rate column. */
  const RateColumn: string := "billRate"

  /** Every column name with its surrounding whitespace removed. */
  function StripColumns(header: seq<string>): (r: seq<string>)
    ensures |r| == |header|
    ensures forall i :: 0 <= i < |r| ==> r[i] == Text.Strip(header[i], Text.IsSpace)
  {
    seq(|header|, i requires 0 <= i < |header| => Text.Strip(header[i], Text.IsSpace))
  }

  /** Stripping the names a second time changes nothing. */
  lemma StripColumnsIdempotent(header: seq<string>)
    ensures StripColumns(StripColumns(header)) == StripColumns(header)
  {
    var once := StripColumns(header);
    forall i | 0 <= i < |once|
      ensures StripColumns(once)[i] == once[i]
    {
      Text.StripIdempotent(header[i], Text.IsSpace);
    }
  }

  /** The renaming of the labor-category columns: source name to planned-matrix name. */
  const Renames: map<string, string> := map[
    "Person Key" := "person.key",
    "Project Key" := "project.key",
    "Labor Category" := "laborCategory.name",
    "Bill Rate" := HelperColumn,
    "Begin Date" := "beginDate",
    "End Date" := "endDate"
  ]

  /** The planned-matrix name of a labor-category column; other names are kept. */
  function CanonicalName(name: string): (r: string)
    ensures name in Renames ==> r == Renames[name]
    ensures name !in Renames ==> r == name
  {
    if name == "Person Key" then "person.key"
    else if name == "Project Key" then "project.key"
    else if name == "Labor Category" then "laborCategory.name"
    else if name == "Bill Rate" then HelperColumn
    else if name == "Begin Date" then "beginDate"
    else if name == "End Date" then "endDate"
    else name
  }

  /** Every column renamed onto its canonical name. */
  function RenameColumns(header: seq<string>): (r: seq<string>)
    ensures |r| == |header|
    ensures forall i :: 0 <= i < |r| ==> r[i] == CanonicalName(header[i])
  {
    seq(|header|, i requires 0 <= i < |header| => CanonicalName(header[i]))
  }

  /**
   * The labor-category header as the update uses it: stripped when read,
   * stripped again, then renamed. Each column ends up named by the
   * canonical name of its stripped source name.
   */
  function OverrideColumns(header: seq<string>): (r: seq<string>)
    ensures |r| == |header|
    ensures forall i :: 0 <= i < |header| ==> r[i] == CanonicalName(Text.Strip(header[i], Text.IsSpace))
  {
    StripColumnsIdempotent(header);
    RenameColumns(StripColumns(StripColumns(header)))
  }

  /** The planned-matrix header as the update uses it: stripped when read. */
  function PlannedColumns(header: seq<string>): seq<string> {
    StripColumns(header)
  }

  /** The first of `required` that is not a column of `header`, if any. */
  function FirstMissing(required: seq<string>, header: seq<string>): (m: Option<string>)
    ensures m.None? <==> forall i :: 0 <= i < |required| ==> required[i] in header
    ensures m.Some? ==> m.value in required && m.value !in header
  {
    if required == [] then None
    else if required[0] !in header then Some(required[0])
    else FirstMissing(required[1..], header)
  }
}
