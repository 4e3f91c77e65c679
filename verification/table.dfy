/** The prize table as it is read from the CSV file: one record per award
    to one laureate, every column possibly missing (pandas' NaN). */
module Table {
  import opened Keys

  datatype Option<+T> = None | Some(value: T)

  /** A birth date once parsed; only its year is used downstream. */
  datatype Date = Date(year: int, month: int, day: int)

  /** One row of the table, with the columns of the CSV header in order. */
  datatype Record = Record(
    year: Option<int>,
    category: Option<string>,
    prize: Option<string>,
    laureateId: Option<int>,
    laureateType: Option<string>,
    fullName: Option<string>,
    birthDate: Option<Date>,
    birthCity: Option<string>,
    birthCountry: Option<string>,
    birthCountryCurrent: Option<string>,
    sex: Option<string>,
    organizationName: Option<string>,
    organizationCity: Option<string>,
    organizationCountry: Option<string>,
    iso: Option<string>,
    prizeShare: Option<string>)

  /** The column labels of the table. */
  datatype Column =
    | Year | Category | Prize | LaureateId | LaureateType | FullName | BirthDate
    | BirthCity | BirthCountry | BirthCountryCurrent | Sex | OrganizationName
    | OrganizationCity | OrganizationCountry | Iso | PrizeShare

  /** Every column, in header order. */
  const COLUMNS: seq<Column> := [
    Year, Category, Prize, LaureateId, LaureateType, FullName, BirthDate,
    BirthCity, BirthCountry, BirthCountryCurrent, Sex, OrganizationName,
    OrganizationCity, OrganizationCountry, Iso, PrizeShare]

  lemma ColumnsComplete(c: Column)
    ensures c in COLUMNS
  {
  }

  function StrKey(o: Option<string>): Option<Key>
  {
    match o
    case None => None
    case Some(s) => Some(KStr(s))
  }

  function IntKey(o: Option<int>): Option<Key>
  {
    match o
    case None => None
    case Some(n) => Some(KInt(n))
  }

  /** The value of one cell as a key; None exactly when the cell is missing. */
  function Cell(r: Record, c: Column): (v: Option<Key>)
  {
    match c
    case Year => IntKey(r.year)
    case Category => StrKey(r.category)
    case Prize => StrKey(r.prize)
    case LaureateId => IntKey(r.laureateId)
    case LaureateType => StrKey(r.laureateType)
    case FullName => StrKey(r.fullName)
    case BirthDate =>
      if r.birthDate.None? then None
      else
        var d := r.birthDate.value;
        Some(KPair(KInt(d.year), KPair(KInt(d.month), KInt(d.day))))
    case BirthCity => StrKey(r.birthCity)
    case BirthCountry => StrKey(r.birthCountry)
    case BirthCountryCurrent => StrKey(r.birthCountryCurrent)
    case Sex => StrKey(r.sex)
    case OrganizationName => StrKey(r.organizationName)
    case OrganizationCity => StrKey(r.organizationCity)
    case OrganizationCountry => StrKey(r.organizationCountry)
    case Iso => StrKey(r.iso)
    case PrizeShare => StrKey(r.prizeShare)
  }

  /** The columns a group-by is keyed on: one, two or three of them. */
  datatype By = One(c: Column) | Two(c1: Column, c2: Column) | Three(d1: Column, d2: Column, d3: Column)

  /** The group a row falls in; None when any key cell is missing, since
      `groupby` drops such rows. */
  function KeyOf(r: Record, cols: By): (k: Option<Key>)
  {
    match cols
    case One(c) => Cell(r, c)
    case Two(c1, c2) =>
      if Cell(r, c1).Some? && Cell(r, c2).Some? then Some(KPair(Cell(r, c1).value, Cell(r, c2).value))
      else None
    case Three(c1, c2, c3) =>
      if Cell(r, c1).Some? && Cell(r, c2).Some? && Cell(r, c3).Some? then
        Some(KPair(Cell(r, c1).value, KPair(Cell(r, c2).value, Cell(r, c3).value)))
      else None
  }
}
