/** The firmware index as the query functions of fwget.py see it: the
    parsed `fwrepo.json`, a dictionary from package filename to a record,
    taken in the dictionary's iteration order. */
module Catalog {

  /** The four fields each index record carries. */
  datatype Record = Record(date: string, description: string, target: string, deviceclass: string)

  /** One `(filename, record)` pair of the dictionary. */
  type Entry = (string, Record)

  /** The dictionary, in iteration order. */
  type Index = seq<Entry>

  /** Filenames are dictionary keys, so no two entries share one. */
  ghost predicate UniqueKeys(index: Index)
  {
    forall i, j :: 0 <= i < j < |index| ==> index[i].0 != index[j].0
  }

  /** The tuple `search` collects: `(date, fw, description, target, deviceclass)`. */
  datatype SearchRow = SearchRow(date: string, filename: string, description: string,
                                 target: string, deviceclass: string)

  /** The tuple `locate` collects: `(date, fw, description)`. */
  datatype LocateRow = LocateRow(date: string, filename: string, description: string)

  /** The tuple `list` collects: `(fw, description)`. */
  datatype ListRow = ListRow(filename: string, description: string)

  function SearchRowOf(e: Entry): SearchRow
  {
    SearchRow(e.1.date, e.0, e.1.description, e.1.target, e.1.deviceclass)
  }

  function LocateRowOf(e: Entry): LocateRow
  {
    LocateRow(e.1.date, e.0, e.1.description)
  }

  function ListRowOf(e: Entry): ListRow
  {
    ListRow(e.0, e.1.description)
  }

  /** The sort keys, `lambda tup: tup[0]` for each tuple shape. */
  function SearchDate(r: SearchRow): string { r.date }
  function LocateDate(r: LocateRow): string { r.date }
  function ListName(r: ListRow): string { r.filename }
}
