/** Decoded JSON values and the abstract state of a JSON store file. */
module JsonStore {

  /** A decoded JSON value as Python's `json` module produces it. Objects are
      maps, so equality is Python's dict equality (same keys, equal values).
      Floating-point numbers are not modelled. */
  datatype Json =
    | JNull
    | JBool(b: bool)
    | JNum(n: int)
    | JStr(s: string)
    | JArr(items: seq<Json>)
    | JObj(fields: map<string, Json>)

  /** What a store update can observe of its file before touching it: it is
      missing, has size zero, holds text that is not JSON, or decodes to a
      value. */
  datatype StoreFile =
    | Absent
    | Empty
    | Undecodable
    | Decoded(value: Json)

  /** The file decodes to a JSON list. */
  predicate IsList(f: StoreFile) {
    f.Decoded? && f.value.JArr?
  }

  /** The elements of a store file that decodes to a list. */
  function Items(f: StoreFile): seq<Json>
    requires IsList(f)
  {
    f.value.items
  }

  /** A store file holding exactly the list `items`. */
  function ListFile(items: seq<Json>): StoreFile {
    Decoded(JArr(items))
  }
}
