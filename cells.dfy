/** Values as the scripts see them: cells of a pandas frame read from CSV, and Python's
    `None`-or-value results. */
module Cells {

  /** Python's `Optional[T]`. */
  datatype Option<T> = None | Some(value: T)

  /** A cell of a frame read with `pd.read_csv`: `Missing` is the NaN pandas stores for an
      empty cell, `Text` a string cell. */
  datatype Cell = Missing | Text(s: string)

  /** `str(cell)`: NaN prints as "nan". */
  function Str(c: Cell): string {
    match c
    case Missing => "nan"
    case Text(s) => s
  }

  /** `pd.isna(cell)` */
  predicate IsNa(c: Cell) { c.Missing? }

  /** Python truthiness of a cell: NaN is a non-zero float, hence true; "" is false. */
  predicate Truthy(c: Cell) { c.Missing? || c.s != "" }
}
