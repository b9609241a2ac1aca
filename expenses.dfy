/** The expense record both importers emit. */
module Expenses {
  import opened Wrappers
  import opened JsNumber

  /**
   * One detected expense: `fecha`, `descripcion`, `monto`, `categoria` and
   * `tarjeta`. The date is None where JavaScript would store `undefined`.
   */
  datatype Expense = Expense(
    date: Option<string>,
    description: string,
    amount: Number,
    category: string,
    card: string)
}
