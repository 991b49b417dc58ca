/** The optional-value datatype shared by the dashboard's modules. */
module Wrappers {

  /** A value that may be absent. In the price and return tables `None`
      stands for a pandas NaN. */
  datatype Option<+T> = None | Some(value: T)
}
