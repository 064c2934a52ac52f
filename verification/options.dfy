/** The optional value used for partial operations of the model
    (a parse that can fail, date arithmetic that can leave the calendar). */
module Options {

  datatype Option<+T> = None | Some(value: T)
}
