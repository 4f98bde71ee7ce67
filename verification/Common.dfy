// Types shared by the models.
module Common {

  datatype Option<+T> = None | Some(value: T)

  // Code units of the generator's keywords and of the lexer's input.
  type Text = seq<nat>
}
