/** The optional value shared by the C and the JavaScript parts of the model: a file whose
    first read fails, a DOM element that is absent, a text that has nothing to render. */
module Options {
  datatype Option<T> = None | Some(value: T)
}
