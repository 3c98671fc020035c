/** The optional value the extractor returns for a field it may not find
    (Python's `None` or a string). */
module Options {

  datatype Option<+T> = None | Some(value: T)

}
