/** An optional value: a cell index, or nothing where the program holds a null `Cell *`. */
module Optional {

  datatype Option<T> = None | Some(value: T)
}
