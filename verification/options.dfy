/** An optional value: used for slots of the hash map that may be empty and
    for reads of the store that may fail. */
module Options {

  datatype Option<+T> = None | Some(value: T)

}
