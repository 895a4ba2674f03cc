/** An answer that may be missing, shared by every component whose operations can come
    back empty-handed: a lookup of an absent key, a pop of an empty buffer, a read of a
    deleted snapshot, a parse that finds no token. */
module Options {

  datatype Option<T> = None | Some(value: T)
}
