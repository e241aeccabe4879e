/** An optional value: stands for a C pointer that may be NULL, and for
    "no slot yet" in the corrected neighbour-deduplication definition. */
module Options {

  datatype Option<+T> = None | Some(value: T)
}
