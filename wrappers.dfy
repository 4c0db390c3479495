/** The optional value used wherever the handler may see nothing: a hostname
    that did not parse, a directory without a caption file, a read that failed. */
module Wrappers {

  datatype Option<+T> = None | Some(value: T)
}
