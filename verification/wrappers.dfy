/** The optional value used by the scanners and the segmenter's line classifier. */
module Wrappers {

  datatype Option<+T> = None | Some(value: T)

}
