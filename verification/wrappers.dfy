/** The optional value used for absent messages, absent attachments and
    absent file names, and for parses that do not match. */
module Wrappers {

  datatype Option<+T> = None | Some(value: T)
}
