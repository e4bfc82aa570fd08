/** The optional value used for PHP's `null`: an absent module, an absent
    power bound, an absent parent id, an absent breadcrumb link. */
module Wrappers {

  datatype Option<+T> = None | Some(value: T)
}
