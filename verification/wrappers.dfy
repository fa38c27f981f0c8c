/** The failure-carrying wrapper used across the model: a Python call that
    returns `None`, or raises and aborts the caller, yields `None` here. */
module Wrappers {

  datatype Option<+T> = None | Some(value: T)
}
