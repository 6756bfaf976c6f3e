/** The conventional Some/None datatype, used for values that may be absent
    (a missing query argument, a key Redis does not hold, a key without a TTL). */
module Wrappers {

  datatype Option<+T> = None | Some(value: T)
}
