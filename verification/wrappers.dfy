/** The optional value, used for "no bounding box found" (`get_shirt_bbox` returning `None`). */
module Wrappers {

  datatype Option<+T> = None | Some(value: T)
}
