/** Optional values: PHP's `null` next to a present value. */
module Wrappers {

  /** `None` stands for PHP `null` (or an absent array key); `Some(v)` for a present value. */
  datatype Option<+T> = None | Some(value: T)
}
