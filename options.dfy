/** Optional values: `None` stands for a slot with no page, or for a call that
    ends the process instead of returning. */
module Options {
  datatype Option<+T> = None | Some(value: T)
}
