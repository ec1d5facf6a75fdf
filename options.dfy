/** Optional values: what the crawler's fetches and searches return when they may come back empty. */
module Options {

  datatype Option<+T> = None | Some(value: T)
}
