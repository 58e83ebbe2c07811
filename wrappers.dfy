/** Optional values, for JavaScript's `undefined` results (Array.prototype.find) and empty inputs. */
module Wrappers {
  datatype Option<+T> = None | Some(value: T)
}
