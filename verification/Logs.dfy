/** Writers and warning callbacks: what was handed to them, in order. */
module Logs {
  class Log<T> {
    var entries: seq<T>

    constructor ()
      ensures entries == []
    {
      entries := [];
    }

    method Add(x: T)
      modifies this
      ensures entries == old(entries) + [x]
    {
      entries := entries + [x];
    }
  }
}
