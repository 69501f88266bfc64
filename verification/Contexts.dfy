/** The context a call runs under. */
module Contexts {
  class Context {
    var ended: bool

    constructor ()
      ensures !ended
    {
      ended := false;
    }

    // Whatever is waited for, the context may end meanwhile; it stays ended.
    method Pass()
      modifies this
      ensures old(ended) ==> ended
    {
      var ends: bool := *;
      ended := ended || ends;
    }

    // A select between the context's end and another case that is ready or
    // becomes so: once the context has ended, either may be taken.
    method Select() returns (ok: bool)
      modifies this
      ensures old(ended) ==> ended
      ensures !ok ==> ended
    {
      Pass();
      ok := true;
      if ended {
        ok := *;
      }
    }
  }
}
