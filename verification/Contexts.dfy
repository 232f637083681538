/** Cancellation, as the operations that honour it see it. */
module Contexts {

  /** A context: once it has ended, `done`. The background context never ends. */
  class Context {
    const background: bool
    ghost var done: bool

    constructor (background: bool)
      ensures this.background == background && !done
    {
      this.background, done := background, false;
    }

    method Err() returns (ended: bool)
      modifies this
      ensures ended ==> done && !background
      ensures !ended ==> done == old(done)
    {
      var ends: bool := *;
      ended := ends && !background;
      done := done || ended;
    }
  }
}
