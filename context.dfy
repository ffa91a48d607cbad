/**
 * `struct var_expand_context`: the per-directive offset, width and
 * zero-padding flag that the directive parser fills in, that modifiers
 * receive by pointer, and that the output formatter reads.
 */
module ExpandContext {

  /** The C `int` and `unsigned int` the context's fields are declared with. */
  type int32 = x: int | -0x8000_0000 <= x < 0x8000_0000
  type uint32 = x: int | 0 <= x < 0x1_0000_0000

  /** The context as a value: what a modifier or the formatter observes. */
  datatype Ctx = Ctx(offset: int, width: nat, zeroPadding: bool)

  /** The context after `memset(&ctx, 0, sizeof(ctx))`. */
  const Cleared: Ctx := Ctx(0, 0, false)

  /** The live context of one `var_expand` call, updated field by field. */
  class Context {
    var offset: int32
    var width: uint32
    var zeroPadding: bool

    function State(): Ctx
      reads this
    {
      Ctx(offset, width, zeroPadding)
    }

    constructor ()
      ensures State() == Cleared
    {
      offset, width, zeroPadding := 0, 0, false;
    }

    /** `memset(&ctx, 0, sizeof(ctx))` */
    method Clear()
      modifies this
      ensures State() == Cleared
    {
      offset, width, zeroPadding := 0, 0, false;
    }
  }
}
