/**
 * The growable `string_t` that `var_expand` appends its output to. Its
 * implementation lives in str.c, which is not part of this model; only the
 * three append operations the expander uses are modelled, by what they add.
 */
module Str {
  import opened Text

  class StrBuf {
    var contents: string

    constructor (init: string)
      ensures contents == init
    {
      contents := init;
    }

    /** `str_append_c(dest, c)` */
    method AppendChar(c: char)
      modifies this
      ensures contents == old(contents) + [c]
    {
      contents := contents + [c];
    }

    /** `str_append(dest, s)` */
    method Append(s: string)
      modifies this
      ensures contents == old(contents) + s
    {
      contents := contents + s;
    }

    /** `str_append_n(dest, s, n)`: at most `n` leading bytes of `s`. */
    method AppendN(s: string, n: nat)
      modifies this
      ensures contents == old(contents) + s[..Min(n, |s|)]
    {
      contents := contents + s[..Min(n, |s|)];
    }
  }
}
