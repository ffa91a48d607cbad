/**
 * The output formatter at the end of var_expand: the context's offset
 * slices the (modified) value, then its width truncates it or, with zero
 * padding, left-pads it with '0'.
 */
module Formatter {
  import opened Text
  import opened ExpandContext

  /**
   * The value from the offset on. A negative offset keeps the last
   * min(len, |offset|) bytes; a positive one drops min(offset, len) leading bytes.
   */
  function Slice(v: string, offset: int): (r: string)
    ensures offset < 0 ==> r == v[|v| - Min(|v|, -offset)..]
    ensures offset >= 0 ==> r == v[Min(offset, |v|)..]
  {
    if offset < 0 then
      (if |v| > -offset then v[|v| + offset..] else v)
    else v[Min(offset, |v|)..]
  }

  /**
   * The width applied to an already sliced value: width 0 keeps it whole;
   * a width without zero padding keeps at most `width` leading bytes; with
   * zero padding, '0' bytes go in front until the width is reached and
   * nothing is cut.
   */
  function Fit(sliced: string, width: nat, zeroPadding: bool): (r: string)
    ensures width == 0 ==> r == sliced
    ensures width != 0 && !zeroPadding ==> |r| == Min(width, |sliced|) && r == sliced[..|r|]
    ensures width != 0 && zeroPadding ==>
      |r| == (if width < |sliced| then |sliced| else width) && r == Zeros(|r| - |sliced|) + sliced
  {
    if width == 0 then sliced
    else if !zeroPadding then sliced[..Min(width, |sliced|)]
    else if |sliced| < width then Zeros(width - |sliced|) + sliced
    else sliced
  }

  /** What the formatter appends for value `v` under context `c`. */
  function Format(v: string, c: Ctx): string
  {
    Fit(Slice(v, c.offset), c.width, c.zeroPadding)
  }

  /**
   * The formatted value is never longer than the value, except when zero
   * padding fills it up to the width; without padding it is never longer than
   * a non-zero width, and with padding never shorter.
   */
  lemma FormatLength(v: string, c: Ctx)
    ensures |Format(v, c)| <= |v| || (c.zeroPadding && |Format(v, c)| == c.width)
    ensures c.width != 0 && !c.zeroPadding ==> |Format(v, c)| <= c.width
    ensures c.width != 0 && c.zeroPadding ==> |Format(v, c)| >= c.width
  {
  }

  /** Without a width, padding or offset the formatter appends the value itself. */
  lemma FormatPlain(v: string, zeroPadding: bool)
    ensures Format(v, Ctx(0, 0, zeroPadding)) == v
  {
    assert v[0..] == v;
  }
}
