/**
 * The directive grammar `%[-][0]<digits>[.[0]<digits>]<modifiers><key>` of
 * var_expand, and `var_get_key`, which skips the same grammar without
 * evaluating it. Positions index the template; `At` supplies the '\0' that
 * ends a C string.
 */
module Directive {
  import opened Text
  import opened ExpandContext
  import opened Modifiers

  /** A directive read from the template: the context it sets, its modifier chain and its key's position. */
  datatype Directive = Directive(ctx: Ctx, mods: seq<Modifier>, keyPos: nat)

  /**
   * The number part starting at `j`: the context it sets and where it ends.
   * Without a '.', the digit run is the width and the sign is not used; with
   * a '.', the signed first run is the offset, the zero-padding flag is that
   * of the second run, and the second run is the width.
   */
  function ParseNumbers(s: string, j: nat): (r: (Ctx, nat))
    requires j <= |s|
    ensures j <= r.1 <= |s|
  {
    var neg := At(s, j) == '-';
    var (zp, first, j3) := ReadRun(s, if neg then j + 1 else j);
    if At(s, j3) == '.' then
      var (zp2, second, j5) := ReadRun(s, j3 + 1);
      (Ctx(if neg then -(first as int) else first, second, zp2), j5)
    else
      (Ctx(0, first, zp), j3)
  }

  /**
   * One `[0]<digits>` run from `j`: whether a leading '0' asks for zero
   * padding, the value of the digits after it, and where they end.
   */
  function ReadRun(s: string, j: nat): (r: (bool, nat, nat))
    requires j <= |s|
    ensures j <= r.2 <= |s|
  {
    var zp := At(s, j) == '0';
    var j2 := if zp then j + 1 else j;
    var e := DigitsEnd(s, j2);
    (zp, DecValue(s[j2..e]), e)
  }

  /**
   * The modifier letters from `j` on, appended to `acc`: greedily, in
   * template order, at most `MaxModifierCount` in all; it stops early only at
   * a byte that is not a modifier letter.
   */
  function CollectModifiers(s: string, j: nat, acc: seq<Modifier>): (r: (seq<Modifier>, nat))
    requires j <= |s| && |acc| <= MaxModifierCount
    ensures |acc| <= |r.0| <= MaxModifierCount && r.0[..|acc|] == acc
    ensures r.1 == j + |r.0| - |acc| <= |s|
    ensures forall n :: |acc| <= n < |r.0| ==> KeyOf(r.0[n]) == s[j + n - |acc|]
    ensures |r.0| < MaxModifierCount ==> FindModifier(At(s, r.1)).None?
    decreases |s| - j
  {
    var m := FindModifier(At(s, j));
    if |acc| < MaxModifierCount && m.Some? then
      assert j < |s| && KeyOf(m.value) == s[j];
      var acc' := acc + [m.value];
      var r := CollectModifiers(s, j + 1, acc');
      PrefixExtended(r.0, acc, m.value);
      r
    else (acc, j)
  }

  /** A sequence that starts with `acc + [x]` starts with `acc`, followed by `x`. */
  lemma PrefixExtended(r: seq<Modifier>, acc: seq<Modifier>, x: Modifier)
    requires |acc| < |r| && r[..|acc| + 1] == acc + [x]
    ensures r[..|acc|] == acc && r[|acc|] == x
  {
    assert r[..|acc|] == r[..|acc| + 1][..|acc|];
    assert r[|acc|] == r[..|acc| + 1][|acc|];
  }

  /** One directive starting right after its '%'; `None` when the template ends before the key. */
  function ParseDirective(s: string, j: nat): (r: Option<Directive>)
    requires j <= |s|
    ensures r.Some? ==> j <= r.value.keyPos < |s| && |r.value.mods| <= MaxModifierCount
  {
    var (c, k) := ParseNumbers(s, j);
    var (ms, p) := CollectModifiers(s, k, []);
    if At(s, p) == '\0' then None else Some(Directive(c, ms, p))
  }

  /** A directive is read exactly when a key byte, not the end of the template, follows its modifiers. */
  lemma ParseDirectiveKey(s: string, j: nat)
    requires j <= |s|
    ensures ParseDirective(s, j).Some? <==> At(s, CollectModifiers(s, ParseNumbers(s, j).1, []).1) != '\0'
    ensures ParseDirective(s, j).Some? ==> s[ParseDirective(s, j).value.keyPos] != '\0'
  {
  }

  // ---- a canonical spelling of a context, and reading it back ----

  function WidthText(c: Ctx): string
  {
    (if c.zeroPadding then "0" else "") + (if c.width == 0 then "" else DecString(c.width))
  }

  /**
   * A number part that sets the context `c`. With an offset, `lead` writes a
   * '0' in front of its run, which asks for padding that the '.' then drops.
   */
  function NumbersText(c: Ctx, lead: bool): string
  {
    if c.offset == 0 then WidthText(c)
    else (if c.offset < 0 then "-" else "") + WidthText(Ctx(0, if c.offset < 0 then -c.offset else c.offset, lead)) + "." + WidthText(c)
  }

  /** Reading `[0]<digits>` as written by `WidthText`. */
  lemma ParseWidthText(c: Ctx, s: string, j: nat)
    requires j + |WidthText(c)| <= |s| && s[j..j + |WidthText(c)|] == WidthText(c)
    requires !IsDigit(At(s, j + |WidthText(c)|))
    ensures (At(s, j) == '0') == c.zeroPadding
    ensures DigitsEnd(s, if c.zeroPadding then j + 1 else j) == j + |WidthText(c)|
    ensures DecValue(s[(if c.zeroPadding then j + 1 else j)..j + |WidthText(c)|]) == c.width
  {
    var w := WidthText(c);
    var e := j + |w|;
    var ds := if c.width == 0 then "" else DecString(c.width);
    var pre := if c.zeroPadding then "0" else "";
    var j2 := j + |pre|;
    assert w == pre + ds;
    assert s[j2..e] == ds by {
      assert s[j2..e] == s[j..e][|pre|..];
      assert w[|pre|..] == ds;
    }
    if c.zeroPadding {
      assert At(s, j) == s[j..e][0] == '0';
    } else if c.width != 0 {
      assert At(s, j) == s[j2..e][0] == ds[0];
    }
    DigitsEndIsFirstNonDigit(s, j2, e);
    if c.width != 0 {
      DecValueOfDecString(c.width);
    }
  }

  /** `ReadRun` reads back what `WidthText` wrote, and stops right after it. */
  lemma ReadRunOfWidthText(c: Ctx, s: string, j: nat, e: nat)
    requires e == j + |WidthText(c)| <= |s| && s[j..e] == WidthText(c) && !IsDigit(At(s, e))
    ensures ReadRun(s, j) == (c.zeroPadding, c.width, e)
  {
    ParseWidthText(c, s, j);
  }

  /** What may follow a number part without being read as part of it. */
  predicate EndsNumbers(rest: string)
  {
    rest == [] || (!IsDigit(rest[0]) && rest[0] != '.' && rest[0] != '-')
  }

  lemma ParseUndottedText(c: Ctx, lead: bool, rest: string)
    requires c.offset == 0 && EndsNumbers(rest)
    ensures ParseNumbers(NumbersText(c, lead) + rest, 0) == (c, |NumbersText(c, lead)|)
  {
    var t := NumbersText(c, lead);
    var s := t + rest;
    assert At(s, |t|) == At(rest, 0);
    assert s[0..|t|] == t;
    ReadRunOfWidthText(c, s, 0, |t|);
    assert At(s, 0) != '-' by {
      if t == [] { assert At(s, 0) == At(rest, 0); } else { assert At(s, 0) == t[0]; }
    }
  }

  lemma ParseDottedText(c: Ctx, lead: bool, rest: string)
    requires c.offset != 0 && EndsNumbers(rest)
    ensures ParseNumbers(NumbersText(c, lead) + rest, 0) == (c, |NumbersText(c, lead)|)
  {
    var mag: nat := if c.offset < 0 then -c.offset else c.offset;
    var sign := if c.offset < 0 then "-" else "";
    var ds := WidthText(Ctx(0, mag, lead));
    var w := WidthText(c);
    assert NumbersText(c, lead) + rest == sign + ds + "." + w + rest;
    var s := sign + ds + "." + w + rest;
    var j3 := |sign| + |ds|;
    DottedLayout(sign, ds, w, rest);
    assert (At(s, 0) == '-') == (c.offset < 0) by {
      if c.offset >= 0 { assert At(s, 0) == ds[0]; }
    }
    assert |sign| == if c.offset < 0 then 1 else 0;
    ParseDottedAt(s, c, lead, |sign|, j3, j3 + 1 + |w|);
  }

  /** A dotted number part laid out in `s`: its sign, its first run, the '.', then the width text. */
  lemma ParseDottedAt(s: string, c: Ctx, lead: bool, j1: nat, j3: nat, e: nat)
    requires c.offset != 0 && (At(s, 0) == '-') == (c.offset < 0) && j1 == (if c.offset < 0 then 1 else 0)
    requires j1 <= j3 < e <= |s| && s[j1..j3] == WidthText(Ctx(0, if c.offset < 0 then -c.offset else c.offset, lead))
    requires At(s, j3) == '.' && e == j3 + 1 + |WidthText(c)| && s[j3 + 1..e] == WidthText(c)
    requires !IsDigit(At(s, e))
    ensures ParseNumbers(s, 0) == (c, e)
  {
    var first := Ctx(0, if c.offset < 0 then -c.offset else c.offset, lead);
    ReadRunOfWidthText(first, s, j1, j3);
    ReadRunOfWidthText(c, s, j3 + 1, e);
    ParseNumbersOfRuns(s, c, lead, j1, j3, e);
  }

  /** Where the pieces of `sign + ds + "." + w + rest` sit. */
  lemma DottedLayout(sign: string, ds: string, w: string, rest: string)
    ensures var s := sign + ds + "." + w + rest;
      var j3 := |sign| + |ds|;
      && s[|sign|..j3] == ds && s[j3 + 1..j3 + 1 + |w|] == w && At(s, j3) == '.'
      && At(s, j3 + 1 + |w|) == At(rest, 0) && (|sign| > 0 ==> s[0] == sign[0])
      && (sign == [] && ds != [] ==> s[0] == ds[0])
  {
    DottedHead(sign, ds, "." + w + rest);
    DottedDot(sign + ds, w, rest);
    DottedWidth(sign + ds, w, rest);
    DottedEnd(sign + ds, w, rest);
  }

  /** The front of `sign + ds + tail`. */
  lemma DottedHead(sign: string, ds: string, tail: string)
    ensures var s := sign + ds + tail;
      && s == sign + ds + tail
      && s[|sign|..|sign| + |ds|] == ds && (|sign| > 0 ==> s[0] == sign[0])
      && (sign == [] && ds != [] ==> s[0] == ds[0])
  {
    var s := sign + ds + tail;
    assert s[|sign|..] == ds + tail;
  }

  /** The dot of `front + "." + w + rest`. */
  lemma DottedDot(front: string, w: string, rest: string)
    ensures At(front + "." + w + rest, |front|) == '.'
  {
    assert (front + "." + w + rest)[|front|] == (front + ".")[|front|];
  }

  /** The width run of `front + "." + w + rest`. */
  lemma DottedWidth(front: string, w: string, rest: string)
    ensures (front + "." + w + rest)[|front| + 1..|front| + 1 + |w|] == w
  {
    var s := front + "." + w + rest;
    forall q | 0 <= q < |w|
      ensures s[|front| + 1 + q] == w[q]
    {
      assert s[|front| + 1 + q] == (front + "." + w)[|front| + 1 + q];
    }
  }

  /** What follows the width run of `front + "." + w + rest`. */
  lemma DottedEnd(front: string, w: string, rest: string)
    ensures At(front + "." + w + rest, |front| + 1 + |w|) == At(rest, 0)
  {
    if rest != [] {
      assert (front + "." + w + rest)[|front + "." + w|] == rest[0];
    }
  }

  /** The parser's reading of a dotted number part, given its two runs. */
  lemma ParseNumbersOfRuns(s: string, c: Ctx, lead: bool, j1: nat, j3: nat, e: nat)
    requires c.offset != 0 && (At(s, 0) == '-') == (c.offset < 0) && j1 == (if c.offset < 0 then 1 else 0)
    requires j1 <= j3 < |s| && ReadRun(s, j1) == (lead, if c.offset < 0 then -c.offset else c.offset, j3)
    requires At(s, j3) == '.' && ReadRun(s, j3 + 1) == (c.zeroPadding, c.width, e)
    ensures ParseNumbers(s, 0) == (c, e)
  {
  }

  /**
   * Round trip: a spelling of any context parses back to that context and is
   * consumed whole, whatever follows that cannot continue it; a '0' before the
   * dot leaves no padding behind.
   */
  lemma ParseNumbersText(c: Ctx, lead: bool, rest: string)
    requires EndsNumbers(rest)
    ensures ParseNumbers(NumbersText(c, lead) + rest, 0) == (c, |NumbersText(c, lead)|)
  {
    if c.offset == 0 {
      ParseUndottedText(c, lead, rest);
    } else {
      ParseDottedText(c, lead, rest);
    }
  }

  // ---- var_get_key ----

  /** Skips `[0-9-]*` from `i`. */
  function SkipNumberChars(s: string, i: nat): (k: nat)
    requires i <= |s|
    ensures i <= k <= |s| && !IsDigit(At(s, k)) && At(s, k) != '-'
    ensures forall q :: i <= q < k ==> IsDigit(s[q]) || s[q] == '-'
    decreases |s| - i
  {
    if IsDigit(At(s, i)) || At(s, i) == '-' then SkipNumberChars(s, i + 1) else i
  }

  /** Skips every modifier letter from `i`, with no limit on their number. */
  function SkipModifierLetters(s: string, i: nat): (k: nat)
    requires i <= |s|
    ensures i <= k <= |s| && FindModifier(At(s, k)).None?
    ensures forall q :: i <= q < k ==> FindModifier(s[q]).Some?
    decreases |s| - i
  {
    if FindModifier(At(s, i)).Some? then
      assert i < |s|;
      SkipModifierLetters(s, i + 1)
    else i
  }

  /** Where `var_get_key` finishes skipping the number part. */
  function NumberPartEnd(s: string): (j: nat)
    ensures j <= |s|
  {
    var i := SkipNumberChars(s, 0);
    if At(s, i) == '.' then DigitsEnd(s, i + 1) else i
  }

  /**
   * `var_get_key` on a directive body: the byte reached after the number
   * characters, an optional '.' and digits, and every modifier letter; '\0'
   * when the string ends first.
   */
  function GetKey(s: string): (k: char)
    ensures FindModifier(k).None?
  {
    At(s, SkipModifierLetters(s, NumberPartEnd(s)))
  }

  /** The first two skipping loops of `var_get_key`: over `[-0-9]*`, then over a `.` and its digits. */
  method SkipNumberPart(s: string) returns (i: nat)
    ensures i == NumberPartEnd(s)
  {
    i := 0;
    while IsDigit(At(s, i)) || At(s, i) == '-'
      invariant i <= |s| && SkipNumberChars(s, i) == SkipNumberChars(s, 0)
      decreases |s| - i
    {
      i := i + 1;
    }
    if At(s, i) == '.' {
      i := i + 1;
      ghost var start := i;
      while IsDigit(At(s, i))
        invariant start <= i <= |s| && DigitsEnd(s, i) == DigitsEnd(s, start)
        decreases |s| - i
      {
        i := i + 1;
      }
    }
  }

  /** `var_get_key`, with its three skipping loops. */
  method VarGetKey(s: string) returns (key: char)
    ensures key == GetKey(s)
  {
    var i := SkipNumberPart(s);
    ghost var j := i;
    var found := true;
    while found
      invariant j <= i <= |s| && SkipModifierLetters(s, i) == SkipModifierLetters(s, j)
      invariant !found ==> FindModifier(At(s, i)).None?
      decreases |s| - i, found
    {
      var m := LookupModifier(At(s, i));
      found := m.Some?;
      if found {
        i := i + 1;
      }
    }
    key := At(s, i);
  }

  /** The key `var_expand` reads for a directive body: '\0' when it runs off the end. */
  function ExpandKey(s: string): (k: char)
    ensures k == '\0' <==> ParseDirective(s, 0).None?
  {
    match ParseDirective(s, 0)
    case None => '\0'
    case Some(d) => ParseDirectiveKey(s, 0); s[d.keyPos]
  }

  /** The number part uses '-' only as its first byte, as the grammar writes it. */
  predicate DashOnlyInFront(s: string)
  {
    forall q :: 0 < q < SkipNumberChars(s, 0) ==> s[q] != '-'
  }

  /** With a well-placed sign, both scans leave the number part at the same byte. */
  lemma NumberPartsAgree(s: string)
    requires DashOnlyInFront(s)
    ensures ParseNumbers(s, 0).1 == NumberPartEnd(s)
  {
    var i := SkipNumberChars(s, 0);
    var neg := At(s, 0) == '-';
    var j1 := if neg then 1 else 0;
    var j2 := if At(s, j1) == '0' then j1 + 1 else j1;
    assert j2 <= i;
    assert AllDigits(s[j2..i]) by {
      forall q | j2 <= q < i ensures IsDigit(s[q]) {
        assert q > 0 || !neg;
      }
    }
    DigitsEndIsFirstNonDigit(s, j2, i);
    if At(s, i) == '.' && At(s, i + 1) == '0' {
      assert DigitsEnd(s, i + 1) == DigitsEnd(s, i + 2);
    }
  }

  /** `SkipModifierLetters` stops at the first byte that is not a modifier letter, wherever that is. */
  lemma {:induction false} SkipModifierLettersIsFirst(s: string, j: nat, p: nat)
    requires j <= p <= |s| && FindModifier(At(s, p)).None?
    requires forall q :: j <= q < p ==> FindModifier(s[q]).Some?
    ensures SkipModifierLetters(s, j) == p
    decreases p - j
  {
    if j < p {
      SkipModifierLettersIsFirst(s, j + 1, p);
    }
  }

  /**
   * `var_get_key` names the key `var_expand` looks up exactly when the
   * directive's modifier letters number at most `MaxModifierCount`: an
   * eleventh letter is `var_expand`'s key but is skipped by `var_get_key`.
   */
  lemma GetKeyMatchesExpandKey(s: string)
    requires DashOnlyInFront(s)
    ensures GetKey(s) == ExpandKey(s)
        <==> SkipModifierLetters(s, NumberPartEnd(s)) - NumberPartEnd(s) <= MaxModifierCount
  {
    NumberPartsAgree(s);
    var j := NumberPartEnd(s);
    var k := SkipModifierLetters(s, j);
    var (ms, p) := CollectModifiers(s, j, []);
    forall q | j <= q < p ensures FindModifier(s[q]).Some? {
      FindModifierIsKeyOf(s[q], ms[q - j]);
    }
    if |ms| < MaxModifierCount {
      SkipModifierLettersIsFirst(s, j, p);
    } else if k <= j + MaxModifierCount {
      assert p == k;
    } else {
      assert FindModifier(At(s, p)).Some?;
      assert FindModifier(GetKey(s)).None?;
    }
  }

  /** A '-' after the first byte ends `var_expand`'s number part but is skipped by `var_get_key`. */
  lemma DashInsideNumberDisagrees()
    ensures GetKey("0-5n") == 'n' && ExpandKey("0-5n") == '-'
  {
    var s := "0-5n";
    forall m: Modifier ensures KeyOf(m) != 'n' && KeyOf(m) != '-' { }
    assert FindModifier('n').None? && FindModifier('-').None?;
    assert SkipNumberChars(s, 0) == 3 by {
      assert SkipNumberChars(s, 3) == 3;
    }
    assert NumberPartEnd(s) == 3;
    assert SkipModifierLetters(s, 3) == 3;
    assert DigitsEnd(s, 1) == 1;
    assert ParseNumbers(s, 0) == (Ctx(0, 0, true), 1);
    assert CollectModifiers(s, 1, []) == ([], 1);
  }
}
