/**
 * The fixed modifier registry of var-expand.c (`modifiers[]`) and the eight
 * one-letter transforms it names. Every modifier maps a value and the
 * directive's context to a new value; only `H` reads and clears the context.
 */
module Modifiers {
  import opened Text
  import opened ExpandContext

  type byte = x: int | 0 <= x < 256

  /** A 16-byte MD5 digest as `md5_get_digest` fills it in. */
  type Digest = d: seq<byte> | |d| == 16 witness seq(16, _ => 0)

  /**
   * The helpers in files outside this model that modifiers call:
   * `str_hash` (an unsigned int), `md5_get_digest` and `str_escape`.
   */
  datatype Services = Services(strHash: string -> uint32, md5: string -> Digest, escape: string -> string)

  datatype Modifier = LowerCase | UpperCase | Escape | DecToHex | Reverse | Hash | Md5 | LdapDn

  /** `MAX_MODIFIER_COUNT`: the longest modifier chain one directive can hold. */
  const MaxModifierCount: nat := 10

  /** `modifiers[]` in table order; the `'\0'` sentinel is the end of the sequence. */
  const ModifierTable: seq<(char, Modifier)> :=
    [('L', LowerCase), ('U', UpperCase), ('E', Escape), ('X', DecToHex),
     ('R', Reverse), ('H', Hash), ('M', Md5), ('D', LdapDn)]

  /** The letter each modifier is written with in a template. */
  function KeyOf(m: Modifier): (c: char)
    ensures 'A' <= c <= 'Z'
  {
    match m
    case LowerCase => 'L'
    case UpperCase => 'U'
    case Escape => 'E'
    case DecToHex => 'X'
    case Reverse => 'R'
    case Hash => 'H'
    case Md5 => 'M'
    case LdapDn => 'D'
  }

  function IndexOf(m: Modifier): (n: nat)
    ensures n < |ModifierTable| && ModifierTable[n] == (KeyOf(m), m)
  {
    match m
    case LowerCase => 0
    case UpperCase => 1
    case Escape => 2
    case DecToHex => 3
    case Reverse => 4
    case Hash => 5
    case Md5 => 6
    case LdapDn => 7
  }

  /** The registry scan of var_expand from entry `n` on: the first entry whose key is `c`. */
  function FindModifierFrom(c: char, n: nat): (r: Option<Modifier>)
    requires n <= |ModifierTable|
    ensures r.Some? ==> KeyOf(r.value) == c
    ensures forall m :: n <= IndexOf(m) && KeyOf(m) == c ==> r == Some(m)
    decreases |ModifierTable| - n
  {
    if n == |ModifierTable| then None
    else if ModifierTable[n].0 == c then
      assert ModifierTable[n].0 == KeyOf(ModifierTable[n].1);
      Some(ModifierTable[n].1)
    else FindModifierFrom(c, n + 1)
  }

  function FindModifier(c: char): (r: Option<Modifier>)
    ensures r.Some? ==> KeyOf(r.value) == c
    ensures forall m :: KeyOf(m) == c ==> r == Some(m)
  {
    FindModifierFrom(c, 0)
  }

  /** The registry is keyed by letter: looking a letter up finds exactly the modifier written with it. */
  lemma FindModifierIsKeyOf(c: char, m: Modifier)
    ensures FindModifier(c) == Some(m) <==> KeyOf(m) == c
  {
  }

  /** The inner `for (m = modifiers; ...)` loop of var_expand. */
  method LookupModifier(c: char) returns (r: Option<Modifier>)
    ensures r == FindModifier(c)
  {
    var n := 0;
    while n < |ModifierTable|
      invariant 0 <= n <= |ModifierTable|
      invariant FindModifierFrom(c, n) == FindModifier(c)
    {
      if ModifierTable[n].0 == c {
        return Some(ModifierTable[n].1);
      }
      n := n + 1;
    }
    return None;
  }

  // ---- L and U: ASCII case maps (t_str_lcase / t_str_ucase) ----

  /** ASCII lowercase: the result is never an uppercase letter, and only uppercase letters change. */
  function ToLower(c: char): (r: char)
    ensures !('A' <= r <= 'Z')
    ensures r != c ==> 'A' <= c <= 'Z'
  {
    if 'A' <= c <= 'Z' then (c as int + 32) as char else c
  }

  /** ASCII uppercase: the result is never a lowercase letter, and only lowercase letters change. */
  function ToUpper(c: char): (r: char)
    ensures !('a' <= r <= 'z')
    ensures r != c ==> 'a' <= c <= 'z'
  {
    if 'a' <= c <= 'z' then (c as int - 32) as char else c
  }

  function StrLcase(s: string): (r: string)
    ensures |r| == |s| && forall i :: 0 <= i < |s| ==> r[i] == ToLower(s[i])
  {
    seq(|s|, i requires 0 <= i < |s| => ToLower(s[i]))
  }

  function StrUcase(s: string): (r: string)
    ensures |r| == |s| && forall i :: 0 <= i < |s| ==> r[i] == ToUpper(s[i])
  {
    seq(|s|, i requires 0 <= i < |s| => ToUpper(s[i]))
  }

  /** Case folding is idempotent, and `L` after `U` is the same as `L` alone. */
  lemma CaseMapsFold(s: string)
    ensures StrLcase(StrLcase(s)) == StrLcase(s)
    ensures StrUcase(StrUcase(s)) == StrUcase(s)
    ensures StrLcase(StrUcase(s)) == StrLcase(s)
    ensures StrUcase(StrLcase(s)) == StrUcase(s)
  {
  }

  // ---- X: decimal to lowercase hex (strtoull, then "%llx") ----

  function StrHex(s: string): (r: string)
    ensures AllLowerHex(r) && ParseHex(r) == StrToUll(s)
    ensures |r| > 0 && (r[0] == '0' ==> r == "0")
  {
    ParseHexOfHexOf(StrToUll(s));
    HexOf(StrToUll(s))
  }

  /** On a value that starts with a run of digits, `X` renders that decimal number in hex. */
  lemma StrHexOfDigits(s: string, k: nat)
    requires 0 < k <= |s| && AllDigits(s[..k]) && (k == |s| || !IsDigit(s[k]))
    requires DecValue(s[..k]) <= ULLongMax
    ensures ParseHex(StrHex(s)) == DecValue(s[..k])
  {
    assert IsDigit(s[..k][0]);
    assert DigitsEnd(s, 0) == k by {
      DigitsEndIsFirstNonDigit(s, 0, k);
    }
    assert s[0..k] == s[..k];
  }

  /** A value without any digit turns into "0" under `X`. */
  lemma StrHexOfNoDigits(s: string)
    requires forall i :: 0 <= i < |s| ==> !IsDigit(s[i])
    ensures StrHex(s) == "0"
  {
    var i := SkipSpaces(s, 0);
    var j := if i < |s| && (s[i] == '-' || s[i] == '+') then i + 1 else i;
    assert DigitsEnd(s, j) == j;
    assert StrToUll(s) == 0;
  }

  // ---- R: byte reversal ----

  function StrReverse(s: string): (r: string)
    ensures |r| == |s|
  {
    if s == [] then [] else StrReverse(s[1..]) + [s[0]]
  }

  lemma {:induction false} StrReverseAt(s: string, k: nat)
    requires k < |s|
    ensures StrReverse(s)[k] == s[|s| - 1 - k]
  {
    if k < |s| - 1 {
      StrReverseAt(s[1..], k);
    }
  }

  /** Reversing twice restores the value. */
  lemma StrReverseTwice(s: string)
    ensures StrReverse(StrReverse(s)) == s
  {
    forall k | 0 <= k < |s|
      ensures StrReverse(StrReverse(s))[k] == s[k]
    {
      StrReverseAt(StrReverse(s), k);
      StrReverseAt(s, |s| - 1 - k);
    }
  }

  /** `m_str_reverse`: fills a fresh buffer from its end. */
  method MStrReverse(s: string) returns (r: string)
    ensures r == StrReverse(s)
  {
    var rev := new char[|s|];
    var i := 0;
    while i < |s|
      invariant 0 <= i <= |s|
      invariant forall k :: 0 <= k < i ==> rev[|s| - 1 - k] == s[k]
    {
      rev[|s| - 1 - i] := s[i];
      i := i + 1;
    }
    r := rev[..];
    forall k | 0 <= k < |s|
      ensures r[k] == StrReverse(s)[k]
    {
      StrReverseAt(s, k);
      assert r[k] == rev[|s| - 1 - (|s| - 1 - k)];
    }
  }

  // ---- D: dots to an LDAP DN suffix ----

  function DnPiece(c: char): string
  {
    if c == '.' then ",dc=" else [c]
  }

  function StrLdapDn(s: string): string
  {
    if s == [] then [] else DnPiece(s[0]) + StrLdapDn(s[1..])
  }

  function CountDots(s: string): nat
  {
    if s == [] then 0 else (if s[0] == '.' then 1 else 0) + CountDots(s[1..])
  }

  /**
   * `D` grows the value by three bytes per dot, leaves no dot behind, and
   * changes nothing when there is no dot.
   */
  lemma {:induction false} StrLdapDnShape(s: string)
    ensures |StrLdapDn(s)| == |s| + 3 * CountDots(s)
    ensures '.' !in StrLdapDn(s)
    ensures StrLdapDn(s) == s <==> '.' !in s
  {
    if s != [] {
      StrLdapDnShape(s[1..]);
      assert s == [s[0]] + s[1..];
      if s[0] == '.' {
        assert |StrLdapDn(s)| != |s|;
      }
    }
  }

  /** Reads a DN suffix back into the domain it came from: ",dc=" becomes '.'. */
  function DnToDomain(r: string): string
    decreases |r|
  {
    if r == [] then []
    else if |r| >= 4 && r[..4] == ",dc=" then "." + DnToDomain(r[4..])
    else [r[0]] + DnToDomain(r[1..])
  }

  /** For a domain without commas, `D` loses nothing: the DN reads back to it. */
  lemma {:induction false} StrLdapDnRoundTrip(s: string)
    requires ',' !in s
    ensures DnToDomain(StrLdapDn(s)) == s
  {
    if s != [] {
      StrLdapDnRoundTrip(s[1..]);
      var r := StrLdapDn(s);
      if s[0] == '.' {
        assert r[..4] == ",dc=" && r[4..] == StrLdapDn(s[1..]);
      } else {
        assert r[0] == s[0] && r[1..] == StrLdapDn(s[1..]);
        assert s[0] != ',';
      }
    }
  }

  /** `m_str_ldap_dn`: walks the value and appends to a fresh string. */
  method MStrLdapDn(s: string) returns (r: string)
    ensures r == StrLdapDn(s)
  {
    r := [];
    var i := 0;
    while i < |s|
      invariant 0 <= i <= |s|
      invariant r + StrLdapDn(s[i..]) == StrLdapDn(s)
    {
      assert s[i..][1..] == s[i + 1..];
      ghost var piece := DnPiece(s[i]);
      assert StrLdapDn(s[i..]) == piece + StrLdapDn(s[i + 1..]);
      assert (r + piece) + StrLdapDn(s[i + 1..]) == r + (piece + StrLdapDn(s[i + 1..]));
      if s[i] == '.' {
        r := r + ",dc=";
      } else {
        r := r + [s[i]];
      }
      i := i + 1;
    }
  }

  // ---- M: MD5 as 32 lowercase hex digits (binary_to_hex) ----

  function BinaryToHex(bs: seq<byte>): (r: string)
    ensures |r| == 2 * |bs| && AllLowerHex(r)
  {
    if bs == [] then [] else [HexChar(bs[0] / 16), HexChar(bs[0] % 16)] + BinaryToHex(bs[1..])
  }

  function HexToBinary(r: string): seq<byte>
    requires AllLowerHex(r) && |r| % 2 == 0
  {
    if r == [] then [] else [HexValue(r[0]) * 16 + HexValue(r[1])] + HexToBinary(r[2..])
  }

  /** The hex rendering of a digest decodes back to the digest. */
  lemma {:induction false} BinaryToHexRoundTrip(bs: seq<byte>)
    ensures HexToBinary(BinaryToHex(bs)) == bs
  {
    if bs != [] {
      BinaryToHexRoundTrip(bs[1..]);
      HexValueOfHexChar(bs[0] / 16);
      HexValueOfHexChar(bs[0] % 16);
      var r := BinaryToHex(bs);
      assert r[2..] == BinaryToHex(bs[1..]);
    }
  }

  function StrMd5(s: string, svc: Services): (r: string)
    ensures |r| == 32 && AllLowerHex(r) && HexToBinary(r) == svc.md5(s)
  {
    var digest := svc.md5(s);
    BinaryToHexRoundTrip(digest);
    BinaryToHex(digest)
  }

  // ---- H: hash, reduced by the width and padded to the offset ----

  /** The hash of the value, reduced modulo the context's width when one is set. */
  function StrHashValue(s: string, c: Ctx, svc: Services): (v: nat)
    ensures v < 0x1_0000_0000 && (c.width != 0 ==> v < c.width)
  {
    if c.width != 0 then svc.strHash(s) % c.width else svc.strHash(s)
  }

  /** `h` preceded by as many '0' as it takes to reach length `n`. */
  function PadLeft(h: string, n: int): (r: string)
    ensures |r| == if |h| < n then n else |h|
    ensures r == Zeros(|r| - |h|) + h
  {
    if |h| < n then Zeros(n - |h|) + h else h
  }

  /** `m_str_hash`: the hex rendering of the reduced hash, padded to the offset, and a cleared context. */
  function StrHash(s: string, c: Ctx, svc: Services): (r: (string, Ctx))
    ensures r.1 == Ctx(0, 0, c.zeroPadding)
  {
    (PadLeft(HexOf(StrHashValue(s, c, svc)), c.offset), Ctx(0, 0, c.zeroPadding))
  }

  /**
   * What `H` produces: lowercase hex whose value is the hash reduced by the
   * width (so below the width when one was set), at least `offset` bytes long,
   * and only zeros in front of the `%x` rendering.
   */
  lemma StrHashSpec(s: string, c: Ctx, svc: Services)
    ensures AllLowerHex(StrHash(s, c, svc).0)
    ensures ParseHex(StrHash(s, c, svc).0) == StrHashValue(s, c, svc)
    ensures c.width != 0 ==> ParseHex(StrHash(s, c, svc).0) < c.width
    ensures c.offset <= |StrHash(s, c, svc).0|
  {
    var v := StrHashValue(s, c, svc);
    var h := HexOf(v);
    var r := StrHash(s, c, svc).0;
    ParseHexOfHexOf(v);
    ParseHexZeros(|r| - |h|, h);
  }

  /** The padding loop of `m_str_hash`: prepends '0' until the text is as long as the offset. */
  method PadToOffset(h: string, ctx: Context) returns (hash: string)
    ensures hash == PadLeft(h, ctx.offset)
  {
    hash := h;
    while |hash| < ctx.offset
      invariant |h| <= |hash| && hash == Zeros(|hash| - |h|) + h
      invariant |h| < ctx.offset ==> |hash| <= ctx.offset
      invariant |h| >= ctx.offset ==> hash == h
      decreases ctx.offset - |hash|
    {
      ZerosPrepend(|hash| - |h|, h);
      hash := "0" + hash;
    }
  }

  /** `m_str_hash` on the live context: reduces, clears `width`, pads in a loop, clears `offset`. */
  method MStrHash(s: string, ctx: Context, svc: Services) returns (r: string)
    modifies ctx
    ensures (r, ctx.State()) == StrHash(s, old(ctx.State()), svc)
  {
    ghost var c := ctx.State();
    var value: uint32 := svc.strHash(s);
    if ctx.width != 0 {
      value := value % ctx.width;
      ctx.width := 0;
    }
    assert value == StrHashValue(s, c, svc);
    r := PadToOffset(HexOf(value), ctx);
    ctx.offset := 0;
  }

  // ---- the registry as a whole ----

  /** One modifier step: the new value and the context the next step sees. */
  function ApplyModifier(m: Modifier, s: string, c: Ctx, svc: Services): (r: (string, Ctx))
    ensures m != Hash ==> r.1 == c
  {
    match m
    case LowerCase => (StrLcase(s), c)
    case UpperCase => (StrUcase(s), c)
    case Escape => (svc.escape(s), c)
    case DecToHex => (StrHex(s), c)
    case Reverse => (StrReverse(s), c)
    case Hash => StrHash(s, c, svc)
    case Md5 => (StrMd5(s, svc), c)
    case LdapDn => (StrLdapDn(s), c)
  }

  /** The chain `var = modifier[i](var, &ctx)`, applied left to right. */
  function ApplyChain(ms: seq<Modifier>, s: string, c: Ctx, svc: Services): (string, Ctx)
    decreases |ms|
  {
    if ms == [] then (s, c)
    else
      var step := ApplyModifier(ms[0], s, c, svc);
      ApplyChain(ms[1..], step.0, step.1, svc)
  }

  /** Splitting a chain anywhere: the second part consumes what the first part produced. */
  lemma {:induction false} ApplyChainSplit(a: seq<Modifier>, b: seq<Modifier>, s: string, c: Ctx, svc: Services)
    ensures ApplyChain(a + b, s, c, svc)
         == ApplyChain(b, ApplyChain(a, s, c, svc).0, ApplyChain(a, s, c, svc).1, svc)
    decreases |a|
  {
    if a == [] {
      assert a + b == b;
    } else {
      var step := ApplyModifier(a[0], s, c, svc);
      assert (a + b)[1..] == a[1..] + b;
      ApplyChainSplit(a[1..], b, step.0, step.1, svc);
    }
  }

  /** A chain without `H` leaves the context as the parser set it. */
  lemma {:induction false} ChainWithoutHashKeepsCtx(ms: seq<Modifier>, s: string, c: Ctx, svc: Services)
    requires Hash !in ms
    ensures ApplyChain(ms, s, c, svc).1 == c
    decreases |ms|
  {
    if ms != [] {
      assert ms[0] != Hash && Hash !in ms[1..];
      ChainWithoutHashKeepsCtx(ms[1..], ApplyModifier(ms[0], s, c, svc).0, c, svc);
    }
  }

  /** Once `H` has run, the formatter sees neither an offset nor a width. */
  lemma {:induction false} ChainWithHashClearsCtx(ms: seq<Modifier>, s: string, c: Ctx, svc: Services)
    requires Hash in ms
    ensures ApplyChain(ms, s, c, svc).1.offset == 0
    ensures ApplyChain(ms, s, c, svc).1.width == 0
    decreases |ms|
  {
    var step := ApplyModifier(ms[0], s, c, svc);
    if ms[0] == Hash {
      if Hash in ms[1..] {
        ChainWithHashClearsCtx(ms[1..], step.0, step.1, svc);
      } else {
        ChainWithoutHashKeepsCtx(ms[1..], step.0, step.1, svc);
      }
    } else {
      assert Hash in ms[1..];
      ChainWithHashClearsCtx(ms[1..], step.0, step.1, svc);
    }
  }

  /** `modifier[i](var, &ctx)`: dispatch to the modifier's function. */
  method ApplyModifierM(m: Modifier, s: string, ctx: Context, svc: Services) returns (r: string)
    modifies ctx
    ensures (r, ctx.State()) == ApplyModifier(m, s, old(ctx.State()), svc)
  {
    match m
    case LowerCase => r := StrLcase(s);
    case UpperCase => r := StrUcase(s);
    case Escape => r := svc.escape(s);
    case DecToHex => r := StrHex(s);
    case Reverse => r := MStrReverse(s);
    case Hash => r := MStrHash(s, ctx, svc);
    case Md5 => r := StrMd5(s, svc);
    case LdapDn => r := MStrLdapDn(s);
  }
}
