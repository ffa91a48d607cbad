/**
 * `var_expand`: copies a template to a destination string, replacing each
 * `%` directive by the table value its key names, passed through the
 * directive's modifier chain and formatted by its offset and width.
 *
 * `ExpandFrom` is the specification; `VarExpand` is the loop of the C
 * function, proved to append exactly `Expand(template, ...)`.
 */
module Expander {
  import opened Text
  import opened ExpandContext
  import opened Str
  import opened Modifiers
  import opened Directive
  import opened Formatter

  /** One `struct var_expand_table` entry; a NULL value is `None`. */
  datatype Entry = Entry(key: char, value: Option<string>)

  /** Number of entries before the '\0' sentinel key (all of them when there is none). */
  function TableLen(table: seq<Entry>): (n: nat)
    ensures n <= |table| && (n == |table| || table[n].key == '\0')
    ensures forall j :: 0 <= j < n ==> table[j].key != '\0'
  {
    if table == [] || table[0].key == '\0' then 0 else 1 + TableLen(table[1..])
  }

  /** A NULL value is substituted as the empty string. */
  function ValueText(v: Option<string>): string
  {
    match v
    case Some(s) => s
    case None => ""
  }

  /** The table scan of var_expand from entry `n` on. */
  function LookupFrom(table: seq<Entry>, key: char, n: nat): (r: Option<string>)
    requires n <= TableLen(table)
    ensures r.None? <==> forall j :: n <= j < TableLen(table) ==> table[j].key != key
    decreases |table| - n
  {
    if n == TableLen(table) then None
    else if table[n].key == key then Some(ValueText(table[n].value))
    else LookupFrom(table, key, n + 1)
  }

  function Lookup(table: seq<Entry>, key: char): (r: Option<string>)
    ensures r.None? <==> forall j :: 0 <= j < TableLen(table) ==> table[j].key != key
  {
    LookupFrom(table, key, 0)
  }

  lemma {:induction false} LookupFromFindsFirst(table: seq<Entry>, key: char, n: nat, k: nat)
    requires n <= k < TableLen(table) && table[k].key == key
    requires forall j :: n <= j < k ==> table[j].key != key
    ensures LookupFrom(table, key, n) == Some(ValueText(table[k].value))
    decreases k - n
  {
    if n < k {
      LookupFromFindsFirst(table, key, n + 1, k);
    }
  }

  /** Lookup finds the first entry before the sentinel with the key, NULL read as "". */
  lemma LookupFindsFirst(table: seq<Entry>, key: char, k: nat)
    requires k < TableLen(table) && table[k].key == key
    requires forall j :: 0 <= j < k ==> table[j].key != key
    ensures Lookup(table, key) == Some(ValueText(table[k].value))
  {
    LookupFromFindsFirst(table, key, 0, k);
  }

  /** The table's value for `key`, or "%" for an unmatched '%' key. */
  function Resolve(table: seq<Entry>, key: char): (r: Option<string>)
    ensures Lookup(table, key).Some? ==> r == Lookup(table, key)
    ensures Lookup(table, key).None? ==> (r.Some? <==> key == '%') && (r.Some? ==> r.value == "%")
  {
    var v := Lookup(table, key);
    if v.None? && key == '%' then Some("%") else v
  }

  /** What one directive appends: nothing for an unresolved key, else the formatted result of its chain. */
  function Substitute(d: Directive, key: char, table: seq<Entry>, svc: Services): (r: string)
    ensures Resolve(table, key).None? ==> r == []
  {
    match Resolve(table, key)
    case None => []
    case Some(v) =>
      var (value, c) := ApplyChain(d.mods, v, d.ctx, svc);
      Format(value, c)
  }

  /** The expansion of the template from position `i` on. */
  function ExpandFrom(s: string, table: seq<Entry>, svc: Services, i: nat): string
    requires i <= |s|
    decreases |s| - i, 2
  {
    if At(s, i) == '\0' then []
    else if s[i] != '%' then [s[i]] + ExpandFrom(s, table, svc, i + 1)
    else ExpandAtDirective(s, table, svc, i)
  }

  /** The expansion from the '%' at `i` on: nothing at all when the template ends inside the directive. */
  function ExpandAtDirective(s: string, table: seq<Entry>, svc: Services, i: nat): string
    requires i < |s|
    decreases |s| - i, 1
  {
    match ParseDirective(s, i + 1)
    case None => []
    case Some(d) => ExpandAtKey(s, table, svc, d)
  }

  /** The expansion from a directive `d` read from `s` on: its substitution, then the template after its key. */
  function ExpandAtKey(s: string, table: seq<Entry>, svc: Services, d: Directive): string
    requires d.keyPos < |s|
    decreases |s| - d.keyPos, 0
  {
    Substitute(d, s[d.keyPos], table, svc) + ExpandFrom(s, table, svc, d.keyPos + 1)
  }

  /** Everything `var_expand(dest, s, table)` appends to `dest`. */
  function Expand(s: string, table: seq<Entry>, svc: Services): string
  {
    ExpandFrom(s, table, svc, 0)
  }

  // ---- the integer widths of the C code ----

  /** A directive's offset and width as the C `int` and `unsigned int` carry them without wrapping. */
  predicate CtxFits(c: Ctx)
  {
    -0x8000_0000 < c.offset < 0x8000_0000 && c.width < 0x8000_0000
  }

  /** Every directive of the template from `i` on has digit runs below 2^31. */
  predicate TemplateFits(s: string, i: nat)
    requires i <= |s|
    decreases |s| - i, 1
  {
    if At(s, i) == '\0' then true
    else if s[i] != '%' then TemplateFits(s, i + 1)
    else DirectiveFits(s, i)
  }

  /** The directive at `i` has digit runs below 2^31, and so does the rest of the template after its key. */
  predicate DirectiveFits(s: string, i: nat)
    requires i < |s|
    decreases |s| - i, 0
  {
    CtxFits(ParseNumbers(s, i + 1).0) &&
    match ParseDirective(s, i + 1)
    case None => true
    case Some(d) => TemplateFits(s, d.keyPos + 1)
  }

  // ---- properties of the expansion ----

  /** A literal byte is appended as it is. */
  lemma ExpandFromLiteral(s: string, table: seq<Entry>, svc: Services, i: nat)
    requires i < |s| && s[i] != '%' && s[i] != '\0'
    ensures ExpandFrom(s, table, svc, i) == [s[i]] + ExpandFrom(s, table, svc, i + 1)
  {
  }

  /** At a '%' the expansion is that of the directive there. */
  lemma ExpandFromDirective(s: string, table: seq<Entry>, svc: Services, i: nat)
    requires i < |s| && s[i] == '%'
    ensures ExpandFrom(s, table, svc, i) == ExpandAtDirective(s, table, svc, i)
  {
  }

  /** A literal byte carries no digit runs. */
  lemma TemplateFitsLiteral(s: string, i: nat)
    requires i < |s| && s[i] != '%' && s[i] != '\0' && TemplateFits(s, i)
    ensures TemplateFits(s, i + 1)
  {
  }

  /** After a directive, the rest of the template still has digit runs below 2^31. */
  lemma DirectiveFitsRest(s: string, i: nat, d: Directive)
    requires i < |s| && DirectiveFits(s, i) && ParseDirective(s, i + 1) == Some(d)
    ensures TemplateFits(s, d.keyPos + 1)
  {
  }

  /** Output that has taken in directive `d`'s substitution, followed by the expansion after its key, is the expansion from `d` on. */
  lemma DirectiveStep(s: string, table: seq<Entry>, svc: Services, d: Directive, before: string, after: string)
    requires d.keyPos < |s| && after == before + Substitute(d, s[d.keyPos], table, svc)
    ensures after + ExpandFrom(s, table, svc, d.keyPos + 1) == before + ExpandAtKey(s, table, svc, d)
  {
    var sub, rest := Substitute(d, s[d.keyPos], table, svc), ExpandFrom(s, table, svc, d.keyPos + 1);
    assert (before + sub) + rest == before + (sub + rest);
  }

  /** A run of literal bytes is appended unchanged and in order. */
  lemma {:induction false} ExpandLiteralRun(s: string, table: seq<Entry>, svc: Services, i: nat, j: nat)
    requires i <= j <= |s|
    requires forall q :: i <= q < j ==> s[q] != '%' && s[q] != '\0'
    ensures ExpandFrom(s, table, svc, i) == s[i..j] + ExpandFrom(s, table, svc, j)
    decreases j - i
  {
    if i < j {
      ExpandLiteralRun(s, table, svc, i + 1, j);
      ExpandFromLiteral(s, table, svc, i);
      assert s[i..j] == [s[i]] + s[i + 1..j];
    }
  }

  /** A template without '%' expands to itself. */
  lemma ExpandWithoutDirectives(s: string, table: seq<Entry>, svc: Services)
    requires '%' !in s && '\0' !in s
    ensures Expand(s, table, svc) == s
  {
    ExpandLiteralRun(s, table, svc, 0, |s|);
    assert s[0..|s|] == s;
  }

  /** A directive that runs into the end of the template ends the expansion: only the text before it is appended. */
  lemma ExpandStopsAtTruncatedDirective(s: string, table: seq<Entry>, svc: Services, i: nat)
    requires i < |s| && s[i] == '%' && ParseDirective(s, i + 1).None?
    requires forall q :: 0 <= q < i ==> s[q] != '%' && s[q] != '\0'
    ensures Expand(s, table, svc) == s[..i]
  {
    ExpandLiteralRun(s, table, svc, 0, i);
    assert s[0..i] == s[..i];
  }

  /** A directive whose key resolves to nothing appends nothing; scanning resumes after the key. */
  lemma ExpandSkipsUnresolvedKey(s: string, table: seq<Entry>, svc: Services, i: nat)
    requires i < |s| && s[i] == '%' && ParseDirective(s, i + 1).Some?
    requires Lookup(table, s[ParseDirective(s, i + 1).value.keyPos]).None?
    requires s[ParseDirective(s, i + 1).value.keyPos] != '%'
    ensures ExpandFrom(s, table, svc, i) == ExpandFrom(s, table, svc, ParseDirective(s, i + 1).value.keyPos + 1)
  {
    ExpandFromDirective(s, table, svc, i);
  }

  /**
   * A resolved directive appends its value run through the whole chain and
   * then formatted by the context the chain leaves behind.
   */
  lemma ExpandResolvedKey(s: string, table: seq<Entry>, svc: Services, i: nat)
    requires i < |s| && s[i] == '%' && ParseDirective(s, i + 1).Some?
    requires Resolve(table, s[ParseDirective(s, i + 1).value.keyPos]).Some?
    ensures var d := ParseDirective(s, i + 1).value;
      var r := ApplyChain(d.mods, Resolve(table, s[d.keyPos]).value, d.ctx, svc);
      ExpandFrom(s, table, svc, i) == Format(r.0, r.1) + ExpandFrom(s, table, svc, d.keyPos + 1)
  {
    ExpandFromDirective(s, table, svc, i);
  }

  /** `%%` appends a single '%' unless the table itself has a '%' entry. */
  lemma ExpandPercentPercent(table: seq<Entry>, svc: Services)
    requires Lookup(table, '%').None?
    ensures Expand("%%", table, svc) == "%"
  {
    var s := "%%";
    assert ParseNumbers(s, 1) == (Ctx(0, 0, false), 1) by {
      assert DigitsEnd(s, 1) == 1;
    }
    assert FindModifier('%').None? by {
      forall m: Modifier ensures KeyOf(m) != '%' { }
    }
    assert CollectModifiers(s, 1, []) == ([], 1);
    assert ParseDirective(s, 1) == Some(Directive(Ctx(0, 0, false), [], 1));
    FormatPlain("%", false);
  }

  // ---- the imperative var_expand ----

  /** One more digit of a run: its value so far grows by a decimal place and stays within the whole run's value. */
  lemma DigitRunStep(s: string, k: nat, e: nat)
    requires k <= |s| && k <= e < DigitsEnd(s, k)
    ensures AllDigits(s[k..e]) && AllDigits(s[k..e + 1]) && IsDigit(s[e])
    ensures DecValue(s[k..e + 1]) == DecValue(s[k..e]) * 10 + DigitValue(s[e])
    ensures DecValue(s[k..e + 1]) <= DecValue(s[k..DigitsEnd(s, k)])
  {
    var run := s[k..DigitsEnd(s, k)];
    assert s[k..e + 1] == s[k..e] + [s[e]] && s[k..e + 1] == run[..e + 1 - k];
    var upTo := s[k..e + 1];
    forall q | 0 <= q <= e - k ensures IsDigit(upTo[q]) {
      assert upTo[q] == run[q];
    }
    assert IsDigit(run[e - k]);
    var pre := s[k..e];
    forall q | 0 <= q < e - k ensures IsDigit(pre[q]) {
      assert pre[q] == upTo[q];
    }
    DecValueSnoc(s[k..e], s[e]);
    DecValuePrefix(run, e + 1 - k);
  }

  /** The digit loops of var_expand: accumulate `width*10 + digit` while the byte is a digit. */
  method ReadDigits(s: string, k: nat, ctx: Context) returns (e: nat)
    requires k <= |s| && ctx.width == 0
    requires DecValue(s[k..DigitsEnd(s, k)]) < 0x8000_0000
    modifies ctx
    ensures e == DigitsEnd(s, k) && ctx.width == DecValue(s[k..e])
    ensures ctx.offset == old(ctx.offset) && ctx.zeroPadding == old(ctx.zeroPadding)
  {
    e := k;
    while IsDigit(At(s, e))
      invariant k <= e <= DigitsEnd(s, k) && DigitsEnd(s, e) == DigitsEnd(s, k)
      invariant AllDigits(s[k..e]) && ctx.width == DecValue(s[k..e])
      invariant ctx.offset == old(ctx.offset) && ctx.zeroPadding == old(ctx.zeroPadding)
      decreases |s| - e
    {
      DigitRunStep(s, k, e);
      ctx.width := ctx.width * 10 + DigitValue(s[e]);
      e := e + 1;
    }
  }

  /** `if (*str == '0') { zero_padding = TRUE; str++; }` followed by a digit loop. */
  method ReadRunM(s: string, j: nat, ctx: Context) returns (e: nat)
    requires j <= |s| && ctx.width == 0 && !ctx.zeroPadding
    requires ReadRun(s, j).1 < 0x8000_0000
    modifies ctx
    ensures (ctx.zeroPadding, ctx.width, e) == ReadRun(s, j)
    ensures ctx.offset == old(ctx.offset)
  {
    e := j;
    if At(s, e) == '0' {
      ctx.zeroPadding := true;
      e := e + 1;
    }
    e := ReadDigits(s, e, ctx);
  }

  /** Lines `[-][0]<digits>[.[0]<digits>]` of var_expand, filling the cleared context in place. */
  method ParseNumbersM(s: string, j: nat, ctx: Context) returns (k: nat)
    requires j <= |s| && ctx.State() == Cleared && CtxFits(ParseNumbers(s, j).0)
    modifies ctx
    ensures (ctx.State(), k) == ParseNumbers(s, j)
  {
    var sign := 1;
    k := j;
    if At(s, k) == '-' {
      sign := -1;
      k := k + 1;
    }
    ghost var first := ReadRun(s, k);
    k := ReadRunM(s, k, ctx);
    if At(s, k) == '.' {
      ghost var second := ReadRun(s, k + 1);
      assert ParseNumbers(s, j) == (Ctx(sign * first.1, second.1, second.0), second.2);
      k := ReadAfterDot(s, k, sign, ctx);
    }
  }

  /** The `.` branch: the run read so far becomes the signed offset, and the run after the dot the width. */
  method ReadAfterDot(s: string, k: nat, sign: int, ctx: Context) returns (e: nat)
    requires k < |s| && (sign == 1 || sign == -1)
    requires -0x8000_0000 < sign * ctx.width as int < 0x8000_0000 && ReadRun(s, k + 1).1 < 0x8000_0000
    modifies ctx
    ensures (ctx.State(), e) == (Ctx(sign * old(ctx.width) as int, ReadRun(s, k + 1).1, ReadRun(s, k + 1).0), ReadRun(s, k + 1).2)
  {
    ctx.offset := sign * ctx.width as int;
    ctx.width := 0;
    ctx.zeroPadding := false;
    e := ReadRunM(s, k + 1, ctx);
  }

  /** The modifier-collecting loop of var_expand, filling `modifier[]` in place. */
  method CollectModifiersM(s: string, j: nat, modifier: array<Modifier>) returns (count: nat, k: nat)
    requires j <= |s| && modifier.Length == MaxModifierCount
    modifies modifier
    ensures count <= MaxModifierCount && (modifier[..count], k) == CollectModifiers(s, j, [])
  {
    count, k := 0, j;
    while count < MaxModifierCount
      invariant count <= MaxModifierCount && k <= |s|
      invariant CollectModifiers(s, k, modifier[..count]) == CollectModifiers(s, j, [])
      decreases MaxModifierCount - count
    {
      var m := LookupModifier(At(s, k));
      if m.None? {
        break;
      }
      modifier[count] := m.value;
      assert modifier[..count + 1] == modifier[..count] + [m.value];
      count, k := count + 1, k + 1;
    }
  }

  /** The table loop of var_expand: the first entry with the key, up to the sentinel. */
  method LookupVariable(table: seq<Entry>, key: char) returns (r: Option<string>)
    ensures r == Lookup(table, key)
  {
    var n := 0;
    while n < |table| && table[n].key != '\0'
      invariant n <= TableLen(table)
      invariant LookupFrom(table, key, n) == Lookup(table, key)
      decreases |table| - n
    {
      if table[n].key == key {
        return Some(ValueText(table[n].value));
      }
      n := n + 1;
    }
    return None;
  }

  /** `for (i = 0; i < modifier_count; i++) var = modifier[i](var, &ctx);` */
  method ApplyChainM(modifier: array<Modifier>, count: nat, v: string, ctx: Context, svc: Services)
    returns (r: string)
    requires count <= modifier.Length
    modifies ctx
    ensures (r, ctx.State()) == ApplyChain(modifier[..count], v, old(ctx.State()), svc)
  {
    r := v;
    var i := 0;
    while i < count
      invariant i <= count
      invariant ApplyChain(modifier[i..count], r, ctx.State(), svc)
             == ApplyChain(modifier[..count], v, old(ctx.State()), svc)
    {
      assert modifier[i..count][1..] == modifier[i + 1..count];
      r := ApplyModifierM(modifier[i], r, ctx, svc);
      i := i + 1;
    }
    assert modifier[..count] == modifier[0..count];
  }

  /** The offset step of the formatter: keeps the tail a negative offset names, or drops leading bytes while the offset lasts. */
  method SliceByOffset(v: string, ctx: Context) returns (value: string)
    modifies ctx
    ensures value == Slice(v, old(ctx.offset))
    ensures ctx.offset == if old(ctx.offset) < 0 then old(ctx.offset) else old(ctx.offset) - Min(old(ctx.offset), |v|)
    ensures ctx.width == old(ctx.width) && ctx.zeroPadding == old(ctx.zeroPadding)
  {
    value := v;
    if ctx.offset < 0 {
      var len := |value|;
      if len > -(ctx.offset as int) {
        value := value[len + ctx.offset..];
      }
    } else {
      while |value| > 0 && ctx.offset > 0
        invariant 0 <= ctx.offset <= old(ctx.offset) && old(ctx.offset) - ctx.offset <= |v|
        invariant value == v[old(ctx.offset) - ctx.offset..]
        invariant ctx.width == old(ctx.width) && ctx.zeroPadding == old(ctx.zeroPadding)
        decreases ctx.offset
      {
        ctx.offset := ctx.offset - 1;
        value := value[1..];
      }
    }
  }

  /** The width step of the formatter: appends the sliced value whole, truncated, or after '0' padding. */
  method AppendFitted(dest: StrBuf, value: string, ctx: Context)
    modifies dest, ctx
    ensures dest.contents == old(dest.contents) + Fit(value, old(ctx.width), old(ctx.zeroPadding))
    ensures ctx.width == if old(ctx.width) != 0 && old(ctx.zeroPadding) && |value| < old(ctx.width) then |value| else old(ctx.width)
    ensures ctx.offset == old(ctx.offset) && ctx.zeroPadding == old(ctx.zeroPadding)
  {
    if ctx.width == 0 {
      dest.Append(value);
    } else if !ctx.zeroPadding {
      dest.AppendN(value, ctx.width);
    } else {
      var len := |value|;
      while len < ctx.width
        invariant ctx.width <= old(ctx.width) && (len < old(ctx.width) ==> len <= ctx.width)
        invariant len >= old(ctx.width) ==> ctx.width == old(ctx.width)
        invariant dest.contents == old(dest.contents) + Zeros(old(ctx.width) - ctx.width)
        invariant ctx.offset == old(ctx.offset) && ctx.zeroPadding == old(ctx.zeroPadding)
        decreases ctx.width
      {
        assert Zeros(old(ctx.width) - ctx.width) + ['0'] == Zeros(old(ctx.width) - ctx.width + 1);
        dest.AppendChar('0');
        ctx.width := ctx.width - 1;
      }
      dest.Append(value);
    }
  }

  /**
   * The formatter of var_expand: slices by the offset, then pads or truncates
   * by the width. The offset and width it counts down are scratch afterwards:
   * the next directive clears the context before reading it again.
   */
  method AppendFormatted(dest: StrBuf, v: string, ctx: Context)
    modifies dest, ctx
    ensures dest.contents == old(dest.contents) + Format(v, old(ctx.State()))
  {
    var value := SliceByOffset(v, ctx);
    AppendFitted(dest, value, ctx);
  }

  /** The reading half of one directive: clears the context, reads the numbers and collects the modifiers. */
  method ReadDirective(str: string, j: nat, ctx: Context, modifier: array<Modifier>) returns (count: nat, p: nat)
    requires j <= |str| && CtxFits(ParseNumbers(str, j).0) && modifier.Length == MaxModifierCount
    modifies ctx, modifier
    ensures count <= MaxModifierCount && p <= |str|
    ensures ParseDirective(str, j) == if At(str, p) == '\0' then None else Some(Directive(ctx.State(), modifier[..count], p))
  {
    ctx.Clear();
    var k := ParseNumbersM(str, j, ctx);
    count, p := CollectModifiersM(str, k, modifier);
  }

  /**
   * The writing half of one directive: looks the key up, runs the chain and
   * appends the formatted value. The context is scratch afterwards, as in
   * AppendFormatted.
   */
  method SubstituteKey(dest: StrBuf, key: char, p: nat, table: seq<Entry>, svc: Services,
                       ctx: Context, modifier: array<Modifier>, count: nat)
    requires count <= modifier.Length
    modifies dest, ctx
    ensures dest.contents == old(dest.contents) + Substitute(Directive(old(ctx.State()), modifier[..count], p), key, table, svc)
  {
    var value := LookupVariable(table, key);
    if value.None? && key == '%' {
      value := Some("%");
    }
    if value.Some? {
      var r := ApplyChainM(modifier, count, value.value, ctx, svc);
      AppendFormatted(dest, r, ctx);
    }
  }

  /** The directive `d` just read, with its key at `p`: appends its substitution, ahead of the template after the key. */
  method SubstituteDirective(dest: StrBuf, str: string, table: seq<Entry>, svc: Services,
                             ctx: Context, modifier: array<Modifier>, count: nat, p: nat, ghost d: Directive)
    requires count <= modifier.Length && p < |str| && d == Directive(ctx.State(), modifier[..count], p)
    modifies dest, ctx
    ensures dest.contents + ExpandFrom(str, table, svc, d.keyPos + 1) == old(dest.contents) + ExpandAtKey(str, table, svc, d)
  {
    ghost var before := dest.contents;
    SubstituteKey(dest, str[p], p, table, svc, ctx, modifier, count);
    DirectiveStep(str, table, svc, d, before, dest.contents);
  }

  /**
   * One directive of var_expand, `i` at its '%': reads it and, unless the
   * template ends inside it, appends its substitution; `p` is the position
   * of its key, after which the expansion goes on. The context is scratch
   * afterwards: the next directive clears it first.
   */
  method ExpandDirective(dest: StrBuf, str: string, i: nat, table: seq<Entry>, svc: Services,
                         ctx: Context, modifier: array<Modifier>)
    returns (p: nat, ended: bool)
    requires i < |str| && DirectiveFits(str, i) && modifier.Length == MaxModifierCount
    modifies dest, ctx, modifier
    ensures ended ==> dest.contents == old(dest.contents) && ExpandAtDirective(str, table, svc, i) == []
    ensures !ended ==> i < p < |str| && TemplateFits(str, p + 1)
    ensures !ended ==> dest.contents + ExpandFrom(str, table, svc, p + 1) == old(dest.contents) + ExpandAtDirective(str, table, svc, i)
  {
    var count;
    count, p := ReadDirective(str, i + 1, ctx, modifier);
    ghost var d := Directive(ctx.State(), modifier[..count], p);
    if At(str, p) == '\0' {
      return p, true;
    }
    SubstituteDirective(dest, str, table, svc, ctx, modifier, count, p, d);
    ended := false;
    DirectiveFitsRest(str, i, d);
  }

  /**
   * `var_expand(dest, str, table)`: appends the expansion of the template
   * to `dest`, leaving what `dest` held before untouched.
   */
  method VarExpand(dest: StrBuf, str: string, table: seq<Entry>, svc: Services)
    requires TemplateFits(str, 0)
    modifies dest
    ensures dest.contents == old(dest.contents) + Expand(str, table, svc)
  {
    var ctx := new Context();
    var modifier := new Modifier[MaxModifierCount];
    var i := 0;
    while At(str, i) != '\0'
      invariant i <= |str| && TemplateFits(str, i)
      invariant dest.contents + ExpandFrom(str, table, svc, i) == old(dest.contents) + Expand(str, table, svc)
      decreases |str| - i
    {
      if str[i] != '%' {
        ExpandFromLiteral(str, table, svc, i);
        TemplateFitsLiteral(str, i);
        dest.AppendChar(str[i]);
        i := i + 1;
      } else {
        ExpandFromDirective(str, table, svc, i);
        var p, ended := ExpandDirective(dest, str, i, table, svc, ctx, modifier);
        if ended {
          break;
        }
        i := p + 1;
      }
    }
  }
}
