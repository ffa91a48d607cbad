# var-expand in Dafny

A model of the `%`-template expander of `src/lib/var-expand.c`. `var_expand(dest, str, table)` copies a NUL-terminated template into a growable string `dest`. Each `%` directive `%[-][0]<digits>[.[0]<digits>]<modifiers><key>` is replaced as follows:

- the key is looked up in a caller table;
- the value goes through at most ten one-letter modifiers (`L U E X R H M D`);
- it is then sliced by the directive's offset;
- then it is truncated or zero-padded to its width.

`var_get_key` skips the same grammar and returns the key byte.

The project has a pure specification and imperative code proved against it:

- **Specification** (`Expander.Expand`):
  - `Directive.ParseNumbers`, `Directive.CollectModifiers` and `Directive.ParseDirective` read one directive.
  - `Modifiers.ApplyChain` runs the modifier chain.
  - `Formatter.Format` formats the result.
  - `Expander.ExpandFrom` walks the template.
- **Imperative layer**, which follows the C code statement by statement:
  - `Expander.VarExpand` runs the main loop over the template.
  - `ExpandContext.Context` is the `struct var_expand_context` that is cleared and filled field by field.
  - An `array<Modifier>` of length `MAX_MODIFIER_COUNT` stands for `modifier[]`.
  - `Str.StrBuf` is the `dest` string.
  - `MStrReverse`, `MStrLdapDn` and `MStrHash` are the loops of the modifiers that build their results step by step.
  - `VarGetKey` is the three skipping loops of `var_get_key`.

  Each method's `ensures` ties its result or new state to the specification. Lemmas state what the source promises about that specification.

Files:

- `text.dfy`: the C-string view (`At` returns `'\0'` past the end), digit runs, `printf("%x")`, and `strtoull` in the C locale.
- `context.dfy`: the context.
- `str.dfy`: the three `string_t` appends.
- `modifiers.dfy`: the registry and the eight modifiers.
- `directive.dfy`: the directive grammar and `var_get_key`.
- `format.dfy`: offset and width.
- `expand.dfy`: `var_expand`.
- `scenarios.dfy`: worked templates.

Edge cases of the C code that the model keeps:

- **`X` on out-of-range input.** `X` follows `strtoull`: it saturates at 2^64-1 on a too-large number and negates modulo 2^64 after a `-` (`Text.StrToUll`).
- **`%%` and a `'%'` table entry.** The table lookup comes first (lines 195-207). A `'%'` entry therefore wins, and `%%` appends `"%"` only when the table has none (`Expander.ExpandPercentPercent`).
- **Where `var_get_key` and `var_expand` disagree.** `var_get_key` skips any number of modifier letters and every `-`. `var_expand` takes the eleventh letter as the key, and a `-` after the first byte ends its number part. With `-` only in front, `Directive.GetKeyMatchesExpandKey` proves the two keys agree exactly when there are at most ten modifier letters. `Directive.DashInsideNumberDisagrees` shows `"0-5n"`, where they differ.

## Model

| member | source | states |
|---|---|---|
| Text.DigitsEnd | src/lib/var-expand.c:150-153 | the digit loop stops at the first non-digit after `j`, or at the end of the template; every byte it passes is a digit |
| Text.DecString | src/lib/var-expand.c:150-153 | the canonical decimal spelling is a non-empty digit run without a leading zero |
| Text.DecValueOfDecString | src/lib/var-expand.c:150-153 | accumulating `value*10 + digit` over the decimal spelling of `n` gives back `n` |
| Text.DecValue | src/lib/var-expand.c:150-153 | the value of a digit run, accumulated left to right as `value*10 + digit` |
| Text.HexOf | src/lib/var-expand.c:48 | `%x`/`%llx` output is non-empty lowercase hex with no leading zero unless the value is 0 |
| Text.ParseHexOfHexOf | src/lib/var-expand.c:48 | reading the `%x` rendering of `n` back as hex gives `n` |
| Text.ParseHexZeros | src/lib/var-expand.c:76-77 | zeros inserted in front of hex text leave its value unchanged |
| Text.SkipSpaces | src/lib/var-expand.c:47 | `strtoull` skips leading white space up to the first byte that is not a space |
| Text.StrToUll | src/lib/var-expand.c:47 | `strtoull(value, NULL, 10)` in the C locale: spaces, an optional sign, the longest digit run; saturates above 2^64-1 and negates modulo 2^64 after `-`; the result never exceeds 2^64-1 |
| ExpandContext.Context.constructor | src/lib/var-expand.c:131 | a fresh context is all zero: offset 0, width 0, no zero padding |
| ExpandContext.Context.Clear | src/lib/var-expand.c:139 | `memset(&ctx, 0, ...)` resets offset, width and zero padding |
| Str.StrBuf.AppendChar | src/lib/var-expand.c:134 | `str_append_c` adds one byte and keeps what was there |
| Str.StrBuf.Append | src/lib/var-expand.c:227 | `str_append` adds the whole value and keeps what was there |
| Str.StrBuf.AppendN | src/lib/var-expand.c:229 | `str_append_n` adds the first min(n, length) bytes of the value and keeps what was there |
| Modifiers.IndexOf | src/lib/var-expand.c:108-118 | every modifier sits in `modifiers[]` under its own letter |
| Modifiers.KeyOf | src/lib/var-expand.c:108-118 | the letter each modifier is registered under; every letter is an uppercase ASCII letter |
| Modifiers.FindModifierFrom | src/lib/var-expand.c:178-186 | the scan from entry `n` returns only a modifier with the searched letter, and returns every modifier with that letter at or after `n` |
| Modifiers.FindModifier | src/lib/var-expand.c:178-186 | the registry lookup of a byte returns only a modifier registered under it, and every modifier registered under it |
| Modifiers.FindModifierIsKeyOf | src/lib/var-expand.c:108-118 | a letter finds modifier `m` if and only if `m` is written with that letter |
| Modifiers.LookupModifier | src/lib/var-expand.c:178-186 | the table loop returns the registry entry for the byte, or none |
| Modifiers.ToLower | src/lib/var-expand.c:24-28 | the ASCII lowercase map: the result is never an uppercase letter, and only uppercase letters change |
| Modifiers.ToUpper | src/lib/var-expand.c:30-34 | the ASCII uppercase map: the result is never a lowercase letter, and only lowercase letters change |
| Modifiers.StrLcase | src/lib/var-expand.c:24-28 | `L` keeps the length and lowercases every byte in place |
| Modifiers.StrUcase | src/lib/var-expand.c:30-34 | `U` keeps the length and uppercases every byte in place |
| Modifiers.CaseMapsFold | src/lib/var-expand.c:24-34 | `L` and `U` are idempotent; `L` after `U` equals `L` alone, and `U` after `L` equals `U` alone |
| Modifiers.StrHex | src/lib/var-expand.c:42-49 | `X` is lowercase hex with no leading zero whose value is `strtoull(value, NULL, 10)` |
| Modifiers.StrHexOfDigits | src/lib/var-expand.c:42-49 | on a value starting with a digit run that fits in 64 bits, `X` renders exactly that run's decimal value |
| Modifiers.StrHexOfNoDigits | src/lib/var-expand.c:42-49 | on a value without any digit, `X` gives `"0"` |
| Modifiers.StrReverse | src/lib/var-expand.c:51-63 | `R` keeps the length |
| Modifiers.StrReverseAt | src/lib/var-expand.c:51-63 | byte `k` of the reversal is byte `len-1-k` of the value |
| Modifiers.StrReverseTwice | src/lib/var-expand.c:51-63 | `R` is an involution: reversing twice restores the value |
| Modifiers.MStrReverse | src/lib/var-expand.c:51-63 | filling a fresh buffer from its end produces the reversal |
| Modifiers.StrLdapDn | src/lib/var-expand.c:92-105 | `D` replaces every `.` by `,dc=` and copies every other byte, in order |
| Modifiers.StrLdapDnShape | src/lib/var-expand.c:92-105 | `D` adds three bytes per dot, leaves no dot behind, and changes the value if and only if it has a dot |
| Modifiers.StrLdapDnRoundTrip | src/lib/var-expand.c:92-105 | on a value without commas, reading every `,dc=` back as `.` restores the value |
| Modifiers.MStrLdapDn | src/lib/var-expand.c:92-105 | the append loop produces `,dc=` for each dot and copies every other byte, in order |
| Modifiers.BinaryToHex | src/lib/var-expand.c:89 | `binary_to_hex` gives two lowercase hex bytes per input byte |
| Modifiers.BinaryToHexRoundTrip | src/lib/var-expand.c:89 | decoding the hex rendering gives back the digest |
| Modifiers.StrMd5 | src/lib/var-expand.c:83-90 | `M` is 32 lowercase hex bytes that decode to the MD5 digest of the value |
| Modifiers.StrHashValue | src/lib/var-expand.c:67-73 | the hash fits in 32 bits and, when a width is set, is below the width |
| Modifiers.PadLeft | src/lib/var-expand.c:76-77 | the padded text is zeros followed by the text, exactly as long as the larger of the two lengths |
| Modifiers.StrHash | src/lib/var-expand.c:65-81 | `H` leaves offset and width 0 and keeps the zero-padding flag |
| Modifiers.StrHashSpec | src/lib/var-expand.c:65-81 | `H` is lowercase hex worth the hash reduced by the width (so below a non-zero width), at least `offset` bytes long |
| Modifiers.PadToOffset | src/lib/var-expand.c:76-77 | the insert loop pads the `%x` text with leading zeros to the offset |
| Modifiers.MStrHash | src/lib/var-expand.c:65-81 | on the live context, `m_str_hash` returns the `H` value and leaves the context `H` specifies |
| Modifiers.ApplyModifier | src/lib/var-expand.c:211 | every modifier except `H` leaves the context unchanged |
| Modifiers.ApplyModifierM | src/lib/var-expand.c:211 | calling `modifier[i](var, &ctx)` has the effect of that modifier's specification on the value and on the context |
| Modifiers.ApplyChain | src/lib/var-expand.c:209-211 | the chain applies `modifier[0..count)` left to right, each to the value and context the previous one left |
| Modifiers.ApplyChainSplit | src/lib/var-expand.c:209-211 | the chain runs left to right: a split chain's second part consumes the value and context the first part produced |
| Modifiers.ChainWithoutHashKeepsCtx | src/lib/var-expand.c:209-211 | a chain without `H` hands the formatter the context the parser set |
| Modifiers.ChainWithHashClearsCtx | src/lib/var-expand.c:65-81 | once `H` is in the chain, the formatter sees offset 0 and width 0 |
| Directive.ParseNumbers | src/lib/var-expand.c:142-173 | the number part ends inside the template, no earlier than it starts |
| Directive.ReadRun | src/lib/var-expand.c:146-153 | a `[0]<digits>` run ends inside the template, no earlier than it starts |
| Directive.CollectModifiers | src/lib/var-expand.c:175-190 | modifiers are collected greedily in template order, at most ten, each the registry entry of its byte; fewer than ten only when the next byte is not a modifier letter; the scan advances one byte per modifier |
| Directive.ParseDirective | src/lib/var-expand.c:139-193 | a parsed directive has at most ten modifiers and its key inside the template, after the `%` |
| Directive.ParseDirectiveKey | src/lib/var-expand.c:192-193 | a directive is read exactly when the byte after its modifiers is not the end of the template, so its key is never `'\0'` |
| Directive.ParseWidthText | src/lib/var-expand.c:146-153 | a canonical `[0]<digits>` run sets zero padding exactly when it starts with `0`, and its digits give the width |
| Directive.ReadRunOfWidthText | src/lib/var-expand.c:146-153 | reading a canonical run gives its flag and value and stops right after it |
| Directive.ParseUndottedText | src/lib/var-expand.c:142-153 | without a `.`, the run is the width and the offset stays 0 |
| Directive.ParseDottedText | src/lib/var-expand.c:155-173 | with a `.`, the signed first run is the offset, a `0` before the dot leaves no padding, padding comes from the second run only, and the second run is the width |
| Directive.ParseNumbersText | src/lib/var-expand.c:142-173 | a spelling of any context, with or without a `0` before the dot, parses back to that context and is consumed whole |
| Directive.SkipNumberChars | src/lib/var-expand.c:249-250 | the first loop passes only digits and `-` and stops at neither |
| Directive.SkipModifierLetters | src/lib/var-expand.c:258-265 | the last loop passes only modifier letters, with no limit, and stops at a byte that is not one |
| Directive.NumberPartEnd | src/lib/var-expand.c:249-256 | the number part `var_get_key` skips ends inside the string |
| Directive.SkipNumberPart | src/lib/var-expand.c:249-256 | the first two loops stop where the number part ends |
| Directive.VarGetKey | src/lib/var-expand.c:244-268 | `var_get_key` returns the byte after the number part and all modifier letters, `'\0'` at the end |
| Directive.GetKey | src/lib/var-expand.c:244-268 | the byte after the number part and all modifier letters that `var_get_key` returns; it is never a modifier letter |
| Directive.ExpandKey | src/lib/var-expand.c:192-197 | the key byte `var_expand` reads for a directive; `'\0'` exactly when the template ends first |
| Directive.NumberPartsAgree | src/lib/var-expand.c:142-173 | with `-` only in front, `var_expand` and `var_get_key` end the number part at the same byte |
| Directive.GetKeyMatchesExpandKey | src/lib/var-expand.c:244-268 | with `-` only in front, `var_get_key` returns `var_expand`'s key if and only if there are at most ten modifier letters |
| Directive.DashInsideNumberDisagrees | src/lib/var-expand.c:249-250 | on `0-5n`, `var_get_key` returns `n` while `var_expand` reads key `-` |
| Formatter.Slice | src/lib/var-expand.c:213-225 | a negative offset keeps the last min(len, \|offset\|) bytes; a positive one drops min(offset, len) leading bytes |
| Formatter.Fit | src/lib/var-expand.c:226-238 | width 0 keeps the value; without padding, at most `width` leading bytes; with padding, zeros in front up to `width`, never truncated |
| Formatter.FormatPlain | src/lib/var-expand.c:226-227 | with no offset and no width the value is appended as it is |
| Formatter.Format | src/lib/var-expand.c:213-238 | the formatter slices by the offset, then fits to the width |
| Formatter.FormatLength | src/lib/var-expand.c:213-238 | the formatted value is never longer than the value unless zero padding fills it to the width; without padding it is at most a non-zero width, with padding at least the width |
| Expander.TableLen | src/lib/var-expand.c:196 | the table scan stops at the sentinel; no entry before it has key `'\0'` |
| Expander.LookupFindsFirst | src/lib/var-expand.c:195-201 | the first entry before the sentinel with the key wins, and a NULL value reads as `""` |
| Expander.ValueText | src/lib/var-expand.c:198 | a NULL table value reads as `""` |
| Expander.LookupFrom | src/lib/var-expand.c:195-201 | the table scan from entry `n` finds nothing exactly when no entry from `n` to the sentinel has the key |
| Expander.Lookup | src/lib/var-expand.c:195-201 | the table lookup finds nothing exactly when no entry before the sentinel has the key |
| Expander.Resolve | src/lib/var-expand.c:195-207 | a found value is used; an unmatched key resolves only when it is `%`, and then to `"%"` |
| Expander.Substitute | src/lib/var-expand.c:209-239 | an unresolved key appends nothing |
| Expander.ExpandFrom | src/lib/var-expand.c:132-134 | the expansion from position `i`: nothing at the end of the template, a literal byte followed by the rest, or the directive at a `%` |
| Expander.ExpandAtDirective | src/lib/var-expand.c:135-193 | the expansion from a `%`: nothing when the template ends inside the directive |
| Expander.ExpandAtKey | src/lib/var-expand.c:195-240 | the expansion from a read directive: its substitution, then the template after its key |
| Expander.Expand | src/lib/var-expand.c:120-242 | everything `var_expand` appends for a template: the expansion from position 0 |
| Expander.ExpandFromLiteral | src/lib/var-expand.c:133-134 | a literal byte is appended as it is before the rest |
| Expander.ExpandLiteralRun | src/lib/var-expand.c:132-134 | a run of literal bytes is appended unchanged and in order |
| Expander.ExpandWithoutDirectives | src/lib/var-expand.c:132-134 | a template without `%` expands to itself |
| Expander.ExpandStopsAtTruncatedDirective | src/lib/var-expand.c:192-193 | when the template's first directive reaches the end before its key, the expansion ends: only the literal text before it is appended |
| Expander.ExpandSkipsUnresolvedKey | src/lib/var-expand.c:203-209 | an unmatched key other than `%` appends nothing, and scanning resumes after the key |
| Expander.ExpandResolvedKey | src/lib/var-expand.c:209-238 | a resolved key appends its value run through the whole chain and formatted with the context the chain leaves |
| Expander.ExpandPercentPercent | src/lib/var-expand.c:203-207 | `%%` appends `"%"` when the table has no `'%'` entry |
| Expander.DigitRunStep | src/lib/var-expand.c:150-153 | each digit adds one decimal place and stays within the whole run's value |
| Expander.ReadDigits | src/lib/var-expand.c:150-153 | the digit loop accumulates the run's decimal value into `ctx.width` and stops at its end |
| Expander.ReadRunM | src/lib/var-expand.c:146-153 | a `[0]<digits>` run sets zero padding and width as `ReadRun` reads them |
| Expander.ParseNumbersM | src/lib/var-expand.c:142-173 | the number-part statements leave the context and position that `ParseNumbers` specifies |
| Expander.ReadAfterDot | src/lib/var-expand.c:155-172 | at `.`, the offset becomes sign times the first run, padding restarts from false, and the second run is the width |
| Expander.CollectModifiersM | src/lib/var-expand.c:175-190 | the loop fills `modifier[0..count)` with the collected chain and stops where `CollectModifiers` does |
| Expander.LookupVariable | src/lib/var-expand.c:195-201 | the table loop returns the first match before the sentinel, NULL as `""` |
| Expander.ApplyChainM | src/lib/var-expand.c:209-211 | the call loop gives the chain's value and leaves the context the chain specifies |
| Expander.SliceByOffset | src/lib/var-expand.c:213-225 | the offset step yields the sliced value and counts `ctx.offset` down by the bytes it skipped |
| Expander.AppendFitted | src/lib/var-expand.c:226-238 | the width step appends the fitted value; the padding loop leaves `ctx.width` at the value's length |
| Expander.AppendFormatted | src/lib/var-expand.c:213-238 | the formatter appends `Format(value, ctx)` to `dest` |
| Expander.ReadDirective | src/lib/var-expand.c:139-190 | clearing and parsing fill the context and `modifier[]` with the directive, or report the template's end |
| Expander.SubstituteKey | src/lib/var-expand.c:195-239 | lookup, `%` fallback, chain and formatter together append the directive's substitution |
| Expander.ExpandDirective | src/lib/var-expand.c:135-240 | one directive appends what the specification expands it to; the scan goes on after its key, or ends |
| Expander.SubstituteDirective | src/lib/var-expand.c:195-240 | after a directive is read, the appended substitution followed by the template after the key is that directive's expansion |
| Expander.VarExpand | src/lib/var-expand.c:120-242 | `var_expand` appends exactly the expansion of the template and leaves the prior content of `dest` untouched |
| Scenarios.ExpandNumbersKey | src/lib/var-expand.c:139-238 | a template that is one directive `%<numbers>n`, with no modifiers, expands to `n`'s value formatted under the context its number part sets |
| Scenarios.SignWithoutDot | src/lib/var-expand.c:142-155 | `%-5n` reads width 5 and offset 0: without a `.` the sign is dropped |
| Scenarios.DotAfterEmptyRun | src/lib/var-expand.c:155-173 | `%.05n` reads offset 0, zero padding and width 5: the run after the dot gives both |
| Scenarios.ZeroPaddedWidth | src/lib/var-expand.c:230-237 | `%05n` with `n` = `"7"` expands to `"00007"` |
| Scenarios.NegativeOffsetThenWidth | src/lib/var-expand.c:155-229 | `%-3.2n` with `n` = `"world"` expands to `"rl"` |
| Scenarios.DotClearsZeroPadding | src/lib/var-expand.c:155-167 | `%03.4n` with `n` = `"abcdefg"` expands to `"defg"`: the `0` before the dot pads nothing |
| Scenarios.ShortValueNotPadded | src/lib/var-expand.c:213-229 | `%-3.5n` with `n` = `"helloworld"` expands to `"rld"`: a width above what is left neither pads nor truncates |

## Left out

- `src/lib-http/test-http-client-errors.c`, an HTTP client test harness of processes, sockets and timers, is not part of this model.
- `str_hash`, `md5_get_digest` and `str_escape` live in files that are not part of this model. They are fields of `Modifiers.Services`: a 32-bit hash, a 16-byte digest and an arbitrary string map. `E` is therefore `svc.escape` and nothing more is proved about it.
- `t_str_lcase` and `t_str_ucase` are modelled as ASCII byte maps; locale handling is not modelled.
- Data-stack and pool allocation (`t_malloc`, `t_str_new`, `str_free_without_data`) are not modelled; buffers are Dafny strings and a fresh `array`.
- `str.c` is not part of this model. `Str.StrBuf.AppendN` appends min(n, length) bytes of the value; it does not read past the end of a shorter value.
- Expander.VarExpand: requires `TemplateFits`, meaning every digit run of every directive is below 2^31; runs of 2^31 or more are excluded, not only those that overflow `unsigned int`. The wrap-around of the `unsigned int` accumulation (lines 150-153, 169-172) and of the `(int)` cast at line 156 is not modelled.
- Expander.ParseNumbersM: requires the same bound for its directive (`CtxFits`), for the same reason.
- Each Dafny `char` stands for one byte (0..255) of a C string, and the model is exact only for strings of such chars. For a char above 255 the byte-wise C code has no counterpart: `R` would reverse code points where `m_str_reverse` reverses bytes, and `L`, `U`, `H` and `M` work on bytes.
- Table values and modifier results are Dafny strings. A value with an embedded `'\0'`, which C would cut short there, is not modelled. In the template, `At` does treat a `'\0'` byte as the end.
- Directive.GetKeyMatchesExpandKey: requires that `-` occurs only in front of the number part, as the grammar writes it. `Directive.DashInsideNumberDisagrees` shows what happens otherwise.
- Expander.AppendFormatted: does not state the context it leaves; the offset and width it counts down are dead until the next directive clears the context (line 139).
- Expander.SubstituteKey: does not state the context it leaves, for the same reason.
- Expander.ExpandDirective: does not state the context or the `modifier[]` contents it leaves, for the same reason: the next directive clears the context and rewrites `modifier[0..count)` before reading either.
- Expander.SubstituteDirective: does not state the context it leaves, for the same reason.
