/**
 * Whole expansions of small templates, worked through the specification:
 * each one exercises one rule of the directive grammar or the formatter.
 */
module Scenarios {
  import opened Text
  import opened ExpandContext
  import opened Modifiers
  import opened Directive
  import opened Formatter
  import opened Expander

  /** A run of one digit at `k`, after a '0' exactly when `k` is past `j`. */
  lemma ReadRunOneDigit(s: string, j: nat, k: nat)
    requires j <= k < |s| && k == (if At(s, j) == '0' then j + 1 else j)
    requires IsDigit(s[k]) && !IsDigit(At(s, k + 1))
    ensures ReadRun(s, j) == (k == j + 1, DigitValue(s[k]), k + 1)
  {
    assert DigitsEnd(s, k) == k + 1 by { assert DigitsEnd(s, k + 1) == k + 1; }
    assert s[k..k + 1] == [s[k]];
    assert DecValue([s[k]]) == DecValue([]) * 10 + DigitValue(s[k]) by { assert [s[k]][..0] == []; }
  }

  /** A template `%<numbers>n` whose number part sets `c` expands to `n`'s value formatted under `c`. */
  lemma ExpandNumbersKey(s: string, c: Ctx, v: string, svc: Services)
    requires 2 <= |s| && s[0] == '%' && s[|s| - 1] == 'n' && ParseNumbers(s, 1) == (c, |s| - 1)
    ensures Expand(s, [Entry('n', Some(v))], svc) == Format(v, c)
  {
    var table := [Entry('n', Some(v))];
    var k := |s| - 1;
    assert ParseDirective(s, 1) == Some(Directive(c, [], k)) by {
      assert FindModifier('n').None? by {
        forall m: Modifier ensures KeyOf(m) != 'n' { }
      }
      assert CollectModifiers(s, k, []) == ([], k);
    }
    assert Resolve(table, 'n') == Some(v) by {
      assert TableLen(table) == 1 by { assert TableLen(table[1..]) == 0; }
      LookupFindsFirst(table, 'n', 0);
    }
    ExpandResolvedKey(s, table, svc, 0);
    assert ExpandFrom(s, table, svc, |s|) == [];
  }

  /** In `%-5n` a sign without a dot is dropped: the run is the width and the offset stays 0. */
  lemma SignWithoutDot()
    ensures ParseNumbers("%-5n", 1) == (Ctx(0, 5, false), 3)
  {
    ReadRunOneDigit("%-5n", 2, 2);
  }

  /** In `%.05n` the dot follows an empty first run: offset 0, and padding and width come from the run after the dot. */
  lemma DotAfterEmptyRun()
    ensures ParseNumbers("%.05n", 1) == (Ctx(0, 5, true), 4)
  {
    var s := "%.05n";
    assert ReadRun(s, 1) == (false, 0, 1) by {
      assert DigitsEnd(s, 1) == 1;
      assert s[1..1] == "";
    }
    ReadRunOneDigit(s, 2, 3);
  }

  /** `%05n` left-pads with '0' up to width 5. */
  lemma ZeroPaddedWidth(svc: Services)
    ensures Expand("%05n", [Entry('n', Some("7"))], svc) == "00007"
  {
    var s, c := "%05n", Ctx(0, 5, true);
    assert ParseNumbers(s, 1) == (c, 3) by { ReadRunOneDigit(s, 1, 2); }
    ExpandNumbersKey(s, c, "7", svc);
    assert Format("7", c) == "00007" by {
      assert Format("7", c) == Zeros(4) + "7";
    }
  }

  /** `%-3.2n` keeps the last three bytes, then at most two of them. */
  lemma NegativeOffsetThenWidth(svc: Services)
    ensures Expand("%-3.2n", [Entry('n', Some("world"))], svc) == "rl"
  {
    var s, c := "%-3.2n", Ctx(-3, 2, false);
    assert ParseNumbers(s, 1) == (c, 5) by {
      ReadRunOneDigit(s, 2, 2);
      ReadRunOneDigit(s, 4, 4);
    }
    ExpandNumbersKey(s, c, "world", svc);
    assert Format("world", c) == "rl" by {
      assert Slice("world", -3) == "rld";
    }
  }

  /** `%-3.5n` keeps the last three bytes; a width above what is left neither pads nor truncates. */
  lemma ShortValueNotPadded(svc: Services)
    ensures Expand("%-3.5n", [Entry('n', Some("helloworld"))], svc) == "rld"
  {
    var s, c := "%-3.5n", Ctx(-3, 5, false);
    assert ParseNumbers(s, 1) == (c, 5) by {
      ReadRunOneDigit(s, 2, 2);
      ReadRunOneDigit(s, 4, 4);
    }
    ExpandNumbersKey(s, c, "helloworld", svc);
    assert Format("helloworld", c) == "rld" by {
      assert Slice("helloworld", -3) == "rld";
    }
  }

  /** In `%03.4n` the '0' before the dot pads nothing: only a '0' after the dot asks for padding. */
  lemma DotClearsZeroPadding(svc: Services)
    ensures Expand("%03.4n", [Entry('n', Some("abcdefg"))], svc) == "defg"
  {
    var s, c := "%03.4n", Ctx(3, 4, false);
    assert ParseNumbers(s, 1) == (c, 5) by {
      ReadRunOneDigit(s, 1, 2);
      ReadRunOneDigit(s, 4, 4);
    }
    ExpandNumbersKey(s, c, "abcdefg", svc);
    assert Format("abcdefg", c) == "defg" by {
      assert Slice("abcdefg", 3) == "defg";
    }
  }
}
