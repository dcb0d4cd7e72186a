/**
  The value normalizers `currency_cleaner` and `lang_cleaner`. Neither ever
  raises: the currency cleaner answers with the missing marker (NaN, here
  `None`), the language cleaner with the string "Not Available".
 */
module Cleaners {
  import opened Wrappers
  import opened Strings
  import opened Numbers
  import opened Rows

  const BudgetUnknown := "Budget -"
  const RevenueUnknown := "Revenue -"
  const NotAvailable := "Not Available"
  const LanguageLabel := "Original Language "

  /**
    The text handed to `float`: every "Budget ", then every "Revenue ", then
    every "$", then every "," removed, and the rest stripped.
   */
  function CurrencyText(text: string): (r: string)
    ensures '$' !in r && ',' !in r
    ensures IsStripped(r)
    ensures forall c :: c in r ==> c in text
  {
    var noLabels := RemoveAll(RemoveAll(text, "Budget "), "Revenue ");
    var noDollar := RemoveAll(noLabels, "$");
    Strip(RemoveAll(noDollar, ","))
  }

  /**
    `currency_cleaner(text)`: the sentinels give the missing marker without
    parsing; anything else is the parse of `CurrencyText(text)`, missing when
    that is not a numeral.
   */
  function CurrencyCleaner(text: string): (r: Option<real>)
    ensures text == BudgetUnknown || text == RevenueUnknown ==> r.None?
    ensures r.Some? ==> CurrencyText(text) != []
    ensures r.Some? ==> forall k :: 0 <= k < |CurrencyText(text)| ==> IsNumeralChar(CurrencyText(text)[k])
  {
    if text == BudgetUnknown || text == RevenueUnknown then None
    else ParseDecimal(CurrencyText(text))
  }

  /** Which caption precedes an amount on the page. */
  predicate IsAmountLabel(caption: string) {
    caption == "Budget " || caption == "Revenue "
  }

  /** An amount written with "$", digits, thousands separators and a point. */
  predicate IsAmountBody(t: string) {
    forall k :: 0 <= k < |t| ==> IsAsciiDigit(t[k]) || t[k] == ',' || t[k] == '.'
  }

  /** Neither label nor removal touches a "$" amount body. */
  lemma {:induction false} LabelsRemoved(caption: string, tail: string)
    requires IsAmountLabel(caption) && 'B' !in tail && 'R' !in tail
    ensures RemoveAll(RemoveAll(caption + tail, "Budget "), "Revenue ") == tail
  {
    if caption == "Budget " {
      RemoveAllAfterPrefix("Budget ", tail);
      RemoveAllAbsent(tail, "Budget ");
      RemoveAllAbsent(tail, "Revenue ");
    } else {
      assert 'B' !in caption + tail by {
        forall k | 0 <= k < |caption + tail| ensures (caption + tail)[k] != 'B' {
          if k >= |caption| { assert (caption + tail)[k] == tail[k - |caption|]; }
        }
      }
      RemoveAllAbsent(caption + tail, "Budget ");
      RemoveAllAfterPrefix("Revenue ", tail);
      RemoveAllAbsent(tail, "Revenue ");
    }
  }

  /** A labelled amount is never one of the two sentinels. */
  lemma LabeledAmountIsNoSentinel(caption: string, t: string)
    requires IsAmountLabel(caption) && t != [] && t[0] != '-'
    ensures caption + "$" + t != BudgetUnknown && caption + "$" + t != RevenueUnknown
  {
    var text := caption + "$" + t;
    assert text[|caption|] == '$';
    assert text[0] == caption[0];
  }

  /**
    A labelled dollar amount is cleaned to the parse of its digits with the
    separators dropped.
   */
  lemma CurrencyOfLabeledAmount(caption: string, t: string)
    requires IsAmountLabel(caption) && t != [] && IsAmountBody(t)
    ensures CurrencyCleaner(caption + "$" + t) == ParseDecimal(RemoveAll(t, ","))
  {
    var tail := "$" + t;
    assert caption + "$" + t == caption + tail;
    assert '$' !in t by {
      forall k | 0 <= k < |t| ensures t[k] != '$' { assert IsAmountBody(t); }
    }
    assert 'B' !in tail && 'R' !in tail by {
      forall k | 0 <= k < |tail| ensures tail[k] != 'B' && tail[k] != 'R' {
        if k > 0 { assert tail[k] == t[k - 1]; }
      }
    }
    LabeledAmountIsNoSentinel(caption, t);
    LabelsRemoved(caption, tail);
    RemoveAllAfterPrefix("$", t);
    RemoveAllAbsent(t, "$");
    var u := RemoveAll(t, ",");
    assert forall k :: 0 <= k < |u| ==> IsAsciiDigit(u[k]) || u[k] == '.' by {
      forall k | 0 <= k < |u| ensures IsAsciiDigit(u[k]) || u[k] == '.' {
        assert u[k] in t;
        assert u[k] != ',';
      }
    }
    StripOfStripped(u);
  }

  /** A rendered whole amount comes back as its value, under either caption. */
  lemma CurrencyOfWholeAmount(caption: string, n: nat)
    requires IsAmountLabel(caption)
    ensures CurrencyCleaner(caption + "$" + NatDigits(n)) == Some(n as real)
  {
    var ds := NatDigits(n);
    CurrencyOfLabeledAmount(caption, ds);
    assert ',' !in ds by {
      forall k | 0 <= k < |ds| ensures ds[k] != ',' { assert IsAsciiDigit(ds[k]); }
    }
    RemoveAllAbsent(ds, ",");
    ParseNatDigits(n);
  }

  /** A labelled amount written in three comma-separated groups is the parse of the groups joined. */
  lemma CurrencyOfGroupedAmount(caption: string, a: string, b: string, c: string)
    requires IsAmountLabel(caption)
    requires IsAmountBody(a) && IsAmountBody(b) && IsAmountBody(c)
    requires ',' !in a && ',' !in b && ',' !in c
    ensures CurrencyCleaner(caption + "$" + (a + "," + b + "," + c)) == ParseDecimal(a + b + c)
  {
    var t := a + "," + b + "," + c;
    assert IsAmountBody(t) by {
      forall k | 0 <= k < |t| ensures IsAsciiDigit(t[k]) || t[k] == ',' || t[k] == '.' {
        if k < |a| {
          assert t[k] == a[k];
        } else if k == |a| {
          assert t[k] == ',';
        } else if k < |a| + 1 + |b| {
          assert t[k] == b[k - |a| - 1];
        } else if k == |a| + 1 + |b| {
          assert t[k] == ',';
        } else {
          assert t[k] == c[k - |a| - |b| - 2];
        }
      }
    }
    assert t[|a|] == ',';
    CurrencyOfLabeledAmount(caption, t);
    DropSeparators(a, b, c);
  }

  /** The worked example: "Budget $12,345,678" is 12345678. */
  lemma CurrencyExample()
    ensures CurrencyCleaner("Budget $12,345,678") == Some(12345678.0)
  {
    var a, b, c := "12", "345", "678";
    assert "Budget $12,345,678" == "Budget " + "$" + (a + "," + b + "," + c);
    assert a + b + c == "12345678";
    CurrencyOfGroupedAmount("Budget ", a, b, c);
    ParseExample();
  }

  /** A labelled amount whose digits, without separators, spell a numeral is worth that numeral. */
  lemma CurrencyOfLabeledNumeral(caption: string, t: string, n: Numeral)
    requires IsAmountLabel(caption) && t != [] && IsAmountBody(t)
    requires ValidNumeral(n) && RemoveAll(t, ",") == Spelling(n)
    ensures CurrencyCleaner(caption + "$" + t) == Some(NumeralValue(n))
  {
    CurrencyOfLabeledAmount(caption, t);
    ParseNumeral(n);
  }

  /** Whatever the currency cleaner returns is the value of the numeral its cleaned text spells. */
  lemma CurrencyIsNumeral(text: string)
    requires CurrencyCleaner(text).Some?
    ensures var n := ReadNumeral(CurrencyText(text));
      && text != BudgetUnknown && text != RevenueUnknown
      && ValidNumeral(n) && Spelling(n) == CurrencyText(text)
      && CurrencyCleaner(text) == Some(NumeralValue(n))
  {
    ParsedIsNumeral(CurrencyText(text));
  }

  /** "Budget $63,000,000.00" is 63000000. */
  lemma CurrencyFractionExample()
    ensures CurrencyCleaner("Budget $63,000,000.00") == Some(63000000.0)
  {
    var a, b, c := "63", "000", "000.00";
    assert "Budget $63,000,000.00" == "Budget " + "$" + (a + "," + b + "," + c);
    assert a + b + c == "63000000.00";
    CurrencyOfGroupedAmount("Budget ", a, b, c);
    ParseFractionExample();
  }

  /**
    `lang_cleaner(text)`: on a string, every "Original Language " removed and
    the rest stripped; on anything else (`.replace` raises) "Not Available".
   */
  function LangCleaner(text: Cell): (r: string)
    ensures text.NaN? ==> r == NotAvailable
    ensures text.Text? ==> IsStripped(r) && forall c :: c in r ==> c in text.s
  {
    match text
    case Text(s) => Strip(RemoveAll(s, LanguageLabel))
    case NaN => NotAvailable
  }

  /** A labelled language name that does not itself contain the label is cleaned to the name. */
  lemma LangOfLabeledName(w: string)
    requires IsStripped(w) && forall i :: !OccursAt(w, LanguageLabel, i)
    ensures LangCleaner(Text(LanguageLabel + w)) == w
  {
    RemoveAllAfterPrefix(LanguageLabel, w);
    RemoveAllNoOccurrence(w, LanguageLabel);
    StripOfStripped(w);
  }

  /** The worked example: "Original Language English" is "English". */
  lemma LangExample()
    ensures LangCleaner(Text("Original Language English")) == "English"
  {
    var w := "English";
    assert "Original Language English" == LanguageLabel + w;
    forall i ensures !OccursAt(w, LanguageLabel, i) { }
    LangOfLabeledName(w);
  }
}
