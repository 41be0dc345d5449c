/** `formatCurrency` (app.js:98-103): the amount rendered with two decimals
    by `toFixed(2)`, then a comma put in front of every group of three
    digits counted from the right of the integer part by a regular
    expression replacement, then the yuan sign in front. Amounts are whole
    cents, so the two decimals are exact. */
module Currency {
  import opened Wrappers
  import opened Seqs

  predicate IsDigit(c: char) { '0' <= c <= '9' }

  predicate AllDigits(s: string)
  {
    forall i :: 0 <= i < |s| ==> IsDigit(s[i])
  }

  function DigitChar(d: nat): (c: char)
    requires d < 10
    ensures IsDigit(c)
  {
    ('0' as int + d) as char
  }

  function DigitValue(c: char): nat
    requires IsDigit(c)
  {
    c as int - '0' as int
  }

  /** The decimal numeral of `n`, without leading zeros. */
  function Digits(n: nat): (r: string)
    ensures |r| > 0 && AllDigits(r)
    ensures |r| > 1 ==> r[0] != '0'
  {
    if n < 10 then [DigitChar(n)]
    else
      var r := Digits(n / 10) + [DigitChar(n % 10)];
      assert r[0] == Digits(n / 10)[0];
      r
  }

  /** The number a string of decimal digits denotes. */
  function ValueOf(ds: string): nat
    requires AllDigits(ds)
  {
    if ds == [] then 0 else ValueOf(ds[..|ds| - 1]) * 10 + DigitValue(ds[|ds| - 1])
  }

  /** Reading the numeral of `n` gives back `n`. */
  lemma {:induction false} DigitsValue(n: nat)
    ensures ValueOf(Digits(n)) == n
  {
    if n >= 10 {
      DigitsValue(n / 10);
      var r := Digits(n);
      assert r[..|r| - 1] == Digits(n / 10);
    }
  }

  /** `amount.toFixed(2)` for an amount of `cents` hundredths: a minus sign
      for a negative amount, the integer part, a point and two decimals. */
  function ToFixed2(cents: int): (r: string)
    ensures |r| >= 4 && r[|r| - 3] == '.' && AllDigits(r[|r| - 2..])
    ensures r[0] == '-' <==> cents < 0
  {
    Sign(cents) + Digits(Magnitude(cents) / 100) + "." + Decimals(Magnitude(cents))
  }

  function Sign(cents: int): string
  {
    if cents < 0 then "-" else ""
  }

  function Magnitude(cents: int): nat
  {
    if cents < 0 then -cents else cents
  }

  /** The two decimals of an amount of `a` cents. */
  function Decimals(a: nat): (r: string)
    ensures |r| == 2 && AllDigits(r)
  {
    [DigitChar(a % 100 / 10), DigitChar(a % 10)]
  }

  /** `\w` of a regular expression: a letter, a digit or `_`. */
  predicate IsWordChar(c: char)
  {
    'a' <= c <= 'z' || 'A' <= c <= 'Z' || IsDigit(c) || c == '_'
  }

  /** Whether there is a word character at index `i` (none outside `t`). */
  predicate WordAt(t: string, i: int)
  {
    0 <= i < |t| && IsWordChar(t[i])
  }

  /** The number of digits in a row from position `p` on. */
  function DigitRun(t: string, p: nat): (n: nat)
    requires p <= |t|
    ensures p + n <= |t|
    decreases |t| - p
  {
    if p < |t| && IsDigit(t[p]) then 1 + DigitRun(t, p + 1) else 0
  }

  /** Whether `/\B(?=(\d{3})+(?!\d))/` matches at position `p`: `p` is not
      a word boundary, and what follows is a positive multiple of three
      digits and then no digit. */
  predicate SeparatorAt(t: string, p: nat)
    requires p <= |t|
  {
    var run := DigitRun(t, p);
    WordAt(t, p - 1) == WordAt(t, p) && run > 0 && run % 3 == 0
  }

  /** `t.replace(/\B(?=(\d{3})+(?!\d))/g, ',')` from position `p` on: a
      comma at every position where the pattern matches. (The pattern
      cannot match at the end, where no digit follows.) */
  function Separate(t: string, p: nat): (r: string)
    requires p <= |t|
    ensures |r| >= |t| - p
    decreases |t| - p
  {
    if p == |t| then []
    else (if SeparatorAt(t, p) then "," else "") + [t[p]] + Separate(t, p + 1)
  }

  /** `formatCurrency(amount)`; `None` stands for a value that is not a
      number, or is `NaN`. */
  function FormatCurrency(amount: Option<int>): (r: string)
    ensures |r| > 0 && r[0] == '¥'
    ensures amount.None? ==> r == "¥0.00"
  {
    match amount
    case None => "¥0.00"
    case Some(c) => "¥" + Separate(ToFixed2(c), 0)
  }

  /** The digits `ds` grouped by threes from the right, joined by commas. */
  function Group(ds: string): string
  {
    if |ds| <= 3 then ds else Group(ds[..|ds| - 3]) + "," + ds[|ds| - 3..]
  }

  /** Commas put by position within a string of digits: before index `k`
      when `k > 0` and the digits from `k` on come in whole groups of three. */
  function GroupFrom(ds: string, k: nat): string
    requires k <= |ds|
    decreases |ds| - k
  {
    if k == |ds| then []
    else (if k > 0 && (|ds| - k) % 3 == 0 then "," else "") + [ds[k]] + GroupFrom(ds, k + 1)
  }

  lemma {:induction false} GroupFromShort(ds: string, k: nat)
    requires k <= |ds| <= 3
    ensures GroupFrom(ds, k) == ds[k..]
    decreases |ds| - k
  {
    if k < |ds| {
      GroupFromShort(ds, k + 1);
      assert ds[k..] == [ds[k]] + ds[k + 1..];
    }
  }

  lemma GroupFromLastThree(a: string, b: string)
    requires |a| > 0 && |b| == 3
    ensures GroupFrom(a + b, |a|) == "," + b
  {
    var ab := a + b;
    var n := |a|;
    assert |ab| == n + 3;
    assert ab[n] == b[0] && ab[n + 1] == b[1] && ab[n + 2] == b[2];
    assert GroupFrom(ab, n + 3) == [];
    assert GroupFrom(ab, n + 2) == [b[2]];
    assert GroupFrom(ab, n + 1) == [b[1]] + [b[2]];
    assert GroupFrom(ab, n) == "," + [b[0]] + ([b[1]] + [b[2]]);
  }

  /** Appending three more digits to a numeral adds one comma and the group. */
  lemma {:induction false} GroupFromAppend(a: string, b: string, k: nat)
    requires |a| > 0 && |b| == 3 && k <= |a|
    ensures GroupFrom(a + b, k) == GroupFrom(a, k) + "," + b
    decreases |a| - k
  {
    var ab := a + b;
    if k == |a| {
      GroupFromLastThree(a, b);
    } else {
      GroupFromAppend(a, b, k + 1);
      assert ab[k] == a[k];
      assert (|ab| - k) % 3 == (|a| - k) % 3;
      var head: string := (if k > 0 && (|a| - k) % 3 == 0 then "," else "") + [a[k]];
      var rest := GroupFrom(a, k + 1);
      assert GroupFrom(ab, k) == head + (rest + "," + b);
      assert GroupFrom(a, k) == head + rest;
      RegroupAppend(head, rest, ",", b);
    }
  }

  lemma RegroupAppend(a: string, b: string, c: string, d: string)
    ensures a + (b + c + d) == a + b + c + d
  {
  }

  /** Putting commas by position is grouping by threes from the right. */
  lemma {:induction false} GroupFromIsGroup(ds: string)
    ensures GroupFrom(ds, 0) == Group(ds)
    decreases |ds|
  {
    if |ds| <= 3 {
      GroupFromShort(ds, 0);
    } else {
      var a, b := ds[..|ds| - 3], ds[|ds| - 3..];
      assert ds == a + b;
      GroupFromAppend(a, b, 0);
      GroupFromIsGroup(a);
    }
  }

  /** The shape `toFixed(2)` produces: an optional minus sign, the digits
      of the integer part, a point and two decimals. */
  predicate FixedShape(sign: string, ds: string, frac: string)
  {
    (sign == "" || sign == "-") && |ds| > 0 && AllDigits(ds) && |frac| == 2 && AllDigits(frac)
  }

  lemma {:induction false} DigitRunInFixed(sign: string, ds: string, frac: string, k: nat)
    requires FixedShape(sign, ds, frac) && k <= |ds|
    ensures DigitRun(sign + ds + "." + frac, |sign| + k) == |ds| - k
    decreases |ds| - k
  {
    var t := sign + ds + "." + frac;
    if k < |ds| {
      DigitRunInFixed(sign, ds, frac, k + 1);
      assert t[|sign| + k] == ds[k];
    } else {
      assert t[|sign| + k] == '.';
    }
  }

  /** After the integer part the pattern never matches: the point and the
      two decimals are copied unchanged. */
  lemma FractionUnchanged(sign: string, ds: string, frac: string)
    requires FixedShape(sign, ds, frac)
    ensures Separate(sign + ds + "." + frac, |sign| + |ds|) == "." + frac
  {
    var t := sign + ds + "." + frac;
    var p := |sign| + |ds|;
    assert |t| == p + 3;
    assert t[p] == '.' && t[p + 1] == frac[0] && t[p + 2] == frac[1];
    assert DigitRun(t, p + 2) == 1;
    assert DigitRun(t, p + 1) == 2;
    assert Separate(t, p + 3) == [];
    assert Separate(t, p + 2) == [frac[1]];
    assert Separate(t, p + 1) == [frac[0]] + [frac[1]];
    assert frac == [frac[0]] + [frac[1]];
  }

  /** Inside the integer part the pattern matches exactly where grouping
      by threes puts a comma; in particular not at its first digit, which
      follows the start of the string or the minus sign. */
  lemma {:induction false} SeparateIntegerPart(sign: string, ds: string, frac: string, k: nat)
    requires FixedShape(sign, ds, frac) && k <= |ds|
    ensures Separate(sign + ds + "." + frac, |sign| + k) == GroupFrom(ds, k) + ("." + frac)
    decreases |ds| - k
  {
    var t := sign + ds + "." + frac;
    var p := |sign| + k;
    if k == |ds| {
      FractionUnchanged(sign, ds, frac);
    } else {
      SeparateIntegerPart(sign, ds, frac, k + 1);
      SeparatorInInteger(sign, ds, frac, k);
      assert t[p] == ds[k];
      var head: string := (if k > 0 && (|ds| - k) % 3 == 0 then "," else "") + [ds[k]];
      assert Separate(t, p) == head + Separate(t, p + 1);
      assert GroupFrom(ds, k) == head + GroupFrom(ds, k + 1);
      AppendAssoc(head, GroupFrom(ds, k + 1), "." + frac);
    }
  }

  lemma AppendAssoc(a: string, b: string, c: string)
    ensures (a + b) + c == a + (b + c)
  {
  }

  /** Where the pattern matches inside the integer part. */
  lemma SeparatorInInteger(sign: string, ds: string, frac: string, k: nat)
    requires FixedShape(sign, ds, frac) && k < |ds|
    ensures SeparatorAt(sign + ds + "." + frac, |sign| + k) <==> k > 0 && (|ds| - k) % 3 == 0
  {
    var t := sign + ds + "." + frac;
    var p := |sign| + k;
    DigitRunInFixed(sign, ds, frac, k);
    assert t[p] == ds[k];
    assert WordAt(t, p);
    if k > 0 {
      assert t[p - 1] == ds[k - 1];
    } else if sign == "-" {
      assert t[p - 1] == '-';
    }
  }

  /** The replacement on a whole `toFixed(2)` string groups its integer
      part and leaves the sign and the decimals alone. */
  lemma SeparateFixed(sign: string, ds: string, frac: string)
    requires FixedShape(sign, ds, frac)
    ensures Separate(sign + ds + "." + frac, 0) == sign + Group(ds) + "." + frac
  {
    var t := sign + ds + "." + frac;
    SeparateIntegerPart(sign, ds, frac, 0);
    GroupFromIsGroup(ds);
    if sign == "-" {
      assert t[0] == '-' && DigitRun(t, 0) == 0;
      assert Separate(t, 0) == "-" + Separate(t, 1);
    }
  }

  /** `formatCurrency` of a number: the yuan sign, a minus sign for a
      negative amount, the integer part grouped by threes from the right
      with commas, a point and the two decimals of the cents; no comma in
      the decimals and none right after the minus sign. */
  lemma FormatCurrencyGroups(cents: int)
    ensures FormatCurrency(Some(cents))
         == "¥" + (Sign(cents) + Group(Digits(Magnitude(cents) / 100)) + "." + Decimals(Magnitude(cents)))
  {
    FixedGrouped(cents);
  }

  /** The replacement on `toFixed(2)` groups the integer part. */
  lemma FixedGrouped(cents: int)
    ensures Separate(ToFixed2(cents), 0)
         == Sign(cents) + Group(Digits(Magnitude(cents) / 100)) + "." + Decimals(Magnitude(cents))
  {
    var sign, ds, frac := Sign(cents), Digits(Magnitude(cents) / 100), Decimals(Magnitude(cents));
    assert FixedShape(sign, ds, frac);
    SeparateFixed(sign, ds, frac);
  }

  function NotComma(c: char): bool { c != ',' }

  /** `s` with its commas taken out. */
  function WithoutCommas(s: string): string
  {
    Filter(s, NotComma)
  }

  /** The replacement only inserts commas: taking the commas out of its
      result gives what they were taken out of before. */
  lemma {:induction false} SeparateOnlyAddsCommas(t: string, p: nat)
    requires p <= |t|
    ensures WithoutCommas(Separate(t, p)) == WithoutCommas(t[p..])
    decreases |t| - p
  {
    if p < |t| {
      SeparateOnlyAddsCommas(t, p + 1);
      var comma: string := if SeparatorAt(t, p) then "," else "";
      var rest := Separate(t, p + 1);
      assert Separate(t, p) == comma + [t[p]] + rest;
      assert t[p..] == [t[p]] + t[p + 1..];
      FilterAppend(comma + [t[p]], rest, NotComma);
      FilterAppend(comma, [t[p]], NotComma);
      FilterAppend([t[p]], t[p + 1..], NotComma);
      assert Filter(comma, NotComma) == [] by {
        if comma != [] {
          assert comma[..0] == [];
        }
      }
    }
  }

  /** Grouping only adds commas: taking them out gives the digits back. */
  lemma {:induction false} GroupKeepsDigits(ds: string)
    requires AllDigits(ds)
    ensures WithoutCommas(Group(ds)) == ds
    decreases |ds|
  {
    if |ds| <= 3 {
      FilterKeepsAll(ds, NotComma);
    } else {
      var a, b := ds[..|ds| - 3], ds[|ds| - 3..];
      assert AllDigits(a) && AllDigits(b);
      GroupKeepsDigits(a);
      var ga := Group(a);
      assert Group(ds) == (ga + [',']) + b;
      FilterAppend(ga + [','], b, NotComma);
      FilterSnoc(ga, ',', NotComma);
      assert Filter(ga + [','], NotComma) == a;
      FilterKeepsAll(b, NotComma);
      assert a + b == ds;
    }
  }

  /** In the grouped numeral a comma sits exactly at every fourth place
      counted from the right, so the leftmost group has one to three
      digits and every other group three. */
  lemma {:induction false} GroupCommaPlaces(ds: string)
    requires AllDigits(ds)
    ensures forall i :: 0 <= i < |Group(ds)| ==> (Group(ds)[i] == ',' <==> (|Group(ds)| - 1 - i) % 4 == 3)
    ensures |ds| > 0 ==> |Group(ds)| % 4 != 0
    decreases |ds|
  {
    var g := Group(ds);
    if |ds| <= 3 {
      assert g == ds;
      forall i | 0 <= i < |g|
        ensures g[i] != ',' && (|g| - 1 - i) % 4 != 3
      {
        assert IsDigit(ds[i]);
      }
    } else {
      var a, b := ds[..|ds| - 3], ds[|ds| - 3..];
      assert AllDigits(a) && AllDigits(b);
      GroupCommaPlaces(a);
      assert g == Group(a) + [','] + b;
      CommaPlacesStep(Group(a), b);
    }
  }

  /** One more comma and group of three digits keeps commas at every
      fourth place from the right. */
  lemma CommaPlacesStep(ga: string, b: string)
    requires |b| == 3 && AllDigits(b)
    requires forall i :: 0 <= i < |ga| ==> (ga[i] == ',' <==> (|ga| - 1 - i) % 4 == 3)
    ensures var g := ga + [','] + b;
      forall i :: 0 <= i < |g| ==> (g[i] == ',' <==> (|g| - 1 - i) % 4 == 3)
  {
    var g := ga + [','] + b;
    forall i | 0 <= i < |g|
      ensures g[i] == ',' <==> (|g| - 1 - i) % 4 == 3
    {
      if i < |ga| {
        assert g[i] == ga[i];
        assert |g| - 1 - i == (|ga| - 1 - i) + 4;
      } else if i > |ga| {
        assert g[i] == b[i - |ga| - 1];
        assert IsDigit(b[i - |ga| - 1]);
      }
    }
  }

  /** Reads a formatted amount back into cents: the yuan sign, an optional
      minus sign, digits and commas, a point and two decimals. */
  function ParseFormatted(s: string): Option<int>
  {
    if |s| == 0 || s[0] != '¥' then None else ParseSigned(s[1..])
  }

  function ParseSigned(body: string): Option<int>
  {
    if |body| > 0 && body[0] == '-' then
      match ParseUnsigned(body[1..])
      case Some(v) => Some(-v)
      case None => None
    else ParseUnsigned(body)
  }

  function ParseUnsigned(rest: string): Option<int>
  {
    if |rest| < 4 || rest[|rest| - 3] != '.' then None
    else ReadCents(WithoutCommas(rest[..|rest| - 3]), rest[|rest| - 2..])
  }

  function ReadCents(whole: string, decimals: string): Option<int>
  {
    if AllDigits(whole) && AllDigits(decimals) then Some(ValueOf(whole) * 100 + ValueOf(decimals))
    else None
  }

  lemma DigitCharValue(d: nat)
    requires d < 10
    ensures DigitValue(DigitChar(d)) == d
  {
  }

  lemma TwoDigitsValue(x: char, y: char)
    requires IsDigit(x) && IsDigit(y)
    ensures ValueOf([x, y]) == DigitValue(x) * 10 + DigitValue(y)
  {
    assert [x, y][..1] == [x];
    assert [x][..0] == [];
    assert ValueOf([x]) == DigitValue(x);
  }

  lemma SplitHundreds(a: nat)
    ensures (a % 100 / 10) * 10 + a % 10 == a % 100
  {
    var h := a % 100;
    var q := a / 100;
    assert a == 10 * (10 * q + h / 10) + h % 10;
  }

  lemma DecimalsValue(a: nat)
    ensures ValueOf(Decimals(a)) == a % 100
  {
    DigitCharValue(a % 100 / 10);
    DigitCharValue(a % 10);
    TwoDigitsValue(DigitChar(a % 100 / 10), DigitChar(a % 10));
    SplitHundreds(a);
  }

  /** How the reader takes apart a string of the formatted shape. */
  lemma ParseParts(sign: string, g: string, dec: string)
    requires sign == "" || sign == "-"
    requires |g| > 0 && g[0] != '-' && |dec| == 2
    ensures ParseFormatted("¥" + (sign + g + "." + dec))
         == match ReadCents(WithoutCommas(g), dec)
            case Some(v) => Some(if sign == "-" then -v else v)
            case None => None
  {
    var s := "¥" + (sign + g + "." + dec);
    var rest := g + "." + dec;
    assert s[1..] == sign + rest;
    assert rest[..|rest| - 3] == g;
    assert rest[|rest| - 3] == '.';
    assert rest[|rest| - 2..] == dec;
    assert ParseUnsigned(rest) == ReadCents(WithoutCommas(g), dec);
    if sign == "-" {
      assert (sign + rest)[1..] == rest;
    } else {
      assert sign + rest == rest;
      assert rest[0] == g[0];
    }
  }

  lemma {:induction false} GroupStartsWithDigit(ds: string)
    requires |ds| > 0 && AllDigits(ds)
    ensures |Group(ds)| > 0 && IsDigit(Group(ds)[0])
    decreases |ds|
  {
    if |ds| > 3 {
      var a := ds[..|ds| - 3];
      assert AllDigits(a);
      GroupStartsWithDigit(a);
    }
  }

  /** Reading a formatted number gives back its amount in cents. */
  lemma ParseFormatCurrency(cents: int)
    ensures ParseFormatted(FormatCurrency(Some(cents))) == Some(cents)
  {
    var a := Magnitude(cents);
    var ds := Digits(a / 100);
    FormatCurrencyGroups(cents);
    GroupStartsWithDigit(ds);
    ParseParts(Sign(cents), Group(ds), Decimals(a));
    ReadGroupedParts(a);
  }

  /** The grouped integer part and the two decimals read back as `a`. */
  lemma ReadGroupedParts(a: nat)
    ensures ReadCents(WithoutCommas(Group(Digits(a / 100))), Decimals(a)) == Some(a)
  {
    var ds := Digits(a / 100);
    var dec := Decimals(a);
    GroupKeepsDigits(ds);
    DigitsValue(a / 100);
    DecimalsValue(a);
    assert ReadCents(ds, dec) == Some(ValueOf(ds) * 100 + ValueOf(dec));
    assert (a / 100) * 100 + a % 100 == a;
  }
}
