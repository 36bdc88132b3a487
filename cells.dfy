/** Worksheet cell values, their Python truthiness, the row classifier and
    the lenient number parser `to_number`. */
module Cells {
  import opened Wrappers
  import opened Strings

  /** A cell value: empty (`None`), a string, or a number (an int or a
      float, taken as a real). */
  datatype Cell = Empty | Text(s: string) | Num(n: real)

  /** Python truthiness of a cell value: exactly `None`, `""` and `0` are
      false. */
  predicate Truthy(c: Cell)
    ensures !Truthy(c) <==> c in {Empty, Text(""), Num(0.0)}
  {
    match c
    case Empty => false
    case Text(s) => s != ""
    case Num(n) => n != 0.0
  }

  /** `"CAPITAL" in str(v).upper()`. `str(None)` is "None" and the text of a
      number holds no such word, so only a string can qualify. */
  predicate IsCapital(c: Cell)
    ensures IsCapital(c) ==> c.Text? && |c.s| >= 7
  {
    c.Text? && Contains(ToUpper(c.s), "CAPITAL")
  }

  /** Seven characters from position `i` of `s` spell "CAPITAL" in some
      mix of upper and lower case. */
  predicate CapitalAt(s: string, i: int) {
    0 <= i <= |s| - 7 && ToUpper(s[i..i + 7]) == "CAPITAL"
  }

  /** The classification ignores case: a text qualifies exactly when
      "CAPITAL" appears in it in some mix of cases, and a text and its
      upper case qualify alike. */
  lemma IsCapitalIgnoresCase(s: string)
    ensures IsCapital(Text(s)) <==> exists i :: CapitalAt(s, i)
    ensures IsCapital(Text(s)) == IsCapital(Text(ToUpper(s)))
  {
    forall i | 0 <= i <= |s| - 7 ensures OccursAt(ToUpper(s), "CAPITAL", i) <==> CapitalAt(s, i) {
      OccursAtUpper(s, "CAPITAL", i);
    }
    ToUpperIdempotent(s);
  }

  /** A text holding "CAPITAL" in some mix of cases at position `i`
      qualifies. */
  lemma IsCapitalAt(s: string, i: nat, w: string)
    requires i + |w| <= |s| && s[i..i + |w|] == w && ToUpper(w) == "CAPITAL"
    ensures IsCapital(Text(s))
  {
    IsCapitalIgnoresCase(s);
    assert CapitalAt(s, i);
  }

  /** Mixed-case labels qualify; an empty cell (`str(None)` is "None") and
      a number never do. */
  lemma IsCapitalExamples(n: real)
    ensures IsCapital(Text("capital equipment"))
    ensures IsCapital(Text("Capital-Outlay"))
    ensures !IsCapital(Empty) && !IsCapital(Num(n))
  {
    assert ToUpper("capital") == "CAPITAL" by {
      assert forall k | 0 <= k < 7 :: ToUpper("capital")[k] == "CAPITAL"[k];
    }
    assert ToUpper("Capital") == "CAPITAL" by {
      assert forall k | 0 <= k < 7 :: ToUpper("Capital")[k] == "CAPITAL"[k];
    }
    IsCapitalAt("capital equipment", 0, "capital");
    IsCapitalAt("Capital-Outlay", 0, "Capital");
  }

  /** `v and "F&A" in str(v)`: a truthy value whose text contains "F&A".
      Only a non-empty string can contain it. */
  predicate IsFaAnnotation(c: Cell)
    ensures IsFaAnnotation(c) ==> c.Text? && |c.s| >= 3
  {
    Truthy(c) && c.Text? && Contains(c.s, "F&A")
  }

  /** `s.replace(",", "").replace("-", "")`: every comma and minus deleted.
      Stripping never lengthens the text. */
  function StripSeparators(s: string): (r: string)
    ensures |r| <= |s|
  {
    if s == [] then []
    else (if s[0] == ',' || s[0] == '-' then [] else [s[0]]) + StripSeparators(s[1..])
  }

  /** After stripping, no comma and no minus sign is left. */
  lemma {:induction false} StripSeparatorsRemoves(s: string)
    ensures ',' !in StripSeparators(s) && '-' !in StripSeparators(s)
  {
    if s != [] {
      StripSeparatorsRemoves(s[1..]);
    }
  }

  /** Stripping keeps every character other than a comma or a minus, as
      often as it occurs. */
  lemma {:induction false} StripSeparatorsKeeps(s: string)
    ensures forall ch :: ch != ',' && ch != '-' ==> multiset(StripSeparators(s))[ch] == multiset(s)[ch]
  {
    if s != [] {
      StripSeparatorsKeeps(s[1..]);
      assert s == [s[0]] + s[1..];
    }
  }

  /** The text without its leading whitespace. */
  function TrimStart(s: string): string {
    if s != [] && IsSpace(s[0]) then TrimStart(s[1..]) else s
  }

  /** The text without its trailing whitespace. */
  function TrimEnd(s: string): string {
    if s != [] && IsSpace(s[|s| - 1]) then TrimEnd(s[..|s| - 1]) else s
  }

  /** Trimming the start drops leading whitespace and nothing else: what is
      left is a suffix that does not start with whitespace. */
  lemma {:induction false} TrimStartSpec(s: string)
    ensures var r := TrimStart(s);
      |r| <= |s| && r == s[|s| - |r|..] && (r == [] || !IsSpace(r[0]))
      && forall j :: 0 <= j < |s| - |r| ==> IsSpace(s[j])
  {
    if s != [] && IsSpace(s[0]) {
      var t := s[1..];
      TrimStartSpec(t);
      var r := TrimStart(t);
      assert TrimStart(s) == r;
      assert t[|t| - |r|..] == s[|s| - |r|..];
      forall j | 0 <= j < |s| - |r| ensures IsSpace(s[j]) {
        if j > 0 { assert s[j] == t[j - 1]; }
      }
    }
  }

  /** Trimming the end drops trailing whitespace and nothing else: what is
      left is a prefix that does not end with whitespace. */
  lemma {:induction false} TrimEndSpec(s: string)
    ensures var r := TrimEnd(s);
      |r| <= |s| && r == s[..|r|] && (r == [] || !IsSpace(r[|r| - 1]))
      && forall j :: |r| <= j < |s| ==> IsSpace(s[j])
  {
    if s != [] && IsSpace(s[|s| - 1]) {
      var t := s[..|s| - 1];
      TrimEndSpec(t);
      var r := TrimEnd(t);
      assert TrimEnd(s) == r;
      assert t[..|r|] == s[..|r|];
      forall j | |r| <= j < |s| ensures IsSpace(s[j]) {
        if j < |s| - 1 { assert s[j] == t[j]; }
      }
    }
  }

  /** The number with whole part `whole` and `places` digits `frac` after
      the decimal point. */
  function Decimal(whole: nat, frac: nat, places: nat): (x: real)
    ensures x >= whole as real
  {
    whole as real + frac as real / Pow10(places) as real
  }

  /** Unsigned decimal notation: digits with at most one decimal point and at
      least one digit ("12", "12.", ".5", "12.50"). */
  function ParseUnsigned(u: string): (r: Option<real>)
    ensures r.Some? ==> r.value >= 0.0
  {
    var k := DigitRun(u, 0);
    if k == |u| then
      if k == 0 then None else Some(DigitsValue(u) as real)
    else if u[k] == '.' && k + 1 + DigitRun(u, k + 1) == |u| && |u| > 1 then
      Some(Decimal(DigitsValue(u[..k]), DigitsValue(u[k + 1..]), |u| - k - 1))
    else
      None
  }

  /** Plain decimal notation, stated character by character: nothing but
      digits and points, at most one point, and at least one digit. */
  predicate DecimalForm(u: string) {
    (forall i :: 0 <= i < |u| ==> IsDigit(u[i]) || u[i] == '.')
    && (forall i, j :: 0 <= i < j < |u| ==> u[i] != '.' || u[j] != '.')
    && (exists i :: 0 <= i < |u| && IsDigit(u[i]))
  }

  /** The unsigned recogniser accepts exactly plain decimal notation: every
      other text, such as one with a stray character, a second point or no
      digit at all, is rejected. */
  lemma ParseUnsignedForm(u: string)
    ensures ParseUnsigned(u).Some? <==> DecimalForm(u)
  {
    var k := DigitRun(u, 0);
    if k == |u| {
      if k > 0 {
        assert IsDigit(u[0]);
      }
    } else if u[k] == '.' {
      var m := DigitRun(u, k + 1);
      if k + 1 + m == |u| {
        if |u| > 1 {
          assert IsDigit(u[if k > 0 then 0 else 1]);
        } else {
          assert !IsDigit(u[0]);
        }
      } else {
        var p := k + 1 + m;
        assert !IsDigit(u[p]);
        if u[p] == '.' {
          assert u[k] == '.' && k < p;
        }
      }
    }
  }

  /** Python's `float()` on text in plain decimal notation: surrounding
      whitespace is ignored and one leading sign is allowed. A negative
      result needs a minus sign in the text. */
  function ParseFloat(t: string): (r: Option<real>)
    ensures r.Some? && r.value < 0.0 ==> '-' in t
  {
    var u0 := TrimStart(t);
    var u := TrimEnd(u0);
    TrimStartSpec(t);
    TrimEndSpec(u0);
    if |u| > 0 && (u[0] == '+' || u[0] == '-') then
      assert u[0] == t[|t| - |u0|];
      match ParseUnsigned(u[1..])
      case Some(x) => Some(if u[0] == '-' then -x else x)
      case None => None
    else
      ParseUnsigned(u)
  }

  /** `float()` succeeds exactly on text that, once trimmed and without one
      leading sign, is in plain decimal notation. */
  lemma ParseFloatForm(t: string)
    ensures var u := TrimEnd(TrimStart(t));
      ParseFloat(t).Some? <==> DecimalForm(if |u| > 0 && (u[0] == '+' || u[0] == '-') then u[1..] else u)
  {
    var u := TrimEnd(TrimStart(t));
    if |u| > 0 && (u[0] == '+' || u[0] == '-') {
      ParseUnsignedForm(u[1..]);
    } else {
      ParseUnsignedForm(u);
    }
  }

  /** `to_number(x)`: 0.0 for a falsy value; otherwise the text of the value,
      with commas and minus signs deleted, read as a float, or 0.0 when that
      fails. A number reads back as its magnitude. The result is never
      negative, and it is 0.0 for every falsy value. */
  function ToNumber(x: Cell): (r: real)
    ensures r >= 0.0
    ensures !Truthy(x) ==> r == 0.0
  {
    if !Truthy(x) then 0.0
    else match x
      case Text(s) =>
        StripSeparatorsRemoves(s);
        (match ParseFloat(StripSeparators(s)) case Some(v) => v case None => 0.0)
      case Num(n) => if n < 0.0 then -n else n
      case Empty => 0.0
  }

  /** Deleting separators twice deletes nothing more. */
  lemma {:induction false} StripSeparatorsIdempotent(s: string)
    ensures StripSeparators(StripSeparators(s)) == StripSeparators(s)
  {
    if s != [] {
      StripSeparatorsIdempotent(s[1..]);
      StripSeparatorsAppend(if s[0] == ',' || s[0] == '-' then [] else [s[0]], StripSeparators(s[1..]));
    }
  }

  /** Deleting separators distributes over concatenation. */
  lemma {:induction false} StripSeparatorsAppend(a: string, b: string)
    ensures StripSeparators(a + b) == StripSeparators(a) + StripSeparators(b)
  {
    if a != [] {
      assert (a + b)[1..] == a[1..] + b;
      StripSeparatorsAppend(a[1..], b);
    } else {
      assert a + b == b;
    }
  }

  /** Text without commas or minus signs is left as it is. */
  lemma {:induction false} StripSeparatorsNone(s: string)
    requires ',' !in s && '-' !in s
    ensures StripSeparators(s) == s
  {
    if s != [] {
      assert s == [s[0]] + s[1..];
      StripSeparatorsNone(s[1..]);
    }
  }

  /** The separators of a text are invisible to `to_number`: the text and
      the text with every comma and minus deleted read the same. */
  lemma ToNumberIgnoresSeparators(s: string)
    ensures ToNumber(Text(s)) == ToNumber(Text(StripSeparators(s)))
  {
    StripSeparatorsIdempotent(s);
    assert ParseUnsigned("") == None;
  }

  /** A leading minus sign is discarded: `to_number` never sees the sign. */
  lemma ToNumberDropsSign(s: string)
    ensures ToNumber(Text("-" + s)) == ToNumber(Text(s))
  {
    StripSeparatorsAppend("-", s);
    assert StripSeparators("-") == [];
    assert StripSeparators("-" + s) == StripSeparators(s);
    if s == [] {
      ParseFloatUnsigned("");
      assert ParseUnsigned("") == None;
    }
  }

  /** Text with nothing to trim and no sign is read by the unsigned recogniser. */
  lemma ParseFloatUnsigned(u: string)
    requires u == [] || (!IsSpace(u[0]) && !IsSpace(u[|u| - 1]))
    requires u == [] || (u[0] != '+' && u[0] != '-')
    ensures ParseFloat(u) == ParseUnsigned(u)
  {
    assert TrimStart(u) == u;
    assert TrimEnd(u) == u;
  }

  /** A string of digits parses as its value. */
  lemma ParseDigits(s: string)
    requires |s| >= 1 && AllDigits(s)
    ensures ParseFloat(s) == Some(DigitsValue(s) as real)
  {
    ParseFloatUnsigned(s);
    DigitRunIs(s, 0, |s|);
  }

  /** Round trip: the decimal text of a whole number reads back as that
      number, with or without a minus sign in front. */
  lemma ToNumberShowNat(n: nat)
    ensures ToNumber(Text(ShowNat(n))) == n as real
    ensures ToNumber(Text("-" + ShowNat(n))) == n as real
  {
    var s := ShowNat(n);
    assert forall i :: 0 <= i < |s| ==> s[i] != ',' && s[i] != '-';
    StripSeparatorsNone(s);
    ParseDigits(s);
    DigitsValueShowNat(n);
    ToNumberDropsSign(s);
  }

  /** `to_number` sees only what is left of a text after its commas and
      minus signs are deleted. */
  lemma ToNumberSameStrip(s: string, s': string)
    requires StripSeparators(s) == StripSeparators(s')
    ensures ToNumber(Text(s)) == ToNumber(Text(s'))
  {
    if s == [] || s' == [] {
      assert ParseUnsigned("") == None;
    }
  }

  /** A lone comma strips to nothing. */
  lemma StripSeparatorsComma()
    ensures StripSeparators(",") == []
  {
  }

  /** Deleting separators removes a comma between two pieces of text. */
  lemma StripSeparatorsDropsComma(a: string, b: string)
    ensures StripSeparators(a + "," + b) == StripSeparators(a + b)
  {
    calc {
      StripSeparators(a + "," + b);
      { StripSeparatorsAppend(a + ",", b); }
      StripSeparators(a + ",") + StripSeparators(b);
      { StripSeparatorsAppend(a, ","); }
      StripSeparators(a) + StripSeparators(",") + StripSeparators(b);
      { StripSeparatorsComma(); }
      StripSeparators(a) + StripSeparators(b);
      { StripSeparatorsAppend(a, b); }
      StripSeparators(a + b);
    }
  }

  /** A comma between two pieces of text is invisible to `to_number`, so
      thousands separators do not change the number. */
  lemma ToNumberDropsComma(a: string, b: string)
    ensures ToNumber(Text(a + "," + b)) == ToNumber(Text(a + b))
  {
    StripSeparatorsDropsComma(a, b);
    ToNumberSameStrip(a + "," + b, a + b);
  }

  /** Decimal text: a run of digits, a point, a run of digits. */
  lemma DecimalText(w: nat, f: string)
    requires |f| >= 1 && AllDigits(f)
    ensures var u, k := ShowNat(w) + "." + f, |ShowNat(w)|;
      k < |u| && u[k] == '.' && u[..k] == ShowNat(w) && u[k + 1..] == f
      && DigitRun(u, 0) == k && k + 1 + DigitRun(u, k + 1) == |u|
      && forall j :: 0 <= j < |u| ==> IsDigit(u[j]) || u[j] == '.'
  {
    var d := ShowNat(w);
    var u := d + "." + f;
    var k := |d|;
    assert u[..k] == d && u[k + 1..] == f;
    forall j | 0 <= j < |u| ensures IsDigit(u[j]) || u[j] == '.' {
      if j < k { assert u[j] == d[j]; } else if j > k { assert u[j] == f[j - k - 1]; }
    }
    DigitRunIs(u, 0, k);
    DigitRunIs(u, k + 1, |f|);
  }

  /** The unsigned recogniser reads decimal text as its whole part plus its
      fraction. */
  lemma ParseUnsignedDecimal(w: nat, f: string)
    requires |f| >= 1 && AllDigits(f)
    ensures ParseUnsigned(ShowNat(w) + "." + f) == Some(Decimal(w, DigitsValue(f), |f|))
  {
    DecimalText(w, f);
    DigitsValueShowNat(w);
  }

  /** Decimal notation round trip: the digits of a whole number, a point
      and a string of digits read back as the whole number plus the
      fraction those digits denote. */
  lemma ToNumberDecimal(w: nat, f: string)
    requires |f| >= 1 && AllDigits(f)
    ensures ToNumber(Text(ShowNat(w) + "." + f)) == Decimal(w, DigitsValue(f), |f|)
  {
    var u := ShowNat(w) + "." + f;
    DecimalText(w, f);
    ParseUnsignedDecimal(w, f);
    assert ',' !in u && '-' !in u && !IsSpace(u[0]) && !IsSpace(u[|u| - 1]) && u[0] != '+';
    StripSeparatorsNone(u);
    ParseFloatUnsigned(u);
  }

  /** `to_number("(500)")` is 0.0: parentheses do not make a number. */
  lemma ToNumberParenthesised()
    ensures ToNumber(Text("(500)")) == 0.0
  {
    var u := "(500)";
    assert StripSeparators(u) == u;
    ParseFloatUnsigned(u);
    DigitRunIs(u, 0, 0);
    assert ParseUnsigned(u) == None;
  }

  /** The `ValueError` path: a text whose commas and minus signs are
      deleted, whose surrounding whitespace is trimmed and whose leading plus
      sign, if any, is dropped, and which is then not plain decimal notation,
      reads as 0.0. */
  lemma ToNumberRejects(s: string)
    requires var u := TrimEnd(TrimStart(StripSeparators(s)));
      !DecimalForm(if |u| > 0 && u[0] == '+' then u[1..] else u)
    ensures ToNumber(Text(s)) == 0.0
  {
    var t := StripSeparators(s);
    StripSeparatorsRemoves(s);
    ParseFloatForm(t);
    var u0 := TrimStart(t);
    var u := TrimEnd(u0);
    TrimStartSpec(t);
    TrimEndSpec(u0);
    if |u| > 0 {
      assert u[0] == t[|t| - |u0|];
    }
  }

  /** Stripping keeps every character other than a comma or a minus. */
  lemma {:induction false} StripSeparatorsKeepsAt(s: string, j: nat)
    requires j < |s| && s[j] != ',' && s[j] != '-'
    ensures s[j] in StripSeparators(s)
  {
    if j > 0 {
      StripSeparatorsKeepsAt(s[1..], j - 1);
    }
  }

  /** Trimming keeps every character that is not whitespace. */
  lemma TrimKeeps(t: string, i: nat)
    requires i < |t| && !IsSpace(t[i])
    ensures t[i] in TrimEnd(TrimStart(t))
  {
    var u0 := TrimStart(t);
    TrimStartSpec(t);
    TrimEndSpec(u0);
    var i0 := i - (|t| - |u0|);
    assert 0 <= i0 && u0[i0] == t[i];
    assert i0 < |TrimEnd(u0)| && TrimEnd(u0)[i0] == t[i];
  }

  /** A text holding any character other than a digit, a point, a comma, a
      sign or whitespace reads as 0.0: currency symbols, letters, brackets
      and percent signs all make `float()` fail. */
  lemma ToNumberStrayChar(s: string, j: nat)
    requires j < |s|
    requires !IsDigit(s[j]) && !IsSpace(s[j]) && s[j] !in ".,+-"
    ensures ToNumber(Text(s)) == 0.0
  {
    var ch := s[j];
    var t := StripSeparators(s);
    StripSeparatorsKeepsAt(s, j);
    var i :| 0 <= i < |t| && t[i] == ch;
    TrimKeeps(t, i);
    var u := TrimEnd(TrimStart(t));
    var k :| 0 <= k < |u| && u[k] == ch;
    var v := if |u| > 0 && u[0] == '+' then u[1..] else u;
    var kv := if |u| > 0 && u[0] == '+' then k - 1 else k;
    assert 0 <= kv < |v| && v[kv] == ch;
    ToNumberRejects(s);
  }

  /** A bare fraction is a number: `float(".5")` is 0.5. */
  lemma ParseUnsignedBareFraction()
    ensures ParseUnsigned(".5") == Some(0.5)
  {
    DigitRunIs(".5", 0, 0);
    DigitRunIs(".5", 1, 1);
    assert ".5"[1..] == "5" && ".5"[..0] == "";
  }

  /** A trailing point is allowed: `float("5.")` is 5.0. */
  lemma ParseUnsignedTrailingPoint()
    ensures ParseUnsigned("5.") == Some(5.0)
  {
    DigitRunIs("5.", 0, 1);
    DigitRunIs("5.", 2, 0);
    assert "5."[..1] == "5" && "5."[2..] == "";
  }

  /** Leading zeros are allowed: `float("007.5")` is 7.5. */
  lemma ParseUnsignedLeadingZeros()
    ensures ParseUnsigned("007.5") == Some(7.5)
  {
    DigitRunIs("007.5", 0, 3);
    DigitRunIs("007.5", 4, 1);
    assert "007.5"[..3] == "007" && "007.5"[4..] == "5";
    assert DigitsValue("007") == 7 && DigitsValue("5") == 5;
  }

  /** A lone point and a second point are not numbers. */
  lemma ParseUnsignedPoints()
    ensures ParseUnsigned(".") == None
    ensures ParseUnsigned("1.2.3") == None
  {
    DigitRunIs(".", 0, 0);
    ParseUnsignedForm("1.2.3");
    assert "1.2.3"[1] == '.' && "1.2.3"[3] == '.';
  }


  /** `to_number("-1,234.50")` is 1234.5: the comma and the sign are both
      deleted before the text is parsed. */
  lemma ToNumberSignedThousands()
    ensures ToNumber(Text("-1,234.50")) == 1234.5
  {
    assert "-1" + "," + "234.50" == "-1,234.50";
    ToNumberDropsComma("-1", "234.50");
    assert "-1" + "234.50" == "-" + "1234.50";
    ToNumberDropsSign("1234.50");
    ToNumberWholeAndCents();
  }

  /** `to_number("1234.50")` is 1234.5. */
  lemma ToNumberWholeAndCents()
    ensures ToNumber(Text("1234.50")) == 1234.5
  {
    ShowNat1234();
    Fifty();
    ToNumberDecimal(1234, "50");
    assert "1234" + "." + "50" == "1234.50";
    assert Decimal(1234, 50, 2) == 1234.5 by {
      assert Pow10(2) == 100;
    }
  }

  /** The decimal text of 1234. */
  lemma ShowNat1234()
    ensures ShowNat(1234) == "1234"
  {
    assert ShowNat(1) == "1";
    assert ShowNat(12) == "12";
    assert ShowNat(123) == "123";
  }

  /** The digits "50" denote fifty. */
  lemma Fifty()
    ensures AllDigits("50") && DigitsValue("50") == 50
  {
    assert "50"[..1] == "5";
  }
}
