/** `parse_fa_rate`: the first match of the regular expression
    `(\d{1,3})\s*%` in an annotation, read as a fraction. */
module RatePattern {
  import opened Wrappers
  import opened Strings
  import opened Cells

  /** The regular expression `(\d{1,3})\s*%` matches `s` at position `i`,
      with `k` digits in the group, then `w` whitespace characters and a
      percent sign. */
  ghost predicate PatternAt(s: string, i: nat, k: nat, w: nat) {
    1 <= k <= 3 && i + k + w < |s|
    && (forall j :: i <= j < i + k ==> IsDigit(s[j]))
    && (forall j :: i + k <= j < i + k + w ==> IsSpace(s[j]))
    && s[i + k + w] == '%'
  }

  /** The length of the digit group when the pattern matches at `i`: the
      whole run of digits there, when it is one to three long and only
      whitespace stands between it and a percent sign. */
  function GroupAt(s: string, i: nat): (g: Option<nat>)
    requires i <= |s|
    ensures g.Some? ==> 1 <= g.value <= 3 && i + g.value < |s|
  {
    var k := DigitRun(s, i);
    var w := SpaceRun(s, i + k);
    if 1 <= k <= 3 && i + k + w < |s| && s[i + k + w] == '%' then Some(k) else None
  }

  /** `GroupAt` finds a match exactly when there is one at `i`, and then
      the only one: the group must end where the run of digits ends (a
      digit cannot follow it), so at most one length works. */
  lemma GroupAtSpec(s: string, i: nat)
    requires i <= |s|
    ensures var g := GroupAt(s, i);
      (g.Some? ==> i + g.value <= |s| && PatternAt(s, i, g.value, SpaceRun(s, i + g.value)))
      && forall k: nat, w: nat :: PatternAt(s, i, k, w) ==> g == Some(k)
  {
    PatternDetermined(s, i);
  }

  /** A match at `i` takes the whole run of digits there and the whole run
      of whitespace after it. */
  lemma PatternDetermined(s: string, i: nat)
    requires i <= |s|
    ensures forall k: nat, w: nat :: PatternAt(s, i, k, w) ==>
      k == DigitRun(s, i) && w == SpaceRun(s, i + k)
  {
    forall k: nat, w: nat | PatternAt(s, i, k, w) ensures k == DigitRun(s, i) && w == SpaceRun(s, i + k) {
      DigitRunIs(s, i, k);
      SpaceRunIs(s, i + k, w);
    }
  }

  /** The leftmost match at or after `i`, as `re.search` finds it: its
      position and the length of its digit group. */
  function FirstMatch(s: string, i: nat): (m: Option<(nat, nat)>)
    requires i <= |s|
    ensures m.Some? ==> i <= m.value.0 && 1 <= m.value.1 <= 3 && m.value.0 + m.value.1 < |s|
    decreases |s| - i
  {
    if i == |s| then None
    else match GroupAt(s, i)
      case Some(k) => Some((i, k))
      case None => FirstMatch(s, i + 1)
  }

  /** What the search finds is a match, at or after where it started. */
  lemma {:induction false} FirstMatchSpec(s: string, i: nat)
    requires i <= |s|
    ensures var m := FirstMatch(s, i);
      m.Some? ==> (i <= m.value.0 && m.value.0 + m.value.1 <= |s|
                   && PatternAt(s, m.value.0, m.value.1, SpaceRun(s, m.value.0 + m.value.1)))
    decreases |s| - i
  {
    if i < |s| {
      GroupAtSpec(s, i);
      if GroupAt(s, i).None? {
        FirstMatchSpec(s, i + 1);
      }
    }
  }

  /** The digit group `s[j..j + k]` read as a percentage: its value
      divided by 100. Three digits make at most 9.99. */
  function GroupValue(s: string, j: nat, k: nat): (r: real)
    requires 1 <= k <= 3 && j + k <= |s|
    requires forall q :: j <= q < j + k ==> IsDigit(s[q])
    ensures 0.0 <= r <= 9.99
  {
    var d := s[j..j + k];
    assert AllDigits(d) by {
      forall q | 0 <= q < k ensures IsDigit(d[q]) {
        assert d[q] == s[j + q];
      }
    }
    assert DigitsValue(d) < 1000 by {
      assert Pow10(1) == 10 && Pow10(2) == 100 && Pow10(3) == 1000;
    }
    DigitsValue(d) as real / 100.0
  }

  /** `parse_fa_rate(text)`: None for a falsy value; otherwise the group of
      the first match of the pattern in its text as a fraction, or None.
      The text of a number never holds a percent sign. A found rate lies
      between 0 and 9.99. */
  function ParseFaRate(v: Cell): (r: Option<real>)
    ensures r.Some? ==> 0.0 <= r.value <= 9.99
    ensures r.Some? ==> v.Text?
  {
    if !Truthy(v) then None
    else match v
      case Text(s) =>
        FirstMatchSpec(s, 0);
        (match FirstMatch(s, 0) case Some((j, k)) => Some(GroupValue(s, j, k)) case None => None)
      case _ => None
  }

  /** The search from `i` fails exactly when no match starts at or after `i`. */
  lemma {:induction false} FirstMatchNone(s: string, i: nat)
    requires i <= |s|
    ensures FirstMatch(s, i) == None <==> forall j: nat, k: nat, w: nat :: i <= j ==> !PatternAt(s, j, k, w)
    decreases |s| - i
  {
    if i < |s| {
      FirstMatchNone(s, i + 1);
      GroupAtSpec(s, i);
      if GroupAt(s, i).None? {
        forall j: nat, k: nat, w: nat | i <= j && PatternAt(s, j, k, w) ensures i + 1 <= j {
        }
      }
    }
  }

  /** The search from `i` finds the match that starts first. */
  lemma {:induction false} FirstMatchLeftmost(s: string, i: nat, j: nat, k: nat, w: nat)
    requires i <= j && PatternAt(s, j, k, w)
    requires forall j': nat, k': nat, w': nat :: i <= j' < j ==> !PatternAt(s, j', k', w')
    ensures FirstMatch(s, i) == Some((j, k))
    decreases j - i
  {
    GroupAtSpec(s, i);
    if i < j {
      assert forall k': nat, w': nat :: !PatternAt(s, i, k', w');
      FirstMatchLeftmost(s, i + 1, j, k, w);
    }
  }

  /** No rate is found in a text exactly when the pattern matches nowhere in it. */
  lemma ParseFaRateNone(s: string)
    ensures ParseFaRate(Text(s)) == None <==> forall i: nat, k: nat, w: nat :: !PatternAt(s, i, k, w)
  {
    FirstMatchNone(s, 0);
  }

  /** When the pattern matches, the rate is the group of its leftmost
      match divided by 100. */
  lemma ParseFaRateLeftmost(s: string, i: nat, k: nat, w: nat)
    requires PatternAt(s, i, k, w)
    requires forall i': nat, k': nat, w': nat :: i' < i ==> !PatternAt(s, i', k', w')
    ensures AllDigits(s[i..i + k]) && ParseFaRate(Text(s)) == Some(DigitsValue(s[i..i + k]) as real / 100.0)
  {
    FirstMatchLeftmost(s, 0, i, k, w);
    var d := s[i..i + k];
    forall q | 0 <= q < k ensures IsDigit(d[q]) {
      assert d[q] == s[i + q];
    }
  }

  /** A value with no percent sign in its text yields no rate. */
  lemma ParseFaRateNeedsPercent(s: string)
    requires '%' !in s
    ensures ParseFaRate(Text(s)) == None
  {
    ParseFaRateNone(s);
  }

  /** No character of the text is a digit. */
  predicate NoDigits(p: string) {
    p == [] || (!IsDigit(p[0]) && NoDigits(p[1..]))
  }

  /** The search passes over characters that are not digits: no match can
      start at one. */
  lemma {:induction false} FirstMatchSkipsNonDigits(s: string, i: nat, j: nat)
    requires i <= j <= |s| && NoDigits(s[i..j])
    ensures FirstMatch(s, i) == FirstMatch(s, j)
    decreases j - i
  {
    if i < j {
      assert s[i..j][0] == s[i] && s[i..j][1..] == s[i + 1..j];
      assert DigitRun(s, i) == 0;
      FirstMatchSkipsNonDigits(s, i + 1, j);
    }
  }

  /** The decimal text of a number below 1000 has at most three digits. */
  lemma ShowNatShort(n: nat)
    requires n < 1000
    ensures |ShowNat(n)| <= 3
  {
    if n >= 10 {
      assert |ShowNat(n / 10)| <= 2 by {
        if n / 10 >= 10 {
          assert n / 10 / 10 < 10;
        }
      }
    }
  }

  /** The pieces of a label, a number's digits, whitespace and a percent
      sign. */
  lemma LabelledShape(prefix: string, d: string, sp: string)
    requires forall j :: 0 <= j < |sp| ==> IsSpace(sp[j])
    ensures var s := prefix + d + sp + "%";
      |s| == |prefix| + |d| + |sp| + 1 && s[0..|prefix|] == prefix
      && s[|prefix|..|prefix| + |d|] == d && s[|prefix| + |d| + |sp|] == '%'
      && forall j :: |prefix| + |d| <= j < |prefix| + |d| + |sp| ==> IsSpace(s[j])
  {
    var s := prefix + d + sp + "%";
    forall j | |prefix| + |d| <= j < |prefix| + |d| + |sp| ensures IsSpace(s[j]) {
      assert s[j] == sp[j - |prefix| - |d|];
    }
  }

  /** The digits of a whole number below 1000 followed by whitespace and a
      percent sign match at `i`, and their group reads as that number over
      100. */
  lemma MatchAtNumber(s: string, i: nat, n: nat, w: nat)
    requires n < 1000
    requires i + |ShowNat(n)| + w < |s| && s[i..i + |ShowNat(n)|] == ShowNat(n)
    requires forall j :: i + |ShowNat(n)| <= j < i + |ShowNat(n)| + w ==> IsSpace(s[j])
    requires s[i + |ShowNat(n)| + w] == '%'
    ensures 1 <= |ShowNat(n)| <= 3
    ensures FirstMatch(s, i) == Some((i, |ShowNat(n)|)) && GroupValue(s, i, |ShowNat(n)|) == n as real / 100.0
  {
    var k := |ShowNat(n)|;
    ShowNatShort(n);
    forall j | i <= j < i + k ensures IsDigit(s[j]) {
      assert s[j] == s[i..i + k][j - i];
    }
    assert PatternAt(s, i, k, w);
    GroupAtSpec(s, i);
    DigitsValueShowNat(n);
  }

  /** A label without digits followed by a whole percentage below 1000,
      with or without whitespace before the percent sign, gives that
      percentage as a fraction. */
  lemma ParseFaRateAfterLabel(prefix: string, n: nat, sp: string)
    requires NoDigits(prefix) && n < 1000
    requires forall j :: 0 <= j < |sp| ==> IsSpace(sp[j])
    ensures ParseFaRate(Text(prefix + ShowNat(n) + sp + "%")) == Some(n as real / 100.0)
  {
    var s := prefix + ShowNat(n) + sp + "%";
    LabelledShape(prefix, ShowNat(n), sp);
    FirstMatchSkipsNonDigits(s, 0, |prefix|);
    MatchAtNumber(s, |prefix|, n, |sp|);
  }

  /** "F&A 50%" is an annotation and gives 0.5. */
  lemma ParseFaRateFifty()
    ensures IsFaAnnotation(Text("F&A 50%"))
    ensures ParseFaRate(Text("F&A 50%")) == Some(0.5)
  {
    assert OccursAt("F&A 50%", "F&A", 0);
    assert NoDigits("F&A ");
    assert ShowNat(50) == "50";
    assert "F&A " + "50" + "" + "%" == "F&A 50%";
    ParseFaRateAfterLabel("F&A ", 50, "");
  }

  /** "F&A TBD" is an annotation without a percentage: it gives no rate. */
  lemma ParseFaRatePending()
    ensures IsFaAnnotation(Text("F&A TBD"))
    ensures ParseFaRate(Text("F&A TBD")) == None
  {
    assert OccursAt("F&A TBD", "F&A", 0);
    ParseFaRateNeedsPercent("F&A TBD");
  }

  /** "1234%" gives 2.34: the group holds at most three digits, so the
      leftmost match starts at the second digit. */
  lemma ParseFaRateLongRun()
    ensures ParseFaRate(Text("1234%")) == Some(2.34)
  {
    var s := "1234%";
    NoGroupInFourDigits();
    LastThreeDigits();
    assert FirstMatch(s, 0) == FirstMatch(s, 1);
  }

  /** No match starts at the first of four digits. */
  lemma NoGroupInFourDigits()
    ensures GroupAt("1234%", 0) == None
  {
    DigitRunIs("1234%", 0, 4);
  }

  /** The match in "1234%" is the last three digits, read as 2.34. */
  lemma LastThreeDigits()
    ensures FirstMatch("1234%", 1) == Some((1, 3)) && GroupValue("1234%", 1, 3) == 2.34
  {
    var s := "1234%";
    assert PatternAt(s, 1, 3, 0);
    GroupAtSpec(s, 1);
    assert s[1..4] == "234";
    assert DigitsValue("234") == 234 by {
      assert "234"[..2] == "23" && "23"[..1] == "2";
    }
  }

  /** A text without a percentage gives no rate; neither does an empty cell. */
  lemma ParseFaRateAbsent()
    ensures ParseFaRate(Text("no percentage here")) == None
    ensures ParseFaRate(Empty) == None
    ensures ParseFaRate(Text("")) == None
  {
    ParseFaRateNeedsPercent("no percentage here");
  }
}
