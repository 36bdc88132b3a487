/** Whole runs of the rule engine on small worksheets: a capital row with
    an F&A annotation above it, the same row without one, and a sheet with
    no header. */
module Scenarios {
  import opened Wrappers
  import opened Strings
  import opened Cells
  import opened RatePattern
  import opened PortfolioIQ

  /** Header "Grant" in row 5 and one capital-equipment line in row 6 with
      a budget of 10000 and an actual of 4000. */
  function Sheet(): Grid {
    map[(5, 1) := Text("Grant"),
        (6, 1) := Text("G100"), (6, 2) := Text("Desc"), (6, 3) := Text("Capital Equipment"),
        (6, 4) := Num(10000.0), (6, 5) := Num(4000.0)]
  }

  /** The same sheet with "F&A Rate 50%" in column 2 of row 3, above the
      header but inside the window of row 6. */
  function AnnotatedSheet(): Grid {
    Sheet()[(3, 2) := Text("F&A Rate 50%")]
  }

  /** A run over a header row followed by a single capital row updates
      that row alone and counts it. */
  lemma RunOneCapitalRow(g: Grid, h: int)
    requires HeaderRow(g) == Some(h) && IsCapitalRow(g, h + 1)
    ensures RunOutcome(g, h + 1) == Success(Report(1, g[(h + 1, ResultCol) := Num(Impact(g, h + 1))]))
  {
    WritesStep(g, h + 1, h + 1);
    WritesEmpty(g, h + 1, h + 1);
    CapitalRowsStep(g, h + 1, h + 1);
    assert g + Writes(g, h + 1, h + 2) == g[(h + 1, ResultCol) := Num(Impact(g, h + 1))];
    assert |CapitalRows(g, h + 1, h + 2)| == 1;
  }

  /** The cells of both sheets in rows 1 to 5, column by column.
      The sheet is fixed by `requires`, not written as
      literals: literal arguments make the verifier unfold the recursive
      scans until it exhausts its resource limit. */
  lemma SheetAbove(g: Grid, r: int, c: int)
    requires g == Sheet() || g == AnnotatedSheet()
    requires r < 6
    ensures At(g, r, c) ==
      if (r, c) == (5, 1) then Text("Grant")
      else if (r, c) == (3, 2) && g == AnnotatedSheet() then Text("F&A Rate 50%")
      else Empty
  {
  }

  /** Both sheets have their header in row 5.
      The sheet is fixed by `requires`, not written as
      literals: literal arguments make the verifier unfold the recursive
      scans until it exhausts its resource limit. */
  lemma SheetHeader(g: Grid)
    requires g == Sheet() || g == AnnotatedSheet()
    ensures HeaderRow(g) == Some(5)
  {
    SheetAbove(g, 5, 1);
    forall q | 1 <= q < 5 ensures !IsHeaderAt(g, q) {
      SheetAbove(g, q, 1);
    }
  }

  /** Row 6 of both sheets is a capital line with budget 10000 and
      actual 4000.
      The sheet is fixed by `requires`, not written as
      literals: literal arguments make the verifier unfold the recursive
      scans until it exhausts its resource limit. */
  lemma SheetRow6(g: Grid)
    requires g == Sheet() || g == AnnotatedSheet()
    ensures IsCapitalRow(g, 6)
    ensures ToNumber(At(g, 6, BudgetCol)) == 10000.0 && ToNumber(At(g, 6, ActualCol)) == 4000.0
  {
    assert At(g, 6, BudgetCol) == Num(10000.0) && At(g, 6, ActualCol) == Num(4000.0);
    assert "Capital Equipment"[0..7] == "Capital";
    assert ToUpper("Capital") == "CAPITAL" by {
      assert forall k | 0 <= k < 7 :: ToUpper("Capital")[k] == "CAPITAL"[k];
    }
    IsCapitalAt("Capital Equipment", 0, "Capital");
    assert At(g, 6, ClassCol) == Text("Capital Equipment");
  }

  /** "Grant" is no annotation: it does not contain "F&A". */
  lemma GrantIsNoAnnotation()
    ensures !IsFaAnnotation(Text("Grant"))
  {
    NotContainsFirst("Grant", "F&A");
  }

  /** "F&A Rate 50%" is an annotation and gives 50%. */
  lemma RateLabel()
    ensures IsFaAnnotation(Text("F&A Rate 50%"))
    ensures ParseFaRate(Text("F&A Rate 50%")) == Some(0.5)
  {
    var a := "F&A Rate 50%";
    assert OccursAt(a, "F&A", 0);
    assert NoDigits("F&A Rate ");
    assert ShowNat(50) == "50";
    assert "F&A Rate " + "50" + "" + "%" == a;
    ParseFaRateAfterLabel("F&A Rate ", 50, "");
  }

  /** Row 3, column 2 holds the first annotation in the window of row 6.
      The sheet and the row are fixed by `requires`, not written as
      literals: literal arguments make the verifier unfold the recursive
      scans until it exhausts its resource limit. */
  lemma AnnotatedSheetFirst(g: Grid, row: int)
    requires g == AnnotatedSheet() && row == 6
    ensures FirstAnnotation(g, row) == Some((3, 2)) && At(g, 3, 2) == Text("F&A Rate 50%")
  {
    RateLabel();
    GrantIsNoAnnotation();
    assert WindowLow(row) == 2;
    forall r, c | InWindow(row, r, c) && ScannedBefore(r, c, 3, 2) ensures !IsAnnotationAt(g, r, c) {
      SheetAbove(g, r, c);
    }
    SheetAbove(g, 3, 2);
    FirstAnnotationIsFirst(g, row, 3, 2);
  }

  /** The F&A annotation in row 3 is the first in the window of row 6 and
      gives 50%.
      The sheet and the row are fixed by `requires`, not written as
      literals: literal arguments make the verifier unfold the recursive
      scans until it exhausts its resource limit. */
  lemma AnnotatedSheetRate(g: Grid, row: int)
    requires g == AnnotatedSheet() && row == 6
    ensures FaRate(g, row) == Some(0.5)
  {
    AnnotatedSheetFirst(g, row);
    RateLabel();
  }

  /** Without it no annotation is in the window of row 6.
      The sheet and the row are fixed by `requires`, not written as
      literals: literal arguments make the verifier unfold the recursive
      scans until it exhausts its resource limit. */
  lemma SheetRate(g: Grid, row: int)
    requires g == Sheet() && row == 6
    ensures FaRate(g, row) == None
  {
    GrantIsNoAnnotation();
    forall r, c | InWindow(row, r, c) ensures !IsAnnotationAt(g, r, c) {
      SheetAbove(g, r, c);
    }
    FirstAnnotationNone(g, row);
  }

  /** With the annotation the run updates one row and writes
      (10000 - 4000) * 0.50 = 3000 into column 10 of row 6.
      The sheet and its last row are fixed by `requires`, not written as
      literals: literal arguments make the verifier unfold the recursive
      scans until it exhausts its resource limit. */
  lemma RunWithAnnotation(g: Grid, maxRow: int)
    requires g == AnnotatedSheet() && maxRow == 6
    ensures RunOutcome(g, maxRow) == Success(Report(1, g[(6, 10) := Num(3000.0)]))
  {
    SheetHeader(g);
    AnnotatedSheetRate(g, maxRow);
    SheetRow6(g);
    assert EffectiveRate(g, 6) == 0.5;
    assert Impact(g, 6) == ImpactOf(10000.0, 4000.0, 0.5) == 3000.0;
    RunOneCapitalRow(g, 5);
  }

  /** Without an annotation the default rate applies:
      (10000 - 4000) * 0.60 = 3600.
      The sheet and its last row are fixed by `requires`, not written as
      literals: literal arguments make the verifier unfold the recursive
      scans until it exhausts its resource limit. */
  lemma RunWithDefaultRate(g: Grid, maxRow: int)
    requires g == Sheet() && maxRow == 6
    ensures RunOutcome(g, maxRow) == Success(Report(1, g[(6, 10) := Num(3600.0)]))
  {
    SheetHeader(g);
    SheetRate(g, maxRow);
    SheetRow6(g);
    assert EffectiveRate(g, 6) == DefaultFaRate;
    assert Impact(g, 6) == ImpactOf(10000.0, 4000.0, 0.6) == 3600.0;
    RunOneCapitalRow(g, 5);
  }

  /** A sheet whose "Grant" label sits in row 50 or below, or is not spelled
      exactly, has no header: the run fails. */
  lemma RunWithoutHeader()
    ensures RunOutcome(map[(50, 1) := Text("Grant"), (2, 1) := Text("GRANT")], 60) == Failure(HeaderNotFound)
  {
    var g := map[(50, 1) := Text("Grant"), (2, 1) := Text("GRANT")];
    assert "GRANT" != "Grant" by { assert "GRANT"[1] != "Grant"[1]; }
    RunFailsWithoutHeader(g, 60);
  }
}
