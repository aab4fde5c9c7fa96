/** Worked inputs for the year bumper, each proved from the general theorems
    of `Years` rather than by running the scan. A text made of several
    pieces is given piece by piece, as parameters fixed by `requires`, so
    that the solver does not evaluate the scan on the whole literal. */
module YearsExamples {
  import opened Years

  /** A text that is just the year `y` becomes `out`. */
  lemma LoneYearBecomes(y: string, out: string)
    requires |y| == 4 && MatchAt(y, 0) && 1000 <= YearAt(y, 0) + 4 <= 9999
    requires out == ShowNat(YearAt(y, 0) + 4)
    ensures Expected(y) == out
  {
    ExpectedLoneYear(y);
  }

  lemma Year2019(y: string)
    requires y == "2019"
    ensures Expected(y) == "2023"
  {
    ShowNatFourDigits(2023);
    LoneYearBecomes(y, "2023");
  }

  lemma Year2020(y: string)
    requires y == "2020"
    ensures Expected(y) == "2024"
  {
    ShowNatFourDigits(2024);
    LoneYearBecomes(y, "2024");
  }

  lemma Year2021(y: string)
    requires y == "2021"
    ensures Expected(y) == "2025"
  {
    ShowNatFourDigits(2025);
    LoneYearBecomes(y, "2025");
  }

  lemma Year2023(y: string)
    requires y == "2023"
    ensures Expected(y) == "2027"
  {
    ShowNatFourDigits(2027);
    LoneYearBecomes(y, "2027");
  }

  /** The last year the pattern accepts turns into a year it would not. */
  lemma Year2099()
    ensures UpdateYears("2099") == Some("2103")
  {
    ShowNatFourDigits(2103);
    LoneYearBecomes("2099", "2103");
    UpdateYearsSpec("2099");
  }

  /** Every year in running text is bumped; the words around it are kept. */
  lemma InvoiceExample(a: string, b: string, c: string, d: string)
    requires a == "Invoice " && b == "2019" && c == ", ref " && d == "2021"
    ensures UpdateYears(a + b + c + d) == Some("Invoice 2023, ref 2025")
  {
    ExpectedConcat(c, d);
    ExpectedConcat(b, c + d);
    ExpectedConcat(a, b + (c + d));
    ExpectedWithoutTwo(a);
    ExpectedWithoutTwo(c);
    Year2019(b);
    Year2021(d);
    var s := a + b + c + d;
    assert s == a + (b + (c + d));
    assert a + ("2023" + (c + "2025")) == "Invoice 2023, ref 2025";
    UpdateYearsSpec(s);
  }

  /** A hyphen is not a word character: both ends of a range are bumped. */
  lemma RangeExample(a: string, b: string, c: string)
    requires a == "2019" && b == "-" && c == "2020"
    ensures UpdateYears(a + b + c) == Some("2023-2024")
  {
    ExpectedConcat(b, c);
    ExpectedConcat(a, b + c);
    ExpectedWithoutTwo(b);
    Year2019(a);
    Year2020(c);
    var s := a + b + c;
    assert s == a + (b + c);
    assert "2023" + (b + "2024") == "2023-2024";
    UpdateYearsSpec(s);
  }

  /** One pass bumps a year once: the output is not scanned again, and only
      running the bumper a second time adds another four years. */
  lemma EachPassAddsFour()
    ensures UpdateYears("2019") == Some("2023")
    ensures UpdateYears("2023") == Some("2027")
  {
    var y, z := "2019", "2023";
    Year2019(y);
    Year2023(z);
    UpdateYearsSpec(y);
    UpdateYearsSpec(z);
  }

  /** A year glued to other word characters is not a match. */
  lemma GluedYearsUntouched()
    ensures UpdateYears("20191234") == Some("20191234")
    ensures UpdateYears("x2019") == Some("x2019")
    ensures UpdateYears("2019a") == Some("2019a")
    ensures UpdateYears("_2019") == Some("_2019")
  {
    NoMatchUnchanged("20191234");
    NoMatchUnchanged("x2019");
    NoMatchUnchanged("2019a");
    NoMatchUnchanged("_2019");
  }

  /** Years outside 2000-2099 are not matched. */
  lemma OtherCenturiesUntouched()
    ensures UpdateYears("1999") == Some("1999")
    ensures UpdateYears("3020") == Some("3020")
  {
    NoMatchUnchanged("1999");
    NoMatchUnchanged("3020");
  }
}
