/** Dates worked out by hand, checked against the model. */
module ReferenceDates {
  import opened Options
  import opened Time
  import opened Holidays
  import opened Regions

  /** Known dates of Easter, and the two years just outside the range. */
  lemma EasterReferenceDates()
    ensures ComputusGregorian(2000) == Some(Date(2000, 4, 23))
    ensures ComputusGregorian(2023) == Some(Date(2023, 4, 9))
    ensures ComputusGregorian(2024) == Some(Date(2024, 3, 31))
    ensures ComputusGregorian(2025) == Some(Date(2025, 4, 20))
    ensures ComputusGregorian(1818) == Some(Date(1818, 3, 22))
    ensures ComputusGregorian(1582) == None && ComputusGregorian(10000) == None
  {
    Easter2000();
    Easter2023();
    Easter2024();
    Easter2025();
    Easter1818();
  }

  lemma Easter2000()
    ensures ComputusGregorian(2000) == Some(Date(2000, 4, 23))
  {
    var s := ComputusSteps(2000);
    assert s.hh + s.ll - 7 * s.mm == 32 by {
      assert s == Computus(5, 20, 0, 5, 0, 1, 6, 29, 0, 0, 3, 0, 4, 23);
    }
    EasterDate(2000);
  }

  lemma Easter2023()
    ensures ComputusGregorian(2023) == Some(Date(2023, 4, 9))
  {
    var s := ComputusSteps(2023);
    assert s.hh + s.ll - 7 * s.mm == 18 by {
      assert s == Computus(9, 20, 23, 5, 0, 1, 6, 15, 5, 3, 3, 0, 4, 9);
    }
    EasterDate(2023);
  }

  lemma Easter2024()
    ensures ComputusGregorian(2024) == Some(Date(2024, 3, 31))
  {
    var s := ComputusSteps(2024);
    assert s.hh + s.ll - 7 * s.mm == 9 by {
      assert s == Computus(10, 20, 24, 5, 0, 1, 6, 4, 6, 0, 5, 0, 3, 31);
    }
    EasterDate(2024);
  }

  lemma Easter2025()
    ensures ComputusGregorian(2025) == Some(Date(2025, 4, 20))
  {
    var s := ComputusSteps(2025);
    assert s.hh + s.ll - 7 * s.mm == 29 by {
      assert s == Computus(11, 20, 25, 5, 0, 1, 6, 23, 6, 1, 6, 0, 4, 20);
    }
    EasterDate(2025);
  }

  lemma Easter1818()
    ensures ComputusGregorian(1818) == Some(Date(1818, 3, 22))
  {
    var s := ComputusSteps(1818);
    assert s.hh + s.ll - 7 * s.mm == 0 by {
      assert s == Computus(13, 18, 18, 4, 2, 1, 6, 0, 4, 2, 0, 0, 3, 22);
    }
    EasterDate(1818);
  }

  /** 23 November 2023 is a Thursday, 23 November 2024 a Saturday. */
  lemma BusUndBettagReferenceDates()
    ensures Weekday(Date(2023, 11, 23)) == 3 && Weekday(Date(2024, 11, 23)) == 5
    ensures BusUndBettag(2023) == Some(Date(2023, 11, 22))
    ensures BusUndBettag(2024) == Some(Date(2024, 11, 20))
  {
  }

  /** 8 June 2023 is Fronleichnam, 60 days after Easter Sunday on 9 April; 8 August is 121 days after. */
  lemma DaysAfterEaster2023()
    ensures DayNumber(Date(2023, 6, 8)) == DayNumber(Date(2023, 4, 9)) + 60
    ensures DayNumber(Date(2023, 8, 8)) == DayNumber(Date(2023, 4, 9)) + 121
  {
  }

  /** Christmas Day is a holiday in Bayern, and Frauentag (8 March) one in Berlin. */
  lemma RegionalHolidays2023()
    ensures IsHolidayIn(Bayern, Date(2023, 12, 25))
    ensures IsHolidayIn(Berlin, Date(2023, 3, 8))
  {
    NationWideEverywhere(Bayern, ErsterWeihnachtsfeiertag, 2023);
    assert Frauentag in HolidaysOf(Berlin) && FallsOn(Frauentag, Date(2023, 3, 8));
  }

  /** 8 August 2023 is the Augsburger Friedensfest: a holiday in Augsburg, not elsewhere in Bayern. */
  lemma Friedensfest2023()
    ensures IsHolidayIn(BayernAugsburg, Date(2023, 8, 8))
    ensures !IsHolidayIn(Bayern, Date(2023, 8, 8))
  {
    FriedensfestDate(2023);
  }

  /** Fronleichnam 2023 falls on 8 June: a holiday in catholic Saxony, not in Saxony by default. */
  lemma Fronleichnam2023InSaxony()
    ensures HolidayDate(Fronleichnam, 2023) == Some(Date(2023, 6, 8))
    ensures IsHolidayIn(SachsenCatholic, Date(2023, 6, 8))
    ensures !IsHolidayIn(Sachsen, Date(2023, 6, 8))
  {
    assert HolidayDate(Fronleichnam, 2023) == Some(Date(2023, 6, 8)) by {
      Easter2023();
      DaysAfterEaster2023();
      HolidayDateObserves(Fronleichnam, Date(2023, 6, 8));
    }
    FronleichnamDateInSaxony(2023);
  }
}
