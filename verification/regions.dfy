/**
 * The regions (German states, some split by confession or by one city) and the
 * holidays each observes: a region-specific list followed by the holidays
 * observed nationwide. A date is a holiday in a region when one of the
 * region's holidays falls on it in that date's year.
 */
module Regions {
  import opened Options
  import opened Time
  import opened Holidays

  datatype Region =
    | BadenWuerttemberg
    | Bayern
    | BayernAugsburg
    | BayernCatholic
    | BayernProtestant
    | Berlin
    | Brandenburg
    | Bremen
    | Hamburg
    | Hessen
    | MecklenburgVorpommern
    | Niedersachsen
    | NordrheinWestfalen
    | RheinlandPfalz
    | Saarland
    | Sachsen
    | SachsenCatholic
    | SachenProtestant
    | SachsenAnhalt
    | SchleswigHolstein
    | Thueringen
    | ThueringenCatholic
    | ThueringenProtestant

  /** `NATION_WIDE_HOLIDAYS`, in the order the crate lists them. */
  const NationWideHolidays: seq<Holiday> := [
    Neujahr, Karfreitag, Ostermontag, TagDerArbeit, ChristiHimmelfahrt,
    Pfingstmontag, TagDerDeutschenEinheit, ErsterWeihnachtsfeiertag,
    ZweiterWeihnachtsfeiertag]

  /** The list `Region::holidays` starts from, before the nationwide ones are appended. */
  function RegionSpecific(region: Region): seq<Holiday> {
    match region
    case BadenWuerttemberg => [HeiligeDreiKoenige, Fronleichnam, Allerheiligen]
    case Bayern => [HeiligeDreiKoenige, Fronleichnam, MariaeHimmelfahrt, Allerheiligen]
    case BayernAugsburg =>
      [HeiligeDreiKoenige, Fronleichnam, AugsburgerFriedensfest, MariaeHimmelfahrt, Allerheiligen]
    case BayernCatholic => [HeiligeDreiKoenige, Fronleichnam, MariaeHimmelfahrt, Allerheiligen]
    case BayernProtestant => [HeiligeDreiKoenige, Fronleichnam, MariaeHimmelfahrt]
    case Berlin => [Frauentag]
    case Brandenburg => [Reformationstag]
    case Bremen => [Reformationstag]
    case Hamburg => [Reformationstag]
    case Hessen => [Fronleichnam]
    case MecklenburgVorpommern => [Frauentag, Reformationstag]
    case Niedersachsen => [Reformationstag]
    case NordrheinWestfalen => [Fronleichnam, Allerheiligen]
    case RheinlandPfalz => [Fronleichnam, Allerheiligen]
    case Saarland => [Fronleichnam, MariaeHimmelfahrt, Allerheiligen]
    case Sachsen => [Reformationstag, BussUndBettag]
    case SachsenCatholic => [Reformationstag, Fronleichnam, BussUndBettag]
    case SachenProtestant => [Reformationstag, BussUndBettag]
    case SachsenAnhalt => [HeiligeDreiKoenige, Reformationstag]
    case SchleswigHolstein => [Reformationstag]
    case Thueringen => [Weltkindertag, Reformationstag]
    case ThueringenCatholic => [Fronleichnam, Reformationstag]
    case ThueringenProtestant => [Reformationstag]
  }

  /** `Region::holidays`: the region's own holidays, then the nationwide ones. */
  function HolidaysOf(region: Region): (holidays: seq<Holiday>)
    ensures |holidays| == |RegionSpecific(region)| + |NationWideHolidays|
    ensures holidays[|RegionSpecific(region)|..] == NationWideHolidays
  {
    RegionSpecific(region) + NationWideHolidays
  }

  predicate NoDuplicates(s: seq<Holiday>) {
    forall i, j :: 0 <= i < j < |s| ==> s[i] != s[j]
  }

  /**
   * The same catalogue read by holiday rather than by region: the regions in
   * which each holiday is a public holiday.
   */
  predicate Celebrates(region: Region, h: Holiday) {
    match h
    case Neujahr | Karfreitag | Ostermontag | TagDerArbeit | ChristiHimmelfahrt
      | Pfingstmontag | TagDerDeutschenEinheit | ErsterWeihnachtsfeiertag
      | ZweiterWeihnachtsfeiertag => true
    case TagDerBefreiung | Pfingstsonntag => false
    case HeiligeDreiKoenige =>
      region.BadenWuerttemberg? || IsBavarian(region) || region.SachsenAnhalt?
    case Frauentag => region.Berlin? || region.MecklenburgVorpommern?
    case Fronleichnam =>
      || region.BadenWuerttemberg? || IsBavarian(region) || region.Hessen?
      || region.NordrheinWestfalen? || region.RheinlandPfalz? || region.Saarland?
      || region.SachsenCatholic? || region.ThueringenCatholic?
    case AugsburgerFriedensfest => region.BayernAugsburg?
    case MariaeHimmelfahrt => IsBavarian(region) || region.Saarland?
    case Weltkindertag => region.Thueringen?
    case Reformationstag =>
      || region.Brandenburg? || region.Bremen? || region.Hamburg?
      || region.MecklenburgVorpommern? || region.Niedersachsen? || IsSaxon(region)
      || region.SachsenAnhalt? || region.SchleswigHolstein? || IsThuringian(region)
    case Allerheiligen =>
      || region.BadenWuerttemberg? || region.Bayern? || region.BayernAugsburg?
      || region.BayernCatholic? || region.NordrheinWestfalen? || region.RheinlandPfalz?
      || region.Saarland?
    case BussUndBettag => IsSaxon(region)
  }

  predicate IsBavarian(region: Region) {
    region.Bayern? || region.BayernAugsburg? || region.BayernCatholic? || region.BayernProtestant?
  }

  predicate IsSaxon(region: Region) {
    region.Sachsen? || region.SachsenCatholic? || region.SachenProtestant?
  }

  predicate IsThuringian(region: Region) {
    region.Thueringen? || region.ThueringenCatholic? || region.ThueringenProtestant?
  }

  /** The date of `h` in `date`'s year can be computed and is `date`. */
  predicate FallsOn(h: Holiday, date: Date) {
    HolidayDate(h, date.year) == Some(date)
  }

  /** `Region::is_holiday` as a statement: some holiday of the region falls on `date`. */
  ghost predicate IsHolidayIn(region: Region, date: Date) {
    exists h :: h in HolidaysOf(region) && FallsOn(h, date)
  }

  /** `Region::is_holiday`: looks for the date among the region's holidays. */
  method IsHoliday(region: Region, date: Date) returns (found: bool)
    ensures found <==> IsHolidayIn(region, date)
  {
    found := IsHolidayAmong(HolidaysOf(region), date);
  }

  /**
   * The loop of `Region::is_holiday`: walks the holidays in order, skipping
   * those whose date cannot be computed for the year, and stops at the first
   * whose date is `date`.
   */
  method IsHolidayAmong(holidays: seq<Holiday>, date: Date) returns (found: bool)
    ensures found <==> exists h :: h in holidays && FallsOn(h, date)
  {
    var year := date.year;
    for i := 0 to |holidays|
      invariant forall j :: 0 <= j < i ==> !FallsOn(holidays[j], date)
    {
      match HolidayDate(holidays[i], year) {
        case Some(holiday) =>
          if date == holiday {
            assert FallsOn(holidays[i], date);
            return true;
          }
        case None =>
      }
    }
    assert forall h :: h in holidays ==> !FallsOn(h, date);
    return false;
  }

  // ---------------------------------------------------------------------------
  // The lists, region by region

  /** A holiday is nationwide exactly when every region observes it. */
  lemma NationWideCelebrated(h: Holiday)
    ensures h in NationWideHolidays <==> forall region :: Celebrates(region, h)
  {
    if h !in NationWideHolidays {
      assert !Celebrates(ThueringenProtestant, h) || !Celebrates(Berlin, h);
    }
  }

  /** Every holiday on a region's own list is one the region observes. */
  lemma RegionSpecificCelebrated(region: Region, h: Holiday)
    ensures h in RegionSpecific(region) ==> Celebrates(region, h)
  {
  }

  /** A region's own list repeats none of the nationwide holidays. */
  lemma RegionSpecificNotNationWide(region: Region, h: Holiday)
    ensures h in RegionSpecific(region) ==> h !in NationWideHolidays
  {
  }

  /** Every holiday a region observes beyond the nationwide ones is on its own list. */
  lemma RegionSpecificComplete(region: Region, h: Holiday)
    ensures Celebrates(region, h) && h !in NationWideHolidays ==> h in RegionSpecific(region)
  {
  }

  lemma RegionSpecificNoDuplicates(region: Region)
    ensures NoDuplicates(RegionSpecific(region))
  {
  }

  lemma NationWideNoDuplicates()
    ensures NoDuplicates(NationWideHolidays)
  {
  }

  /** Two lists without repeats and without common elements join into one without repeats. */
  lemma NoDuplicatesConcat(a: seq<Holiday>, b: seq<Holiday>)
    requires NoDuplicates(a) && NoDuplicates(b)
    requires forall x :: x in a ==> x !in b
    ensures NoDuplicates(a + b)
  {
    forall i, j | 0 <= i < j < |a + b|
      ensures (a + b)[i] != (a + b)[j]
    {
      if i < |a| && |a| <= j {
        assert (a + b)[i] in a && (a + b)[j] in b;
      }
    }
  }

  /** `Region::holidays` names each holiday at most once. */
  lemma HolidaysOfNoDuplicates(region: Region)
    ensures NoDuplicates(HolidaysOf(region))
  {
    RegionSpecificNoDuplicates(region);
    NationWideNoDuplicates();
    forall h | h in RegionSpecific(region)
      ensures h !in NationWideHolidays
    {
      RegionSpecificNotNationWide(region, h);
    }
    NoDuplicatesConcat(RegionSpecific(region), NationWideHolidays);
  }

  /** The lists agree with the table read by holiday. */
  lemma HolidaysOfCelebrated(region: Region, h: Holiday)
    ensures h in HolidaysOf(region) <==> Celebrates(region, h)
  {
    RegionSpecificCelebrated(region, h);
    RegionSpecificComplete(region, h);
    NationWideCelebrated(h);
    assert h in HolidaysOf(region) <==> h in RegionSpecific(region) || h in NationWideHolidays;
  }

  /** Pfingstsonntag and Tag der Befreiung are in the catalogue but in no region's list. */
  lemma NeverRegional(region: Region)
    ensures Pfingstsonntag !in HolidaysOf(region) && TagDerBefreiung !in HolidaysOf(region)
  {
    HolidaysOfCelebrated(region, Pfingstsonntag);
    HolidaysOfCelebrated(region, TagDerBefreiung);
  }

  /** The Augsburger Friedensfest belongs to Augsburg alone. */
  lemma FriedensfestOnlyInAugsburg(region: Region)
    ensures AugsburgerFriedensfest in HolidaysOf(region) <==> region == BayernAugsburg
  {
    HolidaysOfCelebrated(region, AugsburgerFriedensfest);
  }

  /**
   * Fronleichnam is left out for Saxony and Thuringia by default and for their
   * protestant variants, and kept for their catholic variants.
   */
  lemma FronleichnamInSaxonyAndThuringia(region: Region)
    requires IsSaxon(region) || IsThuringian(region)
    ensures Fronleichnam in HolidaysOf(region) <==> region == SachsenCatholic || region == ThueringenCatholic
  {
    HolidaysOfCelebrated(region, Fronleichnam);
  }

  /**
   * The protestant Bavarian list as written keeps Mariä Himmelfahrt and drops
   * Allerheiligen, which the variant's documentation describes the other way round.
   */
  lemma BayernProtestantAsWritten()
    ensures MariaeHimmelfahrt in HolidaysOf(BayernProtestant)
    ensures Allerheiligen !in HolidaysOf(BayernProtestant)
    ensures Allerheiligen in HolidaysOf(Bayern)
  {
    HolidaysOfCelebrated(BayernProtestant, Allerheiligen);
  }

  /**
   * Weltkindertag is on the list of Thueringen only; the catholic and protestant
   * Thuringian lists as written leave it out.
   */
  lemma WeltkindertagInThuringia(region: Region)
    ensures Weltkindertag in HolidaysOf(region) <==> region == Thueringen
  {
    HolidaysOfCelebrated(region, Weltkindertag);
  }

  /** Every holiday of `r1` is one of `r2`. */
  predicate Includes(r1: Region, r2: Region) {
    forall h :: h in HolidaysOf(r1) ==> h in HolidaysOf(r2)
  }

  /** Inclusion of the lists follows from inclusion in the table read by holiday. */
  lemma IncludesByTable(r1: Region, r2: Region)
    requires forall h :: Celebrates(r1, h) ==> Celebrates(r2, h)
    ensures Includes(r1, r2)
  {
    forall h | h in HolidaysOf(r1)
      ensures h in HolidaysOf(r2)
    {
      HolidaysOfCelebrated(r1, h);
      HolidaysOfCelebrated(r2, h);
    }
  }

  /** The regional variants only add holidays to the region they refine. */
  lemma VariantsExtendTheirRegion()
    ensures Includes(Sachsen, SachsenCatholic)
    ensures Includes(SachenProtestant, Sachsen) && Includes(Sachsen, SachenProtestant)
    ensures Includes(Bayern, BayernAugsburg) && Includes(BayernProtestant, Bayern)
    ensures Includes(Bayern, BayernCatholic) && Includes(BayernCatholic, Bayern)
    ensures Includes(ThueringenProtestant, Thueringen) && Includes(ThueringenProtestant, ThueringenCatholic)
  {
    IncludesByTable(Sachsen, SachsenCatholic);
    IncludesByTable(SachenProtestant, Sachsen);
    IncludesByTable(Sachsen, SachenProtestant);
    IncludesByTable(Bayern, BayernAugsburg);
    IncludesByTable(BayernProtestant, Bayern);
    IncludesByTable(Bayern, BayernCatholic);
    IncludesByTable(BayernCatholic, Bayern);
    IncludesByTable(ThueringenProtestant, Thueringen);
    IncludesByTable(ThueringenProtestant, ThueringenCatholic);
  }

  // ---------------------------------------------------------------------------
  // Holidays on dates

  /** A date is a holiday in a region exactly when the rule of one of its holidays names it. */
  lemma IsHolidayInByRule(region: Region, date: Date)
    ensures IsHolidayIn(region, date) <==> exists h :: Celebrates(region, h) && Observes(RuleOf(h), date)
  {
    forall h
      ensures (h in HolidaysOf(region) && FallsOn(h, date))
        <==> (Celebrates(region, h) && Observes(RuleOf(h), date))
    {
      HolidayDateObserves(h, date);
      HolidaysOfCelebrated(region, h);
    }
  }

  /** A region with more holidays has at least the same holiday dates. */
  lemma IncludesMonotone(r1: Region, r2: Region, date: Date)
    requires Includes(r1, r2)
    ensures IsHolidayIn(r1, date) ==> IsHolidayIn(r2, date)
  {
    if IsHolidayIn(r1, date) {
      var h :| h in HolidaysOf(r1) && FallsOn(h, date);
      assert h in HolidaysOf(r2);
    }
  }

  /** Every date of a nationwide holiday is a holiday in every region. */
  lemma NationWideEverywhere(region: Region, h: Holiday, year: int)
    requires h in NationWideHolidays && HolidayDate(h, year).Some?
    ensures IsHolidayIn(region, HolidayDate(h, year).value)
  {
    HolidayDateDefined(h, year);
    var date := HolidayDate(h, year).value;
    assert h in HolidaysOf(region);
    assert FallsOn(h, date);
  }

  /**
   * 8 August is a holiday in Augsburg in every year the date type covers, and
   * never in the rest of Bayern: none of Bayern's fixed holidays falls on it and
   * its Easter-relative ones all lie before 25 June.
   */
  lemma FriedensfestDate(year: int)
    requires MinYear <= year <= MaxYear
    ensures IsHolidayIn(BayernAugsburg, Date(year, 8, 8))
    ensures !IsHolidayIn(Bayern, Date(year, 8, 8))
  {
    var date := Date(year, 8, 8);
    assert AugsburgerFriedensfest in HolidaysOf(BayernAugsburg) && FallsOn(AugsburgerFriedensfest, date);
    IsHolidayInByRule(Bayern, date);
    forall h | Celebrates(Bayern, h)
      ensures !Observes(RuleOf(h), date)
    {
      if RuleOf(h).EasterOffset? {
        HolidayDateObserves(h, date);
        HolidayDateFollowsRule(h, year);
        EasterRelative(year, RuleOf(h).days);
      }
    }
  }

  /**
   * The date of Fronleichnam is never a holiday in Saxony by default: it comes
   * 60 days after Easter Sunday, in late May or in June, so on none of the
   * fixed holidays and none of the other Easter-relative days.
   */
  lemma FronleichnamNotInSachsen(date: Date)
    requires Observes(RuleOf(Fronleichnam), date)
    ensures !IsHolidayIn(Sachsen, date)
  {
    FronleichnamSeason(date);
    IsHolidayInByRule(Sachsen, date);
  }

  /**
   * The date of Fronleichnam, whenever it can be computed, is a holiday in
   * catholic Saxony and not in Saxony by default.
   */
  lemma FronleichnamDateInSaxony(year: int)
    requires 1583 <= year <= 9999
    ensures HolidayDate(Fronleichnam, year).Some?
    ensures IsHolidayIn(SachsenCatholic, HolidayDate(Fronleichnam, year).value)
    ensures !IsHolidayIn(Sachsen, HolidayDate(Fronleichnam, year).value)
  {
    assert HolidayDate(Fronleichnam, year).Some? && HolidayDate(Fronleichnam, year).value.year == year by {
      EasterRelative(year, 60);
    }
    var d := HolidayDate(Fronleichnam, year).value;
    assert Fronleichnam in HolidaysOf(SachsenCatholic) && FallsOn(Fronleichnam, d);
    HolidayDateObserves(Fronleichnam, d);
    FronleichnamNotInSachsen(d);
  }
}
