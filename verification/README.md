# feiertage in Dafny

A model of the date engine of `feiertage`, a Rust crate for German public
holidays, with proofs about it. The model has these parts:

- **`Options`** holds the `Option` datatype the engine returns.
- **`Time`** is a minimal stand-in for the parts of the `time` crate the engine uses.
  - A `Date` is a (year, month, day) triple. It is valid for years -9999 to 9999 when the day exists in its month, leap years included.
  - `FromCalendarDate` is `Date::from_calendar_date(..).ok()`.
  - `Weekday` counts from Monday = 0. It is computed from a day number, the number of days since 1 January of year 1.
  - `AddDays` is `date + Duration::days(n)`. It walks from month to month.
- **`Holidays`** models `src/holidays.rs`.
  - It holds the 20 holidays and `Holiday::date` (`HolidayDate`).
  - Easter Sunday is computed by the anonymous Gregorian computus. The computus uses Rust's truncating `/` and `%`.
  - Offsets from Easter give the Easter-relative holidays.
  - Buß- und Bettag is the Wednesday before 23 November.
  - The holidays are also tabulated as rules (`RuleOf`, `Observes`). The date function is proved to find exactly the days its rule names.
- **`Regions`** models `src/regions.rs`.
  - It holds the 23 regions, the nine nationwide holidays, and `Region::holidays` (`HolidaysOf`).
  - `Region::is_holiday` (`IsHoliday`) is a method whose loop is proved against an existential specification (`IsHolidayIn`).
  - The lists are also read by holiday, as an independent table (`Celebrates`). The two views are proved to agree.
- **`ReferenceDates`** checks the model against dates worked out by hand.

Where the variant documentation and the code disagree, the model follows the code:

- **`BayernProtestant`.** The documentation of `Region` (src/regions.rs:15-17) says this variant leaves out Mariä Himmelfahrt. The list at src/regions.rs:160-164 keeps Mariä Himmelfahrt and leaves out Allerheiligen instead. `Regions.BayernProtestantAsWritten` states the list as written.
- **Weltkindertag.** The lists for `ThueringenCatholic` and `ThueringenProtestant` do not contain Weltkindertag, although the list for `Thueringen` does. This is also modelled as written; see `Regions.WeltkindertagInThuringia`.

The variant `SachenProtestant` keeps the crate's spelling.

## Model

| member | source | states |
|---|---|---|
| `Time.FromCalendarDate` | src/holidays.rs:52-79 | A date is produced exactly when (year, month, day) is a valid date of the date type, and it is that date |
| `Time.AddDaysNumber` | src/holidays.rs:93-99 | Adding n days to a calendar date gives a calendar date exactly n days later (earlier when n < 0) |
| `Time.AddDaysWeekday` | src/holidays.rs:87-93 | Adding n days moves the Monday-based weekday by n modulo 7 |
| `Time.AddDaysUnique` | src/holidays.rs:93-99 | The date reached by adding n days is the only calendar date whose day number is n more |
| `Time.DayNumberOrder` | src/holidays.rs:93-99 | The day numbering follows the calendar order, so two calendar dates are equal exactly when their day numbers are |
| `Holidays.ComputusGregorian` | src/holidays.rs:105-125 | A computed Easter Sunday is a valid date in the requested year |
| `Holidays.TruncatedDivision` | src/holidays.rs:109-122 | Rust's `/` and `%` give dividend = divisor × quotient + remainder, with the remainder taking the dividend's sign |
| `Holidays.TruncationAgrees` | src/holidays.rs:109-122 | For a non-negative dividend, Rust's truncating `/` and `%` equal Euclidean division |
| `Holidays.ComputusStepsInRange` | src/holidays.rs:106-122 | For years 1583 to 9999 every intermediate value of the computus equals its textbook Euclidean form |
| `Holidays.ClassicalBounds` | src/holidays.rs:109-122 | For years 1583 to 9999 every dividend is non-negative, hh is in 0..29, ll in 0..6 and mm in {0, 1}, and hh + ll - 7mm is in 0..34 |
| `Holidays.EasterDate` | src/holidays.rs:105-125 | For years 1583 to 9999 the derived month is 3 or 4, the day is valid, and Easter is 22 March + (hh + ll - 7mm) days |
| `Holidays.EasterFromMarch22` | src/holidays.rs:109-124 | Easter's day number is that of 22 March plus hh + ll - 7mm, and its weekday is Sunday |
| `Holidays.EasterSunday` | src/holidays.rs:105-125 | The computus is `None` exactly outside 1583 to 9999; otherwise it is a valid Sunday from 22 March to 25 April of that year |
| `Holidays.EasterRelative` | src/holidays.rs:97-100 | For the offsets -2 to 60, the date exists exactly when Easter does, is the offset's number of days from Easter on the matching weekday, and stays between 20 March and 24 June of the same year |
| `Holidays.FronleichnamSeason` | src/holidays.rs:62 | Fronleichnam is always a Thursday from 21 May to 24 June |
| `Holidays.SameWeekdayWithinWeek` | src/holidays.rs:87-93 | Two days of one month less than a week apart with the same weekday are the same day |
| `Holidays.BusUndBettagSpec` | src/holidays.rs:85-94 | Buß- und Bettag exists exactly when 23 November does. It is a Wednesday from 16 to 22 November, w + 5 days back when 23 November's weekday w is below 3 and w - 2 days back otherwise (1 to 7 days), and no later Wednesday comes before 23 November |
| `Holidays.HolidayDateDefined` | src/holidays.rs:47-81 | A holiday's date is `None` only when its calculation fails: outside 1583 to 9999 for the Easter-relative ones, outside the date type's range for the others. A found date lies in the requested year |
| `Holidays.HolidayDateObserves` | src/holidays.rs:50-100 | A holiday's date in a year is a given day exactly when its rule names that day: a fixed valid calendar day, a valid day whose day number is Easter Sunday's plus the rule's offset, or a Wednesday from 16 to 22 November |
| `Regions.HolidaysOf` | src/regions.rs:134-205 | A region's list ends with exactly the nine nationwide holidays, in order, after the region's own list |
| `Regions.NationWideCelebrated` | src/regions.rs:210-220 | A holiday is nationwide exactly when every region observes it in the table read by holiday |
| `Regions.RegionSpecificCelebrated` | src/regions.rs:136-200 | Every holiday on a region's own list is observed there according to the table read by holiday |
| `Regions.RegionSpecificComplete` | src/regions.rs:136-200 | Every holiday a region observes in that table, beyond the nationwide ones, is on its own list |
| `Regions.RegionSpecificNotNationWide` | src/regions.rs:136-220 | No region's own list repeats a nationwide holiday |
| `Regions.RegionSpecificNoDuplicates` | src/regions.rs:136-200 | No region's own list names a holiday twice |
| `Regions.NationWideNoDuplicates` | src/regions.rs:210-220 | The nationwide list names no holiday twice |
| `Regions.HolidaysOfNoDuplicates` | src/regions.rs:134-220 | No region's complete list names a holiday twice |
| `Regions.HolidaysOfCelebrated` | src/regions.rs:134-220 | A holiday is on a region's list exactly when the table read by holiday says the region observes it |
| `Regions.IsHoliday` | src/regions.rs:118-131 | `is_holiday` is true exactly when some holiday of the region falls on the date in that date's year |
| `Regions.IsHolidayAmong` | src/regions.rs:119-130 | The loop returns true exactly when some listed holiday's date is the given date; holidays without a date are skipped |
| `Regions.IsHolidayInByRule` | src/regions.rs:118-131 | A date is a holiday in a region exactly when the rule of a holiday the region observes names it |
| `Regions.NeverRegional` | src/regions.rs:136-220 | Pfingstsonntag and Tag der Befreiung are on no region's list |
| `Regions.FriedensfestOnlyInAugsburg` | src/regions.rs:141-153 | The Augsburger Friedensfest is on a region's list exactly when the region is `BayernAugsburg` |
| `Regions.FronleichnamInSaxonyAndThuringia` | src/regions.rs:183-200 | Among the Saxon and Thuringian regions, Fronleichnam is listed exactly for `SachsenCatholic` and `ThueringenCatholic` |
| `Regions.BayernProtestantAsWritten` | src/regions.rs:160-164 | The protestant Bavarian list keeps Mariä Himmelfahrt and leaves out Allerheiligen, which `Bayern` lists |
| `Regions.WeltkindertagInThuringia` | src/regions.rs:196-200 | Weltkindertag is on a region's list exactly when the region is `Thueringen` |
| `Regions.IncludesByTable` | src/regions.rs:136-200 | A region's list is contained in another's when its column of the table read by holiday is |
| `Regions.VariantsExtendTheirRegion` | src/regions.rs:141-200 | The lists grow from Sachsen to SachsenCatholic, from Bayern to BayernAugsburg, from BayernProtestant to Bayern, and from ThueringenProtestant to both other Thuringian variants. Bayern and BayernCatholic list the same holidays, and so do SachenProtestant and Sachsen |
| `Regions.IncludesMonotone` | src/regions.rs:118-131 | When one region's list is contained in another's, every holiday date of the first is one of the second |
| `Regions.NationWideEverywhere` | src/regions.rs:203 | The date of a nationwide holiday is a holiday in every region |
| `Regions.FriedensfestDate` | src/regions.rs:141-153 | In every year of the date type, 8 August is a holiday in `BayernAugsburg` and not in `Bayern` |
| `Regions.FronleichnamNotInSachsen` | src/regions.rs:183 | No day that is Fronleichnam is a holiday in `Sachsen` |
| `Regions.FronleichnamDateInSaxony` | src/regions.rs:183-188 | For years 1583 to 9999, Fronleichnam is a holiday in `SachsenCatholic` and not in `Sachsen` |
| `ReferenceDates.EasterReferenceDates` | src/holidays.rs:105-125 | Easter falls on 2000-04-23, 2023-04-09, 2024-03-31, 2025-04-20 and 1818-03-22, and is `None` for 1582 and 10000 |
| `ReferenceDates.BusUndBettagReferenceDates` | src/holidays.rs:85-94 | Buß- und Bettag falls on 2023-11-22 and 2024-11-20 |
| `ReferenceDates.RegionalHolidays2023` | src/lib.rs:23-26 | 2023-12-25 is a holiday in `Bayern`, and 2023-03-08 is one in `Berlin` |
| `ReferenceDates.Friedensfest2023` | src/regions.rs:141-153 | 2023-08-08 is a holiday in `BayernAugsburg` and not in `Bayern` |
| `ReferenceDates.Fronleichnam2023InSaxony` | src/regions.rs:183-188 | Fronleichnam 2023 is 2023-06-08, a holiday in `SachsenCatholic` and not in `Sachsen` |

## Left out

- The `time` crate is not part of this model; `Time` covers only what the engine uses.
  - `Date::from_calendar_date`, `Month::try_from`, `weekday()` and `Date + Duration` are modelled on plain integers.
  - The `large-dates` feature, which widens the year range, is not modelled.
- `Holidays.RelativeToEasterSunday` and `Time.AddDays` do not model the panic that `Date + Duration` raises when the result leaves the year range; for such an offset the model returns a date outside that range instead. The offsets the catalogue uses, -2 to 60, are proved to stay between 20 March and 24 June of the year (`Holidays.EasterRelative`), so the panic cannot occur for them.
- `i32` and `i64` widths are not modelled. Every year the computus accepts, and every intermediate value it computes, fits easily in them.
- `src/lib.rs` is not modelled. Its `HolidayExt::is_holiday` only calls `Region::is_holiday` with the arguments swapped.
- The `Clone`, `Copy`, `Debug`, `Eq` and `PartialEq` derives are not modelled; Dafny datatypes have equality.
