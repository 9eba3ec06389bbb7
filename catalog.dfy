/** The eighteen named analyses of the dashboard, as query data: the select box's
    list of names and the map from each name to its query, once for the dashboard
    (Securecheck.py) and once for its earlier variant (demo.py), which drops most
    WHERE and HAVING clauses, the LIMIT of the country/violation query, and adds the
    two RANK columns to the high-search-and-arrest query. */
module Catalog {
  import opened Basics
  import opened Grouping
  import opened Ordering
  import opened Query

  /** The names the select box offers, in its order. */
  const QUERY_OPTIONS: seq<string> := [
    "Top 10 vehicle_Number involved in drug-related stops",
    "Most frequently searched vehicles",
    "Driver age group with highest arrest rate",
    "Gender distribution of drivers stopped in each country",
    "Race and Gender combination with highest search rate",
    "Time of day with the most traffic stops",
    "The average stop duration for different violations",
    "Are stops during the night more likely to lead to arrests",
    "violations are most associated with searches or arrests",
    "violations,which are most common among younger drivers (<25)",
    "What is the arrest rate by country and violation",
    "Which country has the most stops with search conducted",
    "Yearly Breakdown of Stops and Arrests by Country",
    "Driver Violation Trends Based on Age and Race",
    "Time Period Analysis of Stops , Number of Stops by Year,Month, Hour of the Day",
    "Violations with High Search and Arrest Rates",
    "Driver Demographics by Country (Age, Gender, and Race)",
    "Top 5 Violations with Highest Arrest Rates"
  ]

  const DESC_STOPS := ByMeasure(Stops, false)
  const DESC_SEARCHES := ByMeasure(Searches, false)
  const DESC_ARRESTS := ByMeasure(Arrests, false)
  const DESC_SEARCH_RATE := ByMeasure(SearchRate, false)
  const DESC_ARREST_RATE := ByMeasure(ArrestRate, false)

  // ---------------------------------------------------------------------------
  // The dashboard's queries
  // ---------------------------------------------------------------------------

  const TOP_DRUG_VEHICLES := QuerySpec(
    Selection([FlagTrue(DrugsRelated)], [VehicleNumber]),
    None, NoWindow, [DESC_STOPS], Some(10), [KeyOut(0), MeasureOut(Stops)])

  const SEARCHED_VEHICLES := QuerySpec(
    Selection([FlagTrue(SearchConducted)], [VehicleNumber]),
    None, NoWindow, [DESC_STOPS], Some(10), [KeyOut(0), MeasureOut(Stops)])

  const AGE_ARREST_RATE := QuerySpec(
    Selection([NotNull(DriverAge), AgeAbove(0)], [DriverAge]),
    Some(50), NoWindow, [DESC_ARREST_RATE], Some(10),
    [KeyOut(0), MeasureOut(Stops), MeasureOut(Arrests), MeasureOut(ArrestRate)])

  const GENDER_BY_COUNTRY := QuerySpec(
    Selection([NotNull(CountryName)], [CountryName, DriverGender]),
    None, Share(1), [ByKey(0, true), DESC_STOPS], None,
    [KeyOut(0), KeyOut(1), MeasureOut(Stops), ShareOut])

  const RACE_GENDER_SEARCH_RATE := QuerySpec(
    Selection([NotNull(DriverRace), NotNull(DriverGender)], [DriverRace, DriverGender]),
    Some(100), NoWindow, [DESC_SEARCH_RATE], Some(10),
    [KeyOut(0), KeyOut(1), MeasureOut(Stops), MeasureOut(Searches), MeasureOut(SearchRate)])

  const STOPS_BY_HOUR := QuerySpec(
    Selection([NotNull(StopHour)], [StopHour]),
    None, NoWindow, [DESC_STOPS], None, [KeyOut(0), MeasureOut(Stops)])

  /** The average of the duration labels is not part of this model; the groups are. */
  const AVERAGE_DURATION := QuerySpec(
    Selection([NotNull(StopDuration)], [ViolationName]),
    None, NoWindow, [], None, [KeyOut(0)])

  const DAY_NIGHT_ARRESTS := QuerySpec(
    Selection([NotNull(StopHour)], [TimeOfDay("Day (6AM-5PM)", "Night (6PM-5AM)")]),
    None, NoWindow, [DESC_ARREST_RATE], None,
    [KeyOut(0), MeasureOut(Stops), MeasureOut(Arrests), MeasureOut(ArrestRate)])

  const VIOLATION_SEARCH_ARREST := QuerySpec(
    Selection([NotNull(ViolationName)], [ViolationName]),
    Some(100), NoWindow, [DESC_SEARCH_RATE, DESC_ARREST_RATE], Some(10),
    [KeyOut(0), MeasureOut(Stops), MeasureOut(Searches), MeasureOut(SearchRate), MeasureOut(Arrests), MeasureOut(ArrestRate)])

  const YOUNG_DRIVER_VIOLATIONS := QuerySpec(
    Selection([AgeBelow(25), NotNull(DriverAge)], [ViolationName]),
    None, NoWindow, [DESC_STOPS], Some(10), [KeyOut(0), MeasureOut(Stops)])

  const COUNTRY_VIOLATION_ARREST_RATE := QuerySpec(
    Selection([NotNull(CountryName), NotNull(ViolationName)], [CountryName, ViolationName]),
    Some(50), NoWindow, [DESC_ARREST_RATE, DESC_ARRESTS], Some(20),
    [KeyOut(0), KeyOut(1), MeasureOut(Stops), MeasureOut(Arrests), MeasureOut(ArrestRate)])

  const MOST_SEARCHED_COUNTRY := QuerySpec(
    Selection([NotNull(CountryName)], [CountryName]),
    None, NoWindow, [DESC_SEARCHES], Some(1), [KeyOut(0), MeasureOut(Stops), MeasureOut(Searches)])

  /** The inner query groups by country and year; the outer one adds the rate and the
      running sums per country ordered by year. */
  const YEARLY_BY_COUNTRY := QuerySpec(
    Selection([NotNull(StopYear), NotNull(CountryName)], [CountryName, StopYear]),
    None, Running(1, 1), [ByKey(0, true), ByKey(1, true)], None,
    [KeyOut(0), KeyOut(1), MeasureOut(Stops), MeasureOut(Arrests), MeasureOut(ArrestRate), CumulativeStopsOut, CumulativeArrestsOut])

  /** `ORDER BY driver_race, percent_of_race DESC`: within one race the total is fixed,
      so ordering by the share is ordering by the stop count. */
  const RACE_VIOLATION_TRENDS := QuerySpec(
    Selection([NotNull(DriverAge), NotNull(ViolationName), NotNull(DriverRace)], [DriverRace, ViolationName]),
    None, Share(1), [ByKey(0, true), DESC_STOPS], None,
    [KeyOut(0), KeyOut(1), AverageAgeOut, MeasureOut(Stops), ShareOut])

  const TIME_PERIODS := QuerySpec(
    Selection([NotNull(StopYear), NotNull(StopHour)], [StopYear, StopMonth, StopHour]),
    None, NoWindow, [ByKey(0, true), ByKey(1, true), ByKey(2, true)], None,
    [KeyOut(0), KeyOut(1), KeyOut(2), MeasureOut(Stops)])

  const HIGH_SEARCH_ARREST := QuerySpec(
    Selection([NotNull(ViolationName)], [ViolationName]),
    Some(100), NoWindow, [DESC_SEARCH_RATE], Some(10),
    [KeyOut(0), MeasureOut(Stops), MeasureOut(Searches), MeasureOut(Arrests), MeasureOut(SearchRate), MeasureOut(ArrestRate)])

  const COUNTRY_DEMOGRAPHICS := QuerySpec(
    Selection([NotNull(CountryName), NotNull(DriverGender), NotNull(DriverRace)], [CountryName, DriverGender, DriverRace]),
    Some(10), Share(1), [ByKey(0, true), DESC_STOPS], None,
    [KeyOut(0), AverageAgeOut, KeyOut(1), KeyOut(2), MeasureOut(Stops), ShareOut])

  const TOP5_ARREST_RATE := QuerySpec(
    Selection([NotNull(ViolationName)], [ViolationName]),
    Some(50), NoWindow, [DESC_ARREST_RATE], Some(5),
    [KeyOut(0), MeasureOut(Stops), MeasureOut(Arrests), MeasureOut(ArrestRate)])

  /** `query_map` of the dashboard. */
  const QUERY_MAP: map<string, QuerySpec> := map[
    "Top 10 vehicle_Number involved in drug-related stops" := TOP_DRUG_VEHICLES,
    "Most frequently searched vehicles" := SEARCHED_VEHICLES,
    "Driver age group with highest arrest rate" := AGE_ARREST_RATE,
    "Gender distribution of drivers stopped in each country" := GENDER_BY_COUNTRY,
    "Race and Gender combination with highest search rate" := RACE_GENDER_SEARCH_RATE,
    "Time of day with the most traffic stops" := STOPS_BY_HOUR,
    "The average stop duration for different violations" := AVERAGE_DURATION,
    "Are stops during the night more likely to lead to arrests" := DAY_NIGHT_ARRESTS,
    "violations are most associated with searches or arrests" := VIOLATION_SEARCH_ARREST,
    "violations,which are most common among younger drivers (<25)" := YOUNG_DRIVER_VIOLATIONS,
    "What is the arrest rate by country and violation" := COUNTRY_VIOLATION_ARREST_RATE,
    "Which country has the most stops with search conducted" := MOST_SEARCHED_COUNTRY,
    "Yearly Breakdown of Stops and Arrests by Country" := YEARLY_BY_COUNTRY,
    "Driver Violation Trends Based on Age and Race" := RACE_VIOLATION_TRENDS,
    "Time Period Analysis of Stops , Number of Stops by Year,Month, Hour of the Day" := TIME_PERIODS,
    "Violations with High Search and Arrest Rates" := HIGH_SEARCH_ARREST,
    "Driver Demographics by Country (Age, Gender, and Race)" := COUNTRY_DEMOGRAPHICS,
    "Top 5 Violations with Highest Arrest Rates" := TOP5_ARREST_RATE
  ]

  // ---------------------------------------------------------------------------
  // The earlier variant's queries
  // ---------------------------------------------------------------------------

  const DEMO_AGE_ARREST_RATE := QuerySpec(
    Selection([], [DriverAge]),
    None, NoWindow, [DESC_ARREST_RATE], Some(10),
    [KeyOut(0), MeasureOut(Stops), MeasureOut(Arrests), MeasureOut(ArrestRate)])

  const DEMO_GENDER_BY_COUNTRY := QuerySpec(
    Selection([], [CountryName, DriverGender]),
    None, Share(1), [ByKey(0, true), DESC_STOPS], None,
    [KeyOut(0), KeyOut(1), MeasureOut(Stops), ShareOut])

  const DEMO_RACE_GENDER_SEARCH_RATE := QuerySpec(
    Selection([], [DriverRace, DriverGender]),
    None, NoWindow, [DESC_SEARCH_RATE], Some(10),
    [KeyOut(0), KeyOut(1), MeasureOut(Stops), MeasureOut(Searches), MeasureOut(SearchRate)])

  const DEMO_STOPS_BY_HOUR := QuerySpec(
    Selection([], [StopHour]),
    None, NoWindow, [DESC_STOPS], None, [KeyOut(0), MeasureOut(Stops)])

  /** No WHERE: a stop without a time fails `BETWEEN 6 AND 17` and is counted at night. */
  const DEMO_DAY_NIGHT_ARRESTS := QuerySpec(
    Selection([], [TimeOfDay("Day", "Night")]),
    None, NoWindow, [DESC_ARREST_RATE], None,
    [KeyOut(0), MeasureOut(Stops), MeasureOut(Arrests), MeasureOut(ArrestRate)])

  const DEMO_VIOLATION_SEARCH_ARREST := QuerySpec(
    Selection([], [ViolationName]),
    None, NoWindow, [DESC_SEARCH_RATE, DESC_ARREST_RATE], Some(10),
    [KeyOut(0), MeasureOut(Stops), MeasureOut(Searches), MeasureOut(SearchRate), MeasureOut(Arrests), MeasureOut(ArrestRate)])

  /** `driver_age < 25` alone: a NULL age fails the comparison, as with the explicit test. */
  const DEMO_YOUNG_DRIVER_VIOLATIONS := QuerySpec(
    Selection([AgeBelow(25)], [ViolationName]),
    None, NoWindow, [DESC_STOPS], Some(10), [KeyOut(0), MeasureOut(Stops)])

  const DEMO_COUNTRY_VIOLATION_ARREST_RATE := QuerySpec(
    Selection([], [CountryName, ViolationName]),
    None, NoWindow, [DESC_ARREST_RATE, DESC_ARRESTS], None,
    [KeyOut(0), KeyOut(1), MeasureOut(Stops), MeasureOut(Arrests), MeasureOut(ArrestRate)])

  const DEMO_MOST_SEARCHED_COUNTRY := QuerySpec(
    Selection([], [CountryName]),
    None, NoWindow, [DESC_SEARCHES], Some(1), [KeyOut(0), MeasureOut(Stops), MeasureOut(Searches)])

  const DEMO_YEARLY_BY_COUNTRY := QuerySpec(
    Selection([], [CountryName, StopYear]),
    None, Running(1, 1), [ByKey(0, true), ByKey(1, true)], None,
    [KeyOut(0), KeyOut(1), MeasureOut(Stops), MeasureOut(Arrests), MeasureOut(ArrestRate), CumulativeStopsOut, CumulativeArrestsOut])

  const DEMO_TIME_PERIODS := QuerySpec(
    Selection([], [StopYear, StopMonth, StopHour]),
    None, NoWindow, [ByKey(0, true), ByKey(1, true), ByKey(2, true)], None,
    [KeyOut(0), KeyOut(1), KeyOut(2), MeasureOut(Stops)])

  /** Adds `RANK()` by search rate and by arrest rate, over every violation group. */
  const DEMO_HIGH_SEARCH_ARREST := QuerySpec(
    Selection([], [ViolationName]),
    None, Ranks, [DESC_SEARCH_RATE], None,
    [KeyOut(0), MeasureOut(Stops), MeasureOut(Searches), MeasureOut(Arrests), MeasureOut(SearchRate), MeasureOut(ArrestRate), SearchRankOut, ArrestRankOut])

  const DEMO_COUNTRY_DEMOGRAPHICS := QuerySpec(
    Selection([], [CountryName, DriverGender, DriverRace]),
    None, Share(1), [ByKey(0, true), DESC_STOPS], None,
    [KeyOut(0), AverageAgeOut, KeyOut(1), KeyOut(2), MeasureOut(Stops), ShareOut])

  const DEMO_TOP5_ARREST_RATE := QuerySpec(
    Selection([], [ViolationName]),
    Some(0), NoWindow, [DESC_ARREST_RATE], Some(5),
    [KeyOut(0), MeasureOut(Stops), MeasureOut(Arrests), MeasureOut(ArrestRate)])

  /** `query_map` of the earlier variant; the vehicle queries, the duration query and
      the age-and-race query are the dashboard's own. */
  const DEMO_QUERY_MAP: map<string, QuerySpec> := map[
    "Top 10 vehicle_Number involved in drug-related stops" := TOP_DRUG_VEHICLES,
    "Most frequently searched vehicles" := SEARCHED_VEHICLES,
    "Driver age group with highest arrest rate" := DEMO_AGE_ARREST_RATE,
    "Gender distribution of drivers stopped in each country" := DEMO_GENDER_BY_COUNTRY,
    "Race and Gender combination with highest search rate" := DEMO_RACE_GENDER_SEARCH_RATE,
    "Time of day with the most traffic stops" := DEMO_STOPS_BY_HOUR,
    "The average stop duration for different violations" := AVERAGE_DURATION,
    "Are stops during the night more likely to lead to arrests" := DEMO_DAY_NIGHT_ARRESTS,
    "violations are most associated with searches or arrests" := DEMO_VIOLATION_SEARCH_ARREST,
    "violations,which are most common among younger drivers (<25)" := DEMO_YOUNG_DRIVER_VIOLATIONS,
    "What is the arrest rate by country and violation" := DEMO_COUNTRY_VIOLATION_ARREST_RATE,
    "Which country has the most stops with search conducted" := DEMO_MOST_SEARCHED_COUNTRY,
    "Yearly Breakdown of Stops and Arrests by Country" := DEMO_YEARLY_BY_COUNTRY,
    "Driver Violation Trends Based on Age and Race" := RACE_VIOLATION_TRENDS,
    "Time Period Analysis of Stops , Number of Stops by Year,Month, Hour of the Day" := DEMO_TIME_PERIODS,
    "Violations with High Search and Arrest Rates" := DEMO_HIGH_SEARCH_ARREST,
    "Driver Demographics by Country (Age, Gender, and Race)" := DEMO_COUNTRY_DEMOGRAPHICS,
    "Top 5 Violations with Highest Arrest Rates" := DEMO_TOP5_ARREST_RATE
  ]

  /** Every name the select box offers is a key of both maps. */
  lemma OptionsAreKeys()
    ensures forall name :: name in QUERY_OPTIONS ==> name in QUERY_MAP && name in DEMO_QUERY_MAP
  {
  }
}
