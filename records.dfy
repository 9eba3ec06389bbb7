/** One traffic stop as the dashboard loads it from table `policelog_data`
    (created at Policecheck.py:33-52). A column that may hold SQL NULL is an
    `Option`; `driver_age_raw`, `violation_raw` and `search_type` are read by no
    modelled logic and are not fields here. */
module Records {
  import opened Basics

  /** The parts of `stop_date` the queries use, `YEAR(stop_date)` and `MONTH(stop_date)`. */
  datatype Date = Date(year: int, month: int)

  datatype StopRecord = StopRecord(
    stopDate: Option<Date>,
    stopHour: Option<int>,          // HOUR(stop_time); None when stop_time is NULL
    countryName: Option<string>,
    driverGender: Option<string>,
    driverAge: Option<int>,
    driverRace: Option<string>,
    violation: Option<string>,
    searchConducted: Option<bool>,
    stopOutcome: Option<string>,
    isArrested: Option<bool>,
    stopDuration: Option<string>,   // a bucket label (the column is VARCHAR)
    drugsRelatedStop: Option<bool>,
    vehicleNumber: Option<string>)

  /** The stop-duration labels both prediction forms offer, in their order. */
  const DURATION_BUCKETS: seq<string> :=
    ["0-15 Minutes", "16-30 Minutes", "31-60 Minutes", "1-2 Hours", "More than 2 Hours"]

  /** A boolean column tested with `= TRUE` in SQL, or numerically `== 1` in pandas:
      only a stored true passes; false and NULL do not. */
  predicate IsTrue(flag: Option<bool>)
  {
    flag == Some(true)
  }
}
