/** Two places where climate.c, read literally, does something its authors
    evidently did not mean, each next to the corrected definition the rest
    of the model uses. */
module AsWritten {
  import opened Numeric
  import opened Observations
  import opened Aggregate

  /** The fields of a freshly `malloc`ed record that neither `create_state`
      nor `add_state` assigns: whatever the heap held before. */
  datatype Leftover = Leftover(
    avgHumidity: real,
    avgCloudcov: real,
    avgTemp: real,
    maxTemp: real,
    maxTime: int,
    minTemp: real,
    minTime: int)

  /** What the corrected first touch puts in the fields the source leaves
      alone: the record's own values. */
  function Seeded(o: Observation): Leftover {
    Leftover(o.humidity, o.cloudcov, o.temp, o.temp, o.time, o.temp, o.time)
  }

  /** `add_state` as written (climate.c:189-198): the record goes in with a
      count of one and the averages and extremes left as they were. The
      entry keeps the table invariant only if the heap happened to hold
      averages equal to the record's values, and it is the corrected entry
      only if the heap held exactly what the correction writes. */
  function FirstTouchAsWritten(o: Observation, junk: Leftover): (s: Stats)
    ensures Consistent(s) <==>
              && junk.avgHumidity == o.humidity && junk.avgCloudcov == o.cloudcov
              && junk.avgTemp == o.temp && junk.minTemp <= junk.maxTemp
    ensures s == FirstTouch(o) <==> junk == Seeded(o)
  {
    Stats(o.code, 1,
          o.humidity, junk.avgHumidity,
          o.snow,
          o.cloudcov, junk.avgCloudcov,
          o.lightning,
          o.pressure,
          o.temp, junk.avgTemp,
          junk.maxTemp, junk.maxTime,
          junk.minTemp, junk.minTime)
  }

  /** Whatever the heap held, some reading leaves a one-record region with
      an average humidity that is not its humidity and a maximum that is
      not its temperature. The leftover averages last only as long as the
      region has one record: the second record's update recomputes every
      average from the sums, as the corrected first touch would. */
  lemma LeftoverShowsThrough(junk: Leftover)
    ensures exists o: Observation ::
              FirstTouchAsWritten(o, junk).avgHumidity != o.humidity
              && FirstTouchAsWritten(o, junk).maxTemp != o.temp
    ensures forall o1: Observation, o2: Observation ::
              var s := Update(FirstTouchAsWritten(o1, junk), o2);
              var fixed := Update(FirstTouch(o1), o2);
              && s.avgHumidity == fixed.avgHumidity
              && s.avgCloudcov == fixed.avgCloudcov
              && s.avgTemp == fixed.avgTemp
  {
    var o := Observation("CA", 0, junk.avgHumidity + 1.0, 0, 0.0, 0, 0.0, junk.maxTemp + 1.0);
    assert FirstTouchAsWritten(o, junk).avgHumidity != o.humidity;
  }

  /** When every reading of a region is warmer than the leftover minimum,
      the minimum never moves: the report names a temperature no reading
      had. */
  lemma MinimumStuckOnLeftover(o1: Observation, o2: Observation, junk: Leftover)
    requires o1.code == o2.code
    requires o1.temp > junk.minTemp && o2.temp > junk.minTemp
    ensures var s := Update(FirstTouchAsWritten(o1, junk), o2);
            && s.minTemp == junk.minTemp && s.minTime == junk.minTime
            && s.minTemp != o1.temp && s.minTemp != o2.temp
  {
  }

  /** A zeroed heap and two readings at 40 and 50 degrees: the region's
      minimum comes out as 0 degrees. The corrected definition gives 40. */
  lemma ZeroedHeapMinimum(o1: Observation, o2: Observation)
    requires o1.code == o2.code && o1.temp == 40.0 && o2.temp == 50.0
    ensures Update(FirstTouchAsWritten(o1, Leftover(0.0, 0.0, 0.0, 0.0, 0, 0.0, 0)), o2).minTemp == 0.0
    ensures Update(FirstTouch(o1), o2).minTemp == 40.0
  {
    MinimumStuckOnLeftover(o1, o2, Leftover(0.0, 0.0, 0.0, 0.0, 0, 0.0, 0));
  }

  const TwoTo31: int := 0x8000_0000
  const TwoTo32: int := 0x1_0000_0000

  /** `LONG_MIN` and `LONG_MAX` of a 64-bit `long`. */
  const LongMin: int := -0x8000_0000_0000_0000
  const LongMax: int := 0x7FFF_FFFF_FFFF_FFFF

  /** What `strtol` returns for a digit run of any length: the value,
      clamped to `LONG_MIN` or `LONG_MAX` when it does not fit. */
  function ToLong(n: int): (r: int)
    ensures LongMin <= r <= LongMax
    ensures LongMin <= n <= LongMax ==> r == n
    ensures n > LongMax ==> r == LongMax
    ensures n < LongMin ==> r == LongMin
  {
    if n > LongMax then LongMax else if n < LongMin then LongMin else n
  }

  /** The conversion of a `long` to a 32-bit `int` on a two's complement
      target: the value modulo 2^32, read back as signed. */
  function ToInt32(n: int): (r: int)
    ensures -TwoTo31 <= r < TwoTo31
    ensures (r - n) % TwoTo32 == 0
    ensures -TwoTo31 <= n < TwoTo31 ==> r == n
  {
    var m := n % TwoTo32;
    if m < TwoTo31 then m else m - TwoTo32
  }

  /** `(atoi(tokens[1]))/1000` as written (climate.c:158), where `atoi` is
      `strtol`, clamped to a 64-bit `long`, narrowed to `int`. Whatever the
      field says, the time lies within 2147483 seconds (under 25 days) of
      the epoch. */
  function TimestampAsWritten(field: string): (t: int)
    ensures -MaxSecondsAsWritten <= t <= MaxSecondsAsWritten
  {
    TruncDiv(ToInt32(ToLong(Atoi(field))), MillisPerSecond)
  }

  /** The largest number of whole seconds a 32-bit millisecond count holds. */
  const MaxSecondsAsWritten := 2147483

  /** Millisecond counts that fit in 32 bits give the same timestamp both
      ways. */
  lemma TimestampsAgreeInRange(ms: int)
    requires -TwoTo31 <= ms < TwoTo31
    ensures TimestampAsWritten(ShowInt(ms)) == Timestamp(ShowInt(ms))
  {
    AtoiShowInt(ms, []);
    assert ShowInt(ms) + [] == ShowInt(ms);
  }

  /** A count beyond the range of a `long` is clamped by `strtol` to
      `LONG_MAX` or `LONG_MIN`, which narrow to -1 and 0: the timestamp is 0
      whatever the digits. */
  lemma ClampedTimestamp(ms: int)
    requires ms > LongMax || ms < LongMin
    ensures TimestampAsWritten(ShowInt(ms)) == 0
  {
    AtoiShowInt(ms, []);
    assert ShowInt(ms) + [] == ShowInt(ms);
    assert ToInt32(LongMax) == -1;
    assert ToInt32(LongMin) == 0;
  }

  /** The first sample's time field, 1428300000000 ms (6 April 2015),
      narrows to -1924109568 and becomes the timestamp -1924109, a date in
      December 1969; the corrected reading gives 1428300000. */
  lemma SampleTimestampWraps()
    ensures TimestampAsWritten(ShowInt(1428300000000)) == -1924109
    ensures Timestamp(ShowInt(1428300000000)) == 1428300000
  {
    AtoiShowInt(1428300000000, []);
    assert ShowInt(1428300000000) + [] == ShowInt(1428300000000);
    assert ToLong(1428300000000) == 1428300000000;
    assert ToInt32(1428300000000) == -1924109568;
    TimestampOfMillis(1428300000000);
  }
}
