/** The per-region running statistics and the fixed table of 50 slots they
    live in (climate.c:69-104, 189-247, 250-284): an observation goes to
    the first slot holding its region code, or else to the first empty
    slot; the first observation of a region fills the slot, each later one
    updates sums, counts, averages and the temperature extremes. The table
    persists across input files (climate.c:120-143), so a run is one left
    fold over every line of every file. */
module Aggregate {
  import opened Wrappers
  import opened Observations

  /** The size of the region table. */
  const NumStates := 50

  /** `struct climate_info` once a region has been seen: running sums,
      their averages, event counts and the temperature extremes with the
      time each was observed. */
  datatype Stats = Stats(
    code: string,
    count: nat,
    humidity: real,
    avgHumidity: real,
    snow: int,
    cloudcov: real,
    avgCloudcov: real,
    lightning: int,
    pressure: real,
    temp: real,
    avgTemp: real,
    maxTemp: real,
    maxTime: int,
    minTemp: real,
    minTime: int
  )

  /** `states[]`: an empty slot is None. */
  type Table = seq<Option<Stats>>

  /** What every stored region satisfies: at least one record, each
      average equal to its sum over the count, and min not above max. */
  predicate Consistent(s: Stats) {
    && s.count >= 1
    && s.avgHumidity == s.humidity / s.count as real
    && s.avgCloudcov == s.cloudcov / s.count as real
    && s.avgTemp == s.temp / s.count as real
    && s.minTemp <= s.maxTemp
  }

  /** The table's invariant: 50 slots, the occupied ones form a prefix,
      their codes are pairwise distinct and each entry is consistent. */
  predicate WfTable(t: Table) {
    && |t| == NumStates
    && (forall i, j :: 0 <= i < j < |t| && t[i].None? ==> t[j].None?)
    && (forall i, j :: 0 <= i < j < |t| && t[i].Some? && t[j].Some? ==> t[i].value.code != t[j].value.code)
    && (forall i :: 0 <= i < |t| && t[i].Some? ==> Consistent(t[i].value))
  }

  /** `states[NUM_STATES] = {NULL}`. */
  function EmptyTable(): (t: Table)
    ensures WfTable(t)
    ensures forall i :: 0 <= i < |t| ==> t[i].None?
  {
    seq(NumStates, _ => None)
  }

  /** `add_state`: a region's first observation becomes its entry with
      count 1. The source leaves the averages and the extremes
      uninitialised; here they are seeded from the observation, so a
      single record is its own average, maximum and minimum. */
  function FirstTouch(o: Observation): (s: Stats)
    ensures Consistent(s) && s.code == o.code && s.count == 1
    ensures s.avgHumidity == o.humidity && s.avgCloudcov == o.cloudcov && s.avgTemp == o.temp
    ensures s.maxTemp == o.temp && s.maxTime == o.time
    ensures s.minTemp == o.temp && s.minTime == o.time
  {
    Stats(o.code, 1,
          o.humidity, o.humidity,
          o.snow,
          o.cloudcov, o.cloudcov,
          o.lightning,
          o.pressure,
          o.temp, o.temp,
          o.temp, o.time,
          o.temp, o.time)
  }

  /** `add_stateinfo`: one more record for a region already in the table.
      The count goes up by one, every sum and event counter takes the
      observation in, every average is the new sum over the new count, and
      an extreme moves only when strictly beaten, its value and its time
      together; on a tie the earlier time stays. */
  function Update(s: Stats, o: Observation): (r: Stats)
    ensures Consistent(s) ==> Consistent(r)
    ensures r.code == s.code && r.count == s.count + 1
    ensures r.humidity == s.humidity + o.humidity && r.cloudcov == s.cloudcov + o.cloudcov
    ensures r.temp == s.temp + o.temp && r.pressure == s.pressure + o.pressure
    ensures r.snow == s.snow + o.snow && r.lightning == s.lightning + o.lightning
    ensures r.maxTemp >= s.maxTemp && r.maxTemp >= o.temp
    ensures r.maxTemp == s.maxTemp ==> r.maxTime == s.maxTime
    ensures r.maxTemp != s.maxTemp ==> r.maxTemp == o.temp && r.maxTime == o.time
    ensures r.minTemp <= s.minTemp && r.minTemp <= o.temp
    ensures r.minTemp == s.minTemp ==> r.minTime == s.minTime
    ensures r.minTemp != s.minTemp ==> r.minTemp == o.temp && r.minTime == o.time
  {
    var count := s.count + 1;
    var humidity := s.humidity + o.humidity;
    var cloudcov := s.cloudcov + o.cloudcov;
    var temp := s.temp + o.temp;
    var (maxTemp, maxTime) := if o.temp > s.maxTemp then (o.temp, o.time) else (s.maxTemp, s.maxTime);
    var (minTemp, minTime) := if o.temp < s.minTemp then (o.temp, o.time) else (s.minTemp, s.minTime);
    Stats(s.code, count,
          humidity, humidity / count as real,
          s.snow + o.snow,
          cloudcov, cloudcov / count as real,
          s.lightning + o.lightning,
          s.pressure + o.pressure,
          temp, temp / count as real,
          maxTemp, maxTime,
          minTemp, minTime)
  }

  /** The scan of `analyze_file` from slot i on: the first slot that is
      empty or holds the code, or None when every slot holds another code. */
  function FindSlotFrom(t: Table, code: string, i: nat): (r: Option<nat>)
    requires i <= |t|
    ensures r.Some? ==> i <= r.value < |t| && (t[r.value].None? || t[r.value].value.code == code)
    ensures forall j :: i <= j < |t| && (r.None? || j < r.value) ==> t[j].Some? && t[j].value.code != code
    decreases |t| - i
  {
    if i == |t| then None
    else if t[i].None? || t[i].value.code == code then Some(i)
    else FindSlotFrom(t, code, i + 1)
  }

  function FindSlot(t: Table, code: string): Option<nat> {
    FindSlotFrom(t, code, 0)
  }

  /** One observation folded into the table: at most the slot the scan
      finds changes, an occupied slot stays occupied with its code, and
      when every slot holds another code the observation is dropped. */
  function Ingest(t: Table, o: Observation): (r: Table)
    ensures |r| == |t|
    ensures FindSlot(t, o.code).None? ==> r == t
    ensures forall j :: 0 <= j < |t| && t[j].Some? ==> r[j].Some? && r[j].value.code == t[j].value.code
    ensures forall j :: 0 <= j < |t| && (FindSlot(t, o.code).None? || j != FindSlot(t, o.code).value) ==> r[j] == t[j]
  {
    match FindSlot(t, o.code)
    case None => t
    case Some(k) => t[k := Some(if t[k].None? then FirstTouch(o) else Update(t[k].value, o))]
  }

  /** In a well-formed table the observation of a region already present
      updates exactly that region's slot. */
  lemma IngestPresent(t: Table, o: Observation, k: nat)
    requires WfTable(t)
    requires k < |t| && t[k].Some? && t[k].value.code == o.code
    ensures Ingest(t, o) == t[k := Some(Update(t[k].value, o))]
  {
    var r := FindSlot(t, o.code);
    assert r.Some? && r.value == k;
  }

  /** The observation of a new region fills the lowest empty slot. */
  lemma IngestNew(t: Table, o: Observation, k: nat)
    requires WfTable(t)
    requires forall j :: 0 <= j < |t| && t[j].Some? ==> t[j].value.code != o.code
    requires k < |t| && t[k].None? && forall j :: 0 <= j < k ==> t[j].Some?
    ensures Ingest(t, o) == t[k := Some(FirstTouch(o))]
  {
    var r := FindSlot(t, o.code);
    assert r.Some? && r.value == k;
  }

  /** When all 50 slots hold other regions the observation is dropped and
      the table is unchanged. */
  lemma IngestFull(t: Table, o: Observation)
    requires forall j :: 0 <= j < |t| ==> t[j].Some? && t[j].value.code != o.code
    ensures Ingest(t, o) == t
  {
  }

  /** Ingesting keeps the table's invariant. */
  lemma IngestPreservesWf(t: Table, o: Observation)
    requires WfTable(t)
    ensures WfTable(Ingest(t, o))
  {
    var r := Ingest(t, o);
    match FindSlot(t, o.code)
    case None =>
    case Some(k) =>
      if t[k].None? {
        assert forall j :: 0 <= j < k ==> t[j].Some? && t[j].value.code != o.code;
        assert forall j :: k < j < |t| ==> t[j].None?;
      }
  }

  /** A left fold of observations into the table, in input order. */
  function IngestAll(t: Table, os: seq<Observation>): (r: Table)
    ensures |r| == |t|
    decreases |os|
  {
    if os == [] then t else Ingest(IngestAll(t, os[..|os| - 1]), os[|os| - 1])
  }

  /** Along a fold an occupied slot is never emptied and keeps its code. */
  lemma {:induction false} IngestAllKeepsSlots(t: Table, os: seq<Observation>)
    ensures forall j :: 0 <= j < |t| && t[j].Some? ==>
              IngestAll(t, os)[j].Some? && IngestAll(t, os)[j].value.code == t[j].value.code
    decreases |os|
  {
    if os != [] {
      IngestAllKeepsSlots(t, os[..|os| - 1]);
    }
  }

  lemma {:induction false} IngestAllPreservesWf(t: Table, os: seq<Observation>)
    requires WfTable(t)
    ensures WfTable(IngestAll(t, os))
    decreases |os|
  {
    if os != [] {
      IngestAllPreservesWf(t, os[..|os| - 1]);
      IngestPreservesWf(IngestAll(t, os[..|os| - 1]), os[|os| - 1]);
    }
  }

  /** One line of a file: a line that does not parse is skipped and leaves
      the table unchanged (the `state == NULL` branch of `analyze_file`). */
  function IngestLine(t: Table, line: string): (r: Table)
    ensures |r| == |t|
    ensures ParseLine(line).None? ==> r == t
  {
    match ParseLine(line)
    case None => t
    case Some(o) => Ingest(t, o)
  }

  /** The observations of the lines that parse, in order. */
  function Parsed(lines: seq<string>): (os: seq<Observation>)
    ensures |os| <= |lines|
    decreases |lines|
  {
    if lines == [] then []
    else
      var os := Parsed(lines[..|lines| - 1]);
      match ParseLine(lines[|lines| - 1])
      case None => os
      case Some(o) => os + [o]
  }

  /** The lines of one or more files folded into the table, in order. */
  function IngestLines(t: Table, lines: seq<string>): (r: Table)
    ensures |r| == |t|
    decreases |lines|
  {
    if lines == [] then t else IngestLine(IngestLines(t, lines[..|lines| - 1]), lines[|lines| - 1])
  }

  /** Folding lines is folding the observations of the lines that parse. */
  lemma {:induction false} IngestLinesIsIngestAll(t: Table, lines: seq<string>)
    ensures IngestLines(t, lines) == IngestAll(t, Parsed(lines))
    decreases |lines|
  {
    if lines != [] {
      var init, last := lines[..|lines| - 1], lines[|lines| - 1];
      var p := ParseLine(last);
      IngestLinesIsIngestAll(t, init);
      assert IngestLines(t, lines) == IngestLine(IngestLines(t, init), last);
      if p.Some? {
        var os := Parsed(init) + [p.value];
        assert Parsed(lines) == os;
        assert os[..|os| - 1] == Parsed(init);
      } else {
        assert Parsed(lines) == Parsed(init);
      }
    }
  }

  /** Folding two batches of lines one after the other is folding their
      concatenation. */
  lemma {:induction false} IngestLinesAppend(t: Table, a: seq<string>, b: seq<string>)
    ensures IngestLines(IngestLines(t, a), b) == IngestLines(t, a + b)
    decreases |b|
  {
    if b != [] {
      var init := b[..|b| - 1];
      var last := b[|b| - 1];
      assert b == init + [last];
      assert a + b == (a + init) + [last];
      IngestLinesAppend(t, a, init);
      IngestLinesSnoc(t, a + init, last);
      IngestLinesSnoc(IngestLines(t, a), init, last);
    } else {
      assert a + b == a;
    }
  }

  lemma IngestLinesSnoc(t: Table, lines: seq<string>, last: string)
    ensures IngestLines(t, lines + [last]) == IngestLine(IngestLines(t, lines), last)
  {
    assert (lines + [last])[..|lines|] == lines;
  }

  /** The loop of `analyze_file`: every line of one file, in order. */
  method AnalyzeFile(t: Table, lines: seq<string>) returns (r: Table)
    ensures r == IngestLines(t, lines)
  {
    r := t;
    var i := 0;
    while i < |lines|
      invariant i <= |lines|
      invariant r == IngestLines(t, lines[..i])
    {
      assert lines[..i + 1][..i] == lines[..i];
      r := IngestLine(r, lines[i]);
      i := i + 1;
    }
    assert lines[..i] == lines;
  }

  /** All lines of all files, in order. */
  function Flatten(files: seq<seq<string>>): seq<string>
    decreases |files|
  {
    if files == [] then [] else Flatten(files[..|files| - 1]) + files[|files| - 1]
  }

  /** The loop of `main`: one table for the whole run, each file analysed
      in turn into it. The result is the single fold of every line of every
      file, so one region seen in several files has one entry. */
  method AnalyzeFiles(files: seq<seq<string>>) returns (t: Table)
    ensures t == IngestLines(EmptyTable(), Flatten(files))
    ensures WfTable(t)
  {
    t := EmptyTable();
    var i := 0;
    while i < |files|
      invariant i <= |files|
      invariant t == IngestLines(EmptyTable(), Flatten(files[..i]))
    {
      assert files[..i + 1][..i] == files[..i];
      IngestLinesAppend(EmptyTable(), Flatten(files[..i]), files[i]);
      t := AnalyzeFile(t, files[i]);
      i := i + 1;
    }
    assert files[..i] == files;
    IngestLinesIsIngestAll(EmptyTable(), Flatten(files));
    IngestAllPreservesWf(EmptyTable(), Parsed(Flatten(files)));
  }

  /** Observations of pairwise distinct regions each get their own slot, in
      order, holding the single observation as count, sums, averages and
      both extremes; those beyond the fiftieth are dropped. */
  lemma {:induction false} DistinctRegions(os: seq<Observation>)
    requires forall i, j :: 0 <= i < j < |os| ==> os[i].code != os[j].code
    ensures forall i :: 0 <= i < NumStates ==>
              IngestAll(EmptyTable(), os)[i] == if i < |os| then Some(FirstTouch(os[i])) else None
    decreases |os|
  {
    if os != [] {
      var init := os[..|os| - 1];
      var o := os[|os| - 1];
      DistinctRegions(init);
      var t := IngestAll(EmptyTable(), init);
      IngestAllPreservesWf(EmptyTable(), init);
      assert forall j :: 0 <= j < |t| && t[j].Some? ==> t[j].value.code != o.code;
      if |init| < NumStates {
        IngestNew(t, o, |init|);
      } else {
        IngestFull(t, o);
      }
    }
  }
}
