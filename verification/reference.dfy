/** What the table should hold after a run, defined directly from the
    observations rather than by folding: the regions in order of first
    appearance (at most 50), and for each the count, sums and averages of
    its own observations and its first hottest and first coldest reading.
    The fold of climate.c:250-284 (with first-touch seeding) computes
    exactly this. */
module Reference {
  import opened Wrappers
  import opened Observations
  import opened Aggregate

  /** The observations of one region, in input order. */
  function Select(os: seq<Observation>, code: string): (sel: seq<Observation>)
    ensures |sel| <= |os|
    ensures forall i :: 0 <= i < |sel| ==> sel[i].code == code
    decreases |os|
  {
    if os == [] then []
    else
      var init := Select(os[..|os| - 1], code);
      if os[|os| - 1].code == code then init + [os[|os| - 1]] else init
  }

  /** The distinct region codes, in order of first appearance. */
  function FirstSeen(os: seq<Observation>): (codes: seq<string>)
    ensures forall i, j :: 0 <= i < j < |codes| ==> codes[i] != codes[j]
    decreases |os|
  {
    if os == [] then []
    else
      var init := FirstSeen(os[..|os| - 1]);
      if os[|os| - 1].code in init then init else init + [os[|os| - 1].code]
  }

  /** A region is seen exactly when it has observations. */
  lemma {:induction false} SeenIffSelected(os: seq<Observation>, code: string)
    ensures code in FirstSeen(os) <==> Select(os, code) != []
    decreases |os|
  {
    if os != [] {
      SeenIffSelected(os[..|os| - 1], code);
    }
  }

  /** The summed measurements. */
  datatype Measure = Humidity | CloudCover | Pressure | Temperature

  function Measured(o: Observation, m: Measure): real {
    match m
    case Humidity => o.humidity
    case CloudCover => o.cloudcov
    case Pressure => o.pressure
    case Temperature => o.temp
  }

  function Total(os: seq<Observation>, m: Measure): real
    decreases |os|
  {
    if os == [] then 0.0 else Measured(os[0], m) + Total(os[1..], m)
  }

  /** The counted events. */
  datatype Event = Snow | Lightning

  function EventFlag(o: Observation, e: Event): int {
    match e
    case Snow => o.snow
    case Lightning => o.lightning
  }

  function Events(os: seq<Observation>, e: Event): int
    decreases |os|
  {
    if os == [] then 0 else EventFlag(os[0], e) + Events(os[1..], e)
  }

  lemma {:induction false} TotalSnoc(os: seq<Observation>, o: Observation, m: Measure)
    ensures Total(os + [o], m) == Total(os, m) + Measured(o, m)
    decreases |os|
  {
    if os == [] {
      assert [o][1..] == [];
    } else {
      assert (os + [o])[1..] == os[1..] + [o];
      TotalSnoc(os[1..], o, m);
    }
  }

  lemma {:induction false} EventsSnoc(os: seq<Observation>, o: Observation, e: Event)
    ensures Events(os + [o], e) == Events(os, e) + EventFlag(o, e)
    decreases |os|
  {
    if os == [] {
      assert [o][1..] == [];
    } else {
      assert (os + [o])[1..] == os[1..] + [o];
      EventsSnoc(os[1..], o, e);
    }
  }

  /** Which temperature extreme. */
  datatype Extreme = Hottest | Coldest

  /** Temperature x strictly beats y for the extreme. */
  predicate Beats(x: real, y: real, e: Extreme) {
    match e
    case Hottest => x > y
    case Coldest => x < y
  }

  /** Index i holds the extreme temperature and is the first to hold it:
      nothing beats it, and it beats everything before it. */
  predicate IsFirstExtreme(os: seq<Observation>, i: int, e: Extreme) {
    && 0 <= i < |os|
    && (forall j :: 0 <= j < |os| ==> !Beats(os[j].temp, os[i].temp, e))
    && (forall j :: 0 <= j < i ==> Beats(os[i].temp, os[j].temp, e))
  }

  /** The index of the first hottest (or coldest) observation, scanning
      from the front. */
  function FirstExtreme(os: seq<Observation>, e: Extreme): (i: nat)
    requires |os| > 0
    ensures i < |os|
    decreases |os|
  {
    if |os| == 1 then 0
    else
      var k := 1 + FirstExtreme(os[1..], e);
      if Beats(os[k].temp, os[0].temp, e) then k else 0
  }

  lemma {:induction false} FirstExtremeIsFirst(os: seq<Observation>, e: Extreme)
    requires |os| > 0
    ensures IsFirstExtreme(os, FirstExtreme(os, e), e)
    decreases |os|
  {
    if |os| > 1 {
      var tail := os[1..];
      FirstExtremeIsFirst(tail, e);
      var k := 1 + FirstExtreme(tail, e);
      assert forall j :: 1 <= j < |os| ==> os[j] == tail[j - 1];
    }
  }

  /** At most one index is the first extreme. */
  lemma FirstExtremeUnique(os: seq<Observation>, i: int, i': int, e: Extreme)
    requires IsFirstExtreme(os, i, e) && IsFirstExtreme(os, i', e)
    ensures i == i'
  {
    assert !Beats(os[i'].temp, os[i].temp, e) && !Beats(os[i].temp, os[i'].temp, e);
  }

  /** A later reading takes over the extreme only when it strictly beats it. */
  lemma FirstExtremeSnoc(os: seq<Observation>, o: Observation, e: Extreme)
    requires |os| > 0
    ensures var i := FirstExtreme(os, e);
            FirstExtreme(os + [o], e) == if Beats(o.temp, os[i].temp, e) then |os| else i
  {
    var i := FirstExtreme(os, e);
    var ext := os + [o];
    FirstExtremeIsFirst(os, e);
    FirstExtremeIsFirst(ext, e);
    var cand := if Beats(o.temp, os[i].temp, e) then |os| else i;
    assert forall j :: 0 <= j < |os| ==> ext[j] == os[j];
    assert IsFirstExtreme(ext, cand, e);
    FirstExtremeUnique(ext, cand, FirstExtreme(ext, e), e);
  }

  /** The statistics of one region computed from its observations. */
  function Summarize(os: seq<Observation>): (s: Stats)
    requires |os| > 0
  {
    var n := |os| as real;
    var hot := os[FirstExtreme(os, Hottest)];
    var cold := os[FirstExtreme(os, Coldest)];
    Stats(os[0].code, |os|,
          Total(os, Humidity), Total(os, Humidity) / n,
          Events(os, Snow),
          Total(os, CloudCover), Total(os, CloudCover) / n,
          Events(os, Lightning),
          Total(os, Pressure),
          Total(os, Temperature), Total(os, Temperature) / n,
          hot.temp, hot.time,
          cold.temp, cold.time)
  }

  /** The expected table: slot i holds the i-th region to appear, for as
      many regions as there are slots; regions after the fiftieth are lost. */
  function Expected(os: seq<Observation>): Table {
    var codes := FirstSeen(os);
    seq(NumStates, i requires 0 <= i < NumStates =>
      if i < |codes| then
        SeenIffSelected(os, codes[i]);
        Some(Summarize(Select(os, codes[i])))
      else None)
  }

  /** A single observation summarises to the first-touch entry. */
  lemma SummarizeOne(o: Observation)
    ensures Summarize([o]) == FirstTouch(o)
  {
    assert [o][1..] == [];
    assert Total([o], Humidity) == o.humidity;
    assert Total([o], CloudCover) == o.cloudcov;
    assert Total([o], Pressure) == o.pressure;
    assert Total([o], Temperature) == o.temp;
    assert Events([o], Snow) == o.snow;
    assert Events([o], Lightning) == o.lightning;
  }

  /** One more observation summarises to the update of the summary. */
  lemma SummarizeSnoc(os: seq<Observation>, o: Observation)
    requires |os| > 0
    ensures Summarize(os + [o]) == Update(Summarize(os), o)
  {
    TotalSnoc(os, o, Humidity);
    TotalSnoc(os, o, CloudCover);
    TotalSnoc(os, o, Pressure);
    TotalSnoc(os, o, Temperature);
    EventsSnoc(os, o, Snow);
    EventsSnoc(os, o, Lightning);
    ExtremeSnoc(os, o, Hottest);
    ExtremeSnoc(os, o, Coldest);
  }

  /** The reading that holds an extreme after one more observation. */
  lemma ExtremeSnoc(os: seq<Observation>, o: Observation, e: Extreme)
    requires |os| > 0
    ensures var x := os[FirstExtreme(os, e)];
            var y := (os + [o])[FirstExtreme(os + [o], e)];
            y == if Beats(o.temp, x.temp, e) then o else x
  {
    FirstExtremeSnoc(os, o, e);
    var ext := os + [o];
    assert ext[|os|] == o;
    assert ext[FirstExtreme(os, e)] == os[FirstExtreme(os, e)];
  }

  /** The codes of the expected table are the first-seen codes. */
  lemma ExpectedCodes(os: seq<Observation>, i: nat)
    requires i < NumStates && i < |FirstSeen(os)|
    ensures Expected(os)[i].Some? && Expected(os)[i].value.code == FirstSeen(os)[i]
  {
    SeenIffSelected(os, FirstSeen(os)[i]);
  }

  lemma SelectSnoc(os: seq<Observation>, o: Observation, code: string)
    ensures Select(os + [o], code) == if o.code == code then Select(os, code) + [o] else Select(os, code)
  {
    assert (os + [o])[..|os|] == os;
  }

  lemma FirstSeenSnoc(os: seq<Observation>, o: Observation)
    ensures FirstSeen(os + [o]) == if o.code in FirstSeen(os) then FirstSeen(os) else FirstSeen(os) + [o.code]
  {
    assert (os + [o])[..|os|] == os;
  }

  /** A slot of another region, or a slot that stays empty, is the same
      in the reference table before and after one more observation. */
  lemma ExpectedOther(os: seq<Observation>, o: Observation, i: nat)
    requires i < NumStates
    requires (i < |FirstSeen(os)| && FirstSeen(os)[i] != o.code) || i >= |FirstSeen(os + [o])|
    ensures Expected(os + [o])[i] == Expected(os)[i]
  {
    FirstSeenSnoc(os, o);
    if i < |FirstSeen(os)| {
      SelectSnoc(os, o, FirstSeen(os)[i]);
    }
  }

  /** The reference table holds the first-seen codes in its first slots. */
  lemma ExpectedShape(os: seq<Observation>)
    ensures forall i :: 0 <= i < NumStates && i < |FirstSeen(os)| ==>
              Expected(os)[i].Some? && Expected(os)[i].value.code == FirstSeen(os)[i]
    ensures forall i :: 0 <= i < NumStates && i >= |FirstSeen(os)| ==> Expected(os)[i].None?
    ensures WfTable(Expected(os))
  {
    forall i | 0 <= i < NumStates && i < |FirstSeen(os)|
      ensures Expected(os)[i].Some? && Expected(os)[i].value.code == FirstSeen(os)[i]
    {
      ExpectedCodes(os, i);
    }
    forall i | 0 <= i < NumStates && i < |FirstSeen(os)|
      ensures Consistent(Expected(os)[i].value)
    {
      var sel := Select(os, FirstSeen(os)[i]);
      SeenIffSelected(os, FirstSeen(os)[i]);
      FirstExtremeIsFirst(sel, Hottest);
      FirstExtremeIsFirst(sel, Coldest);
      assert !Beats(sel[FirstExtreme(sel, Hottest)].temp, sel[FirstExtreme(sel, Coldest)].temp, Coldest);
    }
  }

  /** An observation of a region already in a slot: the slot is updated. */
  lemma IngestExpectedPresent(os: seq<Observation>, o: Observation, k: nat)
    requires k < NumStates && k < |FirstSeen(os)| && FirstSeen(os)[k] == o.code
    ensures Ingest(Expected(os), o) == Expected(os + [o])
  {
    var t := Expected(os);
    var t' := Expected(os + [o]);
    ExpectedShape(os);
    IngestPresent(t, o, k);
    var r := t[k := Some(Update(t[k].value, o))];
    ExpectedUpdatedSlot(os, o, k);
    ExpectedOthers(os, o, k);
    assert forall i :: 0 <= i < NumStates ==> t'[i] == r[i];
  }

  lemma ExpectedUpdatedSlot(os: seq<Observation>, o: Observation, k: nat)
    requires k < NumStates && k < |FirstSeen(os)| && FirstSeen(os)[k] == o.code
    ensures Expected(os)[k].Some?
    ensures Expected(os + [o])[k] == Some(Update(Expected(os)[k].value, o))
  {
    var codes := FirstSeen(os);
    FirstSeenSnoc(os, o);
    assert o.code in codes;
    assert FirstSeen(os + [o]) == codes;
    var sel := Select(os, o.code);
    SelectSnoc(os, o, o.code);
    SeenIffSelected(os, o.code);
    SummarizeSnoc(sel, o);
    assert Expected(os)[k] == Some(Summarize(sel));
    assert Expected(os + [o])[k] == Some(Summarize(sel + [o]));
  }

  /** Every slot other than the one of the observation's region is the
      same before and after it. */
  lemma ExpectedOthers(os: seq<Observation>, o: Observation, k: nat)
    requires k <= |FirstSeen(os)|
    requires k < |FirstSeen(os)| ==> FirstSeen(os)[k] == o.code
    requires k == |FirstSeen(os)| ==> o.code !in FirstSeen(os)
    ensures forall i :: 0 <= i < NumStates && i != k ==> Expected(os + [o])[i] == Expected(os)[i]
  {
    FirstSeenSnoc(os, o);
    forall i | 0 <= i < NumStates && i != k
      ensures Expected(os + [o])[i] == Expected(os)[i]
    {
      ExpectedOther(os, o, i);
    }
  }

  /** An observation of a new region while a slot is free: it takes the
      first empty slot. */
  lemma IngestExpectedNew(os: seq<Observation>, o: Observation)
    requires o.code !in FirstSeen(os) && |FirstSeen(os)| < NumStates
    ensures Ingest(Expected(os), o) == Expected(os + [o])
  {
    var t := Expected(os);
    var t' := Expected(os + [o]);
    var n := |FirstSeen(os)|;
    ExpectedShape(os);
    IngestNew(t, o, n);
    var r := t[n := Some(FirstTouch(o))];
    ExpectedNewSlot(os, o);
    ExpectedOthers(os, o, n);
    assert forall i :: 0 <= i < NumStates ==> t'[i] == r[i];
  }

  lemma ExpectedNewSlot(os: seq<Observation>, o: Observation)
    requires o.code !in FirstSeen(os) && |FirstSeen(os)| < NumStates
    ensures Expected(os + [o])[|FirstSeen(os)|] == Some(FirstTouch(o))
  {
    FirstSeenSnoc(os, o);
    SelectSnoc(os, o, o.code);
    SeenIffSelected(os, o.code);
    SummarizeOne(o);
    assert [] + [o] == [o];
  }

  /** An observation of a region that did not get one of the 50 slots:
      the table is full and the observation is dropped. */
  lemma IngestExpectedDropped(os: seq<Observation>, o: Observation)
    requires forall k :: 0 <= k < NumStates && k < |FirstSeen(os)| ==> FirstSeen(os)[k] != o.code
    requires |FirstSeen(os)| >= NumStates
    ensures Ingest(Expected(os), o) == Expected(os + [o])
  {
    var t := Expected(os);
    var t' := Expected(os + [o]);
    ExpectedShape(os);
    IngestFull(t, o);
    forall i | 0 <= i < NumStates
      ensures t'[i] == t[i]
    {
      ExpectedOther(os, o, i);
    }
    assert t' == t;
  }

  /** One step of the fold agrees with the reference. */
  lemma IngestExpected(os: seq<Observation>, o: Observation)
    ensures Ingest(Expected(os), o) == Expected(os + [o])
  {
    var codes := FirstSeen(os);
    if k :| 0 <= k < NumStates && k < |codes| && codes[k] == o.code {
      IngestExpectedPresent(os, o, k);
    } else if |codes| >= NumStates {
      IngestExpectedDropped(os, o);
    } else {
      IngestExpectedNew(os, o);
    }
  }

  /** The fold from the empty table computes the reference table. */
  lemma {:induction false} FoldIsExpected(os: seq<Observation>)
    ensures IngestAll(EmptyTable(), os) == Expected(os)
    decreases |os|
  {
    if os == [] {
      ExpectedEmpty();
    } else {
      var init, last := os[..|os| - 1], os[|os| - 1];
      assert IngestAll(EmptyTable(), os) == Ingest(IngestAll(EmptyTable(), init), last);
      FoldIsExpected(init);
      assert init + [last] == os;
      IngestExpected(init, last);
    }
  }

  /** No observations, no regions: the reference table is empty. */
  lemma ExpectedEmpty()
    ensures Expected([]) == EmptyTable()
  {
    assert FirstSeen([]) == [];
    assert forall i :: 0 <= i < NumStates ==> Expected([])[i].None?;
  }

  /** What the run reports for each region, stated against that region's
      own observations: the count is how many there were, each average is
      their sum over that count, every reading lies between min and max,
      and max and min are the value and time of the first observation to
      reach them. */
  lemma {:induction false} RegionSummary(os: seq<Observation>, i: nat)
    requires i < NumStates && IngestAll(EmptyTable(), os)[i].Some?
    ensures var s := IngestAll(EmptyTable(), os)[i].value;
            var sel := Select(os, s.code);
            && |sel| >= 1 && s.count == |sel|
            && s.humidity == Total(sel, Humidity) && s.avgHumidity == Total(sel, Humidity) / |sel| as real
            && s.cloudcov == Total(sel, CloudCover) && s.avgCloudcov == Total(sel, CloudCover) / |sel| as real
            && s.temp == Total(sel, Temperature) && s.avgTemp == Total(sel, Temperature) / |sel| as real
            && s.pressure == Total(sel, Pressure)
            && s.snow == Events(sel, Snow) && s.lightning == Events(sel, Lightning)
            && (forall j :: 0 <= j < |sel| ==> s.minTemp <= sel[j].temp <= s.maxTemp)
            && (exists j :: IsFirstExtreme(sel, j, Hottest) && sel[j].temp == s.maxTemp && sel[j].time == s.maxTime)
            && (exists j :: IsFirstExtreme(sel, j, Coldest) && sel[j].temp == s.minTemp && sel[j].time == s.minTime)
  {
    FoldIsExpected(os);
    ExpectedShape(os);
    var code := FirstSeen(os)[i];
    var sel := Select(os, code);
    SeenIffSelected(os, code);
    FirstExtremeIsFirst(sel, Hottest);
    FirstExtremeIsFirst(sel, Coldest);
    var hot := FirstExtreme(sel, Hottest);
    var cold := FirstExtreme(sel, Coldest);
    assert IsFirstExtreme(sel, hot, Hottest);
    assert IsFirstExtreme(sel, cold, Coldest);
  }

  /** A whole run over files, from the empty table, is the reference table
      of the observations of every line that parses, in file order. */
  lemma RunIsExpected(files: seq<seq<string>>)
    ensures IngestLines(EmptyTable(), Flatten(files)) == Expected(Parsed(Flatten(files)))
  {
    IngestLinesIsIngestAll(EmptyTable(), Flatten(files));
    FoldIsExpected(Parsed(Flatten(files)));
  }
}
