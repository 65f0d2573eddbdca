/** Concrete runs of the pipeline: the two first sample records of the
    data format's description (climate.c:40-41) read from two files, a tie
    between equal temperatures, a line with too few fields, and a record cut
    after eight fields with a tab before its newline. */
module Scenarios {
  import opened Wrappers
  import opened Numeric
  import opened Tokenizer
  import opened Observations
  import opened Aggregate

  /** Single tabs between the nine fields, none at either end. */
  const SingleTabs: seq<nat> := [0, 1, 1, 1, 1, 1, 1, 1, 1, 0]

  function Whole(n: nat): Decimal {
    Decimal(false, n, "0")
  }

  /** CA 1428300000000 9prc 93.0 0.0 100.0 0.0 95644.0 277.58716 */
  function SampleOne(): Reading {
    Reading("CA", 1428300000000, "9prc", Whole(93), Whole(0), Whole(100), Whole(0), Whole(95644),
            Decimal(false, 277, "58716"))
  }

  /** CA 1430308800000 9prc 4.0 0.0 100.0 0.0 99226.0 282.63037 */
  function SampleTwo(): Reading {
    Reading("CA", 1430308800000, "9prc", Whole(4), Whole(0), Whole(100), Whole(0), Whole(99226),
            Decimal(false, 282, "63037"))
  }

  function Line(r: Reading): string
    requires r.Valid()
  {
    Layout(r.Render(), SingleTabs)
  }

  lemma ParseLineOfReading(r: Reading)
    requires r.Valid()
    ensures ParseLine(Line(r)) == Some(r.Meaning())
  {
    RenderedFieldsAreFields(r);
    assert r.Render() + [] == r.Render();
    ParseRendered(r, [], SingleTabs);
  }

  /** A record's line as `fgets` stores it, newline included, parses to
      the same observation. */
  lemma NewlineLineOfReading(r: Reading)
    requires r.Valid()
    ensures ParseLine(Line(r) + "\n") == Some(r.Meaning())
  {
    RenderedFieldsAreFields(r);
    FieldsOfLayout(r.Render(), SingleTabs);
    ParseLineOfReading(r);
    ParseNewline(Line(r));
  }

  /** Single tabs between eight fields and one tab after the last. */
  const TrailingTab: seq<nat> := [0, 1, 1, 1, 1, 1, 1, 1, 1]

  /** A record cut after its eighth field, with a tab before the newline:
      without the newline the line is too short and skipped, with it the
      newline is a ninth field and the record is counted at 0 K, which is
      -459.67 F. */
  lemma TrailingTabCounted(r: Reading)
    requires r.Valid()
    ensures ParseLine(Layout(r.Render()[..MaxTokens - 1], TrailingTab)).None?
    ensures var o := ParseLine(Layout(r.Render()[..MaxTokens - 1], TrailingTab) + "\n");
            o.Some? && o.value.code == RegionCode(r.station) && o.value.temp == -459.67
  {
    RenderedFieldsAreFields(r);
    var fs := r.Render()[..MaxTokens - 1];
    assert forall i :: 0 <= i < |fs| ==> fs[i] == r.Render()[i];
    var line := Layout(fs, TrailingTab);
    FieldsOfLayout(fs, TrailingTab);
    LayoutEnd(fs, TrailingTab);
    NewlineIsNinth(line);
    assert fs[0] == r.station;
  }

  /** The observations the two sample records stand for. */
  const FirstSample := Observation("CA", 1428300000, 93.0, 0, 100.0, 0, 95644.0, KelvinToFahrenheit(277.58716))
  const SecondSample := Observation("CA", 1430308800, 4.0, 0, 100.0, 0, 99226.0, KelvinToFahrenheit(282.63037))

  lemma SampleMeanings()
    ensures SampleOne().Valid() && SampleTwo().Valid()
    ensures SampleOne().Meaning() == FirstSample
    ensures SampleTwo().Meaning() == SecondSample
  {
    DigitsOfFraction();
    FirstMeaning();
    SecondMeaning();
  }

  lemma WholeValue(n: nat)
    ensures Whole(n).Valid() && Whole(n).Value() == n as real
  {
    assert "0"[..0] == [];
  }

  lemma FirstMeaning()
    requires DigitsValue("58716") == 58716 && Pow10(5) == 100000
    ensures SampleOne().Valid() && SampleOne().Meaning() == FirstSample
  {
    WholeValue(93);
    WholeValue(0);
    WholeValue(100);
    WholeValue(95644);
    assert Decimal(false, 277, "58716").Value() == 277.58716;
    assert TruncDiv(1428300000000, MillisPerSecond) == 1428300000;
  }

  lemma SecondMeaning()
    requires DigitsValue("63037") == 63037 && Pow10(5) == 100000
    ensures SampleTwo().Valid() && SampleTwo().Meaning() == SecondSample
  {
    WholeValue(4);
    WholeValue(0);
    WholeValue(100);
    WholeValue(99226);
    assert Decimal(false, 282, "63037").Value() == 282.63037;
    assert TruncDiv(1430308800000, MillisPerSecond) == 1430308800;
  }

  lemma DigitsOfFraction()
    ensures DigitsValue("58716") == 58716 && DigitsValue("63037") == 63037
    ensures Pow10(5) == 100000
  {
    assert "58716"[..4] == "5871" && "5871"[..3] == "587" && "587"[..2] == "58" && "58"[..1] == "5" && "5"[..0] == [];
    assert "63037"[..4] == "6303" && "6303"[..3] == "630" && "630"[..2] == "63" && "63"[..1] == "6" && "6"[..0] == [];
  }

  /** The sample records rendered as lines parse back to their meanings. */
  lemma SampleLinesParse()
    ensures SampleOne().Valid() && ParseLine(Line(SampleOne())) == Some(SampleOne().Meaning())
    ensures SampleTwo().Valid() && ParseLine(Line(SampleTwo())) == Some(SampleTwo().Meaning())
  {
    SampleMeanings();
    ParseLineOfReading(SampleOne());
    ParseLineOfReading(SampleTwo());
  }

  /** Two observations of one region: the first creates the entry in
      slot 0 and the second updates it; no other slot is used. */
  lemma TwoObservationsOneEntry(o1: Observation, o2: Observation)
    requires o1.code == o2.code
    ensures var t := Ingest(Ingest(EmptyTable(), o1), o2);
            && t[0] == Some(Update(FirstTouch(o1), o2))
            && forall i :: 1 <= i < NumStates ==> t[i].None?
  {
    var e := EmptyTable();
    IngestNew(e, o1, 0);
    var t1 := e[0 := Some(FirstTouch(o1))];
    assert WfTable(t1);
    IngestPresent(t1, o2, 0);
  }

  /** Two lines of one region, each in its own file and analysed in turn
      into the same table, share one entry. */
  lemma TwoFilesShareEntry(l1: string, l2: string, o1: Observation, o2: Observation)
    requires ParseLine(l1) == Some(o1) && ParseLine(l2) == Some(o2) && o1.code == o2.code
    ensures var t := IngestLines(IngestLines(EmptyTable(), [l1]), [l2]);
            && t[0] == Some(Update(FirstTouch(o1), o2))
            && forall i :: 1 <= i < NumStates ==> t[i].None?
  {
    OneLine(EmptyTable(), l1);
    OneLine(IngestLine(EmptyTable(), l1), l2);
    assert IngestLine(IngestLine(EmptyTable(), l1), l2) == Ingest(Ingest(EmptyTable(), o1), o2);
    TwoObservationsOneEntry(o1, o2);
  }

  lemma OneLine(t: Table, line: string)
    ensures IngestLines(t, [line]) == IngestLine(t, line)
  {
    assert [line][..0] == [];
  }

  /** Lines holding the two sample records, each in its own file, make one
      CA entry with two records: average humidity (93 + 4) / 2, the
      maximum from the warmer second record and the minimum from the first. */
  lemma TwoFilesOneRegion(l1: string, l2: string, o1: Observation, o2: Observation)
    requires ParseLine(l1) == Some(o1) && ParseLine(l2) == Some(o2)
    requires o1.code == "CA" && o2.code == "CA"
    requires o1.humidity == 93.0 && o2.humidity == 4.0
    requires o1.temp == KelvinToFahrenheit(277.58716) && o2.temp == KelvinToFahrenheit(282.63037)
    ensures var t := IngestLines(IngestLines(EmptyTable(), [l1]), [l2]);
            && t[0].Some? && t[0].value.code == "CA" && t[0].value.count == 2
            && t[0].value.avgHumidity == 48.5
            && t[0].value.maxTemp == o2.temp && t[0].value.maxTime == o2.time
            && t[0].value.minTemp == o1.temp && t[0].value.minTime == o1.time
            && forall i :: 1 <= i < NumStates ==> t[i].None?
  {
    TwoFilesShareEntry(l1, l2, o1, o2);
    AverageOfTwo(o1, o2);
  }

  /** The sample lines meet the conditions of the scenario above. */
  lemma SampleLinesQualify()
    ensures var o1 := SampleOne().Meaning();
            var o2 := SampleTwo().Meaning();
            && ParseLine(Line(SampleOne())) == Some(o1) && ParseLine(Line(SampleTwo())) == Some(o2)
            && o1.code == "CA" && o2.code == "CA"
            && o1.humidity == 93.0 && o2.humidity == 4.0
            && o1.temp == KelvinToFahrenheit(277.58716) && o2.temp == KelvinToFahrenheit(282.63037)
            && o1.time == 1428300000 && o2.time == 1430308800
  {
    SampleLinesParse();
    SampleMeanings();
  }

  lemma AverageOfTwo(o1: Observation, o2: Observation)
    ensures var s := Update(FirstTouch(o1), o2);
            s.code == o1.code && s.count == 2 && s.avgHumidity == (o1.humidity + o2.humidity) / 2.0
  {
  }

  /** Two readings of one region at the same temperature: the extremes
      keep the time of the first. */
  lemma TieKeepsEarlierTime(o1: Observation, o2: Observation)
    requires o1.code == o2.code && o1.temp == o2.temp
    ensures var t := IngestAll(EmptyTable(), [o1, o2]);
            && t[0].Some? && t[0].value.count == 2
            && t[0].value.maxTime == o1.time && t[0].value.minTime == o1.time
  {
    assert [o1, o2][..1] == [o1];
    assert [o1][..0] == [];
    assert IngestAll(EmptyTable(), [o1]) == Ingest(EmptyTable(), o1);
    assert IngestAll(EmptyTable(), [o1, o2]) == Ingest(Ingest(EmptyTable(), o1), o2);
    TwoObservationsOneEntry(o1, o2);
  }

  /** A line with only five fields is rejected and changes nothing. */
  lemma ShortLineSkipped(t: Table)
    ensures IngestLine(t, Layout(["CA", "1428300000000", "9prc", "93.0", "0.0"], [0, 1, 1, 1, 1, 0])) == t
  {
    var fs := ["CA", "1428300000000", "9prc", "93.0", "0.0"];
    assert forall i :: 0 <= i < |fs| ==> IsField(fs[i]);
    FieldsOfLayout(fs, [0, 1, 1, 1, 1, 0]);
  }
}
