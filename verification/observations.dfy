/** Turning the fields of one line into a typed observation, as
    `create_state` does (climate.c:153-168): the region code is the first
    two characters of field 0, the millisecond timestamp is divided by 1000
    with truncation, the snow and lightning flags are truncated to integers
    and the surface temperature is converted from Kelvin to Fahrenheit. */
module Observations {
  import opened Wrappers
  import opened Numeric
  import opened Tokenizer

  /** One parsed reading. Field 2 of the line (the geohash) is not kept. */
  datatype Observation = Observation(
    code: string,
    time: int,        // seconds since the epoch
    humidity: real,   // percent
    snow: int,        // flag, truncated from the field's value
    cloudcov: real,   // percent
    lightning: int,   // flag, truncated from the field's value
    pressure: real,   // Pascals
    temp: real        // degrees Fahrenheit
  )

  /** The number of characters `strncpy` copies into the code. */
  const CodeLength := 2

  const MillisPerSecond := 1000

  /** `strncpy(code, field, 2)`: at most the first two characters. */
  function RegionCode(field: string): (code: string)
    ensures |code| <= CodeLength && code <= field
    ensures |code| == CodeLength || code == field
  {
    if |field| <= CodeLength then field else field[..CodeLength]
  }

  /** Kelvin to Fahrenheit, K * 1.8 - 459.67; the Kelvin value is
      recovered exactly from the result. */
  function KelvinToFahrenheit(k: real): (f: real)
    ensures FahrenheitToKelvin(f) == k
  {
    k * 1.8 - 459.67
  }

  function FahrenheitToKelvin(f: real): real {
    (f + 459.67) / 1.8
  }

  /** The conversion preserves order, so the hottest reading in Kelvin is
      the hottest in Fahrenheit; water freezes at 32 and boils at 212. */
  lemma ConversionPreservesOrder(a: real, b: real)
    ensures a < b <==> KelvinToFahrenheit(a) < KelvinToFahrenheit(b)
    ensures a == b <==> KelvinToFahrenheit(a) == KelvinToFahrenheit(b)
    ensures KelvinToFahrenheit(273.15) == 32.0 && KelvinToFahrenheit(373.15) == 212.0
  {
  }

  /** The timestamp field in whole seconds: `atoi(field) / 1000`. */
  function Timestamp(field: string): (t: int)
    ensures var ms := Atoi(field);
            && (ms >= 0 ==> t * MillisPerSecond <= ms < (t + 1) * MillisPerSecond)
            && (ms <= 0 ==> (t - 1) * MillisPerSecond < ms <= t * MillisPerSecond)
  {
    TruncDiv(Atoi(field), MillisPerSecond)
  }

  /** The timestamp field of a rendered millisecond count is that count in
      whole seconds, truncated: 1428300000000 ms is 1428300000 s. */
  lemma TimestampOfMillis(ms: int)
    ensures Timestamp(ShowInt(ms)) == TruncDiv(ms, MillisPerSecond)
    ensures Timestamp(ShowInt(1428300000000)) == 1428300000
  {
    AtoiShowInt(ms, []);
    assert ShowInt(ms) + [] == ShowInt(ms);
    AtoiShowInt(1428300000000, []);
    assert ShowInt(1428300000000) + [] == ShowInt(1428300000000);
  }

  /** A 0/1 flag field stored in an `int`: the whole part of what `atof`
      reads, so "0" and "0.9" are 0 and "1" and "1.5" are 1. */
  function Flag(field: string): (n: int)
    ensures Atof(field) >= 0.0 ==> 0 <= n && n as real <= Atof(field) < n as real + 1.0
    ensures Atof(field) < 0.0 ==> n <= 0 && n as real - 1.0 < Atof(field) <= n as real
  {
    TruncToInt(Atof(field))
  }

  /** `create_state` on the fields `state_tokens` collected. With fewer
      than nine fields the source reads uninitialised pointers; here that
      line has no observation. */
  function CreateState(tokens: seq<string>): (r: Option<Observation>)
    ensures r.Some? <==> |tokens| >= MaxTokens
    ensures r.Some? ==> r.value.code <= tokens[0] && FahrenheitToKelvin(r.value.temp) == Atof(tokens[8])
  {
    if |tokens| < MaxTokens then None
    else Some(Observation(
      RegionCode(tokens[0]),
      Timestamp(tokens[1]),
      Atof(tokens[3]),
      Flag(tokens[4]),
      Atof(tokens[5]),
      Flag(tokens[6]),
      Atof(tokens[7]),
      KelvinToFahrenheit(Atof(tokens[8]))))
  }

  /** A line to an observation: tokenise, then construct. A line with
      fewer than nine fields is malformed; what follows the ninth field
      does not matter. */
  function ParseLine(line: string): (r: Option<Observation>)
    ensures r.Some? <==> |Fields(line)| >= MaxTokens
    ensures r.Some? ==> r == CreateState(Fields(line)[..MaxTokens])
  {
    CreateState(Tokens(line))
  }

  /** A record as the data provider writes it: the nine values of a line
      before they are rendered as text. */
  datatype Reading = Reading(
    station: string,
    millis: int,
    geohash: string,
    humidity: Decimal,
    snow: Decimal,
    cloudcov: Decimal,
    lightning: Decimal,
    pressure: Decimal,
    kelvin: Decimal
  ) {

    predicate Valid() {
      && IsField(station) && IsField(geohash)
      && humidity.Valid() && snow.Valid() && cloudcov.Valid()
      && lightning.Valid() && pressure.Valid() && kelvin.Valid()
    }

    /** The nine fields of the record's line, in input order. */
    function Render(): (fs: seq<string>)
      requires Valid()
      ensures |fs| == MaxTokens
    {
      [station, ShowInt(millis), geohash, humidity.Show(), snow.Show(),
       cloudcov.Show(), lightning.Show(), pressure.Show(), kelvin.Show()]
    }

    /** What the record means: its values in the units the core keeps. */
    function Meaning(): Observation
      requires Valid()
    {
      Observation(
        RegionCode(station),
        TruncDiv(millis, MillisPerSecond),
        humidity.Value(),
        TruncToInt(snow.Value()),
        cloudcov.Value(),
        TruncToInt(lightning.Value()),
        pressure.Value(),
        KelvinToFahrenheit(kelvin.Value()))
    }
  }

  lemma ShownIntIsField(n: int)
    ensures IsField(ShowInt(n))
  {
    var s := ShowInt(n);
    var ds := ShowNat(if n < 0 then -n else n);
    assert forall i :: 0 <= i < |s| ==> s[i] == '-' || IsDigit(s[i]) by {
      if n < 0 {
        assert forall i :: 1 <= i < |s| ==> s[i] == ds[i - 1];
      }
    }
    assert forall i :: 0 <= i < |s| ==> s[i] != '\t';
  }

  lemma ShownDecimalIsField(d: Decimal)
    requires d.Valid()
    ensures IsField(d.Show())
  {
    var s := d.Show();
    var sign := if d.negative then "-" else "";
    var ds := ShowNat(d.whole);
    var point := if d.fraction == [] then "" else "." + d.fraction;
    assert s == sign + ds + point;
    assert forall i :: 0 <= i < |sign| ==> sign[i] == '-';
    assert forall i :: 0 <= i < |point| ==> point[i] == '.' || IsDigit(point[i]);
    assert forall i :: 0 <= i < |s| ==> s[i] != '\t' by {
      forall i | 0 <= i < |s|
        ensures s[i] != '\t'
      {
        if i < |sign| {
          assert s[i] == sign[i];
        } else if i < |sign| + |ds| {
          assert s[i] == ds[i - |sign|];
        } else {
          assert s[i] == point[i - |sign| - |ds|];
        }
      }
    }
  }

  /** Rendering a record as a line, with any runs of tabs between the
      fields and any further fields after the ninth, and parsing the line
      gives the record's meaning: timestamps truncated to seconds, flags
      truncated to integers, temperature in Fahrenheit. */
  lemma ParseRendered(r: Reading, extra: seq<string>, gaps: seq<nat>)
    requires r.Valid()
    requires ValidLayout(r.Render() + extra, gaps)
    ensures ParseLine(Layout(r.Render() + extra, gaps)) == Some(r.Meaning())
  {
    var fs := r.Render() + extra;
    FieldsOfLayout(fs, gaps);
    assert fs[..MaxTokens] == r.Render();
    CreateStateOfRender(r);
  }

  /** `create_state` on the nine rendered fields recovers every value. */
  lemma CreateStateOfRender(r: Reading)
    requires r.Valid()
    ensures CreateState(r.Render()) == Some(r.Meaning())
  {
    var fs := r.Render();
    assert fs[0] == r.station && fs[1] == ShowInt(r.millis);
    assert fs[3] == r.humidity.Show() && fs[4] == r.snow.Show() && fs[5] == r.cloudcov.Show();
    assert fs[6] == r.lightning.Show() && fs[7] == r.pressure.Show() && fs[8] == r.kelvin.Show();
    TimestampOfMillis(r.millis);
    var humidity := ReadBack(r.humidity);
    var snow := ReadBack(r.snow);
    var cloudcov := ReadBack(r.cloudcov);
    var lightning := ReadBack(r.lightning);
    var pressure := ReadBack(r.pressure);
    var kelvin := ReadBack(r.kelvin);
  }

  /** A rendered decimal field and what `atof` and the flag conversion
      read from it. */
  lemma ReadBack(d: Decimal) returns (field: string)
    requires d.Valid()
    ensures field == d.Show()
    ensures Atof(field) == d.Value() && Flag(field) == TruncToInt(d.Value())
  {
    field := d.Show();
    AtofShowDecimal(d);
  }

  /** The line is split into exactly the rendered fields, so a record laid
      out with single tabs is accepted. */
  lemma RenderedFieldsAreFields(r: Reading)
    requires r.Valid()
    ensures forall i :: 0 <= i < MaxTokens ==> IsField(r.Render()[i])
  {
    ShownIntIsField(r.millis);
    ShownDecimalIsField(r.humidity);
    ShownDecimalIsField(r.snow);
    ShownDecimalIsField(r.cloudcov);
    ShownDecimalIsField(r.lightning);
    ShownDecimalIsField(r.pressure);
    ShownDecimalIsField(r.kelvin);
    var fs := r.Render();
    forall i | 0 <= i < MaxTokens
      ensures IsField(fs[i])
    {
      if i < 3 {
        assert fs[i] == [r.station, ShowInt(r.millis), r.geohash][i];
      } else if i < 6 {
        assert fs[i] == [r.humidity.Show(), r.snow.Show(), r.cloudcov.Show()][i - 3];
      } else {
        assert fs[i] == [r.lightning.Show(), r.pressure.Show(), r.kelvin.Show()][i - 6];
      }
    }
  }

  /** Lines keep the newline `fgets` leaves in them. The newline changes
      nothing for a line of any number of fields other than eight. Eight
      fields followed by a tab run make a ninth field "\n", so the record
      is counted with a temperature read from no digits: 0 K, which is
      -459.67 F. Eight fields with the newline right after the last stay
      short and are skipped. */
  lemma ParseNewline(line: string)
    ensures |Fields(line)| != MaxTokens - 1 ==> ParseLine(line + "\n") == ParseLine(line)
    ensures |Fields(line)| == MaxTokens - 1 ==>
              (ParseLine(line + "\n").Some? <==> !EndsInField(line))
    ensures |Fields(line)| == MaxTokens - 1 && !EndsInField(line) ==>
              ParseLine(line + "\n").value.temp == -459.67
  {
    FieldsNewline(line);
    var n := |Fields(line)|;
    if n > MaxTokens || (n == MaxTokens && !EndsInField(line)) {
      NewlineAfterNinth(line);
    } else if n == MaxTokens {
      NewlineEndsNinth(line);
    } else if n == MaxTokens - 1 && !EndsInField(line) {
      NewlineIsNinth(line);
    }
  }

  /** The newline lands after the ninth field: the first nine stay. */
  lemma NewlineAfterNinth(line: string)
    requires |Fields(line)| > MaxTokens || (|Fields(line)| == MaxTokens && !EndsInField(line))
    ensures ParseLine(line + "\n") == ParseLine(line)
  {
    FieldsNewlinePrefix(line, MaxTokens);
  }

  /** The newline ends the ninth field, which `atof` reads the same. */
  lemma NewlineEndsNinth(line: string)
    requires |Fields(line)| == MaxTokens && EndsInField(line)
    ensures ParseLine(line + "\n") == ParseLine(line)
  {
    var fs := Fields(line);
    FieldsNewlineInLast(line);
    var fs' := fs[..MaxTokens - 1] + [fs[MaxTokens - 1] + "\n"];
    ParseOfNine(line, fs);
    ParseOfNine(line + "\n", fs');
    NewlineInNinthField(fs);
  }

  /** A line of exactly nine fields is `create_state` of those fields. */
  lemma ParseOfNine(line: string, fs: seq<string>)
    requires Fields(line) == fs && |fs| == MaxTokens
    ensures ParseLine(line) == CreateState(fs)
  {
    assert fs[..MaxTokens] == fs;
  }

  lemma NewlineInNinthField(fs: seq<string>)
    requires |fs| == MaxTokens
    ensures CreateState(fs[..MaxTokens - 1] + [fs[MaxTokens - 1] + "\n"]) == CreateState(fs)
  {
    var fs' := fs[..MaxTokens - 1] + [fs[MaxTokens - 1] + "\n"];
    assert fs'[..MaxTokens - 1] == fs[..MaxTokens - 1];
    AtofNewline(fs[MaxTokens - 1]);
    SameButLastField(fs', fs);
  }

  /** After eight fields and a tab run the newline is the ninth field. */
  lemma NewlineIsNinth(line: string)
    requires |Fields(line)| == MaxTokens - 1 && !EndsInField(line)
    ensures ParseLine(line + "\n").Some?
    ensures ParseLine(line + "\n").value.code == RegionCode(Fields(line)[0])
    ensures ParseLine(line + "\n").value.temp == -459.67
  {
    FieldsNewline(line);
    var fs' := Fields(line + "\n");
    assert fs'[0] == Fields(line)[0];
    assert fs'[MaxTokens - 1] == "\n";
    assert fs'[..MaxTokens] == fs';
    var o := CreateState(fs');
    assert ParseLine(line + "\n") == o;
    AtofNewlineAlone();
    assert FahrenheitToKelvin(o.value.temp) == 0.0;
  }

  /** `create_state` reads the ninth field only through `atof`. */
  lemma SameButLastField(a: seq<string>, b: seq<string>)
    requires |a| == |b| == MaxTokens
    requires a[..MaxTokens - 1] == b[..MaxTokens - 1]
    requires Atof(a[MaxTokens - 1]) == Atof(b[MaxTokens - 1])
    ensures CreateState(a) == CreateState(b)
  {
    var p := a[..MaxTokens - 1];
    assert a[0] == p[0] == b[0] && a[1] == p[1] == b[1];
    assert a[3] == p[3] == b[3] && a[4] == p[4] == b[4] && a[5] == p[5] == b[5];
    assert a[6] == p[6] == b[6] && a[7] == p[7] == b[7];
  }
}
