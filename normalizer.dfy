/** Row normalisation (`prepare_values`) and INSERT generation
    (`generate_insert_commands`), shared by both loaders.

    The loop visits the keys of the record in order. At each key it writes the
    int 0 over a falsy value, and then, whatever the key, it rewrites County
    with its apostrophes removed. That second statement sits inside the loop,
    so it also runs right after County's own zero-substitution: a County that
    is empty at that moment has become 0, and `.replace` on 0 raises
    AttributeError. */
module Normalizer {
  import opened Values
  import opened Records
  import opened Schema
  import opened Sql

  const CountyKey: string := "County"

  // ---------------------------------------------------------------------------
  // The loop, one iteration at a time

  /** `if not row[key]: row[key] = 0` for the key at position `i`. */
  function ZeroIfFalsy(v: seq<Value>, i: nat): (r: seq<Value>)
    requires i < |v|
    ensures |r| == |v|
  {
    if Falsy(v[i]) then v[i := Zero] else v
  }

  /** Where the loop stands: the values as they are now, and the exception
      that stopped the loop, if one did. */
  datatype Progress = Progress(values: seq<Value>, failure: Option<PyError>)

  /** The loop body for position `i`, where `county` is the position of the key
      County (`None` when the record has none). The zero-substitution comes
      first; then `row['County'].replace(...)` raises on a missing key or on the
      int 0, or stores the stripped string. */
  function Step(v: seq<Value>, i: nat, county: Option<nat>): (p: Progress)
    requires i < |v|
    requires county.Some? ==> county.value < |v|
    ensures |p.values| == |v|
  {
    var z := ZeroIfFalsy(v, i);
    match county
    case None => Progress(z, Some(KeyError(CountyKey)))
    case Some(c) =>
      match z[c]
      case Zero => Progress(z, Some(AttributeError))
      case Str(s) => Progress(z[c := Str(StripApostrophes(s))], None)
  }

  /** The values after the first `n` iterations; an exception ends the loop.
      The loop assigns only to existing keys, so County keeps its position. */
  function Iterate(v: seq<Value>, county: Option<nat>, n: nat): (p: Progress)
    requires n <= |v|
    requires county.Some? ==> county.value < |v|
    ensures |p.values| == |v|
  {
    if n == 0 then Progress(v, None)
    else
      var p := Iterate(v, county, n - 1);
      if p.failure.Some? then p else Step(p.values, n - 1, county)
  }

  /** The whole loop over record `r`. */
  function Loop(r: Row): (p: Progress)
    requires r.WellFormed()
    ensures |p.values| == |r.values|
  {
    Iterate(r.values, Find(r.keys, CountyKey), |r.values|)
  }

  /** The normalised values, or the exception the loop raised. */
  function Normalize(r: Row): Result<seq<Value>>
    requires r.WellFormed()
  {
    match Loop(r).failure
    case Some(x) => Err(x)
    case None => Ok(Loop(r).values)
  }

  // ---------------------------------------------------------------------------
  // A closed-form reference for the loop

  /** County survives its own iteration when its value at that moment is not
      falsy: at position 0 it still holds the original string; anywhere else
      the first iteration has already stripped it. */
  predicate CountySurvives(c: nat, s: string) {
    if c == 0 then s != "" else StripApostrophes(s) != ""
  }

  /** The values with County (at `c`) stripped, and the falsy values among the
      first `n` others set to 0. */
  function Partial(v: seq<Value>, c: nat, s: string, n: nat): (r: seq<Value>)
    ensures |r| == |v|
  {
    seq(|v|, i requires 0 <= i < |v| =>
      if i == c then Str(StripApostrophes(s))
      else if i < n && Falsy(v[i]) then Zero
      else v[i])
  }

  /** What the loop yields, stated without iteration. */
  function Reference(r: Row): Result<seq<Value>>
    requires r.WellFormed()
  {
    if r.values == [] then Ok([])
    else
      match Find(r.keys, CountyKey)
      case None => Err(KeyError(CountyKey))
      case Some(c) =>
        match r.values[c]
        case Zero => Err(AttributeError)
        case Str(s) =>
          if CountySurvives(c, s) then Ok(Partial(r.values, c, s, |r.values|))
          else Err(AttributeError)
  }

  /** Once the loop has raised, later iterations change nothing. */
  lemma {:induction false} IterateStaysFailed(v: seq<Value>, county: Option<nat>, m: nat, n: nat)
    requires m <= n <= |v|
    requires county.Some? ==> county.value < |v|
    requires Iterate(v, county, m).failure.Some?
    ensures Iterate(v, county, n) == Iterate(v, county, m)
  {
    if n > m {
      IterateStaysFailed(v, county, m, n - 1);
    }
  }

  /** One iteration after the first, when County survives it, moves from
      `Partial` over `n - 1` positions to `Partial` over `n`. */
  lemma StepPartial(v: seq<Value>, c: nat, s: string, n: nat)
    requires c < |v| && v[c] == Str(s)
    requires 0 < c < n ==> StripApostrophes(s) != ""
    requires 2 <= n <= |v|
    ensures Step(Partial(v, c, s, n - 1), n - 1, Some(c)) == Progress(Partial(v, c, s, n), None)
  {
    var prev := Partial(v, c, s, n - 1);
    var z := ZeroIfFalsy(prev, n - 1);
    var t := StripApostrophes(s);
    StripFixedPoint(s);
    assert z[c] == Str(t);
    var q := z[c := Str(StripApostrophes(t))];
    forall i | 0 <= i < |v| ensures q[i] == Partial(v, c, s, n)[i] {
      if i != c && i != n - 1 {
        assert q[i] == prev[i];
      }
    }
  }

  /** The first iteration, when County survives it. */
  lemma StepFirst(v: seq<Value>, c: nat, s: string)
    requires c < |v| && v[c] == Str(s)
    requires c == 0 ==> s != ""
    ensures Step(v, 0, Some(c)) == Progress(Partial(v, c, s, 1), None)
  {
    var z := ZeroIfFalsy(v, 0);
    assert z[c] == Str(s);
    var q := z[c := Str(StripApostrophes(s))];
    forall i | 0 <= i < |v| ensures q[i] == Partial(v, c, s, 1)[i] {
    }
  }

  /** An iteration after one that did not raise is one more step. */
  lemma IterateNext(v: seq<Value>, county: Option<nat>, n: nat)
    requires 1 <= n <= |v|
    requires county.Some? ==> county.value < |v|
    requires Iterate(v, county, n - 1).failure.None?
    ensures Iterate(v, county, n) == Step(Iterate(v, county, n - 1).values, n - 1, county)
  {
  }

  /** The first iteration follows `Partial` when County survives it. */
  lemma IterateFirst(v: seq<Value>, c: nat, s: string)
    requires c < |v| && v[c] == Str(s)
    requires c == 0 ==> s != ""
    ensures Iterate(v, Some(c), 1) == Progress(Partial(v, c, s, 1), None)
  {
    assert Iterate(v, Some(c), 0) == Progress(v, None);
    IterateNext(v, Some(c), 1);
    StepFirst(v, c, s);
  }

  /** A later iteration keeps following `Partial` when County survived. */
  lemma IterateLater(v: seq<Value>, c: nat, s: string, n: nat)
    requires c < |v| && v[c] == Str(s)
    requires 0 < c < n ==> StripApostrophes(s) != ""
    requires 2 <= n <= |v|
    requires Iterate(v, Some(c), n - 1) == Progress(Partial(v, c, s, n - 1), None)
    ensures Iterate(v, Some(c), n) == Progress(Partial(v, c, s, n), None)
  {
    IterateNext(v, Some(c), n);
    StepPartial(v, c, s, n);
  }

  /** The iterations that do not raise follow `Partial`. */
  lemma {:induction false} IterateSucceeds(v: seq<Value>, c: nat, s: string, n: nat)
    requires c < |v| && v[c] == Str(s)
    requires c == 0 ==> s != ""
    requires 0 < c < n ==> StripApostrophes(s) != ""
    requires 1 <= n <= |v|
    ensures Iterate(v, Some(c), n) == Progress(Partial(v, c, s, n), None)
  {
    if n > 1 {
      IterateSucceeds(v, c, s, n - 1);
      IterateLater(v, c, s, n);
    } else {
      IterateFirst(v, c, s);
    }
  }

  /** When the first iteration raises, so does the whole loop. */
  lemma FirstIterationRaises(v: seq<Value>, county: Option<nat>, x: PyError)
    requires v != [] && (county.Some? ==> county.value < |v|)
    requires Step(v, 0, county).failure == Some(x)
    ensures Iterate(v, county, |v|).failure == Some(x)
  {
    assert Iterate(v, county, 0) == Progress(v, None);
    assert Iterate(v, county, 1) == Step(v, 0, county);
    IterateStaysFailed(v, county, 1, |v|);
  }

  /** A County after the first position that is all apostrophes is stripped to
      the empty string by the first iteration, becomes 0 in its own, and the
      next `.replace` raises. */
  lemma CountyEmptiedLater(v: seq<Value>, c: nat, s: string)
    requires 0 < c < |v| && v[c] == Str(s) && StripApostrophes(s) == ""
    ensures Iterate(v, Some(c), |v|).failure == Some(AttributeError)
  {
    IterateSucceeds(v, c, s, c);
    assert ZeroIfFalsy(Partial(v, c, s, c), c)[c] == Zero;
    assert Iterate(v, Some(c), c + 1).failure == Some(AttributeError);
    IterateStaysFailed(v, Some(c), c + 1, |v|);
  }

  /** The loop computes `Reference`. */
  lemma NormalizeIsReference(r: Row)
    requires r.WellFormed()
    ensures Normalize(r) == Reference(r)
  {
    var v, county := r.values, Find(r.keys, CountyKey);
    if v != [] {
      match county
      case None =>
        FirstIterationRaises(v, county, KeyError(CountyKey));
      case Some(c) =>
        match v[c]
        case Zero =>
          assert ZeroIfFalsy(v, 0)[c] == Zero;
          FirstIterationRaises(v, county, AttributeError);
        case Str(s) =>
          if CountySurvives(c, s) {
            IterateSucceeds(v, c, s, |v|);
          } else if c == 0 {
            assert ZeroIfFalsy(v, 0)[c] == Zero;
            FirstIterationRaises(v, county, AttributeError);
          } else {
            CountyEmptiedLater(v, c, s);
          }
    }
  }

  // ---------------------------------------------------------------------------
  // Properties of normalisation

  /** Normalisation keeps one value per key; it writes 0 over every falsy value;
      it leaves every other value alone except County's, which loses its
      apostrophes. */
  lemma NormalizeRewrites(r: Row, n: seq<Value>)
    requires r.IsDict() && Normalize(r) == Ok(n)
    ensures |n| == |r.values|
    ensures forall i :: 0 <= i < |n| && Falsy(r.values[i]) ==> n[i] == Zero
    ensures forall i :: 0 <= i < |n| && r.keys[i] != CountyKey && !Falsy(r.values[i]) ==> n[i] == r.values[i]
    ensures forall i :: 0 <= i < |n| && r.keys[i] == CountyKey ==>
      r.values[i].Str? && n[i] == Str(StripApostrophes(r.values[i].s))
  {
    NormalizeIsReference(r);
    if r.values != [] {
      var c := Find(r.keys, CountyKey).value;
      forall i | 0 <= i < |n| && r.keys[i] == CountyKey ensures i == c {
        FindDistinct(r.keys, CountyKey, i);
      }
    }
  }

  /** After normalisation County holds no apostrophe, and it is shorter than
      before by exactly the number of apostrophes it held. */
  lemma NormalizedCounty(r: Row, n: seq<Value>, i: nat)
    requires r.IsDict() && Normalize(r) == Ok(n)
    requires i < |r.keys| && r.keys[i] == CountyKey
    ensures r.values[i].Str? && n[i].Str?
    ensures Apostrophe !in n[i].s
    ensures |n[i].s| == |r.values[i].s| - Count(r.values[i].s, Apostrophe)
  {
    NormalizeRewrites(r, n);
  }

  /** When County is the first key, normalisation fails exactly when County is
      empty. A County of apostrophes only gets through and is left empty. */
  lemma CountyFirst(r: Row, s: string)
    requires r.IsDict()
    requires |r.keys| > 0 && r.keys[0] == CountyKey && r.values[0] == Str(s)
    ensures Normalize(r).Err? <==> s == ""
    ensures Normalize(r).Err? ==> Normalize(r).error == AttributeError
    ensures Normalize(r).Ok? ==> Normalize(r).value[0] == Str(StripApostrophes(s))
  {
    NormalizeIsReference(r);
    FindDistinct(r.keys, CountyKey, 0);
  }

  /** When County comes later, as in the header order CensusTract, State,
      County, ..., normalisation fails exactly when County is empty or made of
      apostrophes only: the first iteration strips it to the empty string, its
      own iteration writes 0 over it, and `.replace` on 0 raises. */
  lemma CountyLater(r: Row, c: nat, s: string)
    requires r.IsDict()
    requires 0 < c < |r.keys| && r.keys[c] == CountyKey && r.values[c] == Str(s)
    ensures Normalize(r).Err? <==> forall k :: 0 <= k < |s| ==> s[k] == Apostrophe
    ensures Normalize(r).Err? ==> Normalize(r).error == AttributeError
  {
    NormalizeIsReference(r);
    FindDistinct(r.keys, CountyKey, c);
    StripEmpty(s);
  }

  /** Normalisation raises KeyError exactly when the record is not empty and
      has no County. */
  lemma MissingCounty(r: Row)
    requires r.WellFormed()
    ensures Normalize(r) == Err(KeyError(CountyKey)) <==> r.keys != [] && CountyKey !in r.keys
  {
    NormalizeIsReference(r);
  }

  /** Normalising a normalised record changes nothing, with one exception:
      County came first and held apostrophes only, so the first pass left the
      empty string there, and the second pass writes 0 over it and raises. */
  lemma NormalizeIdempotent(r: Row, n: seq<Value>)
    requires r.IsDict() && Normalize(r) == Ok(n)
    ensures Normalize(Row(r.keys, n)) == Ok(n) <==>
      !(|n| > 0 && r.keys[0] == CountyKey && n[0] == Str(""))
    ensures Normalize(Row(r.keys, n)) != Ok(n) ==> Normalize(Row(r.keys, n)) == Err(AttributeError)
  {
    NormalizeIsReference(r);
    NormalizeIsReference(Row(r.keys, n));
    if r.values != [] {
      var c := Find(r.keys, CountyKey).value;
      var s := r.values[c].s;
      var t := StripApostrophes(s);
      StripFixedPoint(s);
      assert n[c] == Str(t);
      if c == 0 {
        FindDistinct(r.keys, CountyKey, 0);
      }
      if CountySurvives(c, t) {
        assert Partial(n, c, t, |n|) == n;
      }
    }
  }

  // ---------------------------------------------------------------------------
  // The value list of the INSERT statement

  /** The keys the value list reads, in order, and whether each is wrapped in
      single quotes. */
  const ValueFields: seq<(string, bool)> := [
    ("CensusTract", false), ("State", true), ("County", true), ("TotalPop", false),
    ("Men", false), ("Women", false), ("Hispanic", false), ("White", false),
    ("Black", false), ("Native", false), ("Asian", false), ("Pacific", false),
    ("Citizen", false), ("Income", false), ("IncomeErr", false), ("IncomePerCap", false),
    ("IncomePerCapErr", false), ("Poverty", false), ("ChildPoverty", false),
    ("Professional", false), ("Service", false), ("Office", false), ("Construction", false),
    ("Production", false), ("Drive", false), ("Carpool", false), ("Transit", false),
    ("Walk", false), ("OtherTransp", false), ("WorkAtHome", false), ("MeanCommute", false),
    ("Employed", false), ("PrivateWork", false), ("PublicWork", false),
    ("SelfEmployed", false), ("FamilyWork", false), ("Unemployment", false)
  ]

  /** The value list names the table's columns in the table's order. */
  lemma ValueFieldNames()
    ensures |ValueFields| == |CensusColumns| == 37
    ensures forall k :: 0 <= k < |ValueFields| ==> ValueFields[k].0 == CensusColumns[k].name
  {
  }

  /** The value list quotes exactly State and County, the TEXT columns. */
  lemma ValueFieldsQuoted()
    ensures |ValueFields| == 37
    ensures forall k :: 0 <= k < |ValueFields| ==> (
      ValueFields[k].1 <==> k == 1 || k == 2)
  {
  }

  /** `{row[key]}`, or `'{row[key]}'` when quoted. */
  function FieldToken(quoted: bool, v: Value): Token {
    if quoted then Quoted(Literal(v)) else Bare(Literal(v))
  }

  /** The value list for `fields[k..]`. A missing key raises KeyError, the
      first missing one in list order. */
  function RenderFrom(fields: seq<(string, bool)>, r: Row, k: nat): Result<seq<Token>>
    requires r.WellFormed() && k <= |fields|
    decreases |fields| - k
  {
    if k == |fields| then Ok([])
    else
      match Get(r, fields[k].0)
      case Err(x) => Err(x)
      case Ok(v) =>
        match RenderFrom(fields, r, k + 1)
        case Err(x) => Err(x)
        case Ok(ts) => Ok([FieldToken(fields[k].1, v)] + ts)
  }

  /** The f-string that builds the value list. */
  function RenderValues(r: Row): Result<seq<Token>>
    requires r.WellFormed()
  {
    RenderFrom(ValueFields, r, 0)
  }

  /** The value of field `f` in a record that holds it. */
  function FieldValue(r: Row, f: string): Value
    requires r.WellFormed() && f in r.keys
  {
    r.values[Find(r.keys, f).value]
  }

  lemma {:induction false} RenderFromSpec(fields: seq<(string, bool)>, r: Row, k: nat)
    requires r.WellFormed() && k <= |fields|
    ensures RenderFrom(fields, r, k).Ok? <==> forall m :: k <= m < |fields| ==> fields[m].0 in r.keys
    ensures RenderFrom(fields, r, k).Ok? ==>
      var t := RenderFrom(fields, r, k).value;
      |t| == |fields| - k &&
      forall m :: k <= m < |fields| ==> t[m - k] == FieldToken(fields[m].1, FieldValue(r, fields[m].0))
    ensures RenderFrom(fields, r, k).Err? ==>
      exists m :: k <= m < |fields| && fields[m].0 !in r.keys &&
        (forall j :: k <= j < m ==> fields[j].0 in r.keys) &&
        RenderFrom(fields, r, k).error == KeyError(fields[m].0)
    decreases |fields| - k
  {
    if k < |fields| {
      RenderFromSpec(fields, r, k + 1);
      if fields[k].0 in r.keys && RenderFrom(fields, r, k + 1).Err? {
        var m :| k + 1 <= m < |fields| && fields[m].0 !in r.keys &&
          (forall j :: k + 1 <= j < m ==> fields[j].0 in r.keys) &&
          RenderFrom(fields, r, k + 1).error == KeyError(fields[m].0);
        assert forall j :: k <= j < m ==> fields[j].0 in r.keys;
      }
    }
  }

  /** The value list holds 37 tokens, one per field in the table's column
      order, each carrying the field's value and quoted exactly for State and
      County. It is produced exactly when every field is present; otherwise the
      KeyError names the first missing field. */
  lemma RenderValuesSpec(r: Row)
    requires r.WellFormed()
    ensures RenderValues(r).Ok? <==> forall m :: 0 <= m < 37 ==> CensusColumns[m].name in r.keys
    ensures RenderValues(r).Ok? ==>
      var t := RenderValues(r).value;
      |t| == 37 &&
      (forall m :: 0 <= m < 37 ==> t[m].text == Literal(FieldValue(r, CensusColumns[m].name))) &&
      (forall m :: 0 <= m < 37 ==> (t[m].Quoted? <==> CensusColumns[m].sqlType == Text))
    ensures RenderValues(r).Err? ==>
      exists m :: 0 <= m < 37 && CensusColumns[m].name !in r.keys &&
        (forall j :: 0 <= j < m ==> CensusColumns[j].name in r.keys) &&
        RenderValues(r).error == KeyError(CensusColumns[m].name)
  {
    RenderFromSpec(ValueFields, r, 0);
    ValueFieldNames();
    ValueFieldsQuoted();
    CensusColumnsShape();
  }

  // ---------------------------------------------------------------------------
  // prepare_values as a whole

  /** Normalise, then render: what `prepare_values` returns or raises. */
  function Prepare(r: Row): Result<seq<Token>>
    requires r.WellFormed()
  {
    match Normalize(r)
    case Err(x) => Err(x)
    case Ok(n) => RenderValues(Row(r.keys, n))
  }

  /** The County literal of a prepared record contains no apostrophe besides
      its two delimiters, so it cannot end the literal early. */
  lemma CountyLiteralDelimited(r: Row)
    requires r.IsDict() && Prepare(r).Ok?
    ensures |Prepare(r).value| == 37
    ensures Prepare(r).value[2].Quoted?
    ensures Count(TokenText(Prepare(r).value[2]), Apostrophe) == 2
  {
    var n := Normalize(r).value;
    var nr := Row(r.keys, n);
    RenderValuesSpec(nr);
    CensusColumnsShape();
    var i := Find(r.keys, CountyKey).value;
    NormalizedCounty(r, n, i);
  }


  /** The loop of `prepare_values(row)`: rewrites the record in place, key by
      key; `failure` is the exception that ends it, and the record keeps
      whatever the loop had written by then. */
  method NormalizeRow(row: Record) returns (failure: Option<PyError>)
    requires row.Valid()
    modifies row
    ensures row.Valid() && row.keys == old(row.keys)
    ensures row.values == Loop(old(row.Snapshot())).values
    ensures failure == Loop(old(row.Snapshot())).failure
  {
    ghost var v := row.values;
    ghost var county := Find(row.keys, CountyKey);
    var i := 0;
    while i < |row.keys|
      invariant row.keys == old(row.keys) && |row.values| == |v| == |row.keys|
      invariant i <= |v|
      invariant Iterate(v, county, i) == Progress(row.values, None)
    {
      if Falsy(row.values[i]) {
        row.values := row.values[i := Zero];
      }
      var j := Find(row.keys, CountyKey);
      if j.None? {
        IterateStaysFailed(v, county, i + 1, |v|);
        return Some(KeyError(CountyKey));
      }
      match row.values[j.value]
      case Zero =>
        IterateStaysFailed(v, county, i + 1, |v|);
        return Some(AttributeError);
      case Str(s) =>
        row.values := row.values[j.value := Str(StripApostrophes(s))];
      i := i + 1;
    }
    failure := None;
  }

  /** `prepare_values(row)`: the loop, then the value list of the INSERT built
      from the rewritten record; an exception from the loop propagates. */
  method PrepareValues(row: Record) returns (r: Result<seq<Token>>)
    requires row.Valid()
    modifies row
    ensures row.Valid() && row.keys == old(row.keys)
    ensures row.values == Loop(old(row.Snapshot())).values
    ensures r == Prepare(old(row.Snapshot()))
  {
    var failure := NormalizeRow(row);
    match failure
    case Some(x) =>
      r := Err(x);
    case None =>
      r := RenderValues(row.Snapshot());
  }

  // ---------------------------------------------------------------------------
  // generate_insert_commands

  /** Every record of the list is aligned. */
  predicate AllWellFormed(records: seq<Row>) {
    forall i :: 0 <= i < |records| ==> records[i].WellFormed()
  }

  /** The outcome of `prepare_values` for each record. */
  function PrepareEach(records: seq<Row>): (p: seq<Result<seq<Token>>>)
    requires AllWellFormed(records)
    ensures |p| == |records|
  {
    if records == [] then []
    else PrepareEach(records[..|records| - 1]) + [Prepare(records[|records| - 1])]
  }

  /** Entry `i` of `PrepareEach` is the outcome for record `i`. */
  lemma {:induction false} PrepareEachAt(records: seq<Row>, i: nat)
    requires AllWellFormed(records) && i < |records|
    ensures PrepareEach(records)[i] == Prepare(records[i])
  {
    var init := records[..|records| - 1];
    assert PrepareEach(records) == PrepareEach(init) + [Prepare(records[|records| - 1])];
    if i < |init| {
      PrepareEachAt(init, i);
      assert init[i] == records[i];
    }
  }

  /** The commands for the prepared records, in order; the first exception
      ends the list. */
  function Collect(table: string, prepared: seq<Result<seq<Token>>>): Result<seq<Statement>>
  {
    if prepared == [] then Ok([])
    else
      match Collect(table, prepared[..|prepared| - 1])
      case Err(x) => Err(x)
      case Ok(cs) =>
        match prepared[|prepared| - 1]
        case Err(x) => Err(x)
        case Ok(vs) => Ok(cs + [Insert(table, vs)])
  }

  /** What `generate_insert_commands` returns or raises. */
  function InsertCommands(table: string, records: seq<Row>): Result<seq<Statement>>
    requires AllWellFormed(records)
  {
    Collect(table, PrepareEach(records))
  }

  /** The values the loop leaves in each record. */
  function LoopEach(records: seq<Row>): (p: seq<seq<Value>>)
    requires AllWellFormed(records)
    ensures |p| == |records|
  {
    if records == [] then []
    else LoopEach(records[..|records| - 1]) + [Loop(records[|records| - 1]).values]
  }

  /** Entry `i` of `LoopEach` is what the loop leaves in record `i`. */
  lemma {:induction false} LoopEachAt(records: seq<Row>, i: nat)
    requires AllWellFormed(records) && i < |records|
    ensures LoopEach(records)[i] == Loop(records[i]).values
  {
    var init := records[..|records| - 1];
    assert LoopEach(records) == LoopEach(init) + [Loop(records[|records| - 1]).values];
    if i < |init| {
      LoopEachAt(init, i);
      assert init[i] == records[i];
    }
  }

  /** Every entry before position `i` is a success. */
  predicate OkBefore(prepared: seq<Result<seq<Token>>>, i: nat)
    requires i <= |prepared|
  {
    forall j :: 0 <= j < i ==> prepared[j].Ok?
  }

  lemma {:induction false} CollectSpec(table: string, prepared: seq<Result<seq<Token>>>)
    ensures Collect(table, prepared).Ok? <==> OkBefore(prepared, |prepared|)
    ensures Collect(table, prepared).Ok? ==>
      var cs := Collect(table, prepared).value;
      |cs| == |prepared| &&
      forall i :: 0 <= i < |prepared| ==> cs[i] == Insert(table, prepared[i].value)
    ensures Collect(table, prepared).Err? ==>
      exists i :: 0 <= i < |prepared| && OkBefore(prepared, i) &&
        prepared[i] == Err(Collect(table, prepared).error)
  {
    if prepared != [] {
      var init := prepared[..|prepared| - 1];
      CollectSpec(table, init);
      assert forall j :: 0 <= j < |init| ==> init[j] == prepared[j];
    }
  }

  /** `generate_insert_commands` yields one INSERT into `table` per record, in
      input order, carrying that record's value list, exactly when no record
      raises; otherwise it raises what the first failing record raises. */
  lemma InsertCommandsSpec(table: string, records: seq<Row>)
    requires AllWellFormed(records)
    ensures InsertCommands(table, records).Ok? <==>
      forall i :: 0 <= i < |records| ==> Prepare(records[i]).Ok?
    ensures InsertCommands(table, records).Ok? ==>
      var cs := InsertCommands(table, records).value;
      |cs| == |records| &&
      forall i :: 0 <= i < |records| ==> cs[i] == Insert(table, Prepare(records[i]).value)
    ensures InsertCommands(table, records).Err? ==>
      exists i :: 0 <= i < |records| &&
        (forall j :: 0 <= j < i ==> Prepare(records[j]).Ok?) &&
        Prepare(records[i]) == Err(InsertCommands(table, records).error)
  {
    var p := PrepareEach(records);
    CollectSpec(table, p);
    forall i | 0 <= i < |records| ensures p[i] == Prepare(records[i]) {
      PrepareEachAt(records, i);
    }
  }

  /** A list whose prefix already raises raises the same exception. */
  lemma {:induction false} CollectPrefixErr(table: string, prepared: seq<Result<seq<Token>>>, n: nat)
    requires n <= |prepared|
    requires Collect(table, prepared[..n]).Err?
    ensures Collect(table, prepared) == Collect(table, prepared[..n])
    decreases |prepared| - n
  {
    if n < |prepared| {
      assert prepared[..n + 1][..n] == prepared[..n];
      CollectPrefixErr(table, prepared, n + 1);
    } else {
      assert prepared[..n] == prepared;
    }
  }

  /** The contents of a list of records, all of them aligned. */
  lemma ContentsWellFormed(rows: seq<Record>)
    requires forall i :: 0 <= i < |rows| ==> rows[i].Valid()
    ensures AllWellFormed(Contents(rows))
  {
    var c := Contents(rows);
    forall i | 0 <= i < |c| ensures c[i].WellFormed() {
      assert c[i] == rows[i].Snapshot();
    }
  }

  /** One more successful record extends the command list by its INSERT. */
  lemma CollectExtend(table: string, prepared: seq<Result<seq<Token>>>, i: nat, cs: seq<Statement>, vs: seq<Token>)
    requires i < |prepared| && prepared[i] == Ok(vs)
    requires Collect(table, prepared[..i]) == Ok(cs)
    ensures Collect(table, prepared[..i + 1]) == Ok(cs + [Insert(table, vs)])
  {
    assert prepared[..i + 1][..i] == prepared[..i];
  }

  /** One more success extends the run of successes. */
  lemma OkBeforeExtend(prepared: seq<Result<seq<Token>>>, i: nat)
    requires i < |prepared| && OkBefore(prepared, i) && prepared[i].Ok?
    ensures OkBefore(prepared, i + 1)
  {
  }

  /** When record `i` is the first to raise, generation raises its exception,
      and no record after it is reached. */
  lemma CollectFirstErr(table: string, prepared: seq<Result<seq<Token>>>, i: nat)
    requires i < |prepared| && prepared[i].Err? && OkBefore(prepared, i)
    requires Collect(table, prepared[..i]).Ok?
    ensures Collect(table, prepared) == Err(prepared[i].error)
    ensures forall k :: i < k <= |prepared| ==> !OkBefore(prepared, k)
  {
    assert prepared[..i + 1][..i] == prepared[..i];
    CollectPrefixErr(table, prepared, i + 1);
  }

  /** `generate_insert_commands(data)`: one INSERT per record, in order, or the
      first exception. As a side effect the loop rewrites in place every record
      from the first up to and including the one that raised; later records are
      left as they were. */
  method GenerateInsertCommands(table: string, rows: seq<Record>) returns (r: Result<seq<Statement>>)
    requires forall i, j :: 0 <= i < j < |rows| ==> rows[i] != rows[j]
    requires forall i :: 0 <= i < |rows| ==> rows[i].Valid()
    modifies rows
    ensures AllWellFormed(old(Contents(rows)))
    ensures r == InsertCommands(table, old(Contents(rows)))
    ensures forall i :: 0 <= i < |rows| ==> rows[i].Valid() && rows[i].keys == old(rows[i].keys)
    ensures forall i :: 0 <= i < |rows| && OkBefore(PrepareEach(old(Contents(rows))), i) ==>
      rows[i].values == LoopEach(old(Contents(rows)))[i]
    ensures forall i :: 0 <= i < |rows| && !OkBefore(PrepareEach(old(Contents(rows))), i) ==>
      rows[i].values == old(rows[i].values)
  {
    ContentsWellFormed(rows);
    ghost var before := Contents(rows);
    ghost var prepared := PrepareEach(before);
    ghost var after := LoopEach(before);
    var commands: seq<Statement> := [];
    var i := 0;
    while i < |rows|
      invariant i <= |rows|
      invariant Collect(table, prepared[..i]) == Ok(commands)
      invariant OkBefore(prepared, i)
      invariant forall k :: 0 <= k < |rows| ==> rows[k].Valid() && rows[k].keys == before[k].keys
      invariant forall k :: 0 <= k < i ==> rows[k].values == after[k]
      invariant forall k :: i <= k < |rows| ==> rows[k].values == before[k].values
    {
      var values := PrepareValues(rows[i]);
      PrepareEachAt(before, i);
      LoopEachAt(before, i);
      match values
      case Err(x) =>
        CollectFirstErr(table, prepared, i);
        return Err(x);
      case Ok(vs) =>
        CollectExtend(table, prepared, i, commands, vs);
        OkBeforeExtend(prepared, i);
        commands := commands + [Insert(table, vs)];
      i := i + 1;
    }
    assert prepared[..i] == prepared;
    r := Ok(commands);
  }
}
