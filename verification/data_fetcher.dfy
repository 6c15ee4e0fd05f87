/** The cleaning and derivation pass of the exoplanet fetcher: numeric
    coercion of the archive's measurement columns, removal of empty,
    unnamed and duplicate rows, and four derived columns (a habitability
    score, a planet type, a discovery era and a distance category). */
module DataFetcher {
  import opened Sequences
  import opened DataFrames

  /** The columns the pass converts to numbers, in the order it converts them. */
  const NumericColumns: seq<string> := [
    "pl_orbper", "pl_orbsmax", "pl_rade", "pl_radj", "pl_masse", "pl_massj",
    "pl_bmasse", "pl_bmassj", "pl_eqt", "pl_insol", "pl_dens",
    "st_teff", "st_rad", "st_mass", "st_met", "st_logg", "st_age",
    "sy_snum", "sy_pnum", "sy_dist", "sy_gaiamag",
    "ra", "dec", "glat", "glon", "disc_year"
  ]

  /** The columns the pass adds (or overwrites) on every surviving row. */
  const DerivedColumns: set<string> :=
    {"habitability_score", "planet_type", "discovery_era", "distance_category", "data_fetched_at"}

  // ---------------------------------------------------------------------
  // Habitability score

  /** An inclusive range test on a column value; a missing value is in no
      range (data_fetcher.py:141-153). */
  predicate Within(v: Option<real>, lo: real, hi: real)
  {
    v.Some? && lo <= v.value <= hi
  }

  /** The points a criterion contributes: its weight when met, else none. */
  function Points(hit: bool, weight: int): int
  {
    if hit then weight else 0
  }

  predicate EarthLikeRadius(rade: Option<real>) { Within(rade, 0.5, 2.0) }
  predicate TemperateZone(eqt: Option<real>) { Within(eqt, 200.0, 350.0) }
  predicate ReasonablePeriod(orbper: Option<real>) { Within(orbper, 200.0, 500.0) }

  /** How many of the three criteria a planet meets. */
  function CriteriaMet(rade: Option<real>, eqt: Option<real>, orbper: Option<real>): nat
  {
    (if EarthLikeRadius(rade) then 1 else 0) +
    (if TemperateZone(eqt) then 1 else 0) +
    (if ReasonablePeriod(orbper) then 1 else 0)
  }

  /** 35 points for an Earth-like radius, 40 for a temperate equilibrium
      temperature, 25 for a reasonable orbital period, added up from 0. A
      missing value, or an absent column, earns nothing. */
  function HabitabilityScore(rade: Option<real>, eqt: Option<real>, orbper: Option<real>): (score: int)
    ensures 0 <= score <= 100
    ensures score in {0, 25, 35, 40, 60, 65, 75, 100}
    ensures score > 50 <==> CriteriaMet(rade, eqt, orbper) >= 2
    ensures score == 100 <==> CriteriaMet(rade, eqt, orbper) == 3
    ensures score == 0 <==> CriteriaMet(rade, eqt, orbper) == 0
  {
    var score := 0;
    var score := score + Points(EarthLikeRadius(rade), 35);
    var score := score + Points(TemperateZone(eqt), 40);
    score + Points(ReasonablePeriod(orbper), 25)
  }

  /** No two different sets of met criteria give the same score, so the
      score alone says which criteria a planet meets. */
  lemma HabitabilityScoreDeterminesCriteria(
    rade: Option<real>, eqt: Option<real>, orbper: Option<real>,
    rade': Option<real>, eqt': Option<real>, orbper': Option<real>)
    requires HabitabilityScore(rade, eqt, orbper) == HabitabilityScore(rade', eqt', orbper')
    ensures EarthLikeRadius(rade) == EarthLikeRadius(rade')
    ensures TemperateZone(eqt) == TemperateZone(eqt')
    ensures ReasonablePeriod(orbper) == ReasonablePeriod(orbper')
  {
  }

  function RowScore(r: Row): int
  {
    HabitabilityScore(NumericValue(r, "pl_rade"), NumericValue(r, "pl_eqt"), NumericValue(r, "pl_orbper"))
  }

  // ---------------------------------------------------------------------
  // Planet type

  datatype PlanetType = Unknown | Rocky | SuperEarth | MiniNeptune | NeptuneLike | JupiterLike
  {
    function Label(): string
    {
      match this
      case Unknown => "Unknown"
      case Rocky => "Rocky (Earth-like)"
      case SuperEarth => "Super-Earth"
      case MiniNeptune => "Mini-Neptune"
      case NeptuneLike => "Neptune-like"
      case JupiterLike => "Jupiter-like"
    }

    /** Position in the size order of the classes that have a radius. */
    function Rank(): nat
    {
      match this
      case Unknown => 0
      case Rocky => 1
      case SuperEarth => 2
      case MiniNeptune => 3
      case NeptuneLike => 4
      case JupiterLike => 5
    }
  }

  /** `v < c` on a pandas column: false for a missing value. */
  predicate Below(v: Option<real>, c: real) { v.Some? && v.value < c }

  /** `v >= c` on a pandas column: false for a missing value. */
  predicate AtLeast(v: Option<real>, c: real) { v.Some? && v.value >= c }

  /** Starts every row at `Unknown` and lets five masks overwrite it in
      turn, as `Series.where` does. The bands are half-open, each boundary
      belonging to the larger class, and together they cover every radius. */
  function ClassifyPlanetType(rade: Option<real>): (t: PlanetType)
    ensures t == Unknown <==> rade.None?
    ensures t == Rocky <==> rade.Some? && rade.value < 1.25
    ensures t == SuperEarth <==> rade.Some? && 1.25 <= rade.value < 2.0
    ensures t == MiniNeptune <==> rade.Some? && 2.0 <= rade.value < 4.0
    ensures t == NeptuneLike <==> rade.Some? && 4.0 <= rade.value < 10.0
    ensures t == JupiterLike <==> rade.Some? && 10.0 <= rade.value
  {
    var t := Unknown;
    var t := if Below(rade, 1.25) && rade.Some? then Rocky else t;
    var t := if AtLeast(rade, 1.25) && Below(rade, 2.0) then SuperEarth else t;
    var t := if AtLeast(rade, 2.0) && Below(rade, 4.0) then MiniNeptune else t;
    var t := if AtLeast(rade, 4.0) && Below(rade, 10.0) then NeptuneLike else t;
    if AtLeast(rade, 10.0) then JupiterLike else t
  }

  /** A larger radius never gets a smaller class. */
  lemma PlanetTypeMonotone(x: real, y: real)
    requires x <= y
    ensures ClassifyPlanetType(Some(x)).Rank() <= ClassifyPlanetType(Some(y)).Rank()
  {
  }

  // ---------------------------------------------------------------------
  // pd.cut with right-closed bins

  predicate StrictlyIncreasing(edges: seq<real>)
  {
    forall i, j :: 0 <= i < j < |edges| ==> edges[i] < edges[j]
  }

  predicate DistinctLabels(labels: seq<string>)
  {
    forall i, j :: 0 <= i < j < |labels| ==> labels[i] != labels[j]
  }

  /** The label of the bin `(edges[i], edges[i + 1]]` that holds `v`, or
      `None` (NaN) for a missing value or one outside every bin. */
  function Cut(v: Option<real>, edges: seq<real>, labels: seq<string>): (bin: Option<string>)
    requires |edges| == |labels| + 1
    ensures bin.Some? ==> (v.Some? &&
      exists i :: 0 <= i < |labels| && bin.value == labels[i] && edges[i] < v.value <= edges[i + 1])
    decreases |labels|
  {
    if v.None? || labels == [] then None
    else if edges[0] < v.value <= edges[1] then Some(labels[0])
    else
      Cut(v, edges[1..], labels[1..])
  }

  lemma {:induction false} CutFindsBin(x: real, edges: seq<real>, labels: seq<string>, i: nat)
    requires |edges| == |labels| + 1 && StrictlyIncreasing(edges)
    requires i < |labels| && edges[i] < x <= edges[i + 1]
    ensures Cut(Some(x), edges, labels) == Some(labels[i])
    decreases i
  {
    if i > 0 {
      assert edges[1] <= edges[i];
      CutFindsBin(x, edges[1..], labels[1..], i - 1);
    }
  }

  lemma {:induction false} CutOutside(x: real, edges: seq<real>, labels: seq<string>)
    requires |edges| == |labels| + 1 && StrictlyIncreasing(edges)
    requires x <= edges[0] || x > edges[|edges| - 1]
    ensures Cut(Some(x), edges, labels).None?
    decreases |labels|
  {
    if labels != [] {
      assert edges[0] < edges[1] && edges[1] <= edges[|edges| - 1];
      CutOutside(x, edges[1..], labels[1..]);
    }
  }

  /** With distinct labels, the label `Cut` gives names the bin holding the value. */
  lemma CutLabelBin(x: real, edges: seq<real>, labels: seq<string>, i: nat)
    requires |edges| == |labels| + 1 && DistinctLabels(labels)
    requires i < |labels| && Cut(Some(x), edges, labels) == Some(labels[i])
    ensures edges[i] < x <= edges[i + 1]
  {
    var j :| 0 <= j < |labels| && labels[i] == labels[j] && edges[j] < x <= edges[j + 1];
    assert i == j;
  }

  /** A value inside `(edges[0], last edge]` lies in some bin. */
  lemma CutInside(x: real, edges: seq<real>, labels: seq<string>)
    requires |edges| == |labels| + 1 && StrictlyIncreasing(edges)
    requires edges[0] < x <= edges[|edges| - 1]
    ensures Cut(Some(x), edges, labels).Some?
  {
    var i := 0;
    while !(x <= edges[i + 1])
      invariant 0 <= i < |labels| && edges[i] < x
      decreases |labels| - i
    {
      i := i + 1;
    }
    CutFindsBin(x, edges, labels, i);
  }

  /** With increasing edges and distinct labels, a value gets label `i`
      exactly when it lies in `(edges[i], edges[i + 1]]`, and no label
      exactly when it is missing or outside `(edges[0], last edge]`. */
  lemma CutExact(v: Option<real>, edges: seq<real>, labels: seq<string>)
    requires |edges| == |labels| + 1 && StrictlyIncreasing(edges) && DistinctLabels(labels)
    ensures forall i :: 0 <= i < |labels| ==>
      (Cut(v, edges, labels) == Some(labels[i]) <==> v.Some? && edges[i] < v.value <= edges[i + 1])
    ensures Cut(v, edges, labels).None? <==> v.None? || v.value <= edges[0] || v.value > edges[|edges| - 1]
  {
    if v.Some? {
      var x := v.value;
      assert v == Some(x);
      forall i | 0 <= i < |labels|
        ensures Cut(v, edges, labels) == Some(labels[i]) <==> edges[i] < x <= edges[i + 1]
      {
        if edges[i] < x <= edges[i + 1] {
          CutFindsBin(x, edges, labels, i);
        }
        if Cut(v, edges, labels) == Some(labels[i]) {
          CutLabelBin(x, edges, labels, i);
        }
      }
      if x <= edges[0] || x > edges[|edges| - 1] {
        CutOutside(x, edges, labels);
      } else {
        CutInside(x, edges, labels);
      }
    } else {
      assert Cut(v, edges, labels) == None;
    }
  }

  const EraEdges: seq<real> := [0.0, 2000.0, 2010.0, 2015.0, 2020.0, 2030.0]
  const EraLabels: seq<string> := ["Pre-2000", "2000s", "2010-2015", "2015-2020", "2020+"]

  lemma EraBins()
    ensures |EraEdges| == |EraLabels| + 1
    ensures StrictlyIncreasing(EraEdges) && DistinctLabels(EraLabels)
    ensures EraEdges[0] == 0.0 && EraEdges[5] == 2030.0
    ensures EraLabels[0] == "Pre-2000" && EraLabels[1] == "2000s" && EraLabels[2] == "2010-2015"
    ensures EraLabels[3] == "2015-2020" && EraLabels[4] == "2020+"
  {
  }

  /** The discovery era: the year binned at the edges of `EraEdges`, each bin
      closed on the right (data_fetcher.py:115-117). */
  function DiscoveryEra(year: Option<real>): (era: Option<string>)
    ensures era == Some("Pre-2000") <==> year.Some? && 0.0 < year.value <= 2000.0
    ensures era == Some("2000s") <==> year.Some? && 2000.0 < year.value <= 2010.0
    ensures era == Some("2010-2015") <==> year.Some? && 2010.0 < year.value <= 2015.0
    ensures era == Some("2015-2020") <==> year.Some? && 2015.0 < year.value <= 2020.0
    ensures era == Some("2020+") <==> year.Some? && 2020.0 < year.value <= 2030.0
    ensures era.None? <==> year.None? || year.value <= 0.0 || year.value > 2030.0
  {
    EraBins();
    CutExact(year, EraEdges, EraLabels);
    Cut(year, EraEdges, EraLabels)
  }

  const DistanceEdges: seq<real> := [0.0, 50.0, 100.0, 500.0, 10000.0]
  const DistanceLabels: seq<string> :=
    ["Very Close (<50pc)", "Close (50-100pc)", "Moderate (100-500pc)", "Far (>500pc)"]

  lemma DistanceBins()
    ensures |DistanceEdges| == |DistanceLabels| + 1
    ensures StrictlyIncreasing(DistanceEdges) && DistinctLabels(DistanceLabels)
    ensures DistanceEdges[0] == 0.0 && DistanceEdges[4] == 10000.0
    ensures DistanceLabels[0] == "Very Close (<50pc)" && DistanceLabels[1] == "Close (50-100pc)"
    ensures DistanceLabels[2] == "Moderate (100-500pc)" && DistanceLabels[3] == "Far (>500pc)"
  {
  }

  /** The distance category: the distance in parsecs binned at the edges of
      `DistanceEdges`, each bin closed on the right (data_fetcher.py:120-123). */
  function DistanceCategory(dist: Option<real>): (category: Option<string>)
    ensures category == Some("Very Close (<50pc)") <==> dist.Some? && 0.0 < dist.value <= 50.0
    ensures category == Some("Close (50-100pc)") <==> dist.Some? && 50.0 < dist.value <= 100.0
    ensures category == Some("Moderate (100-500pc)") <==> dist.Some? && 100.0 < dist.value <= 500.0
    ensures category == Some("Far (>500pc)") <==> dist.Some? && 500.0 < dist.value <= 10000.0
    ensures category.None? <==> dist.None? || dist.value <= 0.0 || dist.value > 10000.0
  {
    DistanceBins();
    CutExact(dist, DistanceEdges, DistanceLabels);
    Cut(dist, DistanceEdges, DistanceLabels)
  }

  // ---------------------------------------------------------------------
  // The derived columns

  /** A categorical cell: the label, or NaN. */
  function LabelCell(bin: Option<string>): (c: Cell)
    ensures c == Missing <==> bin.None?
  {
    if bin.Some? then Text(bin.value) else Missing
  }

  function ScoreColumn(rows: seq<Row>): (values: seq<Cell>)
    ensures |values| == |rows|
  {
    seq(|rows|, i requires 0 <= i < |rows| => Num(RowScore(rows[i]) as real))
  }

  function PlanetTypeColumn(rows: seq<Row>): (values: seq<Cell>)
    ensures |values| == |rows|
  {
    seq(|rows|, i requires 0 <= i < |rows| => Text(ClassifyPlanetType(NumericValue(rows[i], "pl_rade")).Label()))
  }

  function EraColumn(rows: seq<Row>): (values: seq<Cell>)
    ensures |values| == |rows|
  {
    seq(|rows|, i requires 0 <= i < |rows| => LabelCell(DiscoveryEra(NumericValue(rows[i], "disc_year"))))
  }

  function DistanceColumn(rows: seq<Row>): (values: seq<Cell>)
    ensures |values| == |rows|
  {
    seq(|rows|, i requires 0 <= i < |rows| => LabelCell(DistanceCategory(NumericValue(rows[i], "sy_dist"))))
  }

  lemma DerivedNamesDistinct()
    ensures "habitability_score" != "planet_type" && "habitability_score" != "discovery_era"
    ensures "habitability_score" != "distance_category" && "habitability_score" != "data_fetched_at"
    ensures "planet_type" != "discovery_era" && "planet_type" != "distance_category"
    ensures "planet_type" != "data_fetched_at" && "discovery_era" != "distance_category"
    ensures "discovery_era" != "data_fetched_at" && "distance_category" != "data_fetched_at"
  {
  }

  /** A surviving row with its five derived cells; every other cell is kept. */
  function Enriched(r: Row, fetchedAt: string): (e: Row)
    ensures e.Keys == r.Keys + DerivedColumns
    ensures forall c :: c in r && c !in DerivedColumns ==> e[c] == r[c]
    ensures e["data_fetched_at"] == Text(fetchedAt)
  {
    DerivedNamesDistinct();
    r["habitability_score" := Num(RowScore(r) as real)]
     ["planet_type" := Text(ClassifyPlanetType(NumericValue(r, "pl_rade")).Label())]
     ["discovery_era" := LabelCell(DiscoveryEra(NumericValue(r, "disc_year")))]
     ["distance_category" := LabelCell(DistanceCategory(NumericValue(r, "sy_dist")))]
     ["data_fetched_at" := Text(fetchedAt)]
  }

  /** What the derived cells of a row say: a score between 0 and 100, the
      "Unknown" type exactly when there is no radius, and no era or distance
      band exactly when the value is missing or outside every bin. */
  lemma EnrichedDerivedCells(r: Row, fetchedAt: string)
    ensures Enriched(r, fetchedAt)["habitability_score"].Num?
    ensures 0.0 <= Enriched(r, fetchedAt)["habitability_score"].x <= 100.0
    ensures Enriched(r, fetchedAt)["planet_type"] == Text("Unknown") <==> NumericValue(r, "pl_rade").None?
    ensures Enriched(r, fetchedAt)["discovery_era"] == Missing <==>
      NumericValue(r, "disc_year").None? || NumericValue(r, "disc_year").value <= 0.0 ||
      NumericValue(r, "disc_year").value > 2030.0
    ensures Enriched(r, fetchedAt)["distance_category"] == Missing <==>
      NumericValue(r, "sy_dist").None? || NumericValue(r, "sy_dist").value <= 0.0 ||
      NumericValue(r, "sy_dist").value > 10000.0
  {
    DerivedNamesDistinct();
  }

  function EnrichAll(rows: seq<Row>, fetchedAt: string): seq<Row>
  {
    seq(|rows|, i requires 0 <= i < |rows| => Enriched(rows[i], fetchedAt))
  }

  /** Each derived column reads only source columns, so computing it from
      the frame after the earlier derived columns were added changes nothing. */
  lemma EnrichedStepwise(r: Row, fetchedAt: string)
    ensures
      var withScore := r["habitability_score" := Num(RowScore(r) as real)];
      var withType := withScore["planet_type" := Text(ClassifyPlanetType(NumericValue(withScore, "pl_rade")).Label())];
      var withEra := withType["discovery_era" := LabelCell(DiscoveryEra(NumericValue(withType, "disc_year")))];
      var withDistance := withEra["distance_category" := LabelCell(DistanceCategory(NumericValue(withEra, "sy_dist")))];
      withDistance["data_fetched_at" := Text(fetchedAt)] == Enriched(r, fetchedAt)
  {
    var withScore := r["habitability_score" := Num(RowScore(r) as real)];
    assert NumericValue(withScore, "pl_rade") == NumericValue(r, "pl_rade");
    var withType := withScore["planet_type" := Text(ClassifyPlanetType(NumericValue(withScore, "pl_rade")).Label())];
    assert NumericValue(withType, "disc_year") == NumericValue(r, "disc_year");
    var withEra := withType["discovery_era" := LabelCell(DiscoveryEra(NumericValue(withType, "disc_year")))];
    assert NumericValue(withEra, "sy_dist") == NumericValue(r, "sy_dist");
  }

  /** Assigning the five derived columns one after another, each computed
      from the frame as it stands, enriches every row. */
  lemma AssignedColumnsEnrich(rows: seq<Row>, fetchedAt: string)
    ensures
      var withScore := SetColumn(rows, "habitability_score", ScoreColumn(rows));
      var withType := SetColumn(withScore, "planet_type", PlanetTypeColumn(withScore));
      var withEra := SetColumn(withType, "discovery_era", EraColumn(withType));
      var withDistance := SetColumn(withEra, "distance_category", DistanceColumn(withEra));
      SetColumn(withDistance, "data_fetched_at", seq(|withDistance|, _ => Text(fetchedAt)))
        == EnrichAll(rows, fetchedAt)
  {
    var withScore := SetColumn(rows, "habitability_score", ScoreColumn(rows));
    var withType := SetColumn(withScore, "planet_type", PlanetTypeColumn(withScore));
    var withEra := SetColumn(withType, "discovery_era", EraColumn(withType));
    var withDistance := SetColumn(withEra, "distance_category", DistanceColumn(withEra));
    var last := SetColumn(withDistance, "data_fetched_at", seq(|withDistance|, _ => Text(fetchedAt)));
    forall i | 0 <= i < |rows|
      ensures last[i] == Enriched(rows[i], fetchedAt)
    {
      EnrichedStepwise(rows[i], fetchedAt);
    }
  }

  // ---------------------------------------------------------------------
  // The whole pass

  /** The rows left once wholly empty rows and then unnamed rows are dropped. */
  function NamedRows(rows: seq<Row>): seq<Row>
  {
    DropMissingIn(DropAllMissing(rows), ["pl_name"])
  }

  /** The named rows that de-duplication by planet name keeps: the first of each name. */
  function Survivors(rows: seq<Row>): seq<Row>
  {
    DropDuplicates(NamedRows(rows), "pl_name")
  }

  predicate HasName(r: Row)
  {
    "pl_name" in r && r["pl_name"] != Missing
  }

  /** The three ways the lemmas say that a row has a planet name agree. */
  lemma HasNameForms(r: Row)
    ensures HasName(r) <==> KeyOf(r, "pl_name") != Missing
    ensures HasName(r) <==> HasValues(r, ["pl_name"])
  {
    assert ["pl_name"][0] == "pl_name";
  }

  /** What `clean_exoplanet_data` returns, or the `KeyError` it raises. */
  function Clean(columns: set<string>, rows: seq<Row>, parse: Parser, fetchedAt: string): (result: Result<seq<Row>>)
    ensures IsEmptyFrame(columns, rows) ==> result == Ok(rows)
    ensures result.KeyError? <==> (!IsEmptyFrame(columns, rows) &&
      ("pl_name" !in columns || "disc_year" !in columns || "sy_dist" !in columns))
  {
    if IsEmptyFrame(columns, rows) then Ok(rows)
    else if "pl_name" !in columns then KeyError(["pl_name"])
    else if "disc_year" !in columns then KeyError(["disc_year"])
    else if "sy_dist" !in columns then KeyError(["sy_dist"])
    else Ok(Cleaned(rows, parse, fetchedAt))
  }

  /** The enriched survivors of the coerced rows. */
  function Cleaned(rows: seq<Row>, parse: Parser, fetchedAt: string): seq<Row>
  {
    EnrichAll(Survivors(CoerceColumns(rows, NumericColumns, parse)), fetchedAt)
  }

  /** The survivors are an order-preserving selection of the input rows. */
  lemma SurvivorsOrdered(rows: seq<Row>)
    ensures SubseqOf(Survivors(rows), rows)
    ensures |Survivors(rows)| <= |rows|
  {
    var dropped := DropAllMissing(rows);
    var named := NamedRows(rows);
    SubseqTrans(named, dropped, rows);
    SubseqTrans(Survivors(rows), named, rows);
    SubseqShorter(Survivors(rows), rows);
  }

  /** Every survivor has a planet name, and no name occurs twice. */
  lemma SurvivorsNamed(rows: seq<Row>)
    ensures forall i :: 0 <= i < |Survivors(rows)| ==> HasName(Survivors(rows)[i])
    ensures DistinctKeys(Survivors(rows), "pl_name")
  {
    var named := NamedRows(rows);
    var out := Survivors(rows);
    SubseqMembers(out, named);
    forall i | 0 <= i < |out|
      ensures HasName(out[i])
    {
      assert out[i] in named;
      var j :| 0 <= j < |named| && named[j] == out[i];
      assert HasValues(named[j], ["pl_name"]);
      assert ["pl_name"][0] == "pl_name";
    }
  }

  /** The cleaned frame is never longer than the input, every row of it is
      named, and no planet name occurs twice. */
  lemma CleanedNamed(rows: seq<Row>, parse: Parser, fetchedAt: string)
    ensures |Cleaned(rows, parse, fetchedAt)| <= |rows|
    ensures forall i :: 0 <= i < |Cleaned(rows, parse, fetchedAt)| ==> HasName(Cleaned(rows, parse, fetchedAt)[i])
    ensures DistinctKeys(Cleaned(rows, parse, fetchedAt), "pl_name")
  {
    var coerced := CoerceColumns(rows, NumericColumns, parse);
    var kept := Survivors(coerced);
    var out := Cleaned(rows, parse, fetchedAt);
    SurvivorsOrdered(coerced);
    SurvivorsNamed(coerced);
    assert "pl_name" !in DerivedColumns;
    forall i | 0 <= i < |out|
      ensures HasName(out[i]) && KeyOf(out[i], "pl_name") == KeyOf(kept[i], "pl_name")
    {
      assert HasName(kept[i]);
    }
  }

  /** Neither coercion nor the derived columns touch the planet name. */
  lemma NameUntouched()
    ensures "pl_name" !in NumericColumns && "pl_name" !in DerivedColumns
  {
  }

  /** A row with a present name survives both `dropna` calls. */
  lemma NamedRowPasses(k: Cell)
    requires k != Missing
    ensures forall r :: KeyOf(r, "pl_name") == k ==> NotAllMissing(r)
    ensures forall r :: KeyOf(r, "pl_name") == k ==> HasValues(r, ["pl_name"])
  {
    forall r | KeyOf(r, "pl_name") == k
      ensures NotAllMissing(r) && HasValues(r, ["pl_name"])
    {
      assert "pl_name" in r && r["pl_name"] != Missing;
    }
  }

  /** The two `dropna` calls keep the first row of every present name. */
  lemma NamedKeepsFirstRow(rows: seq<Row>, k: Cell)
    requires k != Missing && k in KeysOf(rows, "pl_name")
    ensures k in KeysOf(NamedRows(rows), "pl_name")
    ensures NamedRows(rows)[FirstIndex(NamedRows(rows), "pl_name", k)] == rows[FirstIndex(rows, "pl_name", k)]
  {
    NamedRowPasses(k);
    FilterKeepsFirstOfKey(rows, "pl_name", k, NotAllMissing);
    FilterKeepsFirstOfKey(DropAllMissing(rows), "pl_name", k, r => HasValues(r, ["pl_name"]));
  }

  /** Each survivor is the first row of the input with its (present) name. */
  lemma SurvivorIsFirst(rows: seq<Row>, i: nat)
    requires i < |Survivors(rows)|
    ensures KeyOf(Survivors(rows)[i], "pl_name") != Missing
    ensures KeyOf(Survivors(rows)[i], "pl_name") in KeysOf(rows, "pl_name")
    ensures Survivors(rows)[i] == rows[FirstIndex(rows, "pl_name", KeyOf(Survivors(rows)[i], "pl_name"))]
  {
    var named := NamedRows(rows);
    var kept := Survivors(rows);
    SurvivorsNamed(rows);
    var k := KeyOf(kept[i], "pl_name");
    assert HasName(kept[i]);
    DropDuplicatesKeepsFirst(named, "pl_name");
    var first := named[FirstIndex(named, "pl_name", k)];
    SurvivorsOrdered(rows);
    SubseqTrans(named, DropAllMissing(rows), rows);
    SubseqMembers(named, rows);
    KeyOfMember(rows, first, "pl_name");
    NamedKeepsFirstRow(rows, k);
  }

  /** Row `i` of the cleaned frame is the enriched survivor `i`, with its name. */
  lemma CleanedAt(rows: seq<Row>, parse: Parser, fetchedAt: string, i: nat)
    requires i < |Survivors(CoerceColumns(rows, NumericColumns, parse))|
    ensures |Cleaned(rows, parse, fetchedAt)| == |Survivors(CoerceColumns(rows, NumericColumns, parse))|
    ensures Cleaned(rows, parse, fetchedAt)[i] == Enriched(Survivors(CoerceColumns(rows, NumericColumns, parse))[i], fetchedAt)
    ensures KeyOf(Cleaned(rows, parse, fetchedAt)[i], "pl_name") ==
            KeyOf(Survivors(CoerceColumns(rows, NumericColumns, parse))[i], "pl_name")
  {
    NameUntouched();
  }

  /** Each row of the cleaned frame is the enrichment of the coerced first
      input row with its planet name, and that name is present. */
  lemma CleanedRowIsFirst(rows: seq<Row>, parse: Parser, fetchedAt: string, i: nat)
    requires i < |Cleaned(rows, parse, fetchedAt)|
    ensures KeyOf(Cleaned(rows, parse, fetchedAt)[i], "pl_name") != Missing
    ensures KeyOf(Cleaned(rows, parse, fetchedAt)[i], "pl_name") in KeysOf(rows, "pl_name")
    ensures Cleaned(rows, parse, fetchedAt)[i] ==
      Enriched(CoerceRow(rows[FirstIndex(rows, "pl_name", KeyOf(Cleaned(rows, parse, fetchedAt)[i], "pl_name"))],
                         NumericColumns, parse), fetchedAt)
  {
    var coerced := CoerceColumns(rows, NumericColumns, parse);
    CleanedAt(rows, parse, fetchedAt, i);
    SurvivorIsFirst(coerced, i);
    NameUntouched();
    CoerceFirstIndex(rows, NumericColumns, "pl_name", KeyOf(Survivors(coerced)[i], "pl_name"), parse);
  }

  /** Every present planet name of the input is in the cleaned frame. */
  lemma CleanedKeepsEveryName(rows: seq<Row>, parse: Parser, fetchedAt: string, name: Cell)
    requires name != Missing && name in KeysOf(rows, "pl_name")
    ensures name in KeysOf(Cleaned(rows, parse, fetchedAt), "pl_name")
  {
    var coerced := CoerceColumns(rows, NumericColumns, parse);
    NameUntouched();
    CoerceFirstIndex(rows, NumericColumns, "pl_name", name, parse);
    NamedKeepsFirstRow(coerced, name);
    var j := FirstIndex(Survivors(coerced), "pl_name", name);
    CleanedAt(rows, parse, fetchedAt, j);
  }

  /** Adding the derived columns to a well-formed frame gives a well-formed frame. */
  lemma EnrichPreservesWellFormed(columns: set<string>, rows: seq<Row>, fetchedAt: string)
    requires WellFormed(columns, rows)
    ensures WellFormed(columns + DerivedColumns, EnrichAll(rows, fetchedAt))
  {
    var out := EnrichAll(rows, fetchedAt);
    forall r | r in out
      ensures r.Keys == columns + DerivedColumns
    {
      var i :| 0 <= i < |out| && out[i] == r;
      assert rows[i] in rows;
    }
  }

  /** The cleaned frame is the enrichment of an order-preserving selection
      of the coerced input, and has the input's columns plus the derived ones. */
  lemma CleanedShape(columns: set<string>, rows: seq<Row>, parse: Parser, fetchedAt: string)
    requires WellFormed(columns, rows)
    ensures WellFormed(columns + DerivedColumns, Cleaned(rows, parse, fetchedAt))
    ensures exists kept :: (SubseqOf(kept, CoerceColumns(rows, NumericColumns, parse)) &&
      Cleaned(rows, parse, fetchedAt) == EnrichAll(kept, fetchedAt))
  {
    var coerced := CoerceColumns(rows, NumericColumns, parse);
    var kept := Survivors(coerced);
    SurvivorsOrdered(coerced);
    CoercePreservesWellFormed(columns, rows, NumericColumns, parse);
    SubseqWellFormed(columns, kept, coerced);
    EnrichPreservesWellFormed(columns, kept, fetchedAt);
  }

  /** The rows as they stand when reading an absent `disc_year` or
      `sy_dist` raises: the score and type columns are in place, and so is
      the era column when the frame has a discovery year. */
  function AddedBeforeKeyError(rows: seq<Row>, hasYear: bool): seq<Row>
  {
    var withScore := SetColumn(rows, "habitability_score", ScoreColumn(rows));
    var withType := SetColumn(withScore, "planet_type", PlanetTypeColumn(withScore));
    if hasYear then SetColumn(withType, "discovery_era", EraColumn(withType)) else withType
  }

  /** What the frame holds after a `KeyError` in the derivation step: each
      row has gained the score and the type, and the era when the frame has
      a discovery year, all equal to the cells the completed pass would
      have given it. */
  lemma PartlyEnriched(rows: seq<Row>, hasYear: bool, fetchedAt: string, i: nat)
    requires i < |rows|
    ensures |AddedBeforeKeyError(rows, hasYear)| == |rows|
    ensures AddedBeforeKeyError(rows, hasYear)[i]["habitability_score"] == Enriched(rows[i], fetchedAt)["habitability_score"]
    ensures AddedBeforeKeyError(rows, hasYear)[i]["planet_type"] == Enriched(rows[i], fetchedAt)["planet_type"]
    ensures hasYear ==>
      AddedBeforeKeyError(rows, hasYear)[i]["discovery_era"] == Enriched(rows[i], fetchedAt)["discovery_era"]
  {
    AddedBeforeKeyErrorAt(rows, hasYear, i);
    AddedCells(rows, hasYear, i);
    EnrichedScoreCell(rows[i], fetchedAt);
    EnrichedTypeCell(rows[i], fetchedAt);
    EnrichedEraCell(rows[i], fetchedAt);
  }

  /** The cells `Enriched` derives, each computed from the source row. */
  lemma EnrichedScoreCell(r: Row, fetchedAt: string)
    ensures Enriched(r, fetchedAt)["habitability_score"] == Num(RowScore(r) as real)
  {
    DerivedNamesDistinct();
    var withScore := r["habitability_score" := Num(RowScore(r) as real)];
    var withType := withScore["planet_type" := Text(ClassifyPlanetType(NumericValue(r, "pl_rade")).Label())];
    var withEra := withType["discovery_era" := LabelCell(DiscoveryEra(NumericValue(r, "disc_year")))];
    var withDistance := withEra["distance_category" := LabelCell(DistanceCategory(NumericValue(r, "sy_dist")))];
    assert Enriched(r, fetchedAt) == withDistance["data_fetched_at" := Text(fetchedAt)];
    assert withDistance["habitability_score"] == withScore["habitability_score"];
  }

  lemma EnrichedTypeCell(r: Row, fetchedAt: string)
    ensures Enriched(r, fetchedAt)["planet_type"] == Text(ClassifyPlanetType(NumericValue(r, "pl_rade")).Label())
  {
    DerivedNamesDistinct();
    var withScore := r["habitability_score" := Num(RowScore(r) as real)];
    var withType := withScore["planet_type" := Text(ClassifyPlanetType(NumericValue(r, "pl_rade")).Label())];
    var withEra := withType["discovery_era" := LabelCell(DiscoveryEra(NumericValue(r, "disc_year")))];
    var withDistance := withEra["distance_category" := LabelCell(DistanceCategory(NumericValue(r, "sy_dist")))];
    assert Enriched(r, fetchedAt) == withDistance["data_fetched_at" := Text(fetchedAt)];
    assert withDistance["planet_type"] == withType["planet_type"];
  }

  lemma EnrichedEraCell(r: Row, fetchedAt: string)
    ensures Enriched(r, fetchedAt)["discovery_era"] == LabelCell(DiscoveryEra(NumericValue(r, "disc_year")))
  {
    DerivedNamesDistinct();
    var withScore := r["habitability_score" := Num(RowScore(r) as real)];
    var withType := withScore["planet_type" := Text(ClassifyPlanetType(NumericValue(r, "pl_rade")).Label())];
    var withEra := withType["discovery_era" := LabelCell(DiscoveryEra(NumericValue(r, "disc_year")))];
    var withDistance := withEra["distance_category" := LabelCell(DistanceCategory(NumericValue(r, "sy_dist")))];
    assert Enriched(r, fetchedAt) == withDistance["data_fetched_at" := Text(fetchedAt)];
    assert withDistance["discovery_era"] == withEra["discovery_era"];
  }

  /** The cells added before a `KeyError`, each computed from the source row. */
  lemma AddedCells(rows: seq<Row>, hasYear: bool, i: nat)
    requires i < |rows|
    ensures |AddedBeforeKeyError(rows, hasYear)| == |rows|
    ensures AddedBeforeKeyError(rows, hasYear)[i]["habitability_score"] == Num(RowScore(rows[i]) as real)
    ensures AddedBeforeKeyError(rows, hasYear)[i]["planet_type"] ==
      Text(ClassifyPlanetType(NumericValue(rows[i], "pl_rade")).Label())
    ensures hasYear ==>
      AddedBeforeKeyError(rows, hasYear)[i]["discovery_era"] == LabelCell(DiscoveryEra(NumericValue(rows[i], "disc_year")))
  {
    AddedBeforeKeyErrorAt(rows, hasYear, i);
    var r := rows[i];
    var withScore := r["habitability_score" := Num(RowScore(r) as real)];
    assert NumericValue(withScore, "pl_rade") == NumericValue(r, "pl_rade");
    var withType := withScore["planet_type" := Text(ClassifyPlanetType(NumericValue(withScore, "pl_rade")).Label())];
    assert NumericValue(withType, "disc_year") == NumericValue(r, "disc_year");
  }

  /** ... and every other cell of the row is as it was. */
  lemma PartlyEnrichedKeeps(rows: seq<Row>, hasYear: bool, i: nat)
    requires i < |rows|
    ensures |AddedBeforeKeyError(rows, hasYear)| == |rows|
    ensures AddedBeforeKeyError(rows, hasYear)[i].Keys ==
      rows[i].Keys + {"habitability_score", "planet_type"} + (if hasYear then {"discovery_era"} else {})
    ensures forall c :: c in rows[i] && c !in {"habitability_score", "planet_type"} + (if hasYear then {"discovery_era"} else {}) ==>
      AddedBeforeKeyError(rows, hasYear)[i][c] == rows[i][c]
  {
    AddedBeforeKeyErrorAt(rows, hasYear, i);
  }

  /** Row `i` of `AddedBeforeKeyError`, one assignment after another. */
  lemma AddedBeforeKeyErrorAt(rows: seq<Row>, hasYear: bool, i: nat)
    requires i < |rows|
    ensures |AddedBeforeKeyError(rows, hasYear)| == |rows|
    ensures AddedBeforeKeyError(rows, hasYear)[i] ==
      var r := rows[i];
      var withScore := r["habitability_score" := Num(RowScore(r) as real)];
      var withType := withScore["planet_type" := Text(ClassifyPlanetType(NumericValue(withScore, "pl_rade")).Label())];
      if hasYear then withType["discovery_era" := LabelCell(DiscoveryEra(NumericValue(withType, "disc_year")))]
      else withType
  {
    var withScore := SetColumn(rows, "habitability_score", ScoreColumn(rows));
    var withType := SetColumn(withScore, "planet_type", PlanetTypeColumn(withScore));
    assert withScore[i] == rows[i]["habitability_score" := Num(RowScore(rows[i]) as real)];
    if hasYear {
      var withEra := SetColumn(withType, "discovery_era", EraColumn(withType));
      assert withEra[i] == withType[i]["discovery_era" := LabelCell(DiscoveryEra(NumericValue(withType[i], "disc_year")))];
    }
  }

  /** The three row filters of the pass, each producing a new frame: drop
      the wholly empty rows, then the unnamed ones (which raises `KeyError`
      when there is no `pl_name` column), then every row but the first of
      each name (data_fetcher.py:91-100). */
  method DropUnusableRows(df: DataFrame) returns (r: Result<DataFrame>)
    requires df.Valid()
    ensures r.KeyError? <==> "pl_name" !in df.columns
    ensures r.KeyError? ==> r.columns == ["pl_name"]
    ensures r.Ok? ==> fresh(r.value) && r.value.Valid()
    ensures r.Ok? ==> r.value.columns == df.columns && r.value.rows == Survivors(df.rows)
  {
    SubseqWellFormed(df.columns, DropAllMissing(df.rows), df.rows);
    var frame := new DataFrame(df.columns, DropAllMissing(df.rows));
    if "pl_name" !in frame.columns {
      return KeyError(["pl_name"]);
    }
    SubseqWellFormed(frame.columns, DropMissingIn(frame.rows, ["pl_name"]), frame.rows);
    frame := new DataFrame(frame.columns, DropMissingIn(frame.rows, ["pl_name"]));
    SubseqWellFormed(frame.columns, DropDuplicates(frame.rows, "pl_name"), frame.rows);
    frame := new DataFrame(frame.columns, DropDuplicates(frame.rows, "pl_name"));
    return Ok(frame);
  }

  /** The five column assignments of the pass, in place on the filtered
      frame. Reading `df['disc_year']` or `df['sy_dist']` raises `KeyError`
      when that column is absent, after the earlier columns were added. */
  method AddDerivedColumns(frame: DataFrame, fetchedAt: string) returns (r: Result<DataFrame>)
    requires frame.Valid()
    modifies frame
    ensures frame.Valid()
    ensures r.KeyError? <==> "disc_year" !in old(frame.columns) || "sy_dist" !in old(frame.columns)
    ensures r.KeyError? ==> r.columns == if "disc_year" !in old(frame.columns) then ["disc_year"] else ["sy_dist"]
    ensures r.KeyError? ==>
              frame.columns == old(frame.columns) + {"habitability_score", "planet_type"} +
                               (if "disc_year" in old(frame.columns) then {"discovery_era"} else {})
    ensures r.KeyError? ==> frame.rows == AddedBeforeKeyError(old(frame.rows), "disc_year" in old(frame.columns))
    ensures r.Ok? ==> r.value == frame && frame.columns == old(frame.columns) + DerivedColumns
    ensures r.Ok? ==> frame.rows == EnrichAll(old(frame.rows), fetchedAt)
  {
    assert "disc_year" != "habitability_score" && "disc_year" != "planet_type";
    assert "sy_dist" != "habitability_score" && "sy_dist" != "planet_type" && "sy_dist" != "discovery_era";
    ghost var kept := frame.rows;
    frame.Assign("habitability_score", ScoreColumn(frame.rows));
    ghost var withScore := frame.rows;
    frame.Assign("planet_type", PlanetTypeColumn(frame.rows));
    ghost var withType := frame.rows;
    if "disc_year" !in frame.columns {
      return KeyError(["disc_year"]);
    }
    frame.Assign("discovery_era", EraColumn(frame.rows));
    ghost var withEra := frame.rows;
    if "sy_dist" !in frame.columns {
      return KeyError(["sy_dist"]);
    }
    frame.Assign("distance_category", DistanceColumn(frame.rows));
    ghost var withDistance := frame.rows;
    frame.Assign("data_fetched_at", seq(|frame.rows|, _ => Text(fetchedAt)));
    assert withScore == SetColumn(kept, "habitability_score", ScoreColumn(kept));
    assert withType == SetColumn(withScore, "planet_type", PlanetTypeColumn(withScore));
    assert withEra == SetColumn(withType, "discovery_era", EraColumn(withType));
    assert withDistance == SetColumn(withEra, "distance_category", DistanceColumn(withEra));
    AssignedColumnsEnrich(kept, fetchedAt);
    return Ok(frame);
  }

  /** `clean_exoplanet_data(df)`. An empty frame comes back as it is. Otherwise
      the numeric columns of `df` itself are coerced in place (the caller's
      frame changes too, even if a `KeyError` follows), and the result is a
      new frame holding the enriched survivors. */
  method CleanExoplanetData(df: DataFrame, parse: Parser, fetchedAt: string) returns (r: Result<DataFrame>)
    requires df.Valid()
    modifies df
    ensures df.Valid() && df.columns == old(df.columns)
    ensures old(df.Empty()) ==> r == Ok(df) && df.rows == old(df.rows)
    ensures !old(df.Empty()) ==> df.rows == CoerceColumns(old(df.rows), NumericColumns, parse)
    ensures r.KeyError? ==> Clean(old(df.columns), old(df.rows), parse, fetchedAt) == KeyError(r.columns)
    ensures r.Ok? ==> r.value.Valid() && Clean(old(df.columns), old(df.rows), parse, fetchedAt) == Ok(r.value.rows)
    ensures r.Ok? && !old(df.Empty()) ==> fresh(r.value) && r.value.columns == old(df.columns) + DerivedColumns
  {
    if df.Empty() {
      return Ok(df);
    }
    ghost var spec := Clean(df.columns, df.rows, parse, fetchedAt);
    df.ToNumericColumns(NumericColumns, parse);
    var filtered := DropUnusableRows(df);
    if filtered.KeyError? {
      return KeyError(filtered.columns);
    }
    r := AddDerivedColumns(filtered.value, fetchedAt);
  }
}
