/** The eight analyses of `CarCrashAnalysis`, each a pure query over the
    loaded tables (persons, units, charges, damages).

    Every analysis reads its columns through the accessors below. Numeric
    text columns go through `ParseCell` (`CastInt32` where compared with an
    integer literal); a cell that does not parse fails a comparison and makes
    a sum null. Where an analysis method's doc-comment promises
    something other than what its code computes, the code is modelled under
    the analysis's own name and the promised variant gets a second, separately
    named function. */
module CrashAnalysis {
  import opened Cells
  import opened Query
  import opened Grouping
  import opened Ranking

  /** `collect()[0]` on a query that returned no row. */
  datatype AnalysisError = NoFirstRow

  function CrashId(r: Row): Cell {
    Get(r, "CRASH_ID")
  }

  predicate HasCrashId(r: Row) {
    CrashId(r).Some?
  }

  function LicenceState(p: Row): Cell {
    Get(p, "DRVR_LIC_STATE_ID")
  }

  function BodyStyle(u: Row): Cell {
    Get(u, "VEH_BODY_STYL_ID")
  }

  function Make(u: Row): Cell {
    Get(u, "VEH_MAKE_ID")
  }

  function Colour(u: Row): Cell {
    Get(u, "VEH_COLOR_ID")
  }

  /** A filter that counts: how many rows satisfy `p`. */
  function CountWhere<T(!new)>(rel: seq<T>, p: T -> bool): (n: nat)
    ensures n <= |rel|
    ensures n == 0 <==> forall i :: 0 <= i < |rel| ==> !p(rel[i])
  {
    FilterEmptyIff(rel, p);
    |Filter(rel, p)|
  }

  /** An appended row raises a count by one if it matches and leaves it unchanged otherwise. */
  lemma CountWhereAppend<T(!new)>(rel: seq<T>, row: T, p: T -> bool)
    ensures CountWhere(rel + [row], p) == CountWhere(rel, p) + (if p(row) then 1 else 0)
  {
    FilterCountAppend(rel, row, p);
  }

  // ---------------------------------------------------------------------
  // Analysis 1: crashes in which the persons killed are male
  // ---------------------------------------------------------------------

  /** `DEATH_CNT > 0`: the text is cast to the literal's 32-bit integer type,
      so text that is not a number, or a number out of that range, fails. */
  predicate HasDeaths(p: Row) {
    var deaths := CastInt32(Get(p, "DEATH_CNT"));
    deaths.Some? && deaths.value > 0
  }

  /** A death count written in decimal passes `DEATH_CNT > 0` exactly when it
      is positive and fits in 32 bits; a larger count is cast to null. */
  lemma HasDeathsSpelled(p: Row, n: int)
    requires Get(p, "DEATH_CNT") == Some(IntToString(n))
    ensures HasDeaths(p) <==> 0 < n <= Int32Max
  {
    CastInt32RoundTrip(n);
  }

  predicate IsMaleFatality(p: Row) {
    HasDeaths(p) && CellIs(p, "PRSN_GNDR_ID", "MALE")
  }

  function MaleFatalities(persons: seq<Row>): (n: nat)
    ensures n <= |persons|
    ensures n == 0 <==> forall i :: 0 <= i < |persons| ==> !IsMaleFatality(persons[i])
  {
    CountWhere(persons, IsMaleFatality)
  }

  /** Adding a person row changes the count by one exactly when the row is a male fatality. */
  lemma MaleFatalitiesAppend(persons: seq<Row>, row: Row)
    ensures MaleFatalities(persons + [row]) == MaleFatalities(persons) + (if IsMaleFatality(row) then 1 else 0)
  {
    CountWhereAppend(persons, row, IsMaleFatality);
  }

  /** One male row with one death and one with none: the count is 1. */
  lemma MaleFatalitiesExample()
    ensures MaleFatalities([map["DEATH_CNT" := Some("1"), "PRSN_GNDR_ID" := Some("MALE")],
                            map["DEATH_CNT" := Some("0"), "PRSN_GNDR_ID" := Some("MALE")]]) == 1
  {
    var killed: Row := map["DEATH_CNT" := Some("1"), "PRSN_GNDR_ID" := Some("MALE")];
    var survived: Row := map["DEATH_CNT" := Some("0"), "PRSN_GNDR_ID" := Some("MALE")];
    assert DigitsValue("1") == 1 by { assert "1"[..0] == ""; }
    assert DigitsValue("0") == 0 by { assert "0"[..0] == ""; }
    assert IsMaleFatality(killed);
    assert !IsMaleFatality(survived);
    CountWhereAppend([killed], survived, IsMaleFatality);
    CountWhereAppend([], killed, IsMaleFatality);
    assert [] + [killed] == [killed];
    assert [killed] + [survived] == [killed, survived];
  }

  // ---------------------------------------------------------------------
  // Analysis 2: two-wheelers booked for crashes
  // ---------------------------------------------------------------------

  const TwoWheelerStyles: set<string> := {"MOTORCYCLE", "POLICE MOTORCYCLE"}

  predicate IsTwoWheeler(u: Row) {
    CellIn(u, "VEH_BODY_STYL_ID", TwoWheelerStyles)
  }

  function TwoWheelers(units: seq<Row>): (n: nat)
    ensures n <= |units|
    ensures n == 0 <==> forall i :: 0 <= i < |units| ==> !IsTwoWheeler(units[i])
  {
    CountWhere(units, IsTwoWheeler)
  }

  lemma TwoWheelersAppend(units: seq<Row>, row: Row)
    ensures TwoWheelers(units + [row]) == TwoWheelers(units) + (if IsTwoWheeler(row) then 1 else 0)
  {
    CountWhereAppend(units, row, IsTwoWheeler);
  }

  /** Body styles MOTORCYCLE, SEDAN and POLICE MOTORCYCLE: the count is 2. */
  lemma TwoWheelersExample()
    ensures TwoWheelers([map["VEH_BODY_STYL_ID" := Some("MOTORCYCLE")],
                         map["VEH_BODY_STYL_ID" := Some("SEDAN")],
                         map["VEH_BODY_STYL_ID" := Some("POLICE MOTORCYCLE")]]) == 2
  {
    var a: Row := map["VEH_BODY_STYL_ID" := Some("MOTORCYCLE")];
    var b: Row := map["VEH_BODY_STYL_ID" := Some("SEDAN")];
    var c: Row := map["VEH_BODY_STYL_ID" := Some("POLICE MOTORCYCLE")];
    assert !IsTwoWheeler(b);
    CountWhereAppend([], a, IsTwoWheeler);
    CountWhereAppend([a], b, IsTwoWheeler);
    CountWhereAppend([a, b], c, IsTwoWheeler);
    assert [] + [a] == [a];
    assert [a] + [b] == [a, b];
    assert [a, b] + [c] == [a, b, c];
  }

  // ---------------------------------------------------------------------
  // Analysis 3: state with the most accidents involving females
  // ---------------------------------------------------------------------

  predicate IsFemale(p: Row) {
    CellIs(p, "PRSN_GNDR_ID", "FEMALE")
  }

  /** `count("CRASH_ID")` of a state's group among the female rows: female
      rows of that licence state with a non-null crash id. Rows, not crashes. */
  function FemaleRowCount(persons: seq<Row>, state: Cell): nat {
    KeyCount(Filter(persons, IsFemale), LicenceState, HasCrashId, state)
  }

  /** Female rows grouped by licence state, ranked by `count("CRASH_ID")`;
      the first state, or an error when there is no female row at all. */
  function StateWithMostFemaleRows(persons: seq<Row>): (r: Result<Cell, AnalysisError>)
    ensures r.Failure? <==> forall i :: 0 <= i < |persons| ==> !IsFemale(persons[i])
    ensures r.Success? ==>
      exists i :: 0 <= i < |persons| && IsFemale(persons[i]) && LicenceState(persons[i]) == r.value
    ensures r.Success? ==> forall s :: FemaleRowCount(persons, s) <= FemaleRowCount(persons, r.value)
  {
    var female := Filter(persons, IsFemale);
    var top := TopKeys(GroupCount(female, LicenceState, HasCrashId), 1);
    TopKeyOfRelation(female, LicenceState, HasCrashId);
    FilterEmptyIff(persons, IsFemale);
    if |top| == 0 then Failure(NoFirstRow)
    else
      OccursInFilter(persons, IsFemale, LicenceState, top[0]);
      Success(top[0])
  }

  /** A female row's licence state and crash id. */
  function StateCrash(p: Row): (Cell, Cell) {
    (LicenceState(p), CrashId(p))
  }

  function PairState(sc: (Cell, Cell)): Cell {
    sc.0
  }

  predicate PairHasCrash(sc: (Cell, Cell)) {
    sc.1.Some?
  }

  /** The distinct (licence state, crash id) pairs of the female rows. */
  function FemaleStateCrashes(persons: seq<Row>): seq<(Cell, Cell)> {
    Distinct(Select(Filter(persons, IsFemale), StateCrash))
  }

  /** `countDistinct("CRASH_ID")` of a state's group among the female rows. */
  function FemaleCrashCount(persons: seq<Row>, state: Cell): nat {
    KeyCount(FemaleStateCrashes(persons), PairState, PairHasCrash, state)
  }

  /** A (state, crash) pair is listed exactly when some female row carries it. */
  lemma FemaleStateCrashesMembers(persons: seq<Row>, sc: (Cell, Cell))
    ensures sc in FemaleStateCrashes(persons) <==>
      exists p :: p in persons && IsFemale(p) && StateCrash(p) == sc
  {
    SelectMembership(Filter(persons, IsFemale), StateCrash, sc);
  }

  /** There are no pairs exactly when there is no female row. */
  lemma FemaleStateCrashesEmpty(persons: seq<Row>)
    ensures |FemaleStateCrashes(persons)| == 0 <==> forall i :: 0 <= i < |persons| ==> !IsFemale(persons[i])
  {
    var female := Filter(persons, IsFemale);
    FilterEmptyIff(persons, IsFemale);
    var pairs := Select(female, StateCrash);
    assert |pairs| > 0 ==> pairs[0] in FemaleStateCrashes(persons);
  }

  /** A state is the key of some pair exactly when some female row has that licence state. */
  lemma FemaleStatesOccur(persons: seq<Row>, state: Cell)
    ensures OccursAsKey(FemaleStateCrashes(persons), PairState, state) <==>
      exists i :: 0 <= i < |persons| && IsFemale(persons[i]) && LicenceState(persons[i]) == state
  {
    var pairs := FemaleStateCrashes(persons);
    if OccursAsKey(pairs, PairState, state) {
      var j :| 0 <= j < |pairs| && PairState(pairs[j]) == state;
      FemaleStateCrashesMembers(persons, pairs[j]);
      var p :| p in persons && IsFemale(p) && StateCrash(p) == pairs[j];
      var i :| 0 <= i < |persons| && persons[i] == p;
    }
    if exists i :: 0 <= i < |persons| && IsFemale(persons[i]) && LicenceState(persons[i]) == state {
      var i :| 0 <= i < |persons| && IsFemale(persons[i]) && LicenceState(persons[i]) == state;
      FemaleStateCrashesMembers(persons, StateCrash(persons[i]));
      var j :| 0 <= j < |pairs| && pairs[j] == StateCrash(persons[i]);
      assert PairState(pairs[j]) == state;
    }
  }

  function PairCrash(sc: (Cell, Cell)): Cell {
    sc.1
  }

  /** Distinct pairs that share their state have distinct crash ids. */
  lemma CrashesOfOneStateDistinct(f: seq<(Cell, Cell)>, state: Cell)
    requires NoDuplicates(f)
    requires forall x :: x in f ==> x.0 == state
    ensures NoDuplicates(Select(f, PairCrash))
  {
    var ids := Select(f, PairCrash);
    forall i, j | 0 <= i < j < |ids|
      ensures ids[i] != ids[j]
    {
      assert f[i] in f && f[j] in f;
      assert f[i] != f[j];
    }
  }

  /** The crash ids counted for a state among the pairs. */
  function StateCrashIdList(persons: seq<Row>, state: Cell): seq<Cell> {
    Select(Filter(FemaleStateCrashes(persons), Tallied(PairState, state, PairHasCrash)), PairCrash)
  }

  /** A female row's crash id is counted for its state. */
  lemma CrashIdListed(persons: seq<Row>, state: Cell, p: Row)
    requires p in persons && IsFemale(p) && HasCrashId(p) && LicenceState(p) == state
    ensures CrashId(p) in StateCrashIdList(persons, state)
  {
    var f := Filter(FemaleStateCrashes(persons), Tallied(PairState, state, PairHasCrash));
    FemaleStateCrashesMembers(persons, StateCrash(p));
    assert PairState(StateCrash(p)) == state && PairHasCrash(StateCrash(p));
    assert Tallied(PairState, state, PairHasCrash)(StateCrash(p));
    assert StateCrash(p) in f;
    SelectMembership(f, PairCrash, CrashId(p));
  }

  /** Every crash id counted for a state is that of one of its female rows. */
  lemma ListedCrashIdHasRow(persons: seq<Row>, state: Cell, c: Cell)
    requires c in StateCrashIdList(persons, state)
    ensures exists p :: p in persons && IsFemale(p) && HasCrashId(p) && LicenceState(p) == state && CrashId(p) == c
  {
    var f := Filter(FemaleStateCrashes(persons), Tallied(PairState, state, PairHasCrash));
    SelectMembership(f, PairCrash, c);
    var sc :| sc in f && PairCrash(sc) == c;
    FemaleStateCrashesMembers(persons, sc);
    var p :| p in persons && IsFemale(p) && StateCrash(p) == sc;
    assert Tallied(PairState, state, PairHasCrash)(sc);
    assert PairState(sc) == state && PairHasCrash(sc);
    assert HasCrashId(p) && LicenceState(p) == state && CrashId(p) == c;
  }

  /** The per-state count of the distinct variant is the number of distinct
      non-null crash ids among that state's female rows. */
  lemma FemaleCrashCountIsDistinct(persons: seq<Row>, state: Cell)
    ensures FemaleCrashCount(persons, state)
         == |set p | p in persons && IsFemale(p) && HasCrashId(p) && LicenceState(p) == state :: CrashId(p)|
  {
    var pairs := FemaleStateCrashes(persons);
    var f := Filter(pairs, Tallied(PairState, state, PairHasCrash));
    FilterKeepsNoDuplicates(pairs, Tallied(PairState, state, PairHasCrash));
    CrashesOfOneStateDistinct(f, state);
    var ids := Select(f, PairCrash);
    NoDuplicatesCardinality(ids);
    var target := set p | p in persons && IsFemale(p) && HasCrashId(p) && LicenceState(p) == state :: CrashId(p);
    forall c
      ensures c in ids <==> c in target
    {
      if c in ids {
        ListedCrashIdHasRow(persons, state, c);
      }
      if c in target {
        var p :| p in persons && IsFemale(p) && HasCrashId(p) && LicenceState(p) == state && CrashId(p) == c;
        CrashIdListed(persons, state, p);
      }
    }
    assert (set c | c in ids) == target;
  }

  /** The state of the doc-comment's intent: ranked by distinct crashes, and
      no state at all (rather than an error) when there is no female row. */
  function StateWithMostFemaleCrashes(persons: seq<Row>): (r: Option<Cell>)
    ensures r.None? <==> forall i :: 0 <= i < |persons| ==> !IsFemale(persons[i])
    ensures r.Some? ==>
      exists i :: 0 <= i < |persons| && IsFemale(persons[i]) && LicenceState(persons[i]) == r.value
    ensures r.Some? ==> forall s :: FemaleCrashCount(persons, s) <= FemaleCrashCount(persons, r.value)
  {
    var pairs := FemaleStateCrashes(persons);
    var top := TopKeys(GroupCount(pairs, PairState, PairHasCrash), 1);
    TopKeyOfRelation(pairs, PairState, PairHasCrash);
    FemaleStateCrashesEmpty(persons);
    if |top| == 0 then None
    else
      FemaleStatesOccur(persons, top[0]);
      Some(top[0])
  }

  // ---------------------------------------------------------------------
  // Analysis 4: 5th to 15th makes by injuries including deaths
  // ---------------------------------------------------------------------

  /** `TOT_INJRY_CNT + DEATH_CNT`: null unless both columns parse. */
  function Severity(u: Row): (s: Option<int>)
    ensures s.Some? <==> ParseCell(Get(u, "TOT_INJRY_CNT")).Some? && ParseCell(Get(u, "DEATH_CNT")).Some?
  {
    var injuries := ParseCell(Get(u, "TOT_INJRY_CNT"));
    var deaths := ParseCell(Get(u, "DEATH_CNT"));
    if injuries.Some? && deaths.Some? then Some(injuries.value + deaths.value) else None
  }

  /** Two counts written in decimal give their sum. */
  lemma SeveritySpelled(u: Row, injuries: int, deaths: int)
    requires Get(u, "TOT_INJRY_CNT") == Some(IntToString(injuries))
    requires Get(u, "DEATH_CNT") == Some(IntToString(deaths))
    ensures Severity(u) == Some(injuries + deaths)
  {
    ParseIntRoundTrip(injuries);
    ParseIntRoundTrip(deaths);
  }

  /** `orderBy("count", ascending=False).limit(15)`: fifteen units (or all of
      them), none of the units left out more severe than any unit kept. */
  function Top15ByInjury(units: seq<Row>): (top: seq<Row>)
    ensures |top| == Min(15, |units|)
    ensures multiset(top) <= multiset(units)
    ensures forall x, y :: x in multiset(units) - multiset(top) && y in top ==>
                             AtLeast(Severity(y), Severity(x))
  {
    var sorted := SortDesc(units, Severity);
    LimitKeepsHighest(units, sorted, Severity, 15);
    Take(sorted, 15)
  }

  /** The window `row_number()` over the fifteen, filtered to numbers 5 to 15:
      all but the four most severe of the fifteen, in non-increasing severity. */
  function InjuryRanked5To15(units: seq<Row>): (r: seq<Row>)
    ensures |r| == Max(0, Min(15, |units|) - 4)
    ensures SortedDesc(r, Severity)
    ensures multiset(r) <= multiset(Top15ByInjury(units))
    ensures forall x, y :: x in multiset(Top15ByInjury(units)) - multiset(r) && y in r ==>
                             AtLeast(Severity(x), Severity(y))
  {
    var top := Top15ByInjury(units);
    var windowed := SortDesc(top, Severity);
    RowsBetweenSlice(windowed, 5, 15);
    DropHighest(top, windowed, Severity, 4);
    assert |windowed| == |top| by {
      assert |multiset(windowed)| == |multiset(top)|;
    }
    assert RowsBetween(windowed, 5, 15) == windowed[Min(4, |windowed|)..];
    RowsBetween(windowed, 5, 15)
  }

  /** `.select("VEH_MAKE_ID")` of the ranked units: at most eleven makes, the
      i-th make belonging to the i-th ranked unit. */
  function TopInjuryMakes(units: seq<Row>): (makes: seq<Cell>)
    ensures |makes| <= 11
    ensures |makes| == |InjuryRanked5To15(units)|
    ensures forall i :: 0 <= i < |makes| ==> makes[i] == Make(InjuryRanked5To15(units)[i])
  {
    Select(InjuryRanked5To15(units), Make)
  }

  // ---------------------------------------------------------------------
  // Analysis 5: ethnic user groups of each body style
  // ---------------------------------------------------------------------

  function Ethnicity(p: Row): Cell {
    Get(p, "PRSN_ETHNICITY_ID")
  }

  /** The join `units.CRASH_ID == persons.CRASH_ID`: (unit, person) pairs. */
  function UnitsWithPersons(units: seq<Row>, persons: seq<Row>): seq<(Row, Row)> {
    Join(units, persons, CrashId, CrashId)
  }

  function StyleEthnicity(up: (Row, Row)): (Cell, Cell) {
    (BodyStyle(up.0), Ethnicity(up.1))
  }

  predicate HasEthnicity(up: (Row, Row)) {
    Ethnicity(up.1).Some?
  }

  /** `groupBy("VEH_BODY_STYL_ID", "PRSN_ETHNICITY_ID").agg(count("PRSN_ETHNICITY_ID"))`:
      exactly one triple per (style, ethnicity) pair occurring in the join,
      counting that pair's joined rows whose ethnicity is non-null. */
  function EthnicityTriples(units: seq<Row>, persons: seq<Row>): (gs: seq<Group<(Cell, Cell)>>)
    ensures DistinctKeys(gs)
    ensures forall k :: k in KeysOf(gs) <==>
      exists u, p :: u in units && p in persons && KeysMatch(CrashId(u), CrashId(p))
                  && (BodyStyle(u), Ethnicity(p)) == k
    ensures forall g :: g in gs ==>
      g.count == KeyCount(UnitsWithPersons(units, persons), StyleEthnicity, HasEthnicity, g.key)
  {
    forall k {
      StyleEthnicityOccurs(units, persons, k);
    }
    GroupCount(UnitsWithPersons(units, persons), StyleEthnicity, HasEthnicity)
  }

  /** A (style, ethnicity) pair occurs in the join exactly when some unit and
      some person of the same crash carry it. */
  lemma StyleEthnicityOccurs(units: seq<Row>, persons: seq<Row>, k: (Cell, Cell))
    ensures OccursAsKey(UnitsWithPersons(units, persons), StyleEthnicity, k) <==>
      exists u, p :: u in units && p in persons && KeysMatch(CrashId(u), CrashId(p))
                  && (BodyStyle(u), Ethnicity(p)) == k
  {
    var joined := UnitsWithPersons(units, persons);
    if OccursAsKey(joined, StyleEthnicity, k) {
      var i :| 0 <= i < |joined| && StyleEthnicity(joined[i]) == k;
      assert joined[i] in joined;
    }
    if exists u, p :: u in units && p in persons && KeysMatch(CrashId(u), CrashId(p))
                   && (BodyStyle(u), Ethnicity(p)) == k {
      var u, p :| u in units && p in persons && KeysMatch(CrashId(u), CrashId(p))
                && (BodyStyle(u), Ethnicity(p)) == k;
      assert (u, p) in joined;
      var i :| 0 <= i < |joined| && joined[i] == (u, p);
    }
  }

  function StyleOf(g: Group<(Cell, Cell)>): Cell {
    g.key.0
  }

  function OfStyle(style: Cell): Group<(Cell, Cell)> -> bool {
    (g: Group<(Cell, Cell)>) => g.key.0 == style
  }

  /** The group with the largest count, the first one on ties. */
  function Best<K>(gs: seq<Group<K>>): (b: Group<K>)
    requires |gs| > 0
    ensures b in gs
    ensures forall g :: g in gs ==> g.count <= b.count
  {
    if |gs| == 1 then gs[0]
    else
      var rest := Best(gs[1..]);
      assert forall g :: g in gs ==> g == gs[0] || g in gs[1..];
      if gs[0].count >= rest.count then gs[0] else rest
  }

  /** The largest triple of a style occurring among the triples. */
  function WinnerOf(style: Cell, triples: seq<Group<(Cell, Cell)>>): (w: Group<(Cell, Cell)>)
    requires style in Select(triples, StyleOf)
    ensures w in triples && w.key.0 == style
    ensures forall g :: g in triples && g.key.0 == style ==> g.count <= w.count
  {
    SelectMembership(triples, StyleOf, style);
    var g :| g in triples && StyleOf(g) == style;
    var candidates := Filter(triples, OfStyle(style));
    assert g in candidates;
    Best(candidates)
  }

  /** For each listed style, its largest triple. */
  function WinnersFor(styles: seq<Cell>, triples: seq<Group<(Cell, Cell)>>): (w: seq<Group<(Cell, Cell)>>)
    requires forall i :: 0 <= i < |styles| ==> styles[i] in Select(triples, StyleOf)
    ensures |w| == |styles|
    ensures forall i :: 0 <= i < |w| ==> w[i] == WinnerOf(styles[i], triples)
  {
    seq(|styles|, i requires 0 <= i < |styles| => WinnerOf(styles[i], triples))
  }

  /** The reduction the doc-comment promises: one (style, ethnicity, count)
      per body style in the join, holding that style's largest count. */
  function TopEthnicityPerStyle(units: seq<Row>, persons: seq<Row>): (w: seq<Group<(Cell, Cell)>>)
    ensures NoDuplicates(Select(w, StyleOf))
    ensures forall s :: s in Select(w, StyleOf) <==> s in Select(EthnicityTriples(units, persons), StyleOf)
    ensures forall g :: g in w ==> g in EthnicityTriples(units, persons)
    ensures forall g, h :: g in w && h in EthnicityTriples(units, persons) && h.key.0 == g.key.0 ==>
                             h.count <= g.count
  {
    var triples := EthnicityTriples(units, persons);
    var styles := Distinct(Select(triples, StyleOf));
    var w := WinnersFor(styles, triples);
    assert Select(w, StyleOf) == styles;
    w
  }

  // ---------------------------------------------------------------------
  // Analysis 6: top five zip codes of alcohol-positive passenger-car crashes
  // ---------------------------------------------------------------------

  const PassengerCars: set<string> := {"PASSENGER CAR, 4-DOOR", "PASSENGER CAR, 2-DOOR"}

  /** The `where` clause over a (person, unit) pair. */
  predicate IsAlcoholPassengerCar(pu: (Row, Row)) {
    CellIn(pu.1, "VEH_BODY_STYL_ID", PassengerCars) && CellIs(pu.0, "PRSN_ALC_RSLT_ID", "Positive")
  }

  /** `persons.join(units, "CRASH_ID", "inner").where(...)`. */
  function AlcoholCrashRows(persons: seq<Row>, units: seq<Row>): (rows: seq<(Row, Row)>)
    ensures forall x :: x in rows <==>
      x.0 in persons && x.1 in units && KeysMatch(CrashId(x.0), CrashId(x.1)) && IsAlcoholPassengerCar(x)
  {
    Filter(Join(persons, units, CrashId, CrashId), IsAlcoholPassengerCar)
  }

  function DriverZip(pu: (Row, Row)): Cell {
    Get(pu.0, "DRVR_ZIP")
  }

  /** `count("CRASH_ID")` on the joined key, which an inner join never leaves null. */
  predicate JoinedHasCrashId(pu: (Row, Row)) {
    CrashId(pu.0).Some?
  }

  /** `.groupBy("DRVR_ZIP").agg(count("CRASH_ID")).orderBy(desc).select("DRVR_ZIP").limit(5)`:
      the five zip codes with most qualifying joined rows. */
  function TopAlcoholZips(persons: seq<Row>, units: seq<Row>): (zips: seq<Cell>)
    ensures IsTopRanking(zips, AlcoholCrashRows(persons, units), DriverZip, JoinedHasCrashId, AnyKey(), 5)
  {
    var rows := AlcoholCrashRows(persons, units);
    TopKeysOfRelation(rows, DriverZip, JoinedHasCrashId, 5);
    TopKeys(GroupCount(rows, DriverZip, JoinedHasCrashId), 5)
  }

  // ---------------------------------------------------------------------
  // Analysis 7: distinct crash ids with high damage, no damaged property, insured
  // ---------------------------------------------------------------------

  const HighDamageLevels: set<string> := {"DAMAGED 4", "DAMAGED 5", "DAMAGED 6", "DAMAGE 7 HIGHEST"}

  /** Both damage scales high and a financial responsibility other than "NA". */
  predicate IsHighDamageInsured(u: Row) {
    && CellIn(u, "VEH_DMAG_SCL_1_ID", HighDamageLevels)
    && CellIn(u, "VEH_DMAG_SCL_2_ID", HighDamageLevels)
    && CellIsNot(u, "FIN_RESP_TYPE_ID", "NA")
  }

  /** The damage side of the left join is absent: the unit's crash has no
      damage record. This is the test `count_distinct_crash_ids_with_damages`
      means by its `isNull` check on the damage table's crash id. */
  predicate DamageAbsent(ud: (Row, Option<Row>)) {
    ud.1.None?
  }

  predicate QualifiesWithoutDamage(ud: (Row, Option<Row>)) {
    DamageAbsent(ud) && IsHighDamageInsured(ud.0)
  }

  function JoinedUnitCrashId(ud: (Row, Option<Row>)): Cell {
    CrashId(ud.0)
  }

  /** `units.join(damages, "CRASH_ID", "left").filter(...).select("CRASH_ID").distinct()`:
      each qualifying crash id once. */
  function HighDamageCrashIds(units: seq<Row>, damages: seq<Row>): (ids: seq<Cell>)
    ensures NoDuplicates(ids)
    ensures forall c :: c in ids <==>
      exists u :: u in units && CrashId(u) == c && IsHighDamageInsured(u) && NoMatch(u, damages, CrashId, CrashId)
  {
    var joined := LeftJoin(units, damages, CrashId, CrashId);
    var kept := Filter(joined, QualifiesWithoutDamage);
    var all := Select(kept, JoinedUnitCrashId);
    forall c
      ensures c in all <==>
        exists u :: u in units && CrashId(u) == c && IsHighDamageInsured(u) && NoMatch(u, damages, CrashId, CrashId)
    {
      SelectMembership(kept, JoinedUnitCrashId, c);
      if exists u :: u in units && CrashId(u) == c && IsHighDamageInsured(u) && NoMatch(u, damages, CrashId, CrashId) {
        var u :| u in units && CrashId(u) == c && IsHighDamageInsured(u) && NoMatch(u, damages, CrashId, CrashId);
        assert (u, None) in kept;
      }
    }
    Distinct(all)
  }

  /** The count the doc-comment asks for: the number of distinct qualifying crash ids. */
  function DistinctHighDamageCount(units: seq<Row>, damages: seq<Row>): (n: nat)
    ensures n == |set u | u in units && IsHighDamageInsured(u) && NoMatch(u, damages, CrashId, CrashId) :: CrashId(u)|
  {
    var ids := HighDamageCrashIds(units, damages);
    NoDuplicatesCardinality(ids);
    assert (set c | c in ids)
        == set u | u in units && IsHighDamageInsured(u) && NoMatch(u, damages, CrashId, CrashId) :: CrashId(u);
    |ids|
  }

  // ---------------------------------------------------------------------
  // Analysis 8: top five makes for speeding offences by licensed drivers
  // ---------------------------------------------------------------------

  const InvalidLicences: set<string> := {"NA", "UNLICENSED", "UNKNOWN"}

  const InvalidStates: set<string> := {"NA", "Unknown"}

  /** The ten most frequent unit colours (`count("CRASH_ID")` per colour). */
  function TopColours(units: seq<Row>): (colours: seq<Cell>)
    ensures IsTopRanking(colours, units, Colour, HasCrashId, AnyKey(), 10)
  {
    TopKeysOfRelation(units, Colour, HasCrashId, 10);
    TopKeys(GroupCount(units, Colour, HasCrashId), 10)
  }

  /** `~col.isin(["NA", "Unknown"])`: a null state is dropped too. */
  predicate IsValidState(s: Cell) {
    s.Some? && s.value !in InvalidStates
  }

  /** The 25 licence states with most person rows, the invalid markers
      filtered out after the ranking and before the limit. */
  function TopStates(persons: seq<Row>): (states: seq<Cell>)
    ensures IsTopRanking(states, persons, LicenceState, HasCrashId, IsValidState, 25)
  {
    TopKeysWhereOfRelation(persons, LicenceState, HasCrashId, IsValidState, 25);
    TopKeysWhere(GroupCount(persons, LicenceState, HasCrashId), IsValidState, 25)
  }

  /** A row of `units ⋈ charges ⋈ persons`: ((unit, charge), person). */
  type Offence = ((Row, Row), Row)

  function UnitChargeCrashId(uc: (Row, Row)): Cell {
    CrashId(uc.0)
  }

  predicate IsCountedOffence(x: Offence, colours: seq<Cell>, states: seq<Cell>) {
    && CellContains(x.0.1, "CHARGES", "SPEED")
    && CellNotIn(x.1, "DRVR_LIC_CLS_ID", InvalidLicences)
    && CellInList(LicenceState(x.1), states)
    && CellInList(Colour(x.0.0), colours)
  }

  function CountedAgainst(colours: seq<Cell>, states: seq<Cell>): Offence -> bool {
    (x: Offence) => IsCountedOffence(x, colours, states)
  }

  /** The joined and filtered offences the final group-count runs over. */
  function SpeedingOffences(units: seq<Row>, charges: seq<Row>, persons: seq<Row>): (rows: seq<Offence>)
    ensures forall x :: x in rows <==>
      && x.0.0 in units && x.0.1 in charges && x.1 in persons
      && KeysMatch(CrashId(x.0.0), CrashId(x.0.1))
      && KeysMatch(CrashId(x.0.0), CrashId(x.1))
      && IsCountedOffence(x, TopColours(units), TopStates(persons))
  {
    var joined := Join(Join(units, charges, CrashId, CrashId), persons, UnitChargeCrashId, CrashId);
    Filter(joined, CountedAgainst(TopColours(units), TopStates(persons)))
  }

  function OffenceMake(x: Offence): Cell {
    Make(x.0.0)
  }

  predicate OffenceHasCrashId(x: Offence) {
    CrashId(x.0.0).Some?
  }

  /** `.groupBy(VEH_MAKE_ID).agg(count("CRASH_ID")).orderBy(desc).select("VEH_MAKE_ID").limit(5)`:
      the five makes with most counted offences, none without a charge. */
  function TopSpeedingMakes(units: seq<Row>, charges: seq<Row>, persons: seq<Row>): (makes: seq<Cell>)
    ensures IsTopRanking(makes, SpeedingOffences(units, charges, persons), OffenceMake, OffenceHasCrashId, AnyKey(), 5)
    ensures |charges| == 0 ==> makes == []
  {
    var rows := SpeedingOffences(units, charges, persons);
    TopKeysOfRelation(rows, OffenceMake, OffenceHasCrashId, 5);
    var makes := TopKeys(GroupCount(rows, OffenceMake, OffenceHasCrashId), 5);
    assert |makes| > 0 ==> OccursAsKey(rows, OffenceMake, makes[0]);
    assert |rows| > 0 ==> rows[0] in rows;
    makes
  }
}
