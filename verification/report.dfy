/** The run of all eight analyses in order, each appending one fragment to
    the report. The label text of each fragment is not modelled: a fragment
    is the analysis number and its answer. A run that fails leaves no report,
    since the output is only written after the last analysis. */
module Report {
  import opened Cells
  import opened Grouping
  import opened CrashAnalysis

  /** The loaded tables the analyses read. */
  datatype Tables = Tables(charges: seq<Row>, damages: seq<Row>, persons: seq<Row>, units: seq<Row>)

  /** The value an analysis formats into its line of the report. */
  datatype Answer =
    | Count(n: nat)
    | State(state: Cell)
    | Values(values: seq<Cell>)
    | Triples(groups: seq<Group<(Cell, Cell)>>)

  datatype Fragment = Fragment(question: nat, answer: Answer)

  /** The report is in analysis order: its i-th fragment answers analysis i + 1. */
  predicate InAnalysisOrder(report: seq<Fragment>) {
    forall i :: 0 <= i < |report| ==> report[i].question == i + 1
  }

  /** Analysis `question` appended to a report holding the analyses before it. */
  function Append(report: seq<Fragment>, question: nat, answer: Answer): (r: seq<Fragment>)
    requires InAnalysisOrder(report) && |report| + 1 == question
    ensures InAnalysisOrder(r)
    ensures |r| == question
    ensures r[..|report|] == report && r[|report|] == Fragment(question, answer)
  {
    report + [Fragment(question, answer)]
  }

  /** `execute_analysis`: the eight answers in order, or the error of the
      third analysis, the only one that fails in this model; analysis 7 is
      taken with its intended absent-damage test. */
  method ExecuteAnalysis(t: Tables) returns (r: Result<seq<Fragment>, AnalysisError>)
    ensures r.Failure? <==> forall i :: 0 <= i < |t.persons| ==> !IsFemale(t.persons[i])
    ensures r.Success? ==> |r.value| == 8 && InAnalysisOrder(r.value)
    ensures r.Success? ==> r.value[0].answer == Count(MaleFatalities(t.persons))
    ensures r.Success? ==> r.value[1].answer == Count(TwoWheelers(t.units))
    ensures r.Success? ==> r.value[2].answer == State(StateWithMostFemaleRows(t.persons).value)
    ensures r.Success? ==> r.value[3].answer == Values(TopInjuryMakes(t.units))
    ensures r.Success? ==> r.value[4].answer == Triples(EthnicityTriples(t.units, t.persons))
    ensures r.Success? ==> r.value[5].answer == Values(TopAlcoholZips(t.persons, t.units))
    ensures r.Success? ==> r.value[6].answer == Values(HighDamageCrashIds(t.units, t.damages))
    ensures r.Success? ==> r.value[7].answer == Values(TopSpeedingMakes(t.units, t.charges, t.persons))
  {
    var report: seq<Fragment> := [];
    report := Append(report, 1, Count(MaleFatalities(t.persons)));
    report := Append(report, 2, Count(TwoWheelers(t.units)));
    var state := StateWithMostFemaleRows(t.persons);
    if state.Failure? {
      return Failure(state.error);
    }
    report := Append(report, 3, State(state.value));
    report := Append(report, 4, Values(TopInjuryMakes(t.units)));
    report := Append(report, 5, Triples(EthnicityTriples(t.units, t.persons)));
    report := Append(report, 6, Values(TopAlcoholZips(t.persons, t.units)));
    report := Append(report, 7, Values(HighDamageCrashIds(t.units, t.damages)));
    report := Append(report, 8, Values(TopSpeedingMakes(t.units, t.charges, t.persons)));
    return Success(report);
  }
}
