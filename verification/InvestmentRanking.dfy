/** The objective optimizer: which investments are scored, what a score means and how the ranking is ordered,
    tools/intelligence_verify.py. Numbers are exact; rounding is a parameter. */
module InvestmentRanking {
  import opened Values
  import opened Ordering
  import opened PythonValues

  type Investment = map<string, Json>

  /** `evidenceApproved` stands for the three evidence references and the declaration of complete dependencies. */
  datatype Optimizer = Optimizer(fields: set<string>, weights: map<string, Json>, budget: Json, evidenceApproved: bool)

  const OPTIMIZER_FIELDS := {"specification_id", "version", "status", "objective_evidence_id", "capacity_evidence_id",
    "dependency_evidence_id", "capacity_budget", "dependency_declarations_complete", "weights", "investments",
    "authority"}

  const WEIGHTS := {"expected_value", "confidence", "risk_inverse", "capacity_fit", "constraint_fit"}

  const FIELDS := {"investment_id", "expected_value", "confidence", "risk", "required_capacity",
    "available_capacity", "constraint_fit", "dependencies", "affected_systems", "status"}

  function Number(j: Json): real {
    if j.JNumber? then j.n else 0.0
  }

  function Weight(o: Optimizer, name: string): real {
    if name in o.weights then Number(o.weights[name]) else 0.0
  }

  function TotalWeight(o: Optimizer): real {
    Weight(o, "expected_value") + Weight(o, "confidence") + Weight(o, "risk_inverse")
    + Weight(o, "capacity_fit") + Weight(o, "constraint_fit")
  }

  function Abs(x: real): real {
    if x < 0.0 then -x else x
  }

  const TOLERANCE: real := 0.000000000001

  /** The `objective-optimizer` check. */
  predicate OptimizerAccepted(o: Optimizer) {
    && o.fields == OPTIMIZER_FIELDS
    && o.evidenceApproved
    && o.weights.Keys == WEIGHTS
    && (forall name :: name in o.weights ==> o.weights[name].JNumber? && o.weights[name].n >= 0.0)
    && Abs(TotalWeight(o) - 1.0) <= TOLERANCE
    && o.budget.JNumber? && o.budget.n > 0.0
  }

  datatype Verdict = Flagged | Scored(score: real) | Raised

  /** `item.get("investment_id")` as a key; it is hashed for all items before any of them is judged. */
  function Id(item: Investment): Key {
    if KeyOf(Get(item, "investment_id")).Some? then KeyOf(Get(item, "investment_id")).value else NoneKey
  }

  predicate AllHashable(items: seq<Investment>) {
    forall item :: item in items ==> KeyOf(Get(item, "investment_id")).Some?
  }

  function Ids(items: seq<Investment>): set<Key> {
    set i | 0 <= i < |items| :: Id(items[i])
  }

  /** The measured quantities, each a number and not negative. */
  predicate Measured(item: Investment) {
    forall name :: name in {"expected_value", "risk", "required_capacity", "available_capacity", "constraint_fit"}
      ==> Get(item, name).JNumber? && Get(item, name).n >= 0.0
  }

  /** The part of the `investment` check before the dependencies are collected. */
  predicate Identified(items: seq<Investment>, item: Investment) {
    item.Keys == FIELDS && |Ids(items)| == |items|
  }

  function Dependencies(item: Investment): Option<set<Key>> {
    SetOf(Get(item, "dependencies"))
  }

  /** The part before the confidence is compared. */
  predicate WellFormed(items: seq<Investment>, item: Investment) {
    && Identified(items, item)
    && Dependencies(item).Some? && Dependencies(item).value <= Ids(items)
    && Measured(item)
    && Quantity(item, "expected_value") <= 100.0
    && Quantity(item, "risk") <= 100.0
    && Quantity(item, "constraint_fit") <= 100.0
  }

  function Quantity(item: Investment, name: string): real {
    Number(Get(item, name))
  }

  function Confidence(item: Investment): Option<real> {
    Numeric(Get(item, "confidence"))
  }

  /** The part after it. */
  predicate Feasible(o: Optimizer, item: Investment) {
    && Numeric(o.budget) == Some(Quantity(item, "available_capacity"))
    && Quantity(item, "required_capacity") <= Quantity(item, "available_capacity")
    && Get(item, "status") == JString("candidate")
  }

  function Score(o: Optimizer, value: real, confidence: real, risk: real, required: real, available: real,
                 fit: real): real
    requires available != 0.0
  {
    Times(UsedWeight(o, "expected_value"), value) / 100.0
    + Times(UsedWeight(o, "confidence"), confidence)
    + Times(UsedWeight(o, "risk_inverse"), 1.0 - risk / 100.0)
    + Times(UsedWeight(o, "capacity_fit"), 1.0 - required / available)
    + Times(UsedWeight(o, "constraint_fit"), fit) / 100.0
  }

  function Times(a: real, b: real): real {
    a * b
  }

  /** In the score, too, a boolean weight would count as 0 or 1. */
  function UsedWeight(o: Optimizer, name: string): real {
    if name in o.weights && Numeric(o.weights[name]).Some? then Numeric(o.weights[name]).value else 0.0
  }

  predicate WeightsUsable(o: Optimizer) {
    forall name :: name in WEIGHTS ==> name in o.weights && Numeric(o.weights[name]).Some?
  }

  /** One round of the loop. It raises on dependencies that do not make a set, a confidence that is not a number, a
      weight that is absent or not a number, and a capacity of zero to divide by. */
  function Judge(o: Optimizer, items: seq<Investment>, item: Investment): Verdict {
    if !Identified(items, item) then Flagged
    else if Dependencies(item) == None then Raised
    else if !WellFormed(items, item) then Flagged
    else if Confidence(item) == None then Raised
    else if !(0.0 <= Confidence(item).value <= 1.0) || !Feasible(o, item) then Flagged
    else if !WeightsUsable(o) || Quantity(item, "available_capacity") == 0.0 then Raised
    else Scored(Score(o, Quantity(item, "expected_value"), Confidence(item).value, Quantity(item, "risk"),
      Quantity(item, "required_capacity"), Quantity(item, "available_capacity"), Quantity(item, "constraint_fit")))
  }

  datatype Entry = Entry(id: Key, score: real, dependencies: Json)

  /** The sort key `(-score, investment_id)`. */
  predicate RanksBefore(a: Entry, b: Entry) {
    a.score > b.score || (a.score == b.score && KeyLe(a.id, b.id))
  }

  /** A sort compares any two neighbours of its result, so it raises as soon as two entries of one score have
      identifiers that cannot be compared: somewhere between them two such identifiers meet. */
  predicate SortRaises(entries: seq<Entry>) {
    exists d, e :: d in entries && e in entries && d.score == e.score && d.id != e.id && !Comparable(d.id, e.id)
  }

  predicate AnyRaised(o: Optimizer, items: seq<Investment>, upTo: seq<Investment>) {
    exists item :: item in upTo && Judge(o, items, item) == Raised
  }

  function EntryOf(o: Optimizer, items: seq<Investment>, round: real -> real, item: Investment): seq<Entry> {
    match Judge(o, items, item)
    case Scored(score) => [Entry(Id(item), round(score), Get(item, "dependencies"))]
    case Flagged => []
    case Raised => []
  }

  /** The scored investments of `upTo`, in its order. */
  function Entries(o: Optimizer, items: seq<Investment>, round: real -> real, upTo: seq<Investment>): seq<Entry> {
    FlatMap(item => EntryOf(o, items, round, item), upTo)
  }

  function FlaggedIds(o: Optimizer, items: seq<Investment>, upTo: seq<Investment>): seq<Key> {
    FlatMap(item => if Judge(o, items, item) == Flagged then [Id(item)] else [], upTo)
  }

  /** The ranking, or `None` when it raises: hashing the identifiers, in the loop, or sorting. */
  function Ranking(o: Optimizer, items: seq<Investment>, round: real -> real): Option<seq<Entry>> {
    if !AllHashable(items) || AnyRaised(o, items, items) || SortRaises(Entries(o, items, round, items)) then None
    else Some(Sort(RanksBefore, Entries(o, items, round, items)))
  }

  /** The same from the document: `None` also when the investments are not a list of dictionaries. */
  function RankingOf(o: Optimizer, investments: Json, round: real -> real): Option<seq<Entry>> {
    match DictionariesOf(investments)
    case None => None
    case Some(items) => Ranking(o, items, round)
  }

  lemma LoopStep(o: Optimizer, items: seq<Investment>, round: real -> real, upTo: seq<Investment>, item: Investment)
    ensures Entries(o, items, round, upTo + [item]) == Entries(o, items, round, upTo) + EntryOf(o, items, round, item)
    ensures FlaggedIds(o, items, upTo + [item])
      == FlaggedIds(o, items, upTo) + if Judge(o, items, item) == Flagged then [Id(item)] else []
    ensures AnyRaised(o, items, upTo + [item]) <==> AnyRaised(o, items, upTo) || Judge(o, items, item) == Raised
  {
    FlatMapAppendOne(i => EntryOf(o, items, round, i), upTo, item);
    FlatMapAppendOne(i => if Judge(o, items, i) == Flagged then [Id(i)] else [], upTo, item);
    if AnyRaised(o, items, upTo) {
      var i :| i in upTo && Judge(o, items, i) == Raised;
      assert i in upTo + [item];
    }
    assert item in upTo + [item];
  }

  /** The loop over the investments, and the sort. */
  method RankInvestments(o: Optimizer, investments: Json, round: real -> real)
    returns (ranking: Option<seq<Entry>>, flagged: seq<Key>)
    ensures ranking == RankingOf(o, investments, round)
    ensures ranking.Some? ==>
      DictionariesOf(investments).Some?
      && flagged == FlaggedIds(o, DictionariesOf(investments).value, DictionariesOf(investments).value)
  {
    if DictionariesOf(investments) == None {
      return None, [];
    }
    var items := DictionariesOf(investments).value;
    if !AllHashable(items) {
      return None, [];
    }
    var entries: seq<Entry> := [];
    flagged := [];
    for k := 0 to |items|
      invariant entries == Entries(o, items, round, items[..k])
      invariant flagged == FlaggedIds(o, items, items[..k])
      invariant !AnyRaised(o, items, items[..k])
    {
      var item := items[k];
      assert items[..k + 1] == items[..k] + [item];
      LoopStep(o, items, round, items[..k], item);
      match Judge(o, items, item)
      case Raised =>
        return None, flagged;
      case Flagged =>
        flagged := flagged + [Id(item)];
      case Scored(score) =>
        entries := entries + [Entry(Id(item), round(score), Get(item, "dependencies"))];
    }
    assert items[..|items|] == items;
    if SortRaises(entries) {
      return None, flagged;
    }
    ranking := Some(Sort(RanksBefore, entries));
  }

  // ----- what a score means

  predicate NumericWeights(o: Optimizer) {
    o.weights.Keys == WEIGHTS && forall name :: name in o.weights ==> o.weights[name].JNumber?
  }

  lemma WeightsAreNumbers(o: Optimizer)
    requires NumericWeights(o)
    ensures WeightsUsable(o)
    ensures forall name :: name in WEIGHTS ==> UsedWeight(o, name) == Weight(o, name)
    ensures OptimizerAccepted(o) ==> forall name :: name in WEIGHTS ==> Weight(o, name) >= 0.0
  {
    assert forall name :: name in WEIGHTS ==> name in o.weights;
  }

  /** Two scored investments that round alike and whose identifiers cannot be compared. */
  ghost predicate Tied(o: Optimizer, items: seq<Investment>, round: real -> real, a: Investment, b: Investment) {
    && a in items && b in items
    && Judge(o, items, a).Scored? && Judge(o, items, b).Scored?
    && round(Judge(o, items, a).score) == round(Judge(o, items, b).score)
    && Id(a) != Id(b) && !Comparable(Id(a), Id(b))
  }

  lemma EntryMembers(o: Optimizer, items: seq<Investment>, round: real -> real, upTo: seq<Investment>, e: Entry)
    ensures e in Entries(o, items, round, upTo) <==> exists item :: item in upTo && e in EntryOf(o, items, round, item)
  {
    FlatMapMembers(item => EntryOf(o, items, round, item), upTo, e);
  }

  lemma EntriesOfTied(o: Optimizer, items: seq<Investment>, round: real -> real, d: Entry, e: Entry)
    requires d in Entries(o, items, round, items) && e in Entries(o, items, round, items)
    requires d.score == e.score && d.id != e.id && !Comparable(d.id, e.id)
    ensures exists a, b :: Tied(o, items, round, a, b)
  {
    EntryMembers(o, items, round, items, d);
    EntryMembers(o, items, round, items, e);
    var a :| a in items && d in EntryOf(o, items, round, a);
    var b :| b in items && e in EntryOf(o, items, round, b);
    assert Tied(o, items, round, a, b);
  }

  lemma TiedEntries(o: Optimizer, items: seq<Investment>, round: real -> real, a: Investment, b: Investment)
    requires Tied(o, items, round, a, b)
    ensures SortRaises(Entries(o, items, round, items))
  {
    var d, e := EntryOf(o, items, round, a)[0], EntryOf(o, items, round, b)[0];
    EntryMembers(o, items, round, items, d);
    EntryMembers(o, items, round, items, e);
    assert d in EntryOf(o, items, round, a) && e in EntryOf(o, items, round, b);
  }

  lemma SortRaisesIff(o: Optimizer, items: seq<Investment>, round: real -> real)
    ensures SortRaises(Entries(o, items, round, items)) <==> exists a, b :: Tied(o, items, round, a, b)
  {
    var entries := Entries(o, items, round, items);
    if SortRaises(entries) {
      var d, e :| d in entries && e in entries && d.score == e.score && d.id != e.id && !Comparable(d.id, e.id);
      EntriesOfTied(o, items, round, d, e);
    }
    if a, b :| Tied(o, items, round, a, b) {
      TiedEntries(o, items, round, a, b);
    }
  }

  lemma LoopRaisesIff(o: Optimizer, items: seq<Investment>)
    requires OptimizerAccepted(o)
    ensures AnyRaised(o, items, items)
      <==> exists item :: item in items && Identified(items, item)
            && (Dependencies(item) == None || (WellFormed(items, item) && Confidence(item) == None))
  {
    WeightsAreNumbers(o);
  }

  /** With an accepted optimizer the ranking raises exactly when the investments are not a list of dictionaries, an
      identifier cannot be hashed, the dependencies of an item that is checked that far do not make a set, the
      confidence of one checked still further is not a number, or two scored ones of the same rounded score cannot be
      told apart by their identifiers. */
  lemma RankingRaisesIff(o: Optimizer, investments: Json, round: real -> real)
    requires OptimizerAccepted(o)
    ensures RankingOf(o, investments, round) == None <==>
      || DictionariesOf(investments) == None
      || var items := DictionariesOf(investments).value;
         || !AllHashable(items)
         || (exists item :: item in items && Identified(items, item)
               && (Dependencies(item) == None || (WellFormed(items, item) && Confidence(item) == None)))
         || (exists a, b :: Tied(o, items, round, a, b))
  {
    if DictionariesOf(investments).Some? {
      LoopRaisesIff(o, DictionariesOf(investments).value);
      SortRaisesIff(o, DictionariesOf(investments).value, round);
    }
  }

  lemma Scaled(w: real, low: real, high: real)
    requires w >= 0.0 && low <= high
    ensures Times(w, low) <= Times(w, high)
  {
  }

  lemma SumUp(a: real, a': real, b: real, b': real, c: real, c': real, d: real, d': real, e: real, e': real)
    requires a <= a' && b <= b' && c <= c' && d <= d' && e <= e'
    ensures a / 100.0 + b + c + d + e / 100.0 <= a' / 100.0 + b' + c' + d' + e' / 100.0
  {
  }

  lemma Ratio(a: real, b: real, available: real)
    requires available > 0.0 && a <= b
    ensures a / available <= b / available
  {
  }

  /** A score moves up with value, confidence and fit, and down with risk and required capacity. */
  lemma ScoreIsMonotone(o: Optimizer, value: real, confidence: real, risk: real, required: real, fit: real,
      value': real, confidence': real, risk': real, required': real, fit': real, available: real)
    requires OptimizerAccepted(o) && available > 0.0
    requires value <= value' && confidence <= confidence' && risk >= risk' && required >= required' && fit <= fit'
    ensures Score(o, value, confidence, risk, required, available, fit)
      <= Score(o, value', confidence', risk', required', available, fit')
  {
    WeightsAreNumbers(o);
    Scaled(UsedWeight(o, "expected_value"), value, value');
    Scaled(UsedWeight(o, "confidence"), confidence, confidence');
    Scaled(UsedWeight(o, "risk_inverse"), 1.0 - risk / 100.0, 1.0 - risk' / 100.0);
    Ratio(required', required, available);
    Scaled(UsedWeight(o, "capacity_fit"), 1.0 - required / available, 1.0 - required' / available);
    Scaled(UsedWeight(o, "constraint_fit"), fit, fit');
    SumUp(
      Times(UsedWeight(o, "expected_value"), value), Times(UsedWeight(o, "expected_value"), value'),
      Times(UsedWeight(o, "confidence"), confidence), Times(UsedWeight(o, "confidence"), confidence'),
      Times(UsedWeight(o, "risk_inverse"), 1.0 - risk / 100.0),
      Times(UsedWeight(o, "risk_inverse"), 1.0 - risk' / 100.0),
      Times(UsedWeight(o, "capacity_fit"), 1.0 - required / available),
      Times(UsedWeight(o, "capacity_fit"), 1.0 - required' / available),
      Times(UsedWeight(o, "constraint_fit"), fit), Times(UsedWeight(o, "constraint_fit"), fit'));
  }

  predicate Dominates(a: Investment, b: Investment) {
    && Quantity(a, "expected_value") >= Quantity(b, "expected_value")
    && (Confidence(a).Some? && Confidence(b).Some? ==> Confidence(a).value >= Confidence(b).value)
    && Quantity(a, "risk") <= Quantity(b, "risk")
    && Quantity(a, "required_capacity") <= Quantity(b, "required_capacity")
    && Quantity(a, "constraint_fit") >= Quantity(b, "constraint_fit")
  }

  /** An investment at least as good in every respect never scores less. */
  lemma DominatingScoresHigher(o: Optimizer, items: seq<Investment>, a: Investment, b: Investment)
    requires OptimizerAccepted(o) && Judge(o, items, a).Scored? && Judge(o, items, b).Scored? && Dominates(a, b)
    ensures Judge(o, items, a).score >= Judge(o, items, b).score
  {
    ScoreIsMonotone(o,
      Quantity(b, "expected_value"), Confidence(b).value, Quantity(b, "risk"), Quantity(b, "required_capacity"),
      Quantity(b, "constraint_fit"),
      Quantity(a, "expected_value"), Confidence(a).value, Quantity(a, "risk"), Quantity(a, "required_capacity"),
      Quantity(a, "constraint_fit"),
      o.budget.n);
  }

  lemma ScoreExtremes(o: Optimizer, available: real)
    requires NumericWeights(o) && available > 0.0
    ensures Score(o, 0.0, 0.0, 100.0, available, available, 0.0) == 0.0
    ensures Score(o, 100.0, 1.0, 0.0, 0.0, available, 100.0) == TotalWeight(o)
  {
    WeightsAreNumbers(o);
    assert available / available == 1.0 && 0.0 / available == 0.0;
  }

  /** Every score of an accepted optimizer lies between zero and the sum of its weights. */
  lemma ScoreIsBounded(o: Optimizer, items: seq<Investment>, item: Investment)
    requires OptimizerAccepted(o) && Judge(o, items, item).Scored?
    ensures 0.0 <= Judge(o, items, item).score <= TotalWeight(o) <= 1.0 + TOLERANCE
  {
    var available := Quantity(item, "available_capacity");
    var v, c, r, q, f := Quantity(item, "expected_value"), Confidence(item).value, Quantity(item, "risk"),
      Quantity(item, "required_capacity"), Quantity(item, "constraint_fit");
    ScoreExtremes(o, available);
    ScoreIsMonotone(o, 0.0, 0.0, 100.0, available, 0.0, v, c, r, q, f, available);
    ScoreIsMonotone(o, v, c, r, q, f, 100.0, 1.0, 0.0, 0.0, 100.0, available);
  }

  /** The optimizer is accepted exactly when it has the listed members and approved evidence, a positive budget, and the
      five weights, none negative, which give an investment without a fault a score of one, to within 1e-12. */
  lemma OptimizerAcceptedIff(o: Optimizer)
    ensures OptimizerAccepted(o) <==>
      && o.fields == {"specification_id", "version", "status", "objective_evidence_id", "capacity_evidence_id",
                      "dependency_evidence_id", "capacity_budget", "dependency_declarations_complete", "weights",
                      "investments", "authority"}
      && o.evidenceApproved
      && o.budget.JNumber? && o.budget.n > 0.0
      && o.weights.Keys == {"expected_value", "confidence", "risk_inverse", "capacity_fit", "constraint_fit"}
      && (forall name :: name in o.weights ==> o.weights[name].JNumber? && o.weights[name].n >= 0.0)
      && 1.0 - 0.000000000001 <= Score(o, 100.0, 1.0, 0.0, 0.0, o.budget.n, 100.0) <= 1.0 + 0.000000000001
  {
    if o.budget.JNumber? && o.budget.n > 0.0 && NumericWeights(o) {
      ScoreExtremes(o, o.budget.n);
    }
  }

  // ----- what each weight does

  lemma Spread(w: real, x: real, y: real)
    ensures Times(w, y) == Times(w, x) + Times(w, y - x)
    ensures Times(w, y) / 100.0 == Times(w, x) / 100.0 + Times(w, y - x) / 100.0
  {
  }

  lemma SpreadRatio(x: real, y: real, available: real)
    requires available > 0.0
    ensures (1.0 - y / available) - (1.0 - x / available) == (x - y) / available
  {
  }

  /** A point of value adds a hundredth of its weight. */
  lemma ValueActs(o: Optimizer, value: real, confidence: real, risk: real, required: real, available: real,
                  fit: real, other: real)
    requires OptimizerAccepted(o) && available > 0.0
    ensures Score(o, other, confidence, risk, required, available, fit) ==
      Score(o, value, confidence, risk, required, available, fit)
      + Times(Weight(o, "expected_value"), other - value) / 100.0
  {
    WeightsAreNumbers(o);
    Spread(Weight(o, "expected_value"), value, other);
  }

  /** Confidence adds its weight's share. */
  lemma ConfidenceActs(o: Optimizer, value: real, confidence: real, risk: real, required: real, available: real,
                       fit: real, other: real)
    requires OptimizerAccepted(o) && available > 0.0
    ensures Score(o, value, other, risk, required, available, fit) ==
      Score(o, value, confidence, risk, required, available, fit)
      + Times(Weight(o, "confidence"), other - confidence)
  {
    WeightsAreNumbers(o);
    Spread(Weight(o, "confidence"), confidence, other);
  }

  /** A point of risk less adds a hundredth of its weight. */
  lemma RiskActs(o: Optimizer, value: real, confidence: real, risk: real, required: real, available: real,
                 fit: real, other: real)
    requires OptimizerAccepted(o) && available > 0.0
    ensures Score(o, value, confidence, other, required, available, fit) ==
      Score(o, value, confidence, risk, required, available, fit)
      + Times(Weight(o, "risk_inverse"), (risk - other) / 100.0)
  {
    WeightsAreNumbers(o);
    Spread(Weight(o, "risk_inverse"), 1.0 - risk / 100.0, 1.0 - other / 100.0);
    assert (1.0 - other / 100.0) - (1.0 - risk / 100.0) == (risk - other) / 100.0;
  }

  /** Freeing capacity adds the weight's share of the capacity available. */
  lemma CapacityActs(o: Optimizer, value: real, confidence: real, risk: real, required: real, available: real,
                     fit: real, other: real)
    requires OptimizerAccepted(o) && available > 0.0
    ensures Score(o, value, confidence, risk, other, available, fit) ==
      Score(o, value, confidence, risk, required, available, fit)
      + Times(Weight(o, "capacity_fit"), (required - other) / available)
  {
    WeightsAreNumbers(o);
    Spread(Weight(o, "capacity_fit"), 1.0 - required / available, 1.0 - other / available);
    SpreadRatio(required, other, available);
  }

  /** A point of fit adds a hundredth of its weight. */
  lemma FitActs(o: Optimizer, value: real, confidence: real, risk: real, required: real, available: real,
                fit: real, other: real)
    requires OptimizerAccepted(o) && available > 0.0
    ensures Score(o, value, confidence, risk, required, available, other) ==
      Score(o, value, confidence, risk, required, available, fit)
      + Times(Weight(o, "constraint_fit"), other - fit) / 100.0
  {
    WeightsAreNumbers(o);
    Spread(Weight(o, "constraint_fit"), fit, other);
  }

  function Measure(item: Investment, name: string): real {
    if Numeric(Get(item, name)).Some? then Numeric(Get(item, name)).value else 0.0
  }

  /** The two items measure alike in everything but `name`. */
  predicate AlikeBut(a: Investment, b: Investment, name: string) {
    && (name == "expected_value" || Measure(a, "expected_value") == Measure(b, "expected_value"))
    && (name == "confidence" || Measure(a, "confidence") == Measure(b, "confidence"))
    && (name == "risk" || Measure(a, "risk") == Measure(b, "risk"))
    && (name == "required_capacity" || Measure(a, "required_capacity") == Measure(b, "required_capacity"))
    && (name == "constraint_fit" || Measure(a, "constraint_fit") == Measure(b, "constraint_fit"))
  }

  function ScoreFor(o: Optimizer, item: Investment): real
    requires OptimizerAccepted(o)
  {
    Score(o, Measure(item, "expected_value"), Measure(item, "confidence"), Measure(item, "risk"),
          Measure(item, "required_capacity"), o.budget.n, Measure(item, "constraint_fit"))
  }

  lemma ScoredMeasures(o: Optimizer, items: seq<Investment>, item: Investment)
    requires OptimizerAccepted(o) && Judge(o, items, item).Scored?
    ensures Judge(o, items, item).score == ScoreFor(o, item)
  {
  }

  lemma ScoreForIs(o: Optimizer, item: Investment, v: real, c: real, r: real, q: real, f: real)
    requires OptimizerAccepted(o) && Measure(item, "expected_value") == v && Measure(item, "confidence") == c
    requires Measure(item, "risk") == r && Measure(item, "required_capacity") == q
    requires Measure(item, "constraint_fit") == f
    ensures ScoreFor(o, item) == Score(o, v, c, r, q, o.budget.n, f)
  {
  }

  /** What `a` has more of `name` than `b`. */
  function More(a: Investment, b: Investment, name: string): real {
    Measure(a, name) - Measure(b, name)
  }

  lemma ValueDecides(o: Optimizer, a: Investment, b: Investment)
    requires OptimizerAccepted(o) && AlikeBut(a, b, "expected_value")
    ensures ScoreFor(o, a) == ScoreFor(o, b) + Times(Weight(o, "expected_value"), More(a, b, "expected_value")) / 100.0
  {
    var v, c, r := Measure(b, "expected_value"), Measure(b, "confidence"), Measure(b, "risk");
    var q, f, x := Measure(b, "required_capacity"), Measure(b, "constraint_fit"), Measure(a, "expected_value");
    ScoreForIs(o, b, v, c, r, q, f);
    ScoreForIs(o, a, x, c, r, q, f);
    ValueActs(o, v, c, r, q, o.budget.n, f, x);
  }

  lemma ConfidenceDecides(o: Optimizer, a: Investment, b: Investment)
    requires OptimizerAccepted(o) && AlikeBut(a, b, "confidence")
    ensures ScoreFor(o, a) == ScoreFor(o, b) + Times(Weight(o, "confidence"), More(a, b, "confidence"))
  {
    var v, c, r := Measure(b, "expected_value"), Measure(b, "confidence"), Measure(b, "risk");
    var q, f, x := Measure(b, "required_capacity"), Measure(b, "constraint_fit"), Measure(a, "confidence");
    ScoreForIs(o, b, v, c, r, q, f);
    ScoreForIs(o, a, v, x, r, q, f);
    ConfidenceActs(o, v, c, r, q, o.budget.n, f, x);
  }

  lemma RiskDecides(o: Optimizer, a: Investment, b: Investment)
    requires OptimizerAccepted(o) && AlikeBut(a, b, "risk")
    ensures ScoreFor(o, a) == ScoreFor(o, b) + Times(Weight(o, "risk_inverse"), More(b, a, "risk") / 100.0)
  {
    var v, c, r := Measure(b, "expected_value"), Measure(b, "confidence"), Measure(b, "risk");
    var q, f, x := Measure(b, "required_capacity"), Measure(b, "constraint_fit"), Measure(a, "risk");
    ScoreForIs(o, b, v, c, r, q, f);
    ScoreForIs(o, a, v, c, x, q, f);
    RiskActs(o, v, c, r, q, o.budget.n, f, x);
  }

  lemma CapacityDecides(o: Optimizer, a: Investment, b: Investment)
    requires OptimizerAccepted(o) && AlikeBut(a, b, "required_capacity")
    ensures ScoreFor(o, a) ==
      ScoreFor(o, b) + Times(Weight(o, "capacity_fit"), More(b, a, "required_capacity") / o.budget.n)
  {
    var v, c, r := Measure(b, "expected_value"), Measure(b, "confidence"), Measure(b, "risk");
    var q, f, x := Measure(b, "required_capacity"), Measure(b, "constraint_fit"), Measure(a, "required_capacity");
    ScoreForIs(o, b, v, c, r, q, f);
    ScoreForIs(o, a, v, c, r, x, f);
    CapacityActs(o, v, c, r, q, o.budget.n, f, x);
  }

  lemma FitDecides(o: Optimizer, a: Investment, b: Investment)
    requires OptimizerAccepted(o) && AlikeBut(a, b, "constraint_fit")
    ensures ScoreFor(o, a) == ScoreFor(o, b) + Times(Weight(o, "constraint_fit"), More(a, b, "constraint_fit")) / 100.0
  {
    var v, c, r := Measure(b, "expected_value"), Measure(b, "confidence"), Measure(b, "risk");
    var q, f, x := Measure(b, "required_capacity"), Measure(b, "constraint_fit"), Measure(a, "constraint_fit");
    ScoreForIs(o, b, v, c, r, q, f);
    ScoreForIs(o, a, v, c, r, q, x);
    FitActs(o, v, c, r, q, o.budget.n, f, x);
  }

  /** So between two scored investments that differ in one measure, the scores differ by that measure's weight times the
      difference: in hundredths of the value, the risk or the fit, of the confidence, or in shares of the budget. */
  lemma OneMeasureDecides(o: Optimizer, items: seq<Investment>, a: Investment, b: Investment)
    requires OptimizerAccepted(o) && Judge(o, items, a).Scored? && Judge(o, items, b).Scored?
    ensures AlikeBut(a, b, "expected_value") ==>
      Judge(o, items, a).score == Judge(o, items, b).score
      + Times(Weight(o, "expected_value"), More(a, b, "expected_value")) / 100.0
    ensures AlikeBut(a, b, "confidence") ==>
      Judge(o, items, a).score == Judge(o, items, b).score + Times(Weight(o, "confidence"), More(a, b, "confidence"))
    ensures AlikeBut(a, b, "risk") ==>
      Judge(o, items, a).score == Judge(o, items, b).score
      + Times(Weight(o, "risk_inverse"), More(b, a, "risk") / 100.0)
    ensures AlikeBut(a, b, "required_capacity") ==>
      Judge(o, items, a).score == Judge(o, items, b).score
      + Times(Weight(o, "capacity_fit"), More(b, a, "required_capacity") / o.budget.n)
    ensures AlikeBut(a, b, "constraint_fit") ==>
      Judge(o, items, a).score == Judge(o, items, b).score
      + Times(Weight(o, "constraint_fit"), More(a, b, "constraint_fit")) / 100.0
  {
    ScoredMeasures(o, items, a);
    ScoredMeasures(o, items, b);
    if AlikeBut(a, b, "expected_value") { ValueDecides(o, a, b); }
    if AlikeBut(a, b, "confidence") { ConfidenceDecides(o, a, b); }
    if AlikeBut(a, b, "risk") { RiskDecides(o, a, b); }
    if AlikeBut(a, b, "required_capacity") { CapacityDecides(o, a, b); }
    if AlikeBut(a, b, "constraint_fit") { FitDecides(o, a, b); }
  }

  /** And the worst candidate there can be, which uses the whole budget for nothing, scores zero. */
  lemma WorstScoresZero(o: Optimizer, items: seq<Investment>, item: Investment)
    requires OptimizerAccepted(o) && Judge(o, items, item).Scored?
    requires Measure(item, "expected_value") == 0.0 && Measure(item, "confidence") == 0.0
    requires Measure(item, "risk") == 100.0 && Measure(item, "constraint_fit") == 0.0
    requires Measure(item, "required_capacity") == o.budget.n
    ensures Judge(o, items, item).score == 0.0
  {
    ScoredMeasures(o, items, item);
    ScoreExtremes(o, o.budget.n);
  }

  // ----- the order of the ranking

  lemma RanksBeforeIsTotal()
    ensures TotalOrder(RanksBefore)
  {
    KeyLeTotalOrder();
  }

  lemma {:induction false} DistinctIds(items: seq<Investment>)
    requires |Ids(items)| == |items|
    ensures forall i, j :: 0 <= i < j < |items| ==> Id(items[i]) != Id(items[j])
  {
    if items != [] {
      var n := |items| - 1;
      var rest := items[..n];
      assert Ids(items) == Ids(rest) + {Id(items[n])};
      IdCount(rest);
      DistinctIds(rest);
      CountWith(Ids(rest), Id(items[n]));
      forall i | 0 <= i < n ensures Id(items[i]) != Id(items[n]) {
        assert Id(rest[i]) in Ids(rest);
      }
      forall i, j | 0 <= i < j < |items| ensures Id(items[i]) != Id(items[j]) {
        if j < n { assert rest[i] == items[i] && rest[j] == items[j]; }
      }
    }
  }

  lemma {:induction false} IdCount(items: seq<Investment>)
    ensures |Ids(items)| <= |items|
  {
    if items != [] {
      var n := |items| - 1;
      IdCount(items[..n]);
      assert Ids(items) == Ids(items[..n]) + {Id(items[n])};
    }
  }

  /** No two entries share an identifier, so the sort key decides every pair. */
  lemma EntriesHaveDistinctIds(o: Optimizer, items: seq<Investment>, round: real -> real)
    ensures var entries := Entries(o, items, round, items);
      forall d, e :: d in entries && e in entries && d.id == e.id ==> d == e
  {
    forall d, e | d in Entries(o, items, round, items) && e in Entries(o, items, round, items) && d.id == e.id
      ensures d == e
    {
      var f := item => EntryOf(o, items, round, item);
      FlatMapMembers(f, items, d);
      FlatMapMembers(f, items, e);
      var a :| a in items && d in f(a);
      var b :| b in items && e in f(b);
      DistinctIds(items);
    }
  }

  /** The ranking holds the scored investments, each once, in decreasing order of rounded score and then by identifier,
      and no other arrangement of them is so ordered. */
  lemma RankingIsCanonical(o: Optimizer, items: seq<Investment>, round: real -> real, other: seq<Entry>)
    requires Ranking(o, items, round).Some?
    ensures var ranking := Ranking(o, items, round).value;
      && multiset(ranking) == multiset(Entries(o, items, round, items))
      && SortedBy(RanksBefore, ranking)
      && (multiset(other) == multiset(ranking) && SortedBy(RanksBefore, other) ==> other == ranking)
  {
    var ranking := Ranking(o, items, round).value;
    RanksBeforeIsTotal();
    SortSorts(RanksBefore, Entries(o, items, round, items));
    if multiset(other) == multiset(ranking) && SortedBy(RanksBefore, other) {
      forall x, y | x in other && y in other && RanksBefore(x, y) && RanksBefore(y, x) ensures x == y {
        assert x in multiset(other) && y in multiset(other);
        KeyLeAntisymmetric(x.id, y.id);
        EntriesHaveDistinctIds(o, items, round);
      }
      SortedUnique(RanksBefore, other, ranking);
    }
  }

  /** Each entry is a scored investment: its identifier, its rounded score and its dependencies as listed. */
  lemma RankedIff(o: Optimizer, items: seq<Investment>, round: real -> real, e: Entry)
    requires Ranking(o, items, round).Some?
    ensures e in Ranking(o, items, round).value <==>
      exists item :: item in items && Judge(o, items, item).Scored?
        && KeyOf(Get(item, "investment_id")) == Some(e.id)
        && e.score == round(Judge(o, items, item).score)
        && e.dependencies == Get(item, "dependencies")
  {
    SortHasSameElements(RanksBefore, Entries(o, items, round, items));
    EntryMembers(o, items, round, items, e);
  }

  lemma {:induction false} EachJudged(o: Optimizer, items: seq<Investment>, round: real -> real, upTo: seq<Investment>)
    requires !AnyRaised(o, items, upTo)
    ensures |Entries(o, items, round, upTo)| + |FlaggedIds(o, items, upTo)| == |upTo|
    ensures forall id :: id in FlaggedIds(o, items, upTo) <==>
      exists item :: item in upTo && !Judge(o, items, item).Scored? && Id(item) == id
  {
    if upTo != [] {
      var rest, last := upTo[..|upTo| - 1], upTo[|upTo| - 1];
      assert upTo == rest + [last];
      assert last in upTo && forall item :: item in rest ==> item in upTo;
      EachJudged(o, items, round, rest);
    }
  }

  /** Where the ranking does not raise, each investment is either ranked or flagged. */
  lemma RankedOrFlagged(o: Optimizer, items: seq<Investment>, round: real -> real, id: Key)
    requires Ranking(o, items, round).Some?
    ensures |Ranking(o, items, round).value| + |FlaggedIds(o, items, items)| == |items|
    ensures id in FlaggedIds(o, items, items) <==>
      exists item :: item in items && !Judge(o, items, item).Scored? && KeyOf(Get(item, "investment_id")) == Some(id)
  {
    EachJudged(o, items, round, items);
    SortHasSameElements(RanksBefore, Entries(o, items, round, items));
  }

  /** The ranking goes from high to low scores; of equal ones, from low to high identifiers. */
  lemma RankedInOrder(o: Optimizer, items: seq<Investment>, round: real -> real, i: nat, j: nat)
    requires Ranking(o, items, round).Some? && i < j < |Ranking(o, items, round).value|
    ensures var a, b := Ranking(o, items, round).value[i], Ranking(o, items, round).value[j];
      && a.score >= b.score
      && (a.score == b.score && a.id.TextKey? && b.id.TextKey? ==> StrLe(a.id.s, b.id.s))
      && (a.score == b.score && a.id.NumberKey? && b.id.NumberKey? ==> a.id.n <= b.id.n)
  {
    var ranking := Ranking(o, items, round).value;
    RankingIsCanonical(o, items, round, ranking);
    assert RanksBefore(ranking[i], ranking[j]);
  }

  /** What an accepted optimizer asks of an investment before it scores it. */
  lemma ScoredIff(o: Optimizer, items: seq<Investment>, item: Investment)
    requires OptimizerAccepted(o)
    ensures Judge(o, items, item).Scored? <==>
      && item.Keys == {"investment_id", "expected_value", "confidence", "risk", "required_capacity",
                       "available_capacity", "constraint_fit", "dependencies", "affected_systems", "status"}
      && |Ids(items)| == |items|
      && SetOf(item["dependencies"]).Some? && SetOf(item["dependencies"]).value <= Ids(items)
      && item["expected_value"].JNumber? && 0.0 <= item["expected_value"].n <= 100.0
      && item["risk"].JNumber? && 0.0 <= item["risk"].n <= 100.0
      && item["constraint_fit"].JNumber? && 0.0 <= item["constraint_fit"].n <= 100.0
      && Numeric(item["confidence"]).Some? && 0.0 <= Numeric(item["confidence"]).value <= 1.0
      && item["required_capacity"].JNumber? && item["available_capacity"].JNumber?
      && 0.0 <= item["required_capacity"].n <= item["available_capacity"].n == o.budget.n
      && item["status"] == JString("candidate")
  {
    WeightsAreNumbers(o);
  }

  lemma JudgeIgnoresOrder(o: Optimizer, items: seq<Investment>, items': seq<Investment>, item: Investment)
    requires multiset(items) == multiset(items')
    ensures Judge(o, items, item) == Judge(o, items', item)
  {
    assert |items| == |multiset(items)| == |multiset(items')| == |items'|;
    forall id ensures id in Ids(items) <==> id in Ids(items') {
      if i :| 0 <= i < |items| && Id(items[i]) == id { assert items[i] in multiset(items'); }
      if i :| 0 <= i < |items'| && Id(items'[i]) == id { assert items'[i] in multiset(items); }
    }
    assert Ids(items) == Ids(items');
  }

  lemma EntriesIgnoreOrder(o: Optimizer, items: seq<Investment>, items': seq<Investment>, round: real -> real,
                           upTo: seq<Investment>)
    requires multiset(items) == multiset(items')
    ensures Entries(o, items, round, upTo) == Entries(o, items', round, upTo)
  {
    forall x | x in upTo ensures EntryOf(o, items, round, x) == EntryOf(o, items', round, x) {
      JudgeIgnoresOrder(o, items, items', x);
    }
    FlatMapAgrees(item => EntryOf(o, items, round, item), item => EntryOf(o, items', round, item), upTo);
  }

  lemma SameMembers(items: seq<Investment>, items': seq<Investment>)
    requires multiset(items) == multiset(items')
    ensures forall x :: x in items <==> x in items'
    ensures AllHashable(items) <==> AllHashable(items')
  {
    forall x ensures x in items <==> x in items' { assert x in multiset(items) <==> x in multiset(items'); }
  }

  lemma LoopRaisesAlike(o: Optimizer, items: seq<Investment>, items': seq<Investment>)
    requires multiset(items) == multiset(items')
    ensures AnyRaised(o, items, items) <==> AnyRaised(o, items', items')
  {
    SameMembers(items, items');
    forall x ensures Judge(o, items, x) == Judge(o, items', x) { JudgeIgnoresOrder(o, items, items', x); }
  }

  lemma EntriesRearranged(o: Optimizer, items: seq<Investment>, items': seq<Investment>, round: real -> real)
    requires multiset(items) == multiset(items')
    ensures multiset(Entries(o, items, round, items)) == multiset(Entries(o, items', round, items'))
  {
    EntriesIgnoreOrder(o, items, items', round, items');
    FlatMapOfPermutation(item => EntryOf(o, items, round, item), items, items');
  }

  /** The ranking, and whether there is one, do not depend on the order in which the investments are listed. */
  lemma RankingIgnoresInputOrder(o: Optimizer, items: seq<Investment>, items': seq<Investment>, round: real -> real)
    requires multiset(items) == multiset(items')
    ensures Ranking(o, items, round) == Ranking(o, items', round)
  {
    SameMembers(items, items');
    LoopRaisesAlike(o, items, items');
    EntriesRearranged(o, items, items', round);
    SameEntriesRaiseAlike(Entries(o, items, round, items), Entries(o, items', round, items'));
    if Ranking(o, items, round).Some? {
      var ranking := Ranking(o, items', round).value;
      RankingIsCanonical(o, items', round, ranking);
      RankingIsCanonical(o, items, round, ranking);
    }
  }

  lemma SameEntriesRaiseAlike(a: seq<Entry>, b: seq<Entry>)
    requires multiset(a) == multiset(b)
    ensures SortRaises(a) <==> SortRaises(b)
  {
    forall e ensures e in a <==> e in b { assert e in multiset(a) <==> e in multiset(b); }
  }

  /** Under any rounding that keeps order, an investment that dominates another is ranked ahead of it, unless both round
      to the same score and the identifiers say otherwise. */
  lemma DominatingRanksAhead(o: Optimizer, items: seq<Investment>, round: real -> real, a: Investment, b: Investment,
                             i: nat, j: nat)
    requires OptimizerAccepted(o) && Ranking(o, items, round).Some?
    requires forall x: real, y: real :: x <= y ==> round(x) <= round(y)
    requires a in items && b in items && Judge(o, items, a).Scored? && Judge(o, items, b).Scored? && Dominates(a, b)
    requires i < |Ranking(o, items, round).value| && j < |Ranking(o, items, round).value|
    requires Ranking(o, items, round).value[i].id == Id(a) && Ranking(o, items, round).value[j].id == Id(b)
    ensures i <= j || (round(Judge(o, items, a).score) == round(Judge(o, items, b).score) && KeyLe(Id(b), Id(a)))
  {
    var ranking := Ranking(o, items, round).value;
    RankingIsCanonical(o, items, round, ranking);
    DominatingScoresHigher(o, items, a, b);
    ScoreInRanking(o, items, round, a, i);
    ScoreInRanking(o, items, round, b, j);
    if j < i {
      assert RanksBefore(ranking[j], ranking[i]);
    }
  }

  lemma ScoreInRanking(o: Optimizer, items: seq<Investment>, round: real -> real, a: Investment, i: nat)
    requires Ranking(o, items, round).Some? && a in items && Judge(o, items, a).Scored?
    requires i < |Ranking(o, items, round).value| && Ranking(o, items, round).value[i].id == Id(a)
    ensures Ranking(o, items, round).value[i].score == round(Judge(o, items, a).score)
  {
    var e := Entry(Id(a), round(Judge(o, items, a).score), Get(a, "dependencies"));
    var f := item => EntryOf(o, items, round, item);
    assert e in f(a);
    FlatMapMembers(f, items, e);
    SortHasSameElements(RanksBefore, Entries(o, items, round, items));
    assert Ranking(o, items, round).value[i] in Ranking(o, items, round).value;
    EntriesHaveDistinctIds(o, items, round);
  }

  // ----- inputs that raise

  function Candidate(id: Json, available: Json, dependencies: Json): Investment {
    map["investment_id" := id, "expected_value" := JNumber(0.0, "0"), "confidence" := JNumber(1.0, "1"),
        "risk" := JNumber(0.0, "0"), "required_capacity" := JNumber(0.0, "0"), "available_capacity" := available,
        "constraint_fit" := JNumber(0.0, "0"), "dependencies" := dependencies, "affected_systems" := JArray([]),
        "status" := JString("candidate")]
  }

  /** One investment whose dependencies are null, and otherwise nothing wrong with it. */
  lemma NullDependenciesRaise(o: Optimizer, round: real -> real)
    requires OptimizerAccepted(o)
    ensures RankingOf(o, JArray([JObject(Candidate(JString("a"), o.budget, JNull))]), round) == None
  {
    var item := Candidate(JString("a"), o.budget, JNull);
    var items := [item];
    DictionariesOfObjects([JObject(item)], items);
    assert Ids(items) == {TextKey("a")} by { assert items[0] == item && Id(item) == TextKey("a"); }
    assert item in items && Identified(items, item) && Dependencies(item) == None;
    assert Judge(o, items, item) == Raised;
  }

  lemma CandidateIsScored(o: Optimizer, items: seq<Investment>, id: Json)
    requires OptimizerAccepted(o) && |Ids(items)| == |items|
    ensures var item := Candidate(id, o.budget, JArray([]));
      Judge(o, items, item) == Scored(Score(o, 0.0, 1.0, 0.0, 0.0, o.budget.n, 0.0))
  {
    WeightsAreNumbers(o);
    var item := Candidate(id, o.budget, JArray([]));
    NothingToCollect();
  }

  /** Two equally good investments, one identified by a text and one by a number, under any rounding. */
  lemma MixedIdentifiersRaise(o: Optimizer, round: real -> real)
    requires OptimizerAccepted(o)
    ensures var a := Candidate(JString("a"), o.budget, JArray([]));
      var b := Candidate(JNumber(1.0, "1"), o.budget, JArray([]));
      RankingOf(o, JArray([JObject(a), JObject(b)]), round) == None
  {
    var a, b := Candidate(JString("a"), o.budget, JArray([])), Candidate(JNumber(1.0, "1"), o.budget, JArray([]));
    var items := [a, b];
    DictionariesOfObjects([JObject(a), JObject(b)], items);
    assert Id(a) == TextKey("a") && Id(b) == NumberKey(1.0);
    assert Ids(items) == {TextKey("a"), NumberKey(1.0)} by { assert items[0] == a && items[1] == b; }
    CandidateIsScored(o, items, JString("a"));
    CandidateIsScored(o, items, JNumber(1.0, "1"));
    assert Tied(o, items, round, a, b);
    SortRaisesIff(o, items, round);
  }
}
