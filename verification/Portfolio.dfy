/** Portfolio capacity: what a strategic recommendation asks of the investments it requires,
    tools/intelligence_verify.py. */
module Portfolio {
  import opened Values
  import opened Ordering
  import opened PythonValues
  import opened InvestmentRanking

  /** `sum(… for item in investments if item["investment_id"] in required_ids)`; `None` when a term is not a number. */
  function PortfolioCapacity(investments: seq<Investment>, required: seq<Key>): Option<real> {
    if investments == [] then Some(0.0)
    else
      var last := investments[|investments| - 1];
      var rest := PortfolioCapacity(investments[..|investments| - 1], required);
      if Id(last) !in required || rest == None then rest
      else if RequiredCapacity(last) == None then None
      else Some(rest.value + RequiredCapacity(last).value)
  }

  /** `item.get("required_capacity", 0)` as a number. */
  function RequiredCapacity(item: Investment): Option<real> {
    if "required_capacity" in item then Numeric(item["required_capacity"]) else Some(0.0)
  }

  /** `optimizer.get("capacity_budget", 0)` as a number. */
  function Budget(o: Optimizer): Option<real> {
    if "capacity_budget" in o.fields then Numeric(o.budget) else Some(0.0)
  }

  /** The recommendation's conditions on the investments it names. */
  predicate PortfolioAccepted(o: Optimizer, investments: seq<Investment>, required: seq<Key>) {
    && Distinct(required)
    && Elements(required) <= Ids(investments)
    && PortfolioCapacity(investments, required).Some?
    && Budget(o).Some? && PortfolioCapacity(investments, required).value <= Budget(o).value
  }

  function Capacity(item: Investment): real {
    if RequiredCapacity(item).Some? then RequiredCapacity(item).value else 0.0
  }

  /** What the investments listed under one identifier require. */
  function CapacityOf(investments: seq<Investment>, id: Key): real {
    if investments == [] then 0.0
    else
      var last := investments[|investments| - 1];
      CapacityOf(investments[..|investments| - 1], id) + if Id(last) == id then Capacity(last) else 0.0
  }

  /** The sum over the required identifiers. */
  function SumOver(investments: seq<Investment>, required: seq<Key>): real {
    if required == [] then 0.0
    else CapacityOf(investments, required[0]) + SumOver(investments, required[1..])
  }

  lemma {:induction false} SumOverStep(investments: seq<Investment>, required: seq<Key>)
    requires investments != [] && Distinct(required)
    ensures var last := investments[|investments| - 1];
      SumOver(investments, required)
      == SumOver(investments[..|investments| - 1], required) + if Id(last) in required then Capacity(last) else 0.0
  {
    if required != [] {
      SumOverStep(investments, required[1..]);
      var last := investments[|investments| - 1];
      assert required == [required[0]] + required[1..];
      assert forall j :: 0 < j < |required| ==> required[j] != required[0];
    }
  }

  lemma SumOverNothing(required: seq<Key>)
    ensures SumOver([], required) == 0.0
  {
  }

  /** The sum that walks the investments is the sum that walks the required identifiers, each taken once. */
  lemma {:induction false} SumsAgree(investments: seq<Investment>, required: seq<Key>)
    requires Distinct(required) && PortfolioCapacity(investments, required).Some?
    ensures PortfolioCapacity(investments, required).value == SumOver(investments, required)
  {
    if investments == [] {
      SumOverNothing(required);
    } else {
      SumsAgree(investments[..|investments| - 1], required);
      SumOverStep(investments, required);
    }
  }

  lemma {:induction false} CapacityOfAbsent(investments: seq<Investment>, id: Key)
    requires id !in Ids(investments)
    ensures CapacityOf(investments, id) == 0.0
  {
    if investments != [] {
      var n := |investments| - 1;
      assert Ids(investments) == Ids(investments[..n]) + {Id(investments[n])};
      CapacityOfAbsent(investments[..n], id);
    }
  }

  /** With unique identifiers, what is listed under one of them is the capacity of that investment. */
  lemma {:induction false} CapacityOfUnique(investments: seq<Investment>, k: nat)
    requires |Ids(investments)| == |investments| && k < |investments|
    ensures CapacityOf(investments, Id(investments[k])) == Capacity(investments[k])
  {
    var n := |investments| - 1;
    var rest := investments[..n];
    assert Ids(investments) == Ids(rest) + {Id(investments[n])};
    IdCount(rest);
    CountWith(Ids(rest), Id(investments[n]));
    if k == n {
      CapacityOfAbsent(rest, Id(investments[n]));
    } else {
      assert Id(rest[k]) in Ids(rest);
      CapacityOfUnique(rest, k);
    }
  }

  function Chosen(investments: seq<Investment>, required: seq<Key>, pick: map<Key, Investment>): real
    requires forall id :: id in required ==> id in pick
  {
    if required == [] then 0.0 else Capacity(pick[required[0]]) + Chosen(investments, required[1..], pick)
  }

  lemma {:induction false} SumOverIsChosen(investments: seq<Investment>, required: seq<Key>, pick: map<Key, Investment>)
    requires |Ids(investments)| == |investments|
    requires forall id :: id in required ==> id in pick && pick[id] in investments && Id(pick[id]) == id
    ensures SumOver(investments, required) == Chosen(investments, required, pick)
  {
    if required != [] {
      var k :| 0 <= k < |investments| && investments[k] == pick[required[0]];
      CapacityOfUnique(investments, k);
      SumOverIsChosen(investments, required[1..], pick);
    }
  }

  /** With unique investment identifiers, a recommendation that names known investments once each is accepted exactly
      when the capacities of the investments it names, one for each identifier, add up to no more than the budget. */
  lemma AcceptedIffFitsBudget(o: Optimizer, investments: seq<Investment>, required: seq<Key>,
                              pick: map<Key, Investment>)
    requires |Ids(investments)| == |investments|
    requires Distinct(required) && PortfolioCapacity(investments, required).Some? && Budget(o).Some?
    requires forall id :: id in required ==> id in pick && pick[id] in investments && Id(pick[id]) == id
    ensures PortfolioAccepted(o, investments, required) <==> Chosen(investments, required, pick) <= Budget(o).value
  {
    SumsAgree(investments, required);
    SumOverIsChosen(investments, required, pick);
    forall id | id in required ensures id in Ids(investments) {
      var k :| 0 <= k < |investments| && investments[k] == pick[id];
      assert Id(investments[k]) == id;
    }
  }

  // ----- in the terms of the documents

  function Total(amounts: seq<real>): real {
    if amounts == [] then 0.0 else amounts[0] + Total(amounts[1..])
  }

  /** Investment `i` is identified by the text `names[i]`, and no two by the same one. */
  predicate Identify(names: seq<string>, investments: seq<Investment>) {
    && |names| == |investments| && Distinct(names)
    && forall i :: 0 <= i < |names| ==> Get(investments[i], "investment_id") == JString(names[i])
  }

  predicate ListsNames(required: seq<Key>, names: seq<string>, chosen: seq<nat>) {
    && |required| == |chosen|
    && forall k :: 0 <= k < |chosen| ==> chosen[k] < |names| && required[k] == TextKey(names[chosen[k]])
  }

  /** The amount an investment asks for: none when it does not say. */
  predicate Asks(item: Investment, amount: real) {
    if "required_capacity" in item then
      || (item["required_capacity"].JNumber? && item["required_capacity"].n == amount)
      || (item["required_capacity"] == JBool(true) && amount == 1.0)
      || (item["required_capacity"] == JBool(false) && amount == 0.0)
    else amount == 0.0
  }

  predicate AskFor(investments: seq<Investment>, chosen: seq<nat>, amounts: seq<real>) {
    && |amounts| == |chosen|
    && forall k :: 0 <= k < |chosen| ==> chosen[k] < |investments| && Asks(investments[chosen[k]], amounts[k])
  }

  lemma {:induction false} EachCounts(items: seq<Investment>)
    requires forall i, j :: 0 <= i < j < |items| ==> Id(items[i]) != Id(items[j])
    ensures |Ids(items)| == |items|
  {
    if items != [] {
      var n := |items| - 1;
      var rest := items[..n];
      EachCounts(rest);
      assert Ids(items) == Ids(rest) + {Id(items[n])};
      assert Id(items[n]) !in Ids(rest);
    }
  }

  lemma {:induction false} CapacityIsNumber(investments: seq<Investment>, required: seq<Key>)
    ensures PortfolioCapacity(investments, required).Some? <==>
      forall item :: item in investments && Id(item) in required ==> RequiredCapacity(item).Some?
  {
    if investments != [] {
      var n := |investments| - 1;
      CapacityIsNumber(investments[..n], required);
      assert investments == investments[..n] + [investments[n]];
    }
  }

  lemma AsksIsCapacity(item: Investment, amount: real)
    ensures Asks(item, amount) <==> RequiredCapacity(item) == Some(amount)
  {
  }

  lemma {:induction false} ChosenIsTotal(investments: seq<Investment>, required: seq<Key>, pick: map<Key, Investment>,
                                         amounts: seq<real>)
    requires |required| == |amounts|
    requires forall k :: 0 <= k < |required| ==>
      required[k] in pick && RequiredCapacity(pick[required[k]]) == Some(amounts[k])
    ensures (forall id :: id in required ==> id in pick) && Chosen(investments, required, pick) == Total(amounts)
  {
    if required != [] {
      assert required == [required[0]] + required[1..];
      ChosenIsTotal(investments, required[1..], pick, amounts[1..]);
    }
  }

  lemma IdOfName(names: seq<string>, investments: seq<Investment>, i: nat)
    requires Identify(names, investments) && i < |names|
    ensures Id(investments[i]) == TextKey(names[i])
  {
  }

  lemma NamesIdentify(names: seq<string>, investments: seq<Investment>)
    requires Identify(names, investments)
    ensures |Ids(investments)| == |investments|
    ensures forall i, j :: 0 <= i < j < |investments| ==> Id(investments[i]) != Id(investments[j])
  {
    forall i, j | 0 <= i < j < |investments| ensures Id(investments[i]) != Id(investments[j]) {
      IdOfName(names, investments, i);
      IdOfName(names, investments, j);
    }
    EachCounts(investments);
  }

  lemma NamedIsChosen(names: seq<string>, investments: seq<Investment>, required: seq<Key>, chosen: seq<nat>, i: nat)
    requires Identify(names, investments) && ListsNames(required, names, chosen)
    requires i < |investments| && Id(investments[i]) in required
    ensures i in chosen
  {
    IdOfName(names, investments, i);
    var k :| 0 <= k < |required| && required[k] == TextKey(names[i]);
    assert names[chosen[k]] == names[i];
    assert chosen[k] == i;
  }

  lemma AllAskedAreNumbers(names: seq<string>, investments: seq<Investment>, required: seq<Key>, chosen: seq<nat>,
                           amounts: seq<real>)
    requires Identify(names, investments) && ListsNames(required, names, chosen)
    requires AskFor(investments, chosen, amounts)
    ensures PortfolioCapacity(investments, required).Some?
  {
    forall item | item in investments && Id(item) in required ensures RequiredCapacity(item).Some? {
      var i :| 0 <= i < |investments| && investments[i] == item;
      NamedIsChosen(names, investments, required, chosen, i);
      var k :| 0 <= k < |chosen| && chosen[k] == i;
      AsksIsCapacity(item, amounts[k]);
    }
    CapacityIsNumber(investments, required);
  }

  ghost function ByIdentifier(investments: seq<Investment>): map<Key, Investment>
    requires forall i, j :: 0 <= i < j < |investments| ==> Id(investments[i]) != Id(investments[j])
  {
    map i | 0 <= i < |investments| :: Id(investments[i]) := investments[i]
  }

  predicate PickIs(pick: map<Key, Investment>, id: Key, item: Investment) {
    id in pick && pick[id] == item && Id(item) == id
  }

  lemma PicksTheListed(names: seq<string>, investments: seq<Investment>, required: seq<Key>, chosen: seq<nat>, k: nat)
    requires Identify(names, investments) && ListsNames(required, names, chosen) && k < |required|
    requires forall i, j :: 0 <= i < j < |investments| ==> Id(investments[i]) != Id(investments[j])
    ensures PickIs(ByIdentifier(investments), required[k], investments[chosen[k]])
  {
    IdOfName(names, investments, chosen[k]);
  }

  lemma CapacitiesAsked(investments: seq<Investment>, chosen: seq<nat>, amounts: seq<real>)
    requires AskFor(investments, chosen, amounts)
    ensures forall k :: 0 <= k < |chosen| ==> RequiredCapacity(investments[chosen[k]]) == Some(amounts[k])
  {
    forall k | 0 <= k < |chosen| ensures RequiredCapacity(investments[chosen[k]]) == Some(amounts[k]) {
      AsksIsCapacity(investments[chosen[k]], amounts[k]);
    }
  }

  lemma ListedOnceIff(names: seq<string>, investments: seq<Investment>, required: seq<Key>, chosen: seq<nat>)
    requires Identify(names, investments) && ListsNames(required, names, chosen)
    ensures Distinct(required) <==> Distinct(chosen)
  {
    if Distinct(chosen) {
      forall j, k | 0 <= j < k < |required| ensures required[j] != required[k] {
        assert chosen[j] != chosen[k];
        assert names[chosen[j]] != names[chosen[k]];
      }
    }
    if Distinct(required) {
      forall j, k | 0 <= j < k < |chosen| ensures chosen[j] != chosen[k] {
        assert required[j] != required[k];
      }
    }
  }

  /** Where texts identify the investments and a recommendation lists some of those texts, it is accepted exactly when
      it lists none twice and the `required_capacity` of the investments it lists adds up to no more than the
      `capacity_budget`. */
  lemma AcceptedIffAmountsFit(o: Optimizer, names: seq<string>, investments: seq<Investment>, required: seq<Key>,
                              chosen: seq<nat>, amounts: seq<real>)
    requires Identify(names, investments) && ListsNames(required, names, chosen)
    requires AskFor(investments, chosen, amounts)
    requires "capacity_budget" in o.fields && o.budget.JNumber?
    ensures PortfolioAccepted(o, investments, required) <==> Distinct(chosen) && Total(amounts) <= o.budget.n
  {
    ListedOnceIff(names, investments, required, chosen);
    if Distinct(chosen) {
      NamesIdentify(names, investments);
      AllAskedAreNumbers(names, investments, required, chosen, amounts);
      var pick := ByIdentifier(investments);
      forall k | 0 <= k < |required|
        ensures PickIs(pick, required[k], investments[chosen[k]])
      {
        PicksTheListed(names, investments, required, chosen, k);
      }
      CapacitiesAsked(investments, chosen, amounts);
      ChosenIsTotal(investments, required, pick, amounts);
      AcceptedIffFitsBudget(o, investments, required, pick);
    }
  }

  /** A recommendation that lists anything else is refused. */
  lemma UnknownIsRefused(o: Optimizer, names: seq<string>, investments: seq<Investment>, required: seq<Key>, id: Key)
    requires Identify(names, investments)
    requires id in required && forall i :: 0 <= i < |names| ==> id != TextKey(names[i])
    ensures !PortfolioAccepted(o, investments, required)
  {
    if id in Ids(investments) {
      var i :| 0 <= i < |investments| && Id(investments[i]) == id;
      IdOfName(names, investments, i);
    }
  }

  /** The addition raises exactly when an investment that is listed has a `required_capacity` that is no number. */
  lemma AdditionRaisesIff(investments: seq<Investment>, required: seq<Key>)
    ensures PortfolioCapacity(investments, required) == None <==>
      exists item: Investment :: item in investments && Id(item) in required
        && "required_capacity" in item && !item["required_capacity"].JNumber? && !item["required_capacity"].JBool?
  {
    CapacityIsNumber(investments, required);
    forall item: Investment
      ensures RequiredCapacity(item) == None <==>
        "required_capacity" in item && !item["required_capacity"].JNumber? && !item["required_capacity"].JBool?
    {
    }
  }
}
