/** The canonical registry and its validation, tools/semantic_platform_generate.py. */
module Registry {
  import opened Values

  datatype Property = Property(typ: string, required: bool, unique: bool)

  /** The "backfill" member of a migration operation: an object with a strategy, or anything else. */
  datatype Backfill = Backfill(strategy: string, value: Option<Json>) | MalformedBackfill

  datatype PropertyRef = PropertyRef(objectId: string, name: string)

  datatype Operation = Operation(property: Option<PropertyRef>, backfill: Option<Backfill>) | MalformedOperation

  /** `operations` is empty when the member is absent, and `None` when it is present and cannot be iterated. */
  datatype Migration = Migration(id: Option<Json>, operations: Option<seq<Operation>>) | MalformedMigration

  datatype Behavior = Behavior(subject: string, stateProperty: string, states: set<string>, transitions: seq<string>)

  datatype Transition = Transition(
    behavior: string, from: set<string>, to: string, command: string, emits: seq<string>, permissions: seq<string>)

  /** `types` gives the values of each enumeration, as text; `None` for an entry that lists none. Nothing about an entry
      but its name is validated. `migrations` are in document order. */
  datatype Registry = Registry(
    types: map<string, Option<seq<string>>>,
    objects: map<string, map<string, Property>>,
    behaviors: map<string, Behavior>,
    transitions: map<string, Transition>,
    commands: set<string>,
    events: set<string>,
    permissions: set<string>,
    migrations: seq<Migration>)

  const BUILTIN_TYPES := {"String", "Text", "Boolean", "Timestamp"}

  predicate IsReference(typ: string) {
    "Reference<" <= typ
  }

  /** `removeprefix("Reference<").removesuffix(">")` */
  function Referenced(typ: string): string
    requires IsReference(typ)
  {
    var rest := typ[|"Reference<"|..];
    if rest != "" && rest[|rest| - 1] == '>' then rest[..|rest| - 1] else rest
  }

  predicate KnownType(reg: Registry, typ: string) {
    if IsReference(typ) then Referenced(typ) in reg.objects
    else typ in BUILTIN_TYPES || typ in reg.types
  }

  predicate ValidBehavior(reg: Registry, b: Behavior) {
    && b.subject in reg.objects
    && b.stateProperty in reg.objects[b.subject]
    && forall t | t in b.transitions :: t in reg.transitions
  }

  predicate ValidTransition(reg: Registry, t: Transition) {
    && t.behavior in reg.behaviors
    && t.from + {t.to} <= reg.behaviors[t.behavior].states
    && t.command in reg.commands
    && (forall e | e in t.emits :: e in reg.events)
    && (forall p | p in t.permissions :: p in reg.permissions)
  }

  /** `_validate_registry` returns without raising. */
  predicate ValidRegistry(reg: Registry) {
    && (forall o, p | o in reg.objects && p in reg.objects[o] :: KnownType(reg, reg.objects[o][p].typ))
    && (forall b | b in reg.behaviors :: ValidBehavior(reg, reg.behaviors[b]))
    && (forall t | t in reg.transitions :: ValidTransition(reg, reg.transitions[t]))
  }

  // ----- lifecycles

  /** States a run visits: each step takes one of `allowed`'s transitions from a state it accepts. */
  ghost predicate LifecycleRun(reg: Registry, allowed: set<string>, states: seq<string>, taken: seq<string>) {
    && |states| == |taken| + 1
    && forall i :: 0 <= i < |taken| ==>
      && taken[i] in allowed && taken[i] in reg.transitions
      && states[i] in reg.transitions[taken[i]].from
      && states[i + 1] == reg.transitions[taken[i]].to
  }

  /** Transitions that name the behavior keep every run inside its declared states. */
  lemma {:induction false} OwnTransitionsStayDeclared(reg: Registry, behavior: string, allowed: set<string>,
                                                      states: seq<string>, taken: seq<string>)
    requires ValidRegistry(reg) && behavior in reg.behaviors
    requires forall t :: t in allowed && t in reg.transitions ==> reg.transitions[t].behavior == behavior
    requires LifecycleRun(reg, allowed, states, taken)
    requires states[0] in reg.behaviors[behavior].states
    ensures forall i :: 0 <= i < |states| ==> states[i] in reg.behaviors[behavior].states
  {
    forall i | 0 < i < |states| ensures states[i] in reg.behaviors[behavior].states {
      var t := taken[i - 1];
      assert states[i - 1 + 1] == reg.transitions[t].to;
      assert ValidTransition(reg, reg.transitions[t]);
    }
  }

  ghost predicate StaysWithin(reg: Registry, allowed: set<string>, declared: set<string>) {
    forall states, taken :: LifecycleRun(reg, allowed, states, taken) && states[0] in declared
      ==> forall i :: 0 <= i < |states| ==> states[i] in declared
  }

  /** The runs by the transitions a behavior lists stay in the states it declares. */
  ghost predicate StaysDeclared(reg: Registry, b: Behavior) {
    StaysWithin(reg, (set t | t in b.transitions), b.states)
  }

  /** A listed transition may name another behavior, whose states it is checked against instead. So the listed
      transitions keep runs inside the declared states exactly when each one that can start there also ends there. */
  lemma ListedTransitionsStayDeclaredIff(reg: Registry, behavior: string)
    requires ValidRegistry(reg) && behavior in reg.behaviors
    ensures StaysDeclared(reg, reg.behaviors[behavior]) <==>
      forall t :: t in reg.behaviors[behavior].transitions
                  && reg.transitions[t].from * reg.behaviors[behavior].states != {}
                  ==> reg.transitions[t].to in reg.behaviors[behavior].states
  {
    var b := reg.behaviors[behavior];
    var listed := set t | t in b.transitions;
    assert ValidBehavior(reg, b);
    if StaysDeclared(reg, b) {
      forall t | t in b.transitions && reg.transitions[t].from * b.states != {}
        ensures reg.transitions[t].to in b.states
      {
        var start :| start in reg.transitions[t].from * b.states;
        var states, taken := [start, reg.transitions[t].to], [t];
        assert LifecycleRun(reg, listed, states, taken);
        assert states[1] in b.states;
      }
    } else {
      var states, taken :| LifecycleRun(reg, listed, states, taken) && states[0] in b.states
        && !forall i :: 0 <= i < |states| ==> states[i] in b.states;
      var k := FirstEscape(states, b.states);
      var t := taken[k];
      assert states[k] in reg.transitions[t].from * b.states;
      assert reg.transitions[t].to !in b.states;
    }
  }

  lemma {:induction false} FirstEscape(states: seq<string>, declared: set<string>) returns (k: nat)
    requires |states| > 0 && states[0] in declared
    requires exists i :: 0 <= i < |states| && states[i] !in declared
    ensures k + 1 < |states| && states[k] in declared && states[k + 1] !in declared
  {
    if states[1] !in declared {
      k := 0;
    } else {
      var i :| 0 <= i < |states| && states[i] !in declared;
      assert states[1..][i - 1] !in declared;
      var rest := FirstEscape(states[1..], declared);
      k := rest + 1;
    }
  }

  /** The validator accepts a registry in which a behavior's own transition list leads out of its states. */
  lemma ListedTransitionCanEscape()
    ensures exists reg, behavior ::
      ValidRegistry(reg) && behavior in reg.behaviors && !StaysDeclared(reg, reg.behaviors[behavior])
  {
    var properties := map["status" := Property("String", true, false)];
    var first := Behavior("o", "status", {"draft"}, ["t"]);
    var second := Behavior("o", "status", {"draft", "sent"}, []);
    var t := Transition("second", {"draft"}, "sent", "c", [], []);
    var reg := Registry(map[], map["o" := properties], map["first" := first, "second" := second],
                        map["t" := t], {"c"}, {}, {}, []);
    assert ValidBehavior(reg, first) && ValidBehavior(reg, second);
    assert ValidTransition(reg, t);
    assert KnownType(reg, "String") by {
      assert "String"[0] != "Reference<"[0];
    }
    assert ValidRegistry(reg);
    assert "t" in reg.behaviors["first"].transitions && "draft" in t.from * first.states;
    ListedTransitionsStayDeclaredIff(reg, "first");
    assert !StaysDeclared(reg, reg.behaviors["first"]);
  }
}
