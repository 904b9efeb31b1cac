/** What the failure report says of each job, in the terms of the jobs alone. */
module FailureCases {
  import opened Ordering
  import opened FailurePatterns

  /** A job that failed for good, under a class (`unknown` where it has none) and a diagnostic. */
  predicate Failed(job: Job, failureClass: string, diagnostic: string) {
    && (job.status == "failed" || job.status == "dead_letter" || job.status == "abandoned")
    && failureClass == (if job.failureClass == "" then "unknown" else job.failureClass)
    && diagnostic == job.lastError
  }

  predicate Typed(job: Job, t: string) {
    t == if job.jobType == "" then "unknown" else job.jobType
  }

  /** The places of the jobs a pattern speaks of, in their order. */
  ghost predicate PlacesOf(jobs: seq<Job>, p: Pattern, at: seq<nat>) {
    && (forall k, l :: 0 <= k < l < |at| ==> at[k] < at[l])
    && (forall i: nat :: i in at <==> i < |jobs| && Failed(jobs[i], p.failureClass, p.diagnostic))
  }

  function Places(jobs: seq<Job>, failureClass: string, diagnostic: string): seq<nat> {
    if jobs == [] then []
    else
      var n := |jobs| - 1;
      Places(jobs[..n], failureClass, diagnostic) + if Failed(jobs[n], failureClass, diagnostic) then [n] else []
  }

  lemma PlacesStep(rest: seq<Job>, job: Job, p: Pattern, at: seq<nat>)
    requires PlacesOf(rest, p, at)
    ensures PlacesOf(rest + [job], p, at + if Failed(job, p.failureClass, p.diagnostic) then [|rest|] else [])
  {
    assert forall k :: 0 <= k < |at| ==> at[k] in at;
  }

  lemma {:induction false} PlacesArePlaces(jobs: seq<Job>, p: Pattern)
    ensures PlacesOf(jobs, p, Places(jobs, p.failureClass, p.diagnostic))
  {
    if jobs != [] {
      var n := |jobs| - 1;
      PlacesArePlaces(jobs[..n], p);
      PlacesStep(jobs[..n], jobs[n], p, Places(jobs[..n], p.failureClass, p.diagnostic));
      assert jobs == jobs[..n] + [jobs[n]];
    }
  }

  predicate StandAt(group: seq<Job>, jobs: seq<Job>, at: seq<nat>) {
    |group| == |at| && forall k :: 0 <= k < |at| ==> at[k] < |jobs| && group[k] == jobs[at[k]]
  }

  lemma StandAtStep(group: seq<Job>, jobs: seq<Job>, at: seq<nat>, job: Job)
    requires StandAt(group, jobs, at)
    ensures StandAt(group, jobs + [job], at) && StandAt(group + [job], jobs + [job], at + [|jobs|])
  {
  }

  lemma FailedIff(job: Job, c: string, d: string)
    ensures Failed(job, c, d) <==> job.status in PROBLEM_STATUSES && KeyOf(job) == Key(c, d)
  {
  }

  lemma GroupOfOneMore(rest: seq<Job>, job: Job, c: string, d: string)
    ensures Group(Problems(rest + [job]), Key(c, d))
      == Group(Problems(rest), Key(c, d)) + if Failed(job, c, d) then [job] else []
  {
    FlatMapAppendOne(WhenProblem, rest, job);
    FailedIff(job, c, d);
    if job.status in PROBLEM_STATUSES {
      GroupStep(Problems(rest), job, Key(c, d));
    } else {
      assert Problems(rest) + [] == Problems(rest);
    }
  }

  /** The jobs of a group are those at its places. */
  lemma {:induction false} GroupIsAtPlaces(jobs: seq<Job>, c: string, d: string)
    ensures StandAt(Group(Problems(jobs), Key(c, d)), jobs, Places(jobs, c, d))
  {
    if jobs != [] {
      var n := |jobs| - 1;
      assert jobs == jobs[..n] + [jobs[n]];
      GroupIsAtPlaces(jobs[..n], c, d);
      GroupOfOneMore(jobs[..n], jobs[n], c, d);
      StandAtStep(Group(Problems(jobs[..n]), Key(c, d)), jobs[..n], Places(jobs[..n], c, d), jobs[n]);
    }
  }

  lemma {:induction false} IdsInOrder(group: seq<Job>)
    ensures |IdsOf(group)| == |group| && forall k :: 0 <= k < |group| ==> IdsOf(group)[k] == group[k].id
  {
    if group != [] {
      IdsInOrder(group[..|group| - 1]);
    }
  }

  /** Each pattern counts the jobs that failed under its class and diagnostic, and lists their ids in their order. */
  lemma PatternCounts(jobs: seq<Job>, p: Pattern)
    requires p in Report(jobs)
    ensures exists at ::
      && PlacesOf(jobs, p, at)
      && p.count == |at| == |p.jobIds|
      && forall k :: 0 <= k < |at| ==> at[k] < |jobs| && p.jobIds[k] == jobs[at[k]].id
  {
    KeyDecidesPattern(jobs, p);
    GroupIsAtPlaces(jobs, p.failureClass, p.diagnostic);
    IdsInOrder(Group(Problems(jobs), Key(p.failureClass, p.diagnostic)));
    PlacesArePlaces(jobs, p);
  }

  /** A class and a diagnostic have a pattern exactly when a job failed under them. */
  lemma PatternExistsIff(jobs: seq<Job>, c: string, d: string)
    ensures (exists p :: p in Report(jobs) && p.failureClass == c && p.diagnostic == d)
      <==> exists i :: 0 <= i < |jobs| && Failed(jobs[i], c, d)
  {
    PatternListedIff(jobs, Key(c, d));
    KeyOfFailure(jobs, c, d);
  }

  lemma KeyOfFailure(jobs: seq<Job>, c: string, d: string)
    ensures Key(c, d) in KeysOf(Problems(jobs)) <==> exists i :: 0 <= i < |jobs| && Failed(jobs[i], c, d)
  {
    KeyMembers(Problems(jobs), Key(c, d));
    forall job ensures job in Problems(jobs) && KeyOf(job) == Key(c, d) <==> job in jobs && Failed(job, c, d) {
      ProblemIff(jobs, job);
      FailedIff(job, c, d);
    }
    if i :| 0 <= i < |jobs| && Failed(jobs[i], c, d) {
      assert jobs[i] in jobs;
    }
  }

  lemma ProblemIff(jobs: seq<Job>, job: Job)
    ensures job in Problems(jobs) <==> job in jobs && job.status in PROBLEM_STATUSES
  {
    FlatMapMembers(WhenProblem, jobs, job);
  }

  lemma PatternListedIff(jobs: seq<Job>, key: Key)
    ensures key in KeysOf(Problems(jobs)) <==>
      exists p :: p in Report(jobs) && p.failureClass == key.failureClass && p.diagnostic == key.diagnostic
  {
    var problems := Problems(jobs);
    var keys := KeysOf(problems);
    SortHasSameElements(ListedBefore, PatternsUnder(problems, keys));
    if key in keys {
      var k :| 0 <= k < |keys| && keys[k] == key;
      var p := PatternsUnder(problems, keys)[k];
      assert p in Report(jobs) && p.failureClass == key.failureClass && p.diagnostic == key.diagnostic;
    }
    if p :| p in Report(jobs) && p.failureClass == key.failureClass && p.diagnostic == key.diagnostic {
      KeyDecidesPattern(jobs, p);
    }
  }

  lemma {:induction false} FirstOfEachInOrder(s: seq<string>, a: nat, b: nat, i: nat)
    requires a < b < |FirstOfEach(s)| && i < |s| && s[i] == FirstOfEach(s)[b]
    ensures exists h :: 0 <= h < i && s[h] == FirstOfEach(s)[a]
  {
    var n := |s| - 1;
    var rest, firsts := s[..n], FirstOfEach(s[..n]);
    assert s == rest + [s[n]] && a < |firsts| && FirstOfEach(s)[a] == firsts[a] && firsts[a] in firsts;
    if i < n && b < |firsts| {
      FirstOfEachInOrder(rest, a, b, i);
      var h :| 0 <= h < i && rest[h] == firsts[a];
      assert s[h] == firsts[a];
    } else {
      assert i == n;
      assert firsts[a] in rest;
      var h :| 0 <= h < n && rest[h] == firsts[a];
      assert s[h] == firsts[a];
    }
  }

  lemma {:induction false} TypesInOrder(group: seq<Job>)
    ensures var types := FlatMap(JustType, group);
      |types| == |group| && forall k :: 0 <= k < |group| ==> types[k] == TypeOf(group[k])
  {
    if group != [] {
      TypesInOrder(group[..|group| - 1]);
    }
  }

  lemma TypesStandAt(group: seq<Job>, jobs: seq<Job>, at: seq<nat>)
    requires StandAt(group, jobs, at)
    ensures TypesAt(jobs, at, FlatMap(JustType, group))
  {
    TypesInOrder(group);
  }

  lemma TypesAtPlaces(jobs: seq<Job>, p: Pattern)
    requires p in Report(jobs)
    ensures exists at, types :: PlacesOf(jobs, p, at) && TypesAt(jobs, at, types) && p.jobTypes == FirstOfEach(types)
  {
    var c, d := p.failureClass, p.diagnostic;
    var at, group := Places(jobs, c, d), Group(Problems(jobs), Key(c, d));
    KeyDecidesPattern(jobs, p);
    GroupIsAtPlaces(jobs, c, d);
    PlacesArePlaces(jobs, p);
    TypesStandAt(group, jobs, at);
  }

  /** Each pattern lists the types of its jobs (`unknown` where there is none), none twice. */
  lemma PatternTypes(jobs: seq<Job>, p: Pattern, t: string)
    requires p in Report(jobs)
    ensures Distinct(p.jobTypes)
    ensures t in p.jobTypes <==>
      exists i :: 0 <= i < |jobs| && Failed(jobs[i], p.failureClass, p.diagnostic) && Typed(jobs[i], t)
  {
    TypesAtPlaces(jobs, p);
    var at, types :| PlacesOf(jobs, p, at) && TypesAt(jobs, at, types) && p.jobTypes == FirstOfEach(types);
    TypeListedIff(jobs, p, at, types, t);
  }

  /** They are listed in the order in which they first occur. */
  lemma PatternTypesInOrder(jobs: seq<Job>, p: Pattern, a: nat, b: nat, i: nat)
    requires p in Report(jobs) && a < b < |p.jobTypes| && i < |jobs|
    requires Failed(jobs[i], p.failureClass, p.diagnostic) && Typed(jobs[i], p.jobTypes[b])
    ensures exists h ::
      && 0 <= h < i
      && Failed(jobs[h], p.failureClass, p.diagnostic) && Typed(jobs[h], p.jobTypes[a])
  {
    TypesAtPlaces(jobs, p);
    var at, types :| PlacesOf(jobs, p, at) && TypesAt(jobs, at, types) && p.jobTypes == FirstOfEach(types);
    EarlierType(jobs, p, at, types, a, b, i);
  }

  ghost predicate TypesAt(jobs: seq<Job>, at: seq<nat>, types: seq<string>) {
    && |types| == |at|
    && forall k :: 0 <= k < |at| ==> at[k] < |jobs| && Typed(jobs[at[k]], types[k])
  }

  lemma TypeListedIff(jobs: seq<Job>, p: Pattern, at: seq<nat>, types: seq<string>, t: string)
    requires PlacesOf(jobs, p, at) && TypesAt(jobs, at, types)
    ensures t in types <==>
      exists i :: 0 <= i < |jobs| && Failed(jobs[i], p.failureClass, p.diagnostic) && Typed(jobs[i], t)
  {
    if t in types {
      var k :| 0 <= k < |types| && types[k] == t;
      assert at[k] in at;
    }
    if i :| 0 <= i < |jobs| && Failed(jobs[i], p.failureClass, p.diagnostic) && Typed(jobs[i], t) {
      var k :| 0 <= k < |at| && at[k] == i;
      assert types[k] == t;
    }
  }

  lemma EarlierType(jobs: seq<Job>, p: Pattern, at: seq<nat>, types: seq<string>, a: nat, b: nat, i: nat)
    requires PlacesOf(jobs, p, at) && TypesAt(jobs, at, types)
    requires a < b < |FirstOfEach(types)| && i < |jobs|
    requires Failed(jobs[i], p.failureClass, p.diagnostic) && Typed(jobs[i], FirstOfEach(types)[b])
    ensures exists h ::
      && 0 <= h < i
      && Failed(jobs[h], p.failureClass, p.diagnostic) && Typed(jobs[h], FirstOfEach(types)[a])
  {
    var k :| 0 <= k < |at| && at[k] == i;
    FirstOfEachInOrder(types, a, b, k);
    var l :| 0 <= l < k && types[l] == FirstOfEach(types)[a];
    assert at[l] in at && at[l] < at[k];
  }

  /** The report goes from large to small counts; of equal ones, by class and then by diagnostic, in the order of the
      texts; and no class and diagnostic are listed twice. */
  lemma LargestFirst(jobs: seq<Job>, i: nat, j: nat)
    requires i < j < |Report(jobs)|
    ensures var p, q := Report(jobs)[i], Report(jobs)[j];
      && p.count >= q.count
      && (p.count == q.count ==> StrLe(p.failureClass, q.failureClass))
      && (p.count == q.count && p.failureClass == q.failureClass ==> StrLe(p.diagnostic, q.diagnostic))
      && !(p.failureClass == q.failureClass && p.diagnostic == q.diagnostic)
  {
    ReportIsStrictlyOrdered(jobs, i, j);
    var p, q := Report(jobs)[i], Report(jobs)[j];
    StrLeTotalOrder();
    KeyDecidesPattern(jobs, p);
    KeyDecidesPattern(jobs, q);
  }
}
