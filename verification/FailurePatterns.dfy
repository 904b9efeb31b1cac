/** Failure patterns: problem jobs grouped by failure class and diagnostic, tools/runtime_baseline.py. */
module FailurePatterns {
  import opened Ordering

  /** `id` is the identifier as text. An absent or null text of the others reads as the empty one: both fall to the `or`
      default, and neither is a problem status. */
  datatype Job = Job(id: string, status: string, failureClass: string, lastError: string, jobType: string)

  datatype Key = Key(failureClass: string, diagnostic: string)

  datatype Pattern = Pattern(
    failureClass: string, diagnostic: string, count: nat, jobIds: seq<string>, jobTypes: seq<string>)

  const PROBLEM_STATUSES := {"failed", "dead_letter", "abandoned"}

  function OrElse(text: string, fallback: string): string {
    if text == "" then fallback else text
  }

  function KeyOf(job: Job): Key {
    Key(OrElse(job.failureClass, "unknown"), job.lastError)
  }

  function TypeOf(job: Job): string {
    OrElse(job.jobType, "unknown")
  }

  function WhenProblem(job: Job): seq<Job> {
    if job.status in PROBLEM_STATUSES then [job] else []
  }

  function WhenUnder(key: Key): Job -> seq<Job> {
    (job: Job) => if KeyOf(job) == key then [job] else []
  }

  function JustId(job: Job): seq<string> {
    [job.id]
  }

  function JustType(job: Job): seq<string> {
    [TypeOf(job)]
  }

  function JustKey(job: Job): seq<Key> {
    [KeyOf(job)]
  }

  function ListedIds(p: Pattern): seq<string> {
    p.jobIds
  }

  /** `[job for job in jobs if job["status"] in PROBLEM_STATUSES]` */
  function Problems(jobs: seq<Job>): seq<Job> {
    FlatMap(WhenProblem, jobs)
  }

  // ----- what a group is

  /** The jobs under a key, in their order. */
  function Group(problems: seq<Job>, key: Key): seq<Job> {
    FlatMap(WhenUnder(key), problems)
  }

  function IdsOf(jobs: seq<Job>): seq<string> {
    FlatMap(JustId, jobs)
  }

  /** Each value once, where it first occurs. */
  function FirstOfEach<T(==,!new)>(s: seq<T>): (r: seq<T>)
    ensures Distinct(r)
    ensures forall x :: x in r <==> x in s
  {
    if s == [] then []
    else
      var rest, last := FirstOfEach(s[..|s| - 1]), s[|s| - 1];
      assert s == s[..|s| - 1] + [last];
      if last in rest then rest else rest + [last]
  }

  function TypesOf(jobs: seq<Job>): seq<string> {
    FirstOfEach(FlatMap(JustType, jobs))
  }

  function KeysOf(problems: seq<Job>): seq<Key> {
    FirstOfEach(FlatMap(JustKey, problems))
  }

  function PatternOf(problems: seq<Job>, key: Key): Pattern {
    var group := Group(problems, key);
    Pattern(key.failureClass, key.diagnostic, |group|, IdsOf(group), TypesOf(group))
  }

  /** The sort key `(-count, failure_class, diagnostic)`. */
  predicate ListedBefore(a: Pattern, b: Pattern) {
    || a.count > b.count
    || (a.count == b.count && a.failureClass != b.failureClass && StrLe(a.failureClass, b.failureClass))
    || (a.count == b.count && a.failureClass == b.failureClass && StrLe(a.diagnostic, b.diagnostic))
  }

  function PatternsUnder(problems: seq<Job>, keys: seq<Key>): seq<Pattern> {
    seq(|keys|, i requires 0 <= i < |keys| => PatternOf(problems, keys[i]))
  }

  function Report(jobs: seq<Job>): seq<Pattern> {
    Sort(ListedBefore, PatternsUnder(Problems(jobs), KeysOf(Problems(jobs))))
  }

  // ----- the loop

  function AddJob(p: Pattern, job: Job): Pattern {
    p.(count := p.count + 1,
       jobIds := p.jobIds + [job.id],
       jobTypes := if TypeOf(job) in p.jobTypes then p.jobTypes else p.jobTypes + [TypeOf(job)])
  }

  lemma FirstOfEachAppend<T(!new)>(s: seq<T>, x: T)
    ensures FirstOfEach(s + [x]) == if x in s then FirstOfEach(s) else FirstOfEach(s) + [x]
  {
    assert (s + [x])[..|s|] == s;
  }

  lemma GroupStep(rest: seq<Job>, job: Job, key: Key)
    ensures Group(rest + [job], key) == if KeyOf(job) == key then Group(rest, key) + [job] else Group(rest, key)
  {
    FlatMapAppendOne(WhenUnder(key), rest, job);
  }

  lemma IdsOfStep(group: seq<Job>, job: Job)
    ensures IdsOf(group + [job]) == IdsOf(group) + [job.id]
  {
    FlatMapAppendOne(JustId, group, job);
  }

  lemma TypesOfStep(group: seq<Job>, job: Job)
    ensures TypesOf(group + [job]) ==
      if TypeOf(job) in TypesOf(group) then TypesOf(group) else TypesOf(group) + [TypeOf(job)]
  {
    FlatMapAppendOne(JustType, group, job);
    FirstOfEachAppend(FlatMap(JustType, group), TypeOf(job));
  }

  /** One more job changes the pattern of its own key only. */
  lemma PatternStep(rest: seq<Job>, job: Job, key: Key)
    ensures PatternOf(rest + [job], key)
      == if KeyOf(job) == key then AddJob(PatternOf(rest, key), job) else PatternOf(rest, key)
  {
    GroupStep(rest, job, key);
    if KeyOf(job) == key {
      IdsOfStep(Group(rest, key), job);
      TypesOfStep(Group(rest, key), job);
    }
  }

  lemma KeysStep(rest: seq<Job>, job: Job)
    ensures KeysOf(rest + [job]) == if KeyOf(job) in KeysOf(rest) then KeysOf(rest) else KeysOf(rest) + [KeyOf(job)]
  {
    FlatMapAppendOne(JustKey, rest, job);
    FirstOfEachAppend(FlatMap(JustKey, rest), KeyOf(job));
  }

  lemma KeyMembers(problems: seq<Job>, key: Key)
    ensures key in KeysOf(problems) <==> exists job :: job in problems && KeyOf(job) == key
  {
    FlatMapMembers(JustKey, problems, key);
  }

  lemma EmptyGroup(problems: seq<Job>, key: Key)
    requires key !in KeysOf(problems)
    ensures PatternOf(problems, key) == Pattern(key.failureClass, key.diagnostic, 0, [], [])
  {
    var group := Group(problems, key);
    if group != [] {
      FlatMapMembers(WhenUnder(key), problems, group[0]);
      KeyMembers(problems, key);
    }
  }

  /** The dictionary after the jobs seen so far. */
  ghost predicate Tracks(keys: seq<Key>, patterns: map<Key, Pattern>, problems: seq<Job>) {
    && keys == KeysOf(problems)
    && patterns.Keys == Elements(keys)
    && forall key :: key in keys ==> patterns[key] == PatternOf(problems, key)
  }

  lemma TracksSeen(keys: seq<Key>, patterns: map<Key, Pattern>, rest: seq<Job>, job: Job)
    requires Tracks(keys, patterns, rest) && KeyOf(job) in keys
    ensures Tracks(keys, patterns[KeyOf(job) := AddJob(patterns[KeyOf(job)], job)], rest + [job])
  {
    KeysStep(rest, job);
    forall key | key in keys { PatternStep(rest, job, key); }
  }

  lemma FirstOfItsKey(rest: seq<Job>, job: Job)
    requires KeyOf(job) !in KeysOf(rest)
    ensures var key := KeyOf(job);
      PatternOf(rest + [job], key) == AddJob(Pattern(key.failureClass, key.diagnostic, 0, [], []), job)
  {
    EmptyGroup(rest, KeyOf(job));
    PatternStep(rest, job, KeyOf(job));
  }

  lemma KeysAppend(keys: seq<Key>, key: Key)
    ensures Elements(keys + [key]) == Elements(keys) + {key}
  {
    assert forall k :: k in keys + [key] <==> k in keys || k == key;
  }

  lemma NewEntry(keys: seq<Key>, patterns: map<Key, Pattern>, before: Key -> Pattern, after: Key -> Pattern, key: Key,
                 p: Pattern)
    requires patterns.Keys == Elements(keys) && (forall k :: k in keys ==> patterns[k] == before(k)) && key !in keys
    requires after(key) == p && forall k :: k != key ==> after(k) == before(k)
    ensures patterns[key := p].Keys == Elements(keys + [key])
    ensures forall k :: k in keys + [key] ==> patterns[key := p][k] == after(k)
  {
    KeysAppend(keys, key);
  }

  lemma TracksNew(keys: seq<Key>, patterns: map<Key, Pattern>, rest: seq<Job>, job: Job)
    requires Tracks(keys, patterns, rest) && KeyOf(job) !in keys
    ensures var key := KeyOf(job);
      Tracks(keys + [key], patterns[key := AddJob(Pattern(key.failureClass, key.diagnostic, 0, [], []), job)],
             rest + [job])
  {
    var key := KeyOf(job);
    KeysStep(rest, job);
    FirstOfItsKey(rest, job);
    forall k | k != key ensures PatternOf(rest + [job], k) == PatternOf(rest, k) {
      PatternStep(rest, job, k);
    }
    NewEntry(keys, patterns, k => PatternOf(rest, k), k => PatternOf(rest + [job], k), key,
             AddJob(Pattern(key.failureClass, key.diagnostic, 0, [], []), job));
  }

  method GroupProblems(problems: seq<Job>) returns (keys: seq<Key>, patterns: map<Key, Pattern>)
    ensures keys == KeysOf(problems)
    ensures patterns.Keys == Elements(keys)
    ensures forall key :: key in keys ==> patterns[key] == PatternOf(problems, key)
  {
    keys, patterns := [], map[];
    for k := 0 to |problems|
      invariant Tracks(keys, patterns, problems[..k])
    {
      var job := problems[k];
      var key := KeyOf(job);
      assert problems[..k + 1] == problems[..k] + [job];
      if key in patterns {
        TracksSeen(keys, patterns, problems[..k], job);
      } else {
        TracksNew(keys, patterns, problems[..k], job);
        keys := keys + [key];
        patterns := patterns[key := Pattern(key.failureClass, key.diagnostic, 0, [], [])];
      }
      patterns := patterns[key := AddJob(patterns[key], job)];
    }
    assert problems[..|problems|] == problems;
  }

  method BuildReport(jobs: seq<Job>) returns (report: seq<Pattern>)
    ensures report == Report(jobs)
  {
    var problems := [];
    for k := 0 to |jobs|
      invariant problems == Problems(jobs[..k])
    {
      assert jobs[..k + 1] == jobs[..k] + [jobs[k]];
      FlatMapAppendOne(WhenProblem, jobs[..k], jobs[k]);
      if jobs[k].status in PROBLEM_STATUSES {
        problems := problems + [jobs[k]];
      }
    }
    assert jobs[..|jobs|] == jobs;
    var keys, patterns := GroupProblems(problems);
    var values := seq(|keys|,
                      i requires 0 <= i < |keys| =>
                        if keys[i] in patterns then patterns[keys[i]] else PatternOf([], keys[i]));
    assert values == PatternsUnder(problems, keys);
    report := Sort(ListedBefore, values);
  }

  // ----- what the report keeps

  lemma {:induction false} OneListGrows(f: Key -> seq<string>, g: Key -> seq<string>, keys: seq<Key>, grown: Key,
                                        id: string)
    requires Distinct(keys)
    requires forall key :: f(key) == g(key) + if key == grown then [id] else []
    ensures multiset(FlatMap(f, keys)) ==
      multiset(FlatMap(g, keys)) + if grown in keys then multiset{id} else multiset{}
  {
    if keys != [] {
      OneListGrows(f, g, keys[..|keys| - 1], grown, id);
      assert keys == keys[..|keys| - 1] + [keys[|keys| - 1]];
    }
  }

  lemma IdsStep(rest: seq<Job>, job: Job, key: Key)
    ensures IdsOf(Group(rest + [job], key)) == IdsOf(Group(rest, key)) + if KeyOf(job) == key then [job.id] else []
  {
    assert PatternOf(rest + [job], key).jobIds == IdsOf(Group(rest + [job], key));
    PatternStep(rest, job, key);
  }

  lemma {:induction false} NoJobsNoIds(keys: seq<Key>)
    ensures FlatMap(key => IdsOf(Group([], key)), keys) == []
  {
    if keys != [] {
      NoJobsNoIds(keys[..|keys| - 1]);
    }
  }

  /** Over any list of distinct keys that covers the jobs, the groups hold every job id exactly once. */
  lemma {:induction false} GroupsConserve(problems: seq<Job>, keys: seq<Key>)
    requires Distinct(keys) && forall job :: job in problems ==> KeyOf(job) in keys
    ensures multiset(FlatMap(key => IdsOf(Group(problems, key)), keys)) == multiset(IdsOf(problems))
  {
    if problems == [] {
      NoJobsNoIds(keys);
    } else {
      var n := |problems| - 1;
      var rest, job := problems[..n], problems[n];
      assert problems == rest + [job];
      GroupsConserve(rest, keys);
      forall key
        ensures IdsOf(Group(rest + [job], key)) == IdsOf(Group(rest, key)) + if key == KeyOf(job) then [job.id] else []
      {
        IdsStep(rest, job, key);
      }
      OneListGrows(key => IdsOf(Group(rest + [job], key)), key => IdsOf(Group(rest, key)), keys, KeyOf(job), job.id);
      FlatMapAppendOne(JustId, rest, job);
    }
  }

  function SumCounts(patterns: seq<Pattern>): nat {
    if patterns == [] then 0 else SumCounts(patterns[..|patterns| - 1]) + patterns[|patterns| - 1].count
  }

  function AllIds(patterns: seq<Pattern>): seq<string> {
    FlatMap(ListedIds, patterns)
  }

  lemma {:induction false} CountsAreIds(patterns: seq<Pattern>)
    requires forall p :: p in patterns ==> p.count == |p.jobIds|
    ensures SumCounts(patterns) == |AllIds(patterns)|
  {
    if patterns != [] {
      CountsAreIds(patterns[..|patterns| - 1]);
    }
  }

  lemma {:induction false} OneIdEach(jobs: seq<Job>)
    ensures |IdsOf(jobs)| == |jobs|
  {
    if jobs != [] {
      OneIdEach(jobs[..|jobs| - 1]);
    }
  }

  lemma {:induction false} IdsUnderKeys(problems: seq<Job>, keys: seq<Key>)
    ensures AllIds(PatternsUnder(problems, keys)) == FlatMap(key => IdsOf(Group(problems, key)), keys)
  {
    if keys != [] {
      var n := |keys| - 1;
      IdsUnderKeys(problems, keys[..n]);
      assert PatternsUnder(problems, keys)[..n] == PatternsUnder(problems, keys[..n]);
    }
  }

  lemma ReportMembers(jobs: seq<Job>, p: Pattern)
    requires p in Report(jobs)
    ensures p in PatternsUnder(Problems(jobs), KeysOf(Problems(jobs)))
  {
    SortHasSameElements(ListedBefore, PatternsUnder(Problems(jobs), KeysOf(Problems(jobs))));
  }

  lemma PatternUnder(problems: seq<Job>, keys: seq<Key>, p: Pattern)
    requires p in PatternsUnder(problems, keys)
    ensures var key := Key(p.failureClass, p.diagnostic); key in keys && p == PatternOf(problems, key)
  {
    var i :| 0 <= i < |keys| && PatternsUnder(problems, keys)[i] == p;
    assert keys[i] in keys && keys[i] == Key(p.failureClass, p.diagnostic);
  }

  lemma KeyDecidesPattern(jobs: seq<Job>, p: Pattern)
    requires p in Report(jobs)
    ensures p == PatternOf(Problems(jobs), Key(p.failureClass, p.diagnostic))
    ensures Key(p.failureClass, p.diagnostic) in KeysOf(Problems(jobs))
  {
    ReportMembers(jobs, p);
    PatternUnder(Problems(jobs), KeysOf(Problems(jobs)), p);
  }

  lemma GroupMembers(problems: seq<Job>, key: Key, job: Job)
    ensures job in Group(problems, key) <==> job in problems && KeyOf(job) == key
  {
    FlatMapMembers(WhenUnder(key), problems, job);
  }

  lemma TypesOfGroup(problems: seq<Job>, key: Key, t: string)
    ensures t in TypesOf(Group(problems, key))
      <==> exists job :: job in problems && KeyOf(job) == key && TypeOf(job) == t
  {
    FlatMapMembers(JustType, Group(problems, key), t);
    forall job ensures job in Group(problems, key) <==> job in problems && KeyOf(job) == key {
      GroupMembers(problems, key, job);
    }
  }

  lemma GroupIsInhabited(problems: seq<Job>, key: Key)
    requires key in KeysOf(problems)
    ensures Group(problems, key) != []
  {
    KeyMembers(problems, key);
    var job :| job in problems && KeyOf(job) == key;
    GroupMembers(problems, key, job);
  }

  /** Each listed pattern is the group of its own key: the count is the length of its list of ids, which are those of
      its jobs in their order; its job types are those of its jobs, without duplicates; and it is not empty. */
  lemma PatternsAreGroups(jobs: seq<Job>, p: Pattern)
    requires p in Report(jobs)
    ensures var problems, key := Problems(jobs), Key(p.failureClass, p.diagnostic);
      && p.count == |p.jobIds| > 0
      && p.jobIds == IdsOf(Group(problems, key))
      && Distinct(p.jobTypes)
      && (forall t :: t in p.jobTypes <==> exists job :: job in problems && KeyOf(job) == key && TypeOf(job) == t)
  {
    var problems, key := Problems(jobs), Key(p.failureClass, p.diagnostic);
    KeyDecidesPattern(jobs, p);
    GroupIsInhabited(problems, key);
    OneIdEach(Group(problems, key));
    forall t ensures t in p.jobTypes <==> exists job :: job in problems && KeyOf(job) == key && TypeOf(job) == t {
      TypesOfGroup(problems, key, t);
    }
  }

  /** Grouping conserves: over the whole report, every problem job's id is listed exactly once, and the counts add up to
      the number of problem jobs. */
  lemma ReportConserves(jobs: seq<Job>)
    ensures multiset(AllIds(Report(jobs))) == multiset(IdsOf(Problems(jobs)))
    ensures SumCounts(Report(jobs)) == |Problems(jobs)|
  {
    var problems := Problems(jobs);
    var keys := KeysOf(problems);
    forall job | job in problems ensures KeyOf(job) in keys { KeyMembers(problems, KeyOf(job)); }
    GroupsConserve(problems, keys);
    IdsUnderKeys(problems, keys);
    FlatMapOfPermutation(ListedIds, Report(jobs), PatternsUnder(problems, keys));
    forall p | p in Report(jobs) ensures p.count == |p.jobIds| { PatternsAreGroups(jobs, p); }
    CountsAreIds(Report(jobs));
    OneIdEach(problems);
    assert |multiset(AllIds(Report(jobs)))| == |AllIds(Report(jobs))|;
    assert |multiset(IdsOf(problems))| == |IdsOf(problems)|;
  }

  lemma ListedBeforeIsTotal()
    ensures TotalOrder(ListedBefore)
  {
    StrLeTotalOrder();
    forall x, y, z | ListedBefore(x, y) && ListedBefore(y, z) ensures ListedBefore(x, z) {
      if x.failureClass != y.failureClass && y.failureClass != z.failureClass && x.failureClass == z.failureClass
        && x.count == y.count == z.count {
        StrLeAntisymmetric(x.failureClass, y.failureClass);
      }
    }
  }

  lemma SameKey(p: Pattern, q: Pattern)
    requires ListedBefore(p, q) && ListedBefore(q, p)
    ensures p.failureClass == q.failureClass && p.diagnostic == q.diagnostic
  {
    if p.failureClass != q.failureClass {
      StrLeAntisymmetric(p.failureClass, q.failureClass);
    } else {
      StrLeAntisymmetric(p.diagnostic, q.diagnostic);
    }
  }

  lemma ReportHasNoRepeats(jobs: seq<Job>)
    ensures Distinct(Report(jobs))
  {
    var problems := Problems(jobs);
    var listed := PatternsUnder(problems, KeysOf(problems));
    forall i, j | 0 <= i < j < |listed| ensures listed[i] != listed[j] {
      assert KeysOf(problems)[i] != KeysOf(problems)[j];
    }
    SortKeepsDistinct(ListedBefore, listed);
  }

  /** The report lists each key once, in an order that is strict: no two patterns could be exchanged. */
  lemma ReportIsStrictlyOrdered(jobs: seq<Job>, i: nat, j: nat)
    requires i < j < |Report(jobs)|
    ensures ListedBefore(Report(jobs)[i], Report(jobs)[j]) && !ListedBefore(Report(jobs)[j], Report(jobs)[i])
  {
    ListedBeforeIsTotal();
    SortSorts(ListedBefore, PatternsUnder(Problems(jobs), KeysOf(Problems(jobs))));
    ReportHasNoRepeats(jobs);
    var report := Report(jobs);
    var p, q := report[i], report[j];
    KeyDecidesPattern(jobs, p);
    KeyDecidesPattern(jobs, q);
    if ListedBefore(q, p) {
      SameKey(p, q);
    }
  }

  lemma SortKeepsDistinct(le: (Pattern, Pattern) -> bool, s: seq<Pattern>)
    requires Distinct(s)
    ensures Distinct(Sort(le, s))
  {
    var r := Sort(le, s);
    forall i, j | 0 <= i < j < |r| ensures r[i] != r[j] {
      AtMostOnce(s, r[i]);
      TwiceIn(r, i, j);
    }
  }

  lemma {:induction false} AtMostOnce(s: seq<Pattern>, x: Pattern)
    requires Distinct(s)
    ensures multiset(s)[x] <= 1
  {
    if s != [] {
      AtMostOnce(s[1..], x);
      assert s == [s[0]] + s[1..];
      assert x in s[1..] ==> x != s[0];
    }
  }

  lemma TwiceIn(r: seq<Pattern>, i: nat, j: nat)
    requires i < j < |r|
    ensures r[i] == r[j] ==> multiset(r)[r[i]] >= 2
  {
    assert r == r[..j] + [r[j]] + r[j + 1..];
    assert r[i] in r[..j];
  }
}
