/** What the graph of the migration files is, in terms of their `down_revision` literals. */
module RevisionFiles {
  import opened Ordering
  import opened Values
  import opened Digraph
  import opened MigrationGraph

  // ----- reading a list of items

  lemma {:induction false} ItemTextsConcat(a: seq<Item>, b: seq<Item>)
    ensures ItemTexts(a + b) == ItemTexts(a) + ItemTexts(b)
  {
    if a == [] {
      assert a + b == b;
    } else {
      assert (a + b)[0] == a[0] && (a + b)[1..] == a[1..] + b;
      ItemTextsConcat(a[1..], b);
    }
  }

  lemma ItemTextsOne(item: Item)
    ensures item.NoneItem? ==> ItemTexts([item]) == []
    ensures item.StrItem? ==> ItemTexts([item]) == [item.s]
    ensures item.OtherItem? ==> ItemTexts([item]) == [item.text]
  {
    assert [item][1..] == [];
  }

  /** Each item gives its own text, or nothing if it is None, between those of the items before and after it. */
  lemma ItemsInOrder(items: seq<Item>, k: nat)
    requires k < |items|
    ensures items[k].NoneItem? ==> ItemTexts(items) == ItemTexts(items[..k]) + ItemTexts(items[k + 1..])
    ensures items[k].StrItem? ==> ItemTexts(items) == ItemTexts(items[..k]) + [items[k].s] + ItemTexts(items[k + 1..])
    ensures items[k].OtherItem? ==>
      ItemTexts(items) == ItemTexts(items[..k]) + [items[k].text] + ItemTexts(items[k + 1..])
  {
    assert items == (items[..k] + [items[k]]) + items[k + 1..];
    ItemBetween(items[..k], items[k], items[k + 1..]);
  }

  lemma ItemBetween(before: seq<Item>, item: Item, after: seq<Item>)
    ensures ItemTexts((before + [item]) + after) == (ItemTexts(before) + ItemTexts([item])) + ItemTexts(after)
    ensures item.NoneItem? ==> ItemTexts((before + [item]) + after) == ItemTexts(before) + ItemTexts(after)
    ensures item.StrItem? ==> ItemTexts([item]) == [item.s]
    ensures item.OtherItem? ==> ItemTexts([item]) == [item.text]
  {
    ItemTextsConcat(before + [item], after);
    ItemTextsConcat(before, [item]);
    ItemTextsOne(item);
    assert ItemTexts(before) + [] == ItemTexts(before);
  }

  lemma {:induction false} ItemTextsMembers(items: seq<Item>, t: string)
    ensures t in ItemTexts(items) <==> StrItem(t) in items || OtherItem(t) in items
  {
    if items != [] {
      ItemTextsMembers(items[1..], t);
      assert items == [items[0]] + items[1..];
    }
  }

  lemma {:induction false} ItemTextsEmptyIff(items: seq<Item>)
    ensures ItemTexts(items) == [] <==> forall item :: item in items ==> item.NoneItem?
  {
    if items != [] {
      ItemTextsEmptyIff(items[1..]);
      assert items == [items[0]] + items[1..];
    }
  }

  /** A tuple of texts is read as those texts, one parent for each item. */
  lemma {:induction false} TextsAreParents(items: seq<Item>)
    requires forall i :: 0 <= i < |items| ==> items[i].StrItem?
    ensures |ItemTexts(items)| == |items| && forall i :: 0 <= i < |items| ==> ItemTexts(items)[i] == items[i].s
  {
    if items != [] {
      assert forall i :: 0 <= i < |items[1..]| ==> items[1..][i] == items[i + 1];
      TextsAreParents(items[1..]);
    }
  }

  // ----- reading a literal

  /** The literal names the parent: itself, as the text of one of its items, or as the text of any other literal. */
  predicate Mentions(d: DownRevision, parent: string) {
    match d
    case Absent => false
    case Name(s) => s == parent
    case NameTuple(items) => StrItem(parent) in items || OtherItem(parent) in items
    case NameList(items) => StrItem(parent) in items || OtherItem(parent) in items
    case Other(text) => text == parent
  }

  predicate MentionsNothing(d: DownRevision) {
    match d
    case Absent => true
    case Name(_) => false
    case NameTuple(items) => forall i | 0 <= i < |items| :: items[i].NoneItem?
    case NameList(items) => forall i | 0 <= i < |items| :: items[i].NoneItem?
    case Other(_) => false
  }

  /** The same for the stricter reading, which takes names and tuples of names only. */
  predicate StrictlyMentions(d: DownRevision, parent: string) {
    match d
    case Absent => false
    case Name(s) => s == parent
    case NameTuple(items) => StrItem(parent) in items && forall i | 0 <= i < |items| :: items[i].StrItem?
    case NameList(_) => false
    case Other(_) => false
  }

  /** The parents read from a literal are those it names. */
  lemma ReadingMentions(d: DownRevision, parent: string)
    ensures parent in Normalize(d) <==> Mentions(d, parent)
    ensures Normalize(d) == [] <==> MentionsNothing(d)
    ensures d.Name? || d.Other? ==> |Normalize(d)| == 1
  {
    if d.NameTuple? || d.NameList? {
      ItemTextsMembers(d.items, parent);
      ItemTextsEmptyIff(d.items);
    }
  }

  lemma StrictReadingMentions(d: DownRevision, parent: string)
    ensures parent in NamedParents(d) <==> StrictlyMentions(d, parent)
    ensures d.NameTuple? && (forall i :: 0 <= i < |d.items| ==> d.items[i].StrItem?) ==>
      |NamedParents(d)| == |d.items| && forall i :: 0 <= i < |d.items| ==> NamedParents(d)[i] == d.items[i].s
    ensures StrictParents(d) == None <==>
      d.NameList? || d.Other? || (d.NameTuple? && exists i :: 0 <= i < |d.items| && !d.items[i].StrItem?)
  {
    if d.NameTuple? {
      ItemTextsMembers(d.items, parent);
      if forall i :: 0 <= i < |d.items| ==> d.items[i].StrItem? {
        TextsAreParents(d.items);
        assert forall item | item in d.items :: item.StrItem?;
      }
    }
  }

  // ----- the graph of the files

  predicate HasRevision(sources: seq<Source>, r: string) {
    exists i | 0 <= i < |sources| :: sources[i].revision == r
  }

  /** A revision that no literal names. */
  predicate HeadOfFiles(sources: seq<Source>, r: string) {
    HasRevision(sources, r) && forall i | 0 <= i < |sources| :: !Mentions(sources[i].down, r)
  }

  predicate BaseOfFiles(sources: seq<Source>, r: string) {
    exists i | 0 <= i < |sources| :: sources[i].revision == r && MentionsNothing(sources[i].down)
  }

  /** A file of revision `r` names a parent that is no revision. */
  predicate DanglingInFiles(sources: seq<Source>, r: string, parent: string) {
    && (exists i | 0 <= i < |sources| :: sources[i].revision == r && Mentions(sources[i].down, parent))
    && !HasRevision(sources, parent)
  }

  lemma RevisionsOfFiles(sources: seq<Source>, r: string)
    ensures r in Revisions(RowsByText(sources)) <==> HasRevision(sources, r)
    ensures r in Revisions(RowsByName(sources)) <==> HasRevision(sources, r)
  {
    var t, n := RowsByText(sources), RowsByName(sources);
    if HasRevision(sources, r) {
      var i :| 0 <= i < |sources| && sources[i].revision == r;
      assert t[i] in t && n[i] in n;
    }
    if r in Revisions(t) {
      var row :| row in t && row.revision == r;
      var i :| 0 <= i < |t| && t[i] == row;
    }
    if r in Revisions(n) {
      var row :| row in n && row.revision == r;
      var i :| 0 <= i < |n| && n[i] == row;
    }
  }

  /** The heads are the revisions that no file's literal names. */
  lemma HeadsOfFiles(sources: seq<Source>, r: string)
    ensures r in Heads(RowsByText(sources)) <==> HeadOfFiles(sources, r)
  {
    var rows := RowsByText(sources);
    RevisionsOfFiles(sources, r);
    forall i | 0 <= i < |sources| ensures rows[i] in rows && (r in rows[i].parents <==> Mentions(sources[i].down, r)) {
      ReadingMentions(sources[i].down, r);
    }
    if HeadOfFiles(sources, r) {
      forall row | row in rows ensures r !in row.parents {
        var i :| 0 <= i < |rows| && rows[i] == row;
      }
    }
  }

  lemma BasesOfFiles(sources: seq<Source>, r: string)
    ensures r in BaseList(RowsByText(sources)) <==> BaseOfFiles(sources, r)
  {
    var rows := RowsByText(sources);
    BaseListMembers(rows);
    forall i | 0 <= i < |sources|
      ensures rows[i] in rows && (rows[i].parents == [] <==> MentionsNothing(sources[i].down))
    {
      ReadingMentions(sources[i].down, "");
    }
    if r in BaseList(rows) {
      var row :| row in rows && row.revision == r && row.parents == [];
      var i :| 0 <= i < |rows| && rows[i] == row;
    }
  }

  lemma DanglingOfFiles(sources: seq<Source>, r: string, parent: string)
    ensures (exists row: Row :: row.revision == r && IsDangling(RowsByText(sources), row, parent)) <==>
      DanglingInFiles(sources, r, parent)
  {
    var rows := RowsByText(sources);
    RevisionsOfFiles(sources, parent);
    forall i | 0 <= i < |sources|
      ensures rows[i] in rows && (parent in rows[i].parents <==> Mentions(sources[i].down, parent))
    {
      ReadingMentions(sources[i].down, parent);
    }
    if row: Row :| row.revision == r && IsDangling(rows, row, parent) {
      var i :| 0 <= i < |rows| && rows[i] == row;
    }
    if DanglingInFiles(sources, r, parent) {
      var i :| 0 <= i < |sources| && sources[i].revision == r && Mentions(sources[i].down, parent);
      assert IsDangling(rows, rows[i], parent);
    }
  }

  // ----- the last file of a revision

  predicate LastOfRevision(sources: seq<Source>, i: int) {
    0 <= i < |sources| && forall j | i < j < |sources| :: sources[j].revision != sources[i].revision
  }

  /** An entry of a revision's dictionary comes from the last file of that revision. */
  lemma {:induction false} EntryIsLast(rows: seq<Row>, keys: set<string>, i: nat)
    requires i < |rows| && forall j :: i < j < |rows| ==> rows[j].revision != rows[i].revision
    ensures rows[i].revision in RevisionGraph(rows) && RevisionGraph(rows)[rows[i].revision] == rows[i].parents
    ensures rows[i].revision in ParentMap(rows, keys)
    ensures ParentMap(rows, keys)[rows[i].revision] == Restrict(rows[i].parents, keys)
  {
    var n := |rows| - 1;
    if i < n {
      assert forall j :: 0 <= j < n ==> rows[..n][j] == rows[j];
      EntryIsLast(rows[..n], keys, i);
      assert rows[n].revision != rows[i].revision;
    }
  }

  lemma {:induction false} LastFile(sources: seq<Source>, r: string) returns (i: nat)
    requires HasRevision(sources, r)
    ensures LastOfRevision(sources, i) && sources[i].revision == r
  {
    var n := |sources| - 1;
    if sources[n].revision == r {
      i := n;
    } else {
      assert HasRevision(sources[..n], r) by {
        var k :| 0 <= k < |sources| && sources[k].revision == r;
        assert sources[..n][k].revision == r;
      }
      i := LastFile(sources[..n], r);
      assert sources[..n][i] == sources[i];
      assert forall j :: i < j < n ==> sources[..n][j] == sources[j];
    }
  }

  /** The edges whose cycles migration_verify looks for: from a revision to the known parents that its
      last file names. */
  lemma EdgesOfFiles(sources: seq<Source>, i: nat, parent: string)
    requires LastOfRevision(sources, i)
    ensures var graph := ParentMap(RowsByText(sources), Revisions(RowsByText(sources)));
      && sources[i].revision in graph
      && (parent in graph[sources[i].revision] <==> HasRevision(sources, parent) && Mentions(sources[i].down, parent))
  {
    var rows := RowsByText(sources);
    EntryIsLast(rows, Revisions(rows), i);
    RestrictKeeps(rows[i].parents, Revisions(rows));
    RevisionsOfFiles(sources, parent);
    ReadingMentions(sources[i].down, parent);
  }

  lemma StrictEdgesOfFiles(sources: seq<Source>, i: nat, parent: string)
    requires LastOfRevision(sources, i)
    ensures var graph := RevisionGraph(RowsByName(sources));
      && sources[i].revision in graph
      && (parent in graph[sources[i].revision] <==> StrictlyMentions(sources[i].down, parent))
  {
    var rows := RowsByName(sources);
    EntryIsLast(rows, {}, i);
    StrictReadingMentions(sources[i].down, parent);
  }

  /** The stricter verifier's parents: those that the last file of some revision names in an accepted form. */
  predicate NamedByLast(sources: seq<Source>, parent: string) {
    exists i | 0 <= i < |sources| :: LastOfRevision(sources, i) && StrictlyMentions(sources[i].down, parent)
  }

  lemma ReferencedByFiles(sources: seq<Source>, parent: string)
    ensures parent in Referenced(RowsByName(sources)) <==> NamedByLast(sources, parent)
  {
    var graph := RevisionGraph(RowsByName(sources));
    GraphKeys(RowsByName(sources), {});
    if parent in Referenced(RowsByName(sources)) {
      var r :| r in graph && parent in graph[r];
      RevisionsOfFiles(sources, r);
      var i := LastFile(sources, r);
      StrictEdgesOfFiles(sources, i, parent);
    }
    if NamedByLast(sources, parent) {
      var i :| 0 <= i < |sources| && LastOfRevision(sources, i) && StrictlyMentions(sources[i].down, parent);
      StrictEdgesOfFiles(sources, i, parent);
    }
  }

  /** And its heads: the revisions that the last file of no revision names so. */
  lemma StrictHeadsOfFiles(sources: seq<Source>, r: string)
    ensures r in StrictHeads(RowsByName(sources)) <==> HasRevision(sources, r) && !NamedByLast(sources, r)
  {
    RevisionsOfFiles(sources, r);
    ReferencedByFiles(sources, r);
  }

  lemma MergeMentions(d: DownRevision)
    requires d == NameTuple([StrItem("a"), StrItem("b")])
    ensures forall r :: Mentions(d, r) <==> r == "a" || r == "b"
    ensures forall r :: StrictlyMentions(d, r) <==> r == "a" || r == "b"
  {
    assert StrItem("a") == d.items[0] && StrItem("b") == d.items[1];
  }

  ghost predicate IsMerge(sources: seq<Source>) {
    && |sources| == 3 && sources[0] == Source("a.py", "a", Absent) && sources[1] == Source("b.py", "b", Absent)
    && sources[2] == Source("m.py", "m", NameTuple([StrItem("a"), StrItem("b")]))
  }

  lemma MergeRevisions(sources: seq<Source>, r: string)
    requires IsMerge(sources)
    ensures HasRevision(sources, r) <==> r == "a" || r == "b" || r == "m"
  {
    assert sources[0].revision == "a" && sources[1].revision == "b" && sources[2].revision == "m";
  }

  lemma MergeHeadOfFiles(sources: seq<Source>, r: string)
    requires IsMerge(sources)
    ensures HeadOfFiles(sources, r) <==> r == "m"
  {
    MergeRevisions(sources, r);
    MergeMentions(sources[2].down);
    assert !Mentions(sources[0].down, r) && !Mentions(sources[1].down, r);
  }

  lemma MergeNamedByLast(sources: seq<Source>, r: string)
    requires IsMerge(sources)
    ensures NamedByLast(sources, r) <==> r == "a" || r == "b"
  {
    MergeMentions(sources[2].down);
    assert LastOfRevision(sources, 2);
    assert !StrictlyMentions(sources[0].down, r) && !StrictlyMentions(sources[1].down, r);
  }

  /** A merge of `a` and `b`: both verifiers see the merge as the only head. */
  lemma MergeHasOneHead(sources: seq<Source>)
    requires IsMerge(sources)
    ensures forall r :: r in Heads(RowsByText(sources)) <==> r == "m"
    ensures forall r :: r in StrictHeads(RowsByName(sources)) <==> r == "m"
  {
    forall r ensures r in Heads(RowsByText(sources)) <==> r == "m" {
      HeadsOfFiles(sources, r);
      MergeHeadOfFiles(sources, r);
    }
    forall r ensures r in StrictHeads(RowsByName(sources)) <==> r == "m" {
      StrictHeadsOfFiles(sources, r);
      MergeRevisions(sources, r);
      MergeNamedByLast(sources, r);
    }
  }
}
