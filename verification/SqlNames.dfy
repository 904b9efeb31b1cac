/** What a table is called: `_sql_name`, tools/semantic_platform_generate.py. */
module SqlNames {
  import opened SqlLiteral
  import opened SchemaCompiler

  const PREFIX := "approval.object."

  /** `k` is a place where the prefix occurs. */
  predicate OccursAt(s: string, k: int) {
    0 <= k <= |s| - |PREFIX| && s[k..k + |PREFIX|] == PREFIX
  }

  predicate FreeOfPrefix(s: string) {
    forall k :: 0 <= k <= |s| - |PREFIX| ==> !OccursAt(s, k)
  }

  function Join(parts: seq<string>, separator: string): string
    requires parts != []
  {
    if |parts| == 1 then parts[0] else parts[0] + separator + Join(parts[1..], separator)
  }

  /** Dots become underscores, and every other character stays. */
  function Underscored(s: string): (t: string)
    ensures |t| == |s| && forall i :: 0 <= i < |s| ==> t[i] == if s[i] == '.' then '_' else s[i]
  {
    seq(|s|, i requires 0 <= i < |s| => if s[i] == '.' then '_' else s[i])
  }

  function AllUnderscored(parts: seq<string>): (r: seq<string>)
    ensures |r| == |parts| && forall i :: 0 <= i < |parts| ==> r[i] == Underscored(parts[i])
  {
    seq(|parts|, i requires 0 <= i < |parts| => Underscored(parts[i]))
  }

  // ----- the second replacement

  lemma {:induction false} DotsReplaced(s: string)
    ensures Replace(s, ".", "_") == Underscored(s)
  {
    if s != "" {
      DotsReplaced(s[1..]);
      assert "." <= s <==> s[0] == '.';
      assert Underscored(s) == [if s[0] == '.' then '_' else s[0]] + Underscored(s[1..]);
    }
  }

  lemma UnderscoredConcat(a: string, b: string)
    ensures Underscored(a + b) == Underscored(a) + Underscored(b)
  {
  }

  lemma {:induction false} UnderscoredJoin(parts: seq<string>)
    requires parts != []
    ensures Underscored(Join(parts, "approval_")) == Join(AllUnderscored(parts), "approval_")
  {
    if |parts| > 1 {
      UnderscoredJoin(parts[1..]);
      assert AllUnderscored(parts)[1..] == AllUnderscored(parts[1..]);
      assert Underscored("approval_") == "approval_";
      UnderscoredConcat(parts[0], "approval_");
      UnderscoredConcat(parts[0] + "approval_", Join(parts[1..], "approval_"));
    }
  }

  // ----- the first: the prefix does not overlap itself

  lemma NoOverlap(k: nat)
    requires 0 < k < |PREFIX|
    ensures PREFIX[k] != PREFIX[0] || (k + 1 < |PREFIX| && PREFIX[k + 1] != PREFIX[1])
  {
    assert PREFIX == ['a', 'p', 'p', 'r', 'o', 'v', 'a', 'l', '.', 'o', 'b', 'j', 'e', 'c', 't', '.'];
  }

  lemma OccursHere(s: string, i: nat)
    requires i <= |s| && PREFIX <= s[i..]
    ensures OccursAt(s, i) && forall j :: 0 <= j < |PREFIX| ==> s[i + j] == PREFIX[j]
  {
    assert s[i..][..|PREFIX|] == s[i..i + |PREFIX|];
    assert forall j :: 0 <= j < |PREFIX| ==> s[i..][j] == s[i + j];
  }

  lemma NoneInside(part: string, rest: string, i: nat)
    requires FreeOfPrefix(part) && i < |part|
    ensures !(PREFIX <= (part + PREFIX + rest)[i..])
  {
    var s, k := part + PREFIX + rest, |part| - i;
    if i + |PREFIX| <= |part| {
      assert !OccursAt(part, i);
      assert s[i..i + |PREFIX|] == part[i..i + |PREFIX|];
    } else {
      NoOverlap(k);
      assert s[i + k] == PREFIX[0];
      assert k + 1 < |PREFIX| ==> s[i + (k + 1)] == PREFIX[1];
    }
    if PREFIX <= s[i..] {
      OccursHere(s, i);
    }
  }

  lemma NoneAtEnd(part: string, i: nat)
    requires FreeOfPrefix(part) && i < |part|
    ensures !(PREFIX <= part[i..])
  {
    if PREFIX <= part[i..] {
      OccursHere(part, i);
    }
  }

  lemma {:induction false} ReplaceSkips(part: string, rest: string, with: string)
    requires forall i :: 0 <= i < |part| ==> !(PREFIX <= (part + rest)[i..])
    ensures Replace(part + rest, PREFIX, with) == part + Replace(rest, PREFIX, with)
  {
    if part == "" {
      assert part + rest == rest;
    } else {
      var s := part + rest;
      assert s[0..] == s && s[1..] == part[1..] + rest;
      forall i | 0 <= i < |part[1..]| ensures !(PREFIX <= (part[1..] + rest)[i..]) {
        assert (part[1..] + rest)[i..] == s[i + 1..];
      }
      ReplaceSkips(part[1..], rest, with);
      assert part == [part[0]] + part[1..];
    }
  }

  lemma ReplacePart(part: string, rest: string, with: string)
    requires FreeOfPrefix(part)
    ensures Replace(part + PREFIX + rest, PREFIX, with) == part + with + Replace(rest, PREFIX, with)
  {
    assert part + PREFIX + rest == part + (PREFIX + rest);
    forall i | 0 <= i < |part| ensures !(PREFIX <= (part + (PREFIX + rest))[i..]) {
      NoneInside(part, rest, i);
    }
    ReplaceSkips(part, PREFIX + rest, with);
    assert (PREFIX + rest)[|PREFIX|..] == rest;
  }

  lemma ReplaceLast(part: string, with: string)
    requires FreeOfPrefix(part)
    ensures Replace(part, PREFIX, with) == part
  {
    assert part + "" == part;
    forall i | 0 <= i < |part| ensures !(PREFIX <= (part + "")[i..]) {
      NoneAtEnd(part, i);
    }
    ReplaceSkips(part, "", with);
  }

  lemma {:induction false} PrefixReplaced(parts: seq<string>, with: string)
    requires parts != [] && forall part :: part in parts ==> FreeOfPrefix(part)
    ensures Replace(Join(parts, PREFIX), PREFIX, with) == Join(parts, with)
  {
    if |parts| == 1 {
      ReplaceLast(parts[0], with);
    } else {
      PrefixReplaced(parts[1..], with);
      ReplacePart(parts[0], Join(parts[1..], PREFIX), with);
    }
  }

  // ----- the names

  /** The prefix is contracted wherever it occurs, every other dot becomes an underscore, and all else stays. */
  lemma SqlNameOfParts(parts: seq<string>)
    requires parts != [] && forall part :: part in parts ==> FreeOfPrefix(part)
    ensures SqlName(Join(parts, "approval.object.")) == Join(AllUnderscored(parts), "approval_")
  {
    PrefixReplaced(parts, "approval_");
    DotsReplaced(Join(parts, "approval_"));
    UnderscoredJoin(parts);
  }

  lemma {:induction false} FirstOccurrence(s: string, n: nat) returns (k: nat)
    requires n <= |s| - |PREFIX| && OccursAt(s, n)
    ensures k <= n && OccursAt(s, k) && forall j :: 0 <= j < k ==> !OccursAt(s, j)
  {
    if j :| 0 <= j < n && OccursAt(s, j) {
      k := FirstOccurrence(s, j);
    } else {
      k := n;
    }
  }

  /** Every identifier has such parts. */
  lemma {:induction false} PartsOf(s: string) returns (parts: seq<string>)
    ensures parts != [] && Join(parts, PREFIX) == s && forall part :: part in parts ==> FreeOfPrefix(part)
    decreases |s|
  {
    if FreeOfPrefix(s) {
      parts := [s];
    } else {
      var n :| 0 <= n <= |s| - |PREFIX| && OccursAt(s, n);
      var k := FirstOccurrence(s, n);
      var rest := PartsOf(s[k + |PREFIX|..]);
      parts := [s[..k]] + rest;
      assert parts[1..] == rest;
      forall j | 0 <= j <= k - |PREFIX| ensures !OccursAt(s[..k], j) {
        assert s[..k][j..j + |PREFIX|] == s[j..j + |PREFIX|];
        assert !OccursAt(s, j);
      }
      assert s == s[..k] + PREFIX + s[k + |PREFIX|..] by {
        assert s[k..k + |PREFIX|] == PREFIX;
      }
    }
  }

  lemma DotlessIsFree(s: string)
    requires '.' !in s
    ensures FreeOfPrefix(s)
  {
    forall k | 0 <= k <= |s| - |PREFIX| ensures !OccursAt(s, k) {
      assert PREFIX[8] == '.' && s[k..k + |PREFIX|][8] == s[k + 8];
    }
  }

  /** An approval object's table is called after it. */
  lemma ApprovalObjectName(x: string)
    requires '.' !in x
    ensures SqlName("approval.object." + x) == "approval_" + x
  {
    DotlessIsFree("");
    DotlessIsFree(x);
    SqlNameOfParts(["", x]);
    assert ["", x][1..] == [x];
    assert Join(["", x], PREFIX) == "" + PREFIX + Join([x], PREFIX) == "approval.object." + x;
    assert Underscored(x) == x && Underscored("") == "";
    assert AllUnderscored(["", x]) == ["", x];
  }

  /** A name without dots is its own table's. */
  lemma PlainName(x: string)
    requires '.' !in x
    ensures SqlName(x) == x
  {
    DotlessIsFree(x);
    SqlNameOfParts([x]);
    assert Underscored(x) == x;
    assert AllUnderscored([x]) == [x];
  }
}
