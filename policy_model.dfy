/** The part of casbin's `Model` that the file adapter touches: for each
    section (`"p"`, `"g"`, ...) and each policy type of that section
    (`"p"`, `"p2"`, `"g"`, ...) the ordered sequence of policy rows. The
    model's `Model` type itself is not part of this model; only its
    `policy` vectors are represented. */
module PolicyModel {

  /** One policy rule: its fields, without the policy type. */
  type Row = seq<string>

  /** Section -> policy type -> rows. */
  type Table = map<string, map<string, seq<Row>>>

  predicate NoAdjacentDuplicates<T(==)>(s: seq<T>) {
    forall i :: 0 < i < |s| ==> s[i - 1] != s[i]
  }

  /** Every policy vector of the table is free of adjacent duplicates. */
  predicate NoAdjacentDuplicateRows(t: Table) {
    forall sec, ptype :: sec in t && ptype in t[sec] ==> NoAdjacentDuplicates(t[sec][ptype])
  }

  /** `b` has the sections of `a`, and each section the same policy types. */
  predicate SameKeys(a: Table, b: Table) {
    b.Keys == a.Keys && forall sec :: sec in a ==> b[sec].Keys == a[sec].Keys
  }

  /** `Vec::dedup`: of every run of equal neighbours only the first is
      kept. */
  function Dedup<T(==)>(s: seq<T>): (r: seq<T>)
    ensures NoAdjacentDuplicates(r)
    ensures |r| <= |s|
    ensures s != [] ==> r != [] && r[0] == s[0] && r[|r| - 1] == s[|s| - 1]
    decreases |s|
  {
    if |s| <= 1 then s
    else
      var d := Dedup(s[..|s| - 1]);
      if s[|s| - 1] == s[|s| - 2] then d else d + [s[|s| - 1]]
  }

  /** `dedup` removes only repeats: the result holds the same elements. */
  lemma {:induction false} DedupSameElements<T>(s: seq<T>)
    ensures forall i :: 0 <= i < |Dedup(s)| ==> Dedup(s)[i] in s
    ensures forall i :: 0 <= i < |s| ==> s[i] in Dedup(s)
    decreases |s|
  {
    if |s| > 1 {
      var init, d := s[..|s| - 1], Dedup(s[..|s| - 1]);
      DedupSameElements(init);
      assert forall i :: 0 <= i < |init| ==> init[i] == s[i];
      assert d[|d| - 1] == s[|s| - 2];
    }
  }

  /** The number of places in `s[..i + 1]` where an element differs from
      its predecessor: the run of equal neighbours that `s[i]` belongs to,
      counted from 0. */
  function RunIndex<T(==)>(s: seq<T>, i: nat): (r: nat)
    requires i < |s|
    ensures r <= i
  {
    if i == 0 then 0 else RunIndex(s, i - 1) + (if s[i - 1] != s[i] then 1 else 0)
  }

  lemma {:induction false} RunIndexPrefix<T>(s: seq<T>, m: nat, i: nat)
    requires i < m <= |s|
    ensures RunIndex(s[..m], i) == RunIndex(s, i)
  {
    if i > 0 {
      RunIndexPrefix(s, m, i - 1);
    }
  }

  /** `dedup` keeps one element per run of equal neighbours, in order: the
      result has as many elements as the input has runs, and the element at
      input position `i` is found at the index of its run. Elements that
      are equal but not neighbours therefore all survive. */
  lemma {:induction false} DedupRuns<T>(s: seq<T>)
    requires s != []
    ensures |Dedup(s)| == RunIndex(s, |s| - 1) + 1
    ensures forall i {:trigger RunIndex(s, i)} :: 0 <= i < |s| ==> RunIndex(s, i) < |Dedup(s)| && Dedup(s)[RunIndex(s, i)] == s[i]
    decreases |s|
  {
    var n := |s|;
    if n > 1 {
      var init, d := s[..n - 1], Dedup(s[..n - 1]);
      DedupRuns(init);
      assert |d| == RunIndex(s, n - 2) + 1 by {
        RunIndexPrefix(s, n - 1, n - 2);
      }
      forall i | 0 <= i < n - 1
        ensures RunIndex(s, i) < |d| && d[RunIndex(s, i)] == s[i]
      {
        RunIndexPrefix(s, n - 1, i);
        assert init[i] == s[i];
      }
      DedupRunsStep(s, d);
      assert Dedup(s) == if s[n - 1] == s[n - 2] then d else d + [s[n - 1]];
    }
  }

  /** Given the result `d` for all but the last element, the last element
      extends it by one exactly when it starts a new run. */
  lemma DedupRunsStep<T>(s: seq<T>, d: seq<T>)
    requires |s| > 1 && |d| == RunIndex(s, |s| - 2) + 1
    requires forall i {:trigger RunIndex(s, i)} :: 0 <= i < |s| - 1 ==> RunIndex(s, i) < |d| && d[RunIndex(s, i)] == s[i]
    ensures var n := |s|;
      var r := if s[n - 1] == s[n - 2] then d else d + [s[n - 1]];
      |r| == RunIndex(s, n - 1) + 1
      && forall i {:trigger RunIndex(s, i)} :: 0 <= i < n ==> RunIndex(s, i) < |r| && r[RunIndex(s, i)] == s[i]
  {
    var n := |s|;
    var r := if s[n - 1] == s[n - 2] then d else d + [s[n - 1]];
    forall i | 0 <= i < n
      ensures RunIndex(s, i) < |r| && r[RunIndex(s, i)] == s[i]
    {
      if i < n - 1 {
        assert r[RunIndex(s, i)] == d[RunIndex(s, i)];
      } else {
        assert d[RunIndex(s, n - 2)] == s[n - 2];
      }
    }
  }

  /** `dedup` changes a vector exactly when it has adjacent duplicates. */
  lemma {:induction false} DedupIdentity<T>(s: seq<T>)
    ensures Dedup(s) == s <==> NoAdjacentDuplicates(s)
    decreases |s|
  {
    if |s| <= 1 {
      assert Dedup(s) == s;
    } else if !NoAdjacentDuplicates(s) {
      assert NoAdjacentDuplicates(Dedup(s));
    } else {
      var init := s[..|s| - 1];
      assert NoAdjacentDuplicates(init) by {
        forall i | 0 < i < |init| ensures init[i - 1] != init[i] {
          assert init[i - 1] == s[i - 1] && init[i] == s[i];
        }
      }
      DedupIdentity(init);
      assert s[|s| - 1] != s[|s| - 2];
      assert Dedup(s) == Dedup(init) + [s[|s| - 1]];
      assert s == init + [s[|s| - 1]];
    }
  }

  /** Pushing `x` onto a vector without adjacent duplicates and then
      deduplicating keeps every earlier element and adds `x` unless it
      equals the last element. */
  lemma DedupPush<T>(s: seq<T>, x: T)
    requires NoAdjacentDuplicates(s)
    ensures Dedup(s + [x]) == if s != [] && s[|s| - 1] == x then s else s + [x]
  {
    DedupIdentity(s);
    var t := s + [x];
    assert t[..|t| - 1] == s;
  }

  /** The in-memory model whose policy vectors the adapter fills. */
  class Model {
    var model: Table

    constructor (t: Table)
      ensures model == t
    {
      model := t;
    }
  }
}
