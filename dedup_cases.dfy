/** Consequences of `load_policy_line` pushing and then calling
    `Vec::dedup`: a rule repeated directly after itself is stored once, a
    rule repeated with another rule in between is stored twice. */
module DedupCases {
  import opened Wrappers
  import opened PolicyModel
  import opened FileAdapter
  import opened LoadProperties
  import opened RoundTrip

  /** Two identical consecutive lines store one row. */
  lemma AdjacentRepeatStoredOnce(t: Table, c: char, ptype: string, r: Row)
    requires c != '#' && [c] in t && ptype in t[[c]] && t[[c]][ptype] == []
    requires TypeSafe(ptype, c) && RowSafe(r)
    ensures var l := RuleLine(Entry(ptype, r));
      LoadLines(t, [l, l]) == Some(t[[c] := t[[c]][ptype := [r]]])
  {
    var l := RuleLine(Entry(ptype, r));
    var t1 := t[[c] := t[[c]][ptype := [r]]];
    FirstLoadedLine(t, c, ptype, r);
    LoadLinesAppend(t, [l], [l]);
    assert [l] + [l] == [l, l];
    RepeatedLineIgnored(t1, c, ptype, r);
  }

  lemma FirstLoadedLine(t: Table, c: char, ptype: string, r: Row)
    requires c != '#' && [c] in t && ptype in t[[c]] && t[[c]][ptype] == []
    requires TypeSafe(ptype, c) && RowSafe(r)
    ensures LoadLines(t, [RuleLine(Entry(ptype, r))]) == Some(t[[c] := t[[c]][ptype := [r]]])
  {
    assert BlockSafe(c, ptype, [r]);
    LoadTypeBlock(t, c, ptype, [r]);
    assert RuleLines(TypeEntries(ptype, [r])) == [RuleLine(Entry(ptype, r))];
  }

  lemma RepeatedLineIgnored(t: Table, c: char, ptype: string, r: Row)
    requires c != '#' && [c] in t && ptype in t[[c]] && t[[c]][ptype] == [r]
    requires TypeSafe(ptype, c) && RowSafe(r)
    ensures LoadLines(t, [RuleLine(Entry(ptype, r))]) == Some(t)
  {
    var l := RuleLine(Entry(ptype, r));
    assert [l][..0] == [];
    ParseRuleLine(Entry(ptype, r), c);
    RuleLineStores(t, l);
    assert t[[c] := t[[c]][ptype := [r]]] == t by {
      assert t[[c]][ptype := [r]] == t[[c]];
    }
  }

  /** The same line separated by another one is stored twice: only
      adjacent duplicates are removed. */
  lemma DistantRepeatStoredTwice(t: Table, c: char, ptype: string, a: Row, b: Row)
    requires c != '#' && [c] in t && ptype in t[[c]] && t[[c]][ptype] == []
    requires TypeSafe(ptype, c) && RowSafe(a) && RowSafe(b) && a != b
    ensures var la, lb := RuleLine(Entry(ptype, a)), RuleLine(Entry(ptype, b));
      LoadLines(t, [la, lb, la]) == Some(t[[c] := t[[c]][ptype := [a, b, a]]])
  {
    var rows := [a, b, a];
    assert BlockSafe(c, ptype, rows);
    LoadTypeBlock(t, c, ptype, rows);
    assert RuleLines(TypeEntries(ptype, rows))
        == [RuleLine(Entry(ptype, a)), RuleLine(Entry(ptype, b)), RuleLine(Entry(ptype, a))];
  }
}
