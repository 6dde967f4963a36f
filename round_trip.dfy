/** Saving the `p` and `g` policies and loading the saved text back into a
    model with the same policy types and no rows restores every row, as
    long as the stored values survive the format: the format has no
    quoting, so a field may not hold ',' or a line break, trimming removes
    surrounding whitespace, an empty row comes back as one empty field,
    and loading drops a row equal to its predecessor. */
module RoundTrip {
  import opened Wrappers
  import opened Strings
  import opened PolicyModel
  import opened FileAdapter
  import opened LoadProperties
  import opened SaveProperties

  /** A policy type that reads back as itself and selects section `[c]`. */
  predicate TypeSafe(ptype: string, c: char) {
    ptype != "" && ptype[0] == c && Trimmed(ptype) && ',' !in ptype && '\n' !in ptype
  }

  predicate FieldSafe(f: string) {
    Trimmed(f) && ',' !in f && '\n' !in f
  }

  predicate RowSafe(row: Row) {
    |row| > 0 && forall i :: 0 <= i < |row| ==> FieldSafe(row[i])
  }

  /** Every type of the section, and every row stored under it, survives
      the format; no type holds adjacent duplicate rows. */
  predicate SectionSafe(sec: map<string, seq<Row>>, c: char) {
    (forall ptype :: ptype in sec ==> TypeSafe(ptype, c) && NoAdjacentDuplicates(sec[ptype]))
    && (forall ptype, row :: ptype in sec && row in sec[ptype] ==> RowSafe(row))
  }

  predicate RoundTripSafe(t: Table, pTypes: seq<string>, gTypes: seq<string>) {
    "p" in t && "g" in t
    && Enumerates(pTypes, t["p"]) && Enumerates(gTypes, t["g"])
    && SectionSafe(t["p"], 'p') && SectionSafe(t["g"], 'g')
  }

  /** The same policy types with no rows. */
  function EmptyRows(sec: map<string, seq<Row>>): (r: map<string, seq<Row>>)
    ensures r.Keys == sec.Keys
    ensures forall k :: k in r ==> r[k] == []
  {
    map k | k in sec :: []
  }

  /** The model before loading: the `p` and `g` types of `t`, without rows. */
  function ClearedPolicies(t: Table): (c: Table)
    requires "p" in t && "g" in t
    ensures c.Keys == t.Keys
    ensures c["p"] == EmptyRows(t["p"]) && c["g"] == EmptyRows(t["g"])
    ensures forall s :: s in t && s != "p" && s != "g" ==> c[s] == t[s]
  {
    t["p" := EmptyRows(t["p"])]["g" := EmptyRows(t["g"])]
  }

  /** Splitting a saved line on ',' gives its type, then its first field
      behind the separator's space, then the other fields. */
  lemma SplitRuleLine(e: Entry)
    requires ',' !in e.ptype && |e.rule| > 0
    requires forall i :: 0 <= i < |e.rule| ==> ',' !in e.rule[i]
    ensures Split(RuleLine(e), ',') == [e.ptype, " " + e.rule[0]] + e.rule[1..]
  {
    var ptype, rule := e.ptype, e.rule;
    var rest := " " + Join(rule, ',');
    var parts := [" " + rule[0]] + rule[1..];
    assert Split(rest, ',') == parts by {
      JoinWithPrefix(" ", rule, ',');
      assert ',' !in " " + rule[0];
      assert forall i :: 0 <= i < |parts| ==> ',' !in parts[i];
      SplitJoin(parts, ',');
    }
    assert RuleLine(e) == ptype + [','] + rest by {
      assert ", " == [','] + " ";
    }
    SplitAfterFirst(ptype, rest, ',');
  }

  lemma TrimAllIs(pieces: seq<string>, target: seq<string>)
    requires |pieces| == |target|
    requires forall i :: 0 <= i < |pieces| ==> Trim(pieces[i]) == target[i]
    ensures TrimAll(pieces) == target
  {
  }

  /** Trimming those pieces gives the type followed by the row. */
  lemma TrimRulePieces(ptype: string, rule: Row)
    requires Trimmed(ptype) && |rule| > 0
    requires forall i :: 0 <= i < |rule| ==> Trimmed(rule[i])
    ensures TrimAll([ptype, " " + rule[0]] + rule[1..]) == [ptype] + rule
  {
    var pieces := [ptype, " " + rule[0]] + rule[1..];
    var target := [ptype] + rule;
    forall i | 0 <= i < |pieces| ensures Trim(pieces[i]) == target[i] {
      if i == 0 {
        TrimFixpoint(ptype);
      } else if i == 1 {
        TrimAfterSpace(rule[0]);
      } else {
        assert pieces[i] == rule[i - 1] == target[i];
        TrimFixpoint(rule[i - 1]);
      }
    }
    TrimAllIs(pieces, target);
  }

  /** A saved line parses back into its type and row. */
  lemma ParseRuleLine(e: Entry, c: char)
    requires c != '#' && TypeSafe(e.ptype, c) && RowSafe(e.rule)
    ensures ParseLine(RuleLine(e)) == Rule(e.ptype, e.rule)
  {
    var line := RuleLine(e);
    SplitRuleLine(e);
    TrimRulePieces(e.ptype, e.rule);
    assert line[0] == c;
    var tokens := Tokens(line);
    assert tokens == [e.ptype] + e.rule;
    assert tokens[1..] == e.rule;
  }

  /** A saved line holds no line break and does not end with '\r', so it
      is read back as a line of its own. */
  lemma RuleLineSingle(e: Entry, c: char)
    requires TypeSafe(e.ptype, c) && RowSafe(e.rule)
    ensures SingleLine(RuleLine(e))
  {
    var rule := e.rule;
    var j := Join(rule, ',');
    var line := RuleLine(e);
    JoinAvoids(rule, ',', '\n');
    JoinEnd(rule, ',');
    assert line == e.ptype + ", " + j;
    var l := rule[|rule| - 1];
    if |l| > 0 {
      assert line[|line| - 1] == j[|j| - 1] == l[|l| - 1];
    } else if |rule| > 1 {
      assert line[|line| - 1] == j[|j| - 1] == ',';
    } else {
      assert j == "";
      assert line[|line| - 1] == ' ';
    }
  }

  /** A saved line that does not repeat the last stored row of its type is
      appended to that type's rows. */
  lemma ApplySavedLine(t: Table, c: char, ptype: string, init: seq<Row>, r: Row)
    requires c != '#' && [c] in t && ptype in t[[c]] && t[[c]][ptype] == init
    requires TypeSafe(ptype, c) && RowSafe(r) && NoAdjacentDuplicates(init + [r])
    ensures ApplyLine(t, RuleLine(Entry(ptype, r))) == Some(t[[c] := t[[c]][ptype := init + [r]]])
  {
    var line := RuleLine(Entry(ptype, r));
    ParseRuleLine(Entry(ptype, r), c);
    assert SectionOf(ptype) == [c];
    var rows := init + [r];
    if init != [] {
      assert rows[|init| - 1] != rows[|init|];
      assert rows[|init| - 1] == init[|init| - 1];
    }
    assert NoAdjacentDuplicates(init) by {
      assert forall i :: 0 <= i < |init| ==> init[i] == rows[i];
    }
    DedupPush(init, r);
  }

  lemma TypeLinesPrefix(ptype: string, rows: seq<Row>)
    requires rows != []
    ensures var lines := RuleLines(TypeEntries(ptype, rows));
      lines[..|rows| - 1] == RuleLines(TypeEntries(ptype, rows[..|rows| - 1]))
      && lines[|rows| - 1] == RuleLine(Entry(ptype, rows[|rows| - 1]))
  {
  }

  /** The rows of one type may be saved and loaded back. */
  predicate BlockSafe(c: char, ptype: string, rows: seq<Row>) {
    c != '#' && TypeSafe(ptype, c) && NoAdjacentDuplicates(rows)
    && forall i :: 0 <= i < |rows| ==> RowSafe(rows[i])
  }

  lemma BlockSafePrefix(c: char, ptype: string, rows: seq<Row>)
    requires rows != [] && BlockSafe(c, ptype, rows)
    ensures BlockSafe(c, ptype, rows[..|rows| - 1])
  {
    var init := rows[..|rows| - 1];
    assert forall i :: 0 <= i < |init| ==> init[i] == rows[i];
  }

  /** Setting a type's rows twice keeps the second setting. */
  lemma UpdateRowsTwice(t: Table, s: string, k: string, a: seq<Row>, b: seq<Row>)
    requires s in t
    ensures var t1 := t[s := t[s][k := a]];
      t1[s := t1[s][k := b]] == t[s := t[s][k := b]]
  {
    var t1 := t[s := t[s][k := a]];
    assert t1[s][k := b] == t[s][k := b];
  }

  /** Loading one more line after a prefix whose load is known. */
  lemma LoadLinesSnoc(t: Table, lines: seq<string>, t1: Table)
    requires lines != [] && LoadLines(t, lines[..|lines| - 1]) == Some(t1)
    ensures LoadLines(t, lines) == ApplyLine(t1, lines[|lines| - 1])
  {
  }

  /** The last line of a type's block, applied after the others, appends
      its row. */
  lemma ApplyLastOfBlock(t: Table, c: char, ptype: string, rows: seq<Row>)
    requires [c] in t && ptype in t[[c]]
    requires rows != [] && BlockSafe(c, ptype, rows)
    ensures ApplyLine(t[[c] := t[[c]][ptype := rows[..|rows| - 1]]], RuleLine(Entry(ptype, rows[|rows| - 1])))
            == Some(t[[c] := t[[c]][ptype := rows]])
  {
    var s := [c];
    var init, r := rows[..|rows| - 1], rows[|rows| - 1];
    var t1 := t[s := t[s][ptype := init]];
    assert init + [r] == rows;
    ApplySavedLine(t1, c, ptype, init, r);
    UpdateRowsTwice(t, s, ptype, init, rows);
  }

  /** The last line of a type's block appends its row. */
  lemma LoadTypeBlockStep(t: Table, c: char, ptype: string, rows: seq<Row>)
    requires [c] in t && ptype in t[[c]]
    requires rows != [] && BlockSafe(c, ptype, rows)
    requires LoadLines(t, RuleLines(TypeEntries(ptype, rows[..|rows| - 1])))
             == Some(t[[c] := t[[c]][ptype := rows[..|rows| - 1]]])
    ensures LoadLines(t, RuleLines(TypeEntries(ptype, rows))) == Some(t[[c] := t[[c]][ptype := rows]])
  {
    var lines := RuleLines(TypeEntries(ptype, rows));
    TypeLinesPrefix(ptype, rows);
    LoadLinesSnoc(t, lines, t[[c] := t[[c]][ptype := rows[..|rows| - 1]]]);
    ApplyLastOfBlock(t, c, ptype, rows);
  }

  /** Loading the lines of one type into a model where that type has no
      rows yet stores exactly its rows. */
  lemma {:induction false} LoadTypeBlock(t: Table, c: char, ptype: string, rows: seq<Row>)
    requires [c] in t && ptype in t[[c]] && t[[c]][ptype] == []
    requires BlockSafe(c, ptype, rows)
    ensures LoadLines(t, RuleLines(TypeEntries(ptype, rows))) == Some(t[[c] := t[[c]][ptype := rows]])
    decreases |rows|
  {
    if rows == [] {
      var s := [c];
      assert RuleLines(TypeEntries(ptype, rows)) == [];
      assert t[s][ptype := rows] == t[s];
      assert t[s := t[s]] == t;
    } else {
      BlockSafePrefix(c, ptype, rows);
      LoadTypeBlock(t, c, ptype, rows[..|rows| - 1]);
      LoadTypeBlockStep(t, c, ptype, rows);
    }
  }

  /** `base` with the types of `types` taken from `src`. */
  function Overlay(base: map<string, seq<Row>>, src: map<string, seq<Row>>, types: seq<string>)
    : (r: map<string, seq<Row>>)
    requires forall k :: k in types ==> k in src
    ensures r.Keys == base.Keys + set k | k in types
    ensures forall k :: k in r ==> r[k] == if k in types then src[k] else base[k]
  {
    base + map k | k in types :: src[k]
  }

  lemma OverlaySnoc(base: map<string, seq<Row>>, src: map<string, seq<Row>>, init: seq<string>, last: string)
    requires forall k :: k in init ==> k in src
    requires last in src
    ensures Overlay(base, src, init)[last := src[last]] == Overlay(base, src, init + [last])
  {
    var a := Overlay(base, src, init)[last := src[last]];
    var b := Overlay(base, src, init + [last]);
    assert forall k :: k in init + [last] <==> k in init || k == last;
    assert a.Keys == b.Keys;
    assert forall k :: k in a ==> a[k] == b[k];
  }

  /** Every type of a safe section holds a safe block of rows. */
  lemma SectionBlockSafe(sec: map<string, seq<Row>>, c: char, k: string)
    requires c != '#' && SectionSafe(sec, c) && k in sec
    ensures BlockSafe(c, k, sec[k])
  {
    forall i | 0 <= i < |sec[k]| ensures RowSafe(sec[k][i]) {
      assert sec[k][i] in sec[k];
    }
  }

  lemma SetSectionTwice(t: Table, s: string, a: map<string, seq<Row>>, b: map<string, seq<Row>>)
    ensures t[s := a][s := b] == t[s := b]
  {
  }

  /** The lines of a section are those of all but its last type, then
      those of the last type. */
  lemma SectionLinesSnoc(sec: map<string, seq<Row>>, types: seq<string>)
    requires types != [] && forall k :: k in types ==> k in sec
    ensures var init, last := types[..|types| - 1], types[|types| - 1];
      RuleLines(SectionEntries(sec, types))
        == RuleLines(SectionEntries(sec, init)) + RuleLines(TypeEntries(last, sec[last]))
  {
    var init, last := types[..|types| - 1], types[|types| - 1];
    RuleLinesAppend(SectionEntries(sec, init), TypeEntries(last, sec[last]));
  }

  /** Loading the lines of a section into a model where its types have no
      rows yet stores the rows of every type the lines cover. */
  lemma {:induction false} LoadSection(t: Table, c: char, sec: map<string, seq<Row>>, types: seq<string>)
    requires c != '#' && [c] in t
    requires forall k :: k in types ==> k in sec && k in t[[c]] && t[[c]][k] == []
    requires forall i, j :: 0 <= i < j < |types| ==> types[i] != types[j]
    requires SectionSafe(sec, c)
    ensures LoadLines(t, RuleLines(SectionEntries(sec, types))) == Some(t[[c] := Overlay(t[[c]], sec, types)])
    decreases |types|
  {
    var s := [c];
    if types == [] {
      assert Overlay(t[s], sec, types) == t[s];
      assert t[s := t[s]] == t;
    } else {
      var init, last := types[..|types| - 1], types[|types| - 1];
      assert types == init + [last];
      assert last !in init;
      SectionLinesSnoc(sec, types);
      LoadLinesAppend(t, RuleLines(SectionEntries(sec, init)), RuleLines(TypeEntries(last, sec[last])));
      LoadSection(t, c, sec, init);
      var o1 := Overlay(t[s], sec, init);
      SectionBlockSafe(sec, c, last);
      LoadTypeBlock(t[s := o1], c, last, sec[last]);
      OverlaySnoc(t[s], sec, init, last);
      SetSectionTwice(t, s, o1, o1[last := sec[last]]);
    }
  }

  /** Overlaying every type of `src` onto its emptied copy gives `src`. */
  lemma OverlayAll(src: map<string, seq<Row>>, types: seq<string>)
    requires Enumerates(types, src)
    ensures Overlay(EmptyRows(src), src, types) == src
  {
  }

  /** Every saved line is a single line. */
  lemma SavedLinesSingle(t: Table, pTypes: seq<string>, gTypes: seq<string>)
    requires RoundTripSafe(t, pTypes, gTypes)
    ensures var ls := RuleLines(SavedEntries(t, pTypes, gTypes));
      forall i :: 0 <= i < |ls| ==> SingleLine(ls[i])
  {
    var es := SavedEntries(t, pTypes, gTypes);
    var pe, ge := SectionEntries(t["p"], pTypes), SectionEntries(t["g"], gTypes);
    SectionEntriesOrigin(t["p"], pTypes);
    SectionEntriesOrigin(t["g"], gTypes);
    forall i | 0 <= i < |es| ensures SingleLine(RuleLines(es)[i]) {
      if i < |pe| {
        assert es[i] == pe[i];
        RuleLineSingle(es[i], 'p');
      } else {
        assert es[i] == ge[i - |pe|];
        RuleLineSingle(es[i], 'g');
      }
    }
  }

  /** The saved text holds exactly one '\n' per saved rule, is empty only
      when there is no rule, and otherwise ends with a '\n'. */
  lemma SavedTextShape(t: Table, pTypes: seq<string>, gTypes: seq<string>)
    requires RoundTripSafe(t, pTypes, gTypes)
    ensures var text, es := SavedText(t, pTypes, gTypes), SavedEntries(t, pTypes, gTypes);
      Count(text, '\n') == |es|
      && (text == [] <==> es == [])
      && (text != [] ==> text[|text| - 1] == '\n')
  {
    SavedLinesSingle(t, pTypes, gTypes);
    JoinLinesNewlines(RuleLines(SavedEntries(t, pTypes, gTypes)));
  }

  /** Every saved line reads back as itself. */
  lemma SavedLinesReadBack(t: Table, pTypes: seq<string>, gTypes: seq<string>)
    requires RoundTripSafe(t, pTypes, gTypes)
    ensures TextLines(SavedText(t, pTypes, gTypes)) == RuleLines(SavedEntries(t, pTypes, gTypes))
  {
    SavedLinesSingle(t, pTypes, gTypes);
    TextLinesJoinLines(RuleLines(SavedEntries(t, pTypes, gTypes)));
  }

  /** Loading the saved lines of the section `[c]` into a model where that
      section holds the same types with no rows restores the section. */
  lemma LoadSavedSection(t: Table, c: char, sec: map<string, seq<Row>>, types: seq<string>)
    requires c != '#' && [c] in t && t[[c]] == EmptyRows(sec)
    requires Enumerates(types, sec) && SectionSafe(sec, c)
    ensures LoadLines(t, RuleLines(SectionEntries(sec, types))) == Some(t[[c] := sec])
  {
    LoadSection(t, c, sec, types);
    OverlayAll(sec, types);
  }

  /** Loading the saved lines, `p` section first, into the model with the
      same types and no rows restores every row. */
  lemma LoadSavedEntries(t: Table, pTypes: seq<string>, gTypes: seq<string>)
    requires RoundTripSafe(t, pTypes, gTypes)
    ensures LoadLines(ClearedPolicies(t), RuleLines(SavedEntries(t, pTypes, gTypes))) == Some(t)
  {
    var pe, ge := SectionEntries(t["p"], pTypes), SectionEntries(t["g"], gTypes);
    RuleLinesAppend(pe, ge);
    var c0 := ClearedPolicies(t);
    LoadLinesAppend(c0, RuleLines(pe), RuleLines(ge));
    LoadSavedSection(c0, 'p', t["p"], pTypes);
    var c1 := c0["p" := t["p"]];
    assert c1["g"] == EmptyRows(t["g"]);
    LoadSavedSection(c1, 'g', t["g"], gTypes);
    RestoreCleared(t);
  }

  lemma RestoreCleared(t: Table)
    requires "p" in t && "g" in t
    ensures ClearedPolicies(t)["p" := t["p"]]["g" := t["g"]] == t
  {
    var r := ClearedPolicies(t)["p" := t["p"]]["g" := t["g"]];
    assert r.Keys == t.Keys;
  }

  /** Round trip: the saved text, read back line by line into the model
      with the same types and no rows, reproduces every type's rows. */
  lemma SaveLoadRoundTrip(t: Table, pTypes: seq<string>, gTypes: seq<string>)
    requires RoundTripSafe(t, pTypes, gTypes)
    ensures LoadLines(ClearedPolicies(t), TextLines(SavedText(t, pTypes, gTypes))) == Some(t)
  {
    SavedLinesReadBack(t, pTypes, gTypes);
    LoadSavedEntries(t, pTypes, gTypes);
  }
}
