/** The shape of the text `save_policy` builds: one line per stored rule,
    every `p` rule before every `g` rule, and each type's rules in stored
    order. */
module SaveProperties {
  import opened PolicyModel
  import opened FileAdapter

  /** The rules among `es` that belong to policy type `ptype`, in order. */
  function RulesOf(es: seq<Entry>, ptype: string): (rows: seq<Row>)
    ensures |rows| <= |es|
  {
    if es == [] then []
    else
      var last := es[|es| - 1];
      RulesOf(es[..|es| - 1], ptype) + (if last.ptype == ptype then [last.rule] else [])
  }

  lemma {:induction false} RulesOfAppend(a: seq<Entry>, b: seq<Entry>, ptype: string)
    ensures RulesOf(a + b, ptype) == RulesOf(a, ptype) + RulesOf(b, ptype)
    decreases |b|
  {
    if b == [] {
      assert a + b == a;
    } else {
      var b' := b[..|b| - 1];
      assert (a + b)[..|a + b| - 1] == a + b';
      RulesOfAppend(a, b', ptype);
    }
  }

  lemma {:induction false} RulesOfType(ptype: string, rows: seq<Row>, other: string)
    ensures RulesOf(TypeEntries(ptype, rows), other) == if other == ptype then rows else []
    decreases |rows|
  {
    if rows != [] {
      var rows' := rows[..|rows| - 1];
      assert TypeEntries(ptype, rows)[..|rows| - 1] == TypeEntries(ptype, rows');
      RulesOfType(ptype, rows', other);
    }
  }

  /** Within a section, the lines of one type are exactly that type's rows
      in stored order; a type the section does not list contributes no
      line. */
  lemma {:induction false} SectionRulesOfType(sec: map<string, seq<Row>>, types: seq<string>, ptype: string)
    requires forall t :: t in types ==> t in sec
    requires forall i, j :: 0 <= i < j < |types| ==> types[i] != types[j]
    ensures RulesOf(SectionEntries(sec, types), ptype) == if ptype in types then sec[ptype] else []
    decreases |types|
  {
    if types != [] {
      var init, last := types[..|types| - 1], types[|types| - 1];
      SectionRulesOfType(sec, init, ptype);
      RulesOfAppend(SectionEntries(sec, init), TypeEntries(last, sec[last]), ptype);
      RulesOfType(last, sec[last], ptype);
      assert types == init + [last];
      assert last !in init;
    }
  }

  /** Total number of rows stored under `types`. */
  function RowCount(sec: map<string, seq<Row>>, types: seq<string>): nat
    requires forall t :: t in types ==> t in sec
  {
    if types == [] then 0
    else RowCount(sec, types[..|types| - 1]) + |sec[types[|types| - 1]]|
  }

  /** Every entry of a section comes from one of its types and one of
      that type's rows; there is one entry per stored row. */
  lemma {:induction false} SectionEntriesOrigin(sec: map<string, seq<Row>>, types: seq<string>)
    requires forall t :: t in types ==> t in sec
    ensures |SectionEntries(sec, types)| == RowCount(sec, types)
    ensures forall i :: 0 <= i < |SectionEntries(sec, types)| ==>
      SectionEntries(sec, types)[i].ptype in types
      && SectionEntries(sec, types)[i].rule in sec[SectionEntries(sec, types)[i].ptype]
    decreases |types|
  {
    if types != [] {
      SectionEntriesOrigin(sec, types[..|types| - 1]);
    }
  }

  /** One saved rule per stored row; the rules of the `p` section come
      first, those of the `g` section after them. */
  lemma SavedSectionsInOrder(t: Table, pTypes: seq<string>, gTypes: seq<string>)
    requires "p" in t && "g" in t && Enumerates(pTypes, t["p"]) && Enumerates(gTypes, t["g"])
    ensures var es := SavedEntries(t, pTypes, gTypes);
      var np := RowCount(t["p"], pTypes);
      |es| == np + RowCount(t["g"], gTypes)
      && (forall i :: 0 <= i < np ==> es[i].ptype in t["p"] && es[i].rule in t["p"][es[i].ptype])
      && (forall i :: np <= i < |es| ==> es[i].ptype in t["g"] && es[i].rule in t["g"][es[i].ptype])
  {
    var pe, ge := SectionEntries(t["p"], pTypes), SectionEntries(t["g"], gTypes);
    var es := pe + ge;
    SectionEntriesOrigin(t["p"], pTypes);
    SectionEntriesOrigin(t["g"], gTypes);
    forall i | |pe| <= i < |es|
      ensures es[i].ptype in t["g"] && es[i].rule in t["g"][es[i].ptype]
    {
      assert es[i] == ge[i - |pe|];
    }
  }

  /** Each type's saved rules are its stored rows, in stored order. */
  lemma SavedRowsPerType(t: Table, pTypes: seq<string>, gTypes: seq<string>, ptype: string)
    requires "p" in t && "g" in t && Enumerates(pTypes, t["p"]) && Enumerates(gTypes, t["g"])
    requires ptype in t["p"] || ptype in t["g"]
    requires !(ptype in t["p"] && ptype in t["g"])
    ensures RulesOf(SavedEntries(t, pTypes, gTypes), ptype)
         == if ptype in t["p"] then t["p"][ptype] else t["g"][ptype]
  {
    var pe, ge := SectionEntries(t["p"], pTypes), SectionEntries(t["g"], gTypes);
    RulesOfAppend(pe, ge, ptype);
    SectionRulesOfType(t["p"], pTypes, ptype);
    SectionRulesOfType(t["g"], gTypes, ptype);
    if ptype in t["p"] {
      assert t["p"][ptype] + [] == t["p"][ptype];
    } else {
      assert [] + t["g"][ptype] == t["g"][ptype];
    }
  }
}
