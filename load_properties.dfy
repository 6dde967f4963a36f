/** What one call of `load_policy_line` does to the policy table, and what
    a whole load keeps invariant. */
module LoadProperties {
  import opened Wrappers
  import opened PolicyModel
  import opened FileAdapter

  /** Empty lines and comments leave the table as it was. */
  lemma IgnoredLineChangesNothing(t: Table, line: string)
    requires line == "" || line[0] == '#'
    ensures ApplyLine(t, line) == Some(t)
  {
  }

  /** A rule whose section or policy type the model does not define is
      dropped without an error. */
  lemma UnknownTypeChangesNothing(t: Table, line: string)
    requires ParseLine(line).Rule?
    requires var key := ParseLine(line).key;
      !(SectionOf(key) in t && key in t[SectionOf(key)])
    ensures ApplyLine(t, line) == Some(t)
  {
  }

  /** A rule for a known type lands in `t[section][type]` only: the new
      row is appended unless it equals the last row already there, and
      every other section, type and earlier row stays as it was. */
  lemma RuleLineStores(t: Table, line: string)
    requires ParseLine(line).Rule?
    requires var key := ParseLine(line).key;
      SectionOf(key) in t && key in t[SectionOf(key)]
      && NoAdjacentDuplicates(t[SectionOf(key)][key])
    ensures var key, row := ParseLine(line).key, ParseLine(line).fields;
      var sec := SectionOf(key);
      var rows := t[sec][key];
      ApplyLine(t, line)
        == Some(t[sec := t[sec][key := if rows != [] && rows[|rows| - 1] == row then rows else rows + [row]]])
  {
    var key, row := ParseLine(line).key, ParseLine(line).fields;
    DedupPush(t[SectionOf(key)][key], row);
  }

  /** The stored rows of the target type grow by at most one, keep their
      prefix, and stay the same exactly when the new row repeats the last
      one. */
  lemma RuleLineGrowth(t: Table, line: string)
    requires ParseLine(line).Rule?
    requires var key := ParseLine(line).key;
      SectionOf(key) in t && key in t[SectionOf(key)]
      && NoAdjacentDuplicates(t[SectionOf(key)][key])
    ensures var key, row := ParseLine(line).key, ParseLine(line).fields;
      var sec := SectionOf(key);
      var rows := t[sec][key];
      var rows' := ApplyLine(t, line).value[sec][key];
      |rows| <= |rows'| <= |rows| + 1
      && rows'[..|rows|] == rows
      && (|rows'| == |rows| <==> rows != [] && rows[|rows| - 1] == row)
  {
    RuleLineStores(t, line);
  }

  /** No call creates adjacent duplicate rows anywhere in the table. */
  lemma ApplyLineKeepsNoAdjacentDuplicates(t: Table, line: string)
    requires NoAdjacentDuplicateRows(t)
    requires ApplyLine(t, line).Some?
    ensures NoAdjacentDuplicateRows(ApplyLine(t, line).value)
  {
    var p := ParseLine(line);
    if p.Rule? {
      var sec := SectionOf(p.key);
      if sec in t && p.key in t[sec] {
        var rows := Dedup(t[sec][p.key] + [p.fields]);
        var t' := t[sec := t[sec][p.key := rows]];
        assert ApplyLine(t, line).value == t';
        forall s, q | s in t' && q in t'[s]
          ensures NoAdjacentDuplicates(t'[s][q])
        {
          if s != sec || q != p.key {
            assert t'[s][q] == t[s][q];
          }
        }
      }
    }
  }

  /** Loading any number of lines keeps the table free of adjacent
      duplicate rows. */
  lemma {:induction false} LoadLinesKeepsNoAdjacentDuplicates(t: Table, lines: seq<string>)
    requires NoAdjacentDuplicateRows(t)
    requires LoadLines(t, lines).Some?
    ensures NoAdjacentDuplicateRows(LoadLines(t, lines).value)
    decreases |lines|
  {
    if lines != [] {
      var t' := LoadLines(t, lines[..|lines| - 1]);
      LoadLinesKeepsNoAdjacentDuplicates(t, lines[..|lines| - 1]);
      ApplyLineKeepsNoAdjacentDuplicates(t'.value, lines[|lines| - 1]);
    }
  }

  /** Loading `a` then `b` is loading `a + b`. */
  lemma {:induction false} LoadLinesAppend(t: Table, a: seq<string>, b: seq<string>)
    ensures LoadLines(t, a + b)
         == if LoadLines(t, a).None? then None else LoadLines(LoadLines(t, a).value, b)
    decreases |b|
  {
    if b == [] {
      assert a + b == a;
    } else {
      var b' := b[..|b| - 1];
      assert (a + b)[..|a + b| - 1] == a + b';
      assert (a + b)[|a + b| - 1] == b[|b| - 1];
      LoadLinesAppend(t, a, b');
    }
  }

  /** A load fails exactly when one of its lines has an empty policy
      type. */
  lemma {:induction false} LoadLinesFailsIff(t: Table, lines: seq<string>)
    ensures LoadLines(t, lines).None? <==> exists i :: 0 <= i < |lines| && ParseLine(lines[i]).EmptyKey?
    decreases |lines|
  {
    if lines != [] {
      var init, last := lines[..|lines| - 1], lines[|lines| - 1];
      LoadLinesFailsIff(t, init);
      assert forall i :: 0 <= i < |init| ==> init[i] == lines[i];
      if ParseLine(last).EmptyKey? {
        assert ParseLine(lines[|lines| - 1]).EmptyKey?;
      }
    }
  }
}
