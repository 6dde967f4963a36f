/** The flat-file policy adapter (src/adapter/file_adapter.rs): one policy
    rule per line, `ptype, field1,field2,...`. Reading and writing the file
    are left out: loading starts from the file's lines and saving ends with
    the text that would be written. */
module FileAdapter {
  import opened Wrappers
  import opened Strings
  import opened Errors
  import opened PolicyModel

  /** `FileAdapter { file_path }`. */
  datatype FileAdapter = FileAdapter(filePath: string)

  /** `FileAdapter::new`. */
  function New(path: string): (a: FileAdapter)
    ensures a.filePath == path
  {
    FileAdapter(path)
  }

  const SavePathEmpty: string := "save policy failed, file path is empty"

  // ---- Loading ------------------------------------------------------------

  /** What `load_policy_line` makes of one line: nothing (empty line or
      comment), a panic (the policy type is empty after trimming), or a
      policy type with the row to store under it. */
  datatype ParsedLine = Ignored | EmptyKey | Rule(key: string, fields: Row)

  /** `str::trim` applied to every piece. */
  function TrimAll(parts: seq<string>): (r: seq<string>)
    ensures |r| == |parts|
    ensures forall i :: 0 <= i < |r| ==> r[i] == Trim(parts[i])
  {
    seq(|parts|, i requires 0 <= i < |parts| => Trim(parts[i]))
  }

  /** The section a policy type belongs to: its first character. */
  function SectionOf(key: string): (sec: string)
    requires key != ""
    ensures |sec| == 1 && sec[0] == key[0]
  {
    [key[0]]
  }

  /** Line 97: the line split on ',' with every piece trimmed. */
  function Tokens(line: string): (tokens: seq<string>)
    ensures |tokens| == Count(line, ',') + 1
    ensures forall i :: 0 <= i < |tokens| ==> Trimmed(tokens[i]) && ',' !in tokens[i]
    ensures tokens[0] == "" <==> forall k :: 0 <= k < IndexOf(line, ',') ==> IsWhitespace(line[k])
  {
    var pieces := Split(line, ',');
    TrimAllAvoids(pieces, ',');
    FirstTokenEmpty(line, pieces[0]);
    TrimAll(pieces)
  }

  lemma FirstTokenEmpty(line: string, first: string)
    requires first == line[..IndexOf(line, ',')]
    ensures Trim(first) == "" <==> forall k :: 0 <= k < IndexOf(line, ',') ==> IsWhitespace(line[k])
  {
    assert forall k :: 0 <= k < IndexOf(line, ',') ==> first[k] == line[k];
  }

  lemma TrimAllAvoids(pieces: seq<string>, c: char)
    requires forall i :: 0 <= i < |pieces| ==> c !in pieces[i]
    ensures forall i :: 0 <= i < |pieces| ==> c !in TrimAll(pieces)[i]
  {
    forall i | 0 <= i < |pieces| ensures c !in TrimAll(pieces)[i] {
      TrimIsSlice(pieces[i]);
    }
  }

  /** Trimming only takes characters away. */
  lemma TrimIsSlice(s: string)
    ensures forall c :: c in Trim(s) ==> c in s
  {
    var a := TrimStart(s);
    assert a == s[|s| - |a|..];
    assert forall c :: c in a ==> c in s;
  }

  /** Lines 94-99: skip empty lines and comments, split on ',', trim every
      piece, take the first as the policy type. */
  function ParseLine(line: string): (p: ParsedLine)
    ensures p.Ignored? <==> line == "" || line[0] == '#'
    ensures p.Rule? ==> p.key != "" && Trimmed(p.key) && ',' !in p.key
  {
    if line == "" || line[0] == '#' then Ignored
    else
      var tokens := Tokens(line);
      if tokens[0] == "" then EmptyKey
      else Rule(tokens[0], tokens[1..])
  }

  /** Line 99 panics exactly when everything before the first ',' is
      whitespace. */
  lemma ParseLineEmptyKey(line: string)
    ensures ParseLine(line).EmptyKey? <==> (line != "" && line[0] != '#'
              && forall k :: 0 <= k < IndexOf(line, ',') ==> IsWhitespace(line[k]))
  {
    if line != "" && line[0] != '#' {
      var tokens := Tokens(line);
      assert ParseLine(line).EmptyKey? <==> tokens[0] == "";
    }
  }

  /** Line 103: the stored row has one trimmed, comma-free field per ','
      of the line. */
  lemma ParseLineFields(line: string)
    requires ParseLine(line).Rule?
    ensures var p := ParseLine(line);
      |p.fields| == Count(line, ',')
      && forall i :: 0 <= i < |p.fields| ==> Trimmed(p.fields[i]) && ',' !in p.fields[i]
  {
    var tokens := Tokens(line);
    assert ParseLine(line).fields == tokens[1..];
  }

  /** Lines 101-105: the row is pushed onto `model[section][type]` and the
      vector deduplicated; a section or type the model lacks is left as it
      is. */
  function StoreRow(t: Table, key: string, row: Row): (r: Table)
    requires key != ""
    ensures SameKeys(t, r)
  {
    var sec := SectionOf(key);
    if sec in t && key in t[sec] then
      var rows := Dedup(t[sec][key] + [row]);
      SetRowsKeepsKeys(t, sec, key, rows);
      t[sec := t[sec][key := rows]]
    else t
  }

  /** Replacing the rows of an existing type adds no section and no type. */
  lemma SetRowsKeepsKeys(t: Table, sec: string, key: string, rows: seq<Row>)
    requires sec in t && key in t[sec]
    ensures SameKeys(t, t[sec := t[sec][key := rows]])
  {
  }

  /** Lines 94-106 on a table: an empty line or a comment changes nothing,
      an empty policy type panics (`None`), and a rule is stored. */
  function ApplyLine(t: Table, line: string): (r: Option<Table>)
    ensures r.None? <==> ParseLine(line).EmptyKey?
    ensures r.Some? ==> SameKeys(t, r.value)
  {
    match ParseLine(line)
    case Ignored => Some(t)
    case EmptyKey => None
    case Rule(key, fields) => Some(StoreRow(t, key, fields))
  }

  /** The lines of a file fed one after the other through
      `load_policy_line`; a panic on any line ends the load. */
  function LoadLines(t: Table, lines: seq<string>): (r: Option<Table>)
    ensures r.Some? ==> SameKeys(t, r.value)
    decreases |lines|
  {
    if lines == [] then Some(t)
    else
      match LoadLines(t, lines[..|lines| - 1])
      case None => None
      case Some(t') => ApplyLine(t', lines[|lines| - 1])
  }

  /** `load_policy_line`, updating the model in place. `ok` is false where
      the source panics, and the model is then left as it was. */
  method LoadPolicyLine(line: string, m: Model) returns (ok: bool)
    modifies m
    ensures ok == ApplyLine(old(m.model), line).Some?
    ensures m.model == if ok then ApplyLine(old(m.model), line).value else old(m.model)
  {
    if line == "" || line[0] == '#' {
      return true;
    }
    var tokens := Tokens(line);
    var key := tokens[0];
    assert ParseLine(line) == if key == "" then EmptyKey else Rule(key, tokens[1..]);
    if key == "" {
      return false;
    }
    var sec := [key[0]];
    assert sec == SectionOf(key);
    if sec in m.model && key in m.model[sec] {
      var policy := m.model[sec][key] + [tokens[1..]];
      policy := Dedup(policy);
      m.model := m.model[sec := m.model[sec][key := policy]];
    }
    return true;
  }

  /** `load_policy` / `load_policy_file`, given the lines of the file.
      `ok` is false when some line panics. */
  method LoadPolicy(a: FileAdapter, m: Model, lines: seq<string>) returns (ok: bool)
    modifies m
    ensures ok == LoadLines(old(m.model), lines).Some?
    ensures ok ==> m.model == LoadLines(old(m.model), lines).value
  {
    for i := 0 to |lines|
      invariant LoadLines(old(m.model), lines[..i]) == Some(m.model)
    {
      assert lines[..i + 1][..i] == lines[..i];
      ok := LoadPolicyLine(lines[i], m);
      if !ok {
        LoadLinesAfterPanic(old(m.model), lines, i + 1);
        return;
      }
    }
    assert lines[..|lines|] == lines;
    ok := true;
  }

  /** Once a line panics, the whole load does. */
  lemma {:induction false} LoadLinesAfterPanic(t: Table, lines: seq<string>, n: nat)
    requires n <= |lines| && LoadLines(t, lines[..n]).None?
    ensures LoadLines(t, lines).None?
    decreases |lines| - n
  {
    if n < |lines| {
      assert lines[..n + 1][..n] == lines[..n];
      LoadLinesAfterPanic(t, lines, n + 1);
    } else {
      assert lines[..n] == lines;
    }
  }

  // ---- Saving -------------------------------------------------------------

  /** One stored rule together with its policy type. */
  datatype Entry = Entry(ptype: string, rule: Row)

  /** Line 55/63 without its '\n': `ptype, f1,f2,...`. */
  function RuleLine(e: Entry): string {
    e.ptype + ", " + Join(e.rule, ',')
  }

  /** A rule line written from a comma-free type and comma-free fields
      holds one ',' per field, so that `load_policy_line` reads back as
      many fields as were written. */
  lemma RuleLineCommas(e: Entry)
    requires |e.rule| >= 1 && ',' !in e.ptype
    requires forall i :: 0 <= i < |e.rule| ==> ',' !in e.rule[i]
    ensures Count(RuleLine(e), ',') == |e.rule|
    ensures ParseLine(RuleLine(e)).Rule? ==> |ParseLine(RuleLine(e)).fields| == |e.rule|
  {
    var j := Join(e.rule, ',');
    JoinSeparators(e.rule, ',');
    CountAbsent(e.ptype, ',');
    CountAppend(e.ptype, ", ", ',');
    CountAppend(e.ptype + ", ", j, ',');
    assert Count(", ", ',') == 1;
  }

  function RuleLines(es: seq<Entry>): (ls: seq<string>)
    ensures |ls| == |es|
    ensures forall i :: 0 <= i < |es| ==> ls[i] == RuleLine(es[i])
  {
    seq(|es|, i requires 0 <= i < |es| => RuleLine(es[i]))
  }

  /** The rules of one policy type, in stored order. */
  function TypeEntries(ptype: string, rows: seq<Row>): (es: seq<Entry>)
    ensures |es| == |rows|
    ensures forall i :: 0 <= i < |rows| ==> es[i] == Entry(ptype, rows[i])
  {
    seq(|rows|, i requires 0 <= i < |rows| => Entry(ptype, rows[i]))
  }

  /** The rules of a section, type after type in the order `types` lists
      them (the order in which the section's `HashMap` is iterated). */
  function SectionEntries(sec: map<string, seq<Row>>, types: seq<string>): (es: seq<Entry>)
    requires forall t :: t in types ==> t in sec
    ensures forall i :: 0 <= i < |es| ==> es[i].ptype in types && es[i].rule in sec[es[i].ptype]
    decreases |types|
  {
    if types == [] then []
    else
      var last := types[|types| - 1];
      SectionEntries(sec, types[..|types| - 1]) + TypeEntries(last, sec[last])
  }

  /** `types` lists every type of the section exactly once. */
  predicate Enumerates(types: seq<string>, sec: map<string, seq<Row>>) {
    (forall i, j :: 0 <= i < j < |types| ==> types[i] != types[j])
    && (forall t :: t in types ==> t in sec)
    && (forall t :: t in sec ==> t in types)
  }

  /** Lines 51-66: every `p` rule, then every `g` rule. */
  function SavedEntries(t: Table, pTypes: seq<string>, gTypes: seq<string>): (es: seq<Entry>)
    requires "p" in t && "g" in t
    requires forall k :: k in pTypes ==> k in t["p"]
    requires forall k :: k in gTypes ==> k in t["g"]
    ensures forall i :: 0 <= i < |es| ==>
      (es[i].ptype in t["p"] && es[i].rule in t["p"][es[i].ptype])
      || (es[i].ptype in t["g"] && es[i].rule in t["g"][es[i].ptype])
  {
    SectionEntries(t["p"], pTypes) + SectionEntries(t["g"], gTypes)
  }

  /** The text `save_policy` hands to `save_policy_file`. */
  function SavedText(t: Table, pTypes: seq<string>, gTypes: seq<string>): (text: string)
    requires "p" in t && "g" in t
    requires forall k :: k in pTypes ==> k in t["p"]
    requires forall k :: k in gTypes ==> k in t["g"]
    ensures text == [] <==> SavedEntries(t, pTypes, gTypes) == []
    ensures text != [] ==> text[|text| - 1] == '\n'
  {
    JoinLinesEnd(RuleLines(SavedEntries(t, pTypes, gTypes)));
    JoinLines(RuleLines(SavedEntries(t, pTypes, gTypes)))
  }

  lemma RuleLinesAppend(a: seq<Entry>, b: seq<Entry>)
    ensures RuleLines(a + b) == RuleLines(a) + RuleLines(b)
  {
  }

  /** Emitting one more rule adds its line and a '\n' to the text. */
  lemma EmitOne(done: seq<Entry>, e: Entry)
    ensures JoinLines(RuleLines(done + [e])) == JoinLines(RuleLines(done)) + (RuleLine(e) + "\n")
  {
    RuleLinesAppend(done, [e]);
    JoinLinesAppend(RuleLines(done), [RuleLine(e)]);
    var l := RuleLine(e);
    assert RuleLines([e]) == [l];
    assert [l][1..] == [];
    assert JoinLines([l]) == l + "\n" + JoinLines([]);
    assert l + "\n" + "" == l + "\n";
  }

  /** The inner loop's step: emitting rule `j` of a type extends the
      emitted entries by that rule and the text by its line. */
  lemma EmitRule(tmp0: string, tmp: string, done: seq<Entry>, before: seq<Entry>, ptype: string,
                 rules: seq<Row>, j: nat)
    requires j < |rules| && done == before + TypeEntries(ptype, rules[..j])
    requires tmp == tmp0 + JoinLines(RuleLines(done))
    ensures done + [Entry(ptype, rules[j])] == before + TypeEntries(ptype, rules[..j + 1])
    ensures tmp + (ptype + ", " + Join(rules[j], ',') + "\n")
            == tmp0 + JoinLines(RuleLines(done + [Entry(ptype, rules[j])]))
  {
    var e := Entry(ptype, rules[j]);
    EmitOne(done, e);
    assert TypeEntries(ptype, rules[..j + 1]) == TypeEntries(ptype, rules[..j]) + [e];
  }

  /** The outer loop's step: the section's entries for one more type. */
  lemma SectionEntriesStep(ast: map<string, seq<Row>>, types: seq<string>, i: nat)
    requires forall t :: t in types ==> t in ast
    requires i < |types|
    ensures SectionEntries(ast, types[..i + 1])
            == SectionEntries(ast, types[..i]) + TypeEntries(types[i], ast[types[i]])
  {
    assert types[..i + 1][..i] == types[..i];
  }

  /** One of the two loops of lines 53-58 and 61-66: appends a line per
      rule of the section to `tmp0`. */
  method AppendSection(tmp0: string, ast: map<string, seq<Row>>, types: seq<string>)
    returns (tmp: string)
    requires forall t :: t in types ==> t in ast
    ensures tmp == tmp0 + JoinLines(RuleLines(SectionEntries(ast, types)))
  {
    tmp := tmp0;
    ghost var done: seq<Entry> := [];
    for i := 0 to |types|
      invariant done == SectionEntries(ast, types[..i])
      invariant tmp == tmp0 + JoinLines(RuleLines(done))
    {
      var ptype := types[i];
      var rules := ast[ptype];
      ghost var before := done;
      for j := 0 to |rules|
        invariant done == before + TypeEntries(ptype, rules[..j])
        invariant tmp == tmp0 + JoinLines(RuleLines(done))
      {
        var s1 := ptype + ", " + Join(rules[j], ',') + "\n";
        EmitRule(tmp0, tmp, done, before, ptype, rules, j);
        tmp := tmp + s1;
        done := done + [Entry(ptype, rules[j])];
      }
      assert rules[..|rules|] == rules;
      SectionEntriesStep(ast, types, i);
    }
    assert types[..|types|] == types;
  }

  /** `save_policy`, ending with the text that would be written: an empty
      path is refused before anything is built; otherwise the `p` and `g`
      sections must exist (the source unwraps them) and `pTypes`, `gTypes`
      give the order in which their types are visited. */
  method SavePolicy(a: FileAdapter, m: Model, pTypes: seq<string>, gTypes: seq<string>)
    returns (r: Result<string>)
    requires a.filePath != "" ==> ("p" in m.model && "g" in m.model
                                   && Enumerates(pTypes, m.model["p"]) && Enumerates(gTypes, m.model["g"]))
    ensures a.filePath == "" ==> r == Err(Error(SavePathEmpty))
    ensures a.filePath != "" ==> r == Ok(SavedText(m.model, pTypes, gTypes))
  {
    if a.filePath == "" {
      return Err(Error(SavePathEmpty));
    }
    var tmp := "";
    tmp := AppendSection(tmp, m.model["p"], pTypes);
    assert tmp == JoinLines(RuleLines(SectionEntries(m.model["p"], pTypes)));
    tmp := AppendSection(tmp, m.model["g"], gTypes);
    ghost var pe, ge := SectionEntries(m.model["p"], pTypes), SectionEntries(m.model["g"], gTypes);
    RuleLinesAppend(pe, ge);
    JoinLinesAppend(RuleLines(pe), RuleLines(ge));
    return Ok(tmp);
  }

  // ---- Mutation hooks -----------------------------------------------------

  /** Lines 71-74: the file is only rewritten by `save_policy`. */
  function AddPolicy(a: FileAdapter, sec: string, ptype: string, rule: seq<string>): (r: Result<bool>)
    ensures r == Ok(true)
  {
    Ok(true)
  }

  /** Lines 76-79. */
  function RemovePolicy(a: FileAdapter, sec: string, ptype: string, rule: seq<string>): (r: Result<bool>)
    ensures r == Ok(true)
  {
    Ok(true)
  }

  /** Lines 81-90. */
  function RemoveFilteredPolicy(a: FileAdapter, sec: string, ptype: string, fieldIndex: nat,
                                fieldValues: seq<string>): (r: Result<bool>)
    ensures r == Ok(true)
  {
    Ok(true)
  }
}
