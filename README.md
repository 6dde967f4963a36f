# casbin-rs flat-file policy adapter, modelled in Dafny

This project models the flat-file policy adapter of casbin-rs, an
authorization library, together with the adapter's error type.

The adapter stores policy rules one per line, as `ptype, field1,field2,...`.
The policy type (`p`, `p2`, `g`, `g2`, …) names both the type and, by its
first character, the model section the rule belongs to.

- **Loading** (`load_policy_line`) works line by line:
  - empty lines and lines starting with `#` are skipped;
  - the line is split on `,` and every piece is trimmed;
  - the first piece picks `model[section][type]`;
  - the remaining pieces are pushed onto that type's policy vector, which
    is then deduplicated with `Vec::dedup`;
  - a line whose section or type the model lacks is dropped;
  - a line whose type is empty after trimming panics.
- **Saving** (`save_policy`) refuses an empty file path. Otherwise it
  writes one `ptype, f1,f2,...` line per stored rule: every `p`-section
  rule first, then every `g`-section rule.
- The adapter's `add_policy`, `remove_policy` and `remove_filtered_policy`
  hooks do nothing and report success.
- `CasbinError` has three variants. Its `Display` writes a fixed prefix per
  variant, followed by the payload.

Module layout:

- `Wrappers`: `Option`.
- `Errors`: `CasbinError`, the `Result` alias, `From<io::Error>`, `Display`,
  and the inverse of `Display`.
- `Strings`: the standard-library string operations the format rests on:
  - `char::is_whitespace`, using the exact Unicode White_Space set;
  - `str::trim`;
  - `str::split`;
  - `join`;
  - `BufRead::lines`.
- `PolicyModel`: the policy table (section → type → rows), `Vec::dedup`,
  and the `Model` class whose `model` field the loader updates in place.
- `FileAdapter`:
  - the line parser;
  - the in-place `LoadPolicyLine` method and the load loop over a file's lines;
  - the save loop, with an invariant tying the growing text to the rules
    emitted so far;
  - the hooks.
- `LoadProperties`: what one line does to the table, and the
  no-adjacent-duplicates invariant.
- `SaveProperties`: the layout of the saved text.
- `RoundTrip`: saving and then loading restores every row, under stated
  conditions.
- `DedupCases`: only adjacent duplicates are suppressed.

Loading models `Vec::dedup`, which removes *adjacent* duplicates only. A
rule that repeats an earlier, non-adjacent rule is therefore stored again
(`DedupCases.DistantRepeatStoredTwice`). Duplicate rows are sometimes
described as suppressed outright, but the code does not do that. The model
follows the code.

## Model

| member | source | states |
|---|---|---|
| `Errors.FromIoError` | src/errors.rs:11-15 | Every I/O failure becomes the `Io` variant, carrying that failure. |
| `Errors.Display` | src/errors.rs:17-25 | Every rendered error begins with `Casbin error`. |
| `Errors.FromMessage` | src/errors.rs:19-23 | An error read back from a message renders as exactly that message (the inverse of `Display`). |
| `Errors.PrefixesDisjoint` | src/errors.rs:20-22 | No variant's prefix (`Casbin error, IO error: `, `Casbin error: msg=`, `Casbin error, Parsing failure: msg=`) starts another variant's message. |
| `Errors.DisplayRecoverable` | src/errors.rs:19-23 | The variant and its payload can be recovered from every message. |
| `Errors.DisplayInjective` | src/errors.rs:19-23 | Two errors that render the same are the same error. |
| `Strings.IsWhitespace` | src/adapter/file_adapter.rs:97 | The characters `char::is_whitespace` accepts: the Unicode White_Space set, written out as code points. A definition without a contract; `Strings.Trim` states what trimming with it gives. |
| `Strings.Trim` | src/adapter/file_adapter.rs:97 | The result neither starts nor ends with whitespace, is no longer than the input, and is empty exactly when the input is all whitespace. |
| `Strings.TrimFixpoint` | src/adapter/file_adapter.rs:97 | Trimming leaves a string unchanged exactly when it has no surrounding whitespace. |
| `Strings.TrimAfterSpace` | src/adapter/file_adapter.rs:55 | The space written after the type's comma is removed again by trimming. |
| `Strings.Split` | src/adapter/file_adapter.rs:97 | Splitting on `,` gives one piece more than there are commas. No piece contains a comma. The first piece is the text before the first comma. |
| `Strings.JoinSplit` | src/adapter/file_adapter.rs:97 | Joining the pieces of a split with the separator gives back the string. |
| `Strings.SplitJoin` | src/adapter/file_adapter.rs:55 | Splitting a join of separator-free parts gives back the parts. |
| `Strings.Join` | src/adapter/file_adapter.rs:55 | `rule.join(",")`: the parts with one separator between neighbours. A definition without a contract; `Strings.JoinSplit`, `Strings.SplitJoin` and `Strings.JoinSeparators` state its properties. |
| `Strings.JoinSeparators` | src/adapter/file_adapter.rs:55 | Joining `n` separator-free parts puts exactly `n - 1` separators into the text. |
| `Strings.TextLines` | src/adapter/file_adapter.rs:27 | Reading lines from non-empty text gives at least one line, and no line contains `\n`. |
| `Strings.TextLinesJoinLines` | src/adapter/file_adapter.rs:27 | Text written as `\n`-terminated lines reads back as the same lines, when no line holds `\n` or ends in `\r`. |
| `Strings.JoinLines` | src/adapter/file_adapter.rs:55 | Writing each line followed by `\n` (the `\n` of the `format!`) gives a text at least as long as the number of lines. |
| `Strings.JoinLinesEnd` | src/adapter/file_adapter.rs:55 | Written lines give an empty text exactly when there are none; otherwise the text ends with `\n`. |
| `Strings.JoinLinesNewlines` | src/adapter/file_adapter.rs:55 | Written lines without `\n` give a text with exactly one `\n` per line. |
| `PolicyModel.Dedup` | src/adapter/file_adapter.rs:104 | The result has no adjacent duplicates and is no longer than the input. It keeps the first and last elements. |
| `PolicyModel.DedupSameElements` | src/adapter/file_adapter.rs:104 | `dedup` only removes repeats: every element of the result is in the input, and every element of the input is in the result. |
| `PolicyModel.DedupRuns` | src/adapter/file_adapter.rs:104 | `dedup` keeps exactly one element per run of equal neighbours, in order. The result has one element per run, and the input element at position `i` is found at the index of its run (the number of neighbour changes up to `i`). Equal elements that are not neighbours all survive. |
| `PolicyModel.DedupIdentity` | src/adapter/file_adapter.rs:104 | `dedup` leaves a vector unchanged exactly when it has no adjacent duplicates. |
| `PolicyModel.DedupPush` | src/adapter/file_adapter.rs:103-104 | Pushing then deduplicating appends the row unless it equals the current last row. |
| `PolicyModel.Model.constructor` | src/adapter/file_adapter.rs:93 | The `&mut Model` the loader updates: a model holding the given policy table. |
| `FileAdapter.New` | src/adapter/file_adapter.rs:18-22 | The adapter keeps the given path. |
| `FileAdapter.SectionOf` | src/adapter/file_adapter.rs:99 | The section of a policy type is the one-character string of its first character. |
| `FileAdapter.Tokens` | src/adapter/file_adapter.rs:97 | One token per comma plus one. Every token is trimmed and comma-free. The first token is empty exactly when the text before the first comma is all whitespace. |
| `FileAdapter.ParseLine` | src/adapter/file_adapter.rs:94-99 | A line is ignored exactly when it is empty or starts with `#`. A rule's type is non-empty, trimmed and comma-free. |
| `FileAdapter.ParseLineEmptyKey` | src/adapter/file_adapter.rs:97-99 | A line panics exactly when it is neither empty nor a comment and everything before its first `,` is whitespace. |
| `FileAdapter.ParseLineFields` | src/adapter/file_adapter.rs:97-103 | A rule's row has one field per `,` of the line, each trimmed and comma-free. |
| `FileAdapter.StoreRow` | src/adapter/file_adapter.rs:101-105 | Storing a row never adds or removes a section or a type. |
| `FileAdapter.ApplyLine` | src/adapter/file_adapter.rs:94-106 | Fails exactly where the source panics. Otherwise it never adds or removes a section or a type. |
| `FileAdapter.LoadPolicyLine` | src/adapter/file_adapter.rs:93-107 | The in-place update of `m.model` equals `ApplyLine` of the old table. The model is untouched where the source panics. |
| `FileAdapter.LoadLines` | src/adapter/file_adapter.rs:27-29 | Feeding a file's lines in order through `load_policy_line`, stopping at the first panic. A load that succeeds never adds or removes a section or a type. |
| `FileAdapter.LoadPolicy` | src/adapter/file_adapter.rs:24-31 | Loading a file's lines in order gives the table `LoadLines` computes, and fails exactly when `LoadLines` does (by `LoadProperties.LoadLinesFailsIff`, exactly when some line panics). |
| `FileAdapter.LoadLinesAfterPanic` | src/adapter/file_adapter.rs:27-29 | Once a line panics, the whole load fails. |
| `FileAdapter.RuleLine` | src/adapter/file_adapter.rs:55 | The `format!` of one rule without its `\n`: `ptype, f1,f2,...`. A definition without a contract; `FileAdapter.RuleLineCommas` and `RoundTrip.ParseRuleLine` state its properties. |
| `FileAdapter.RuleLineCommas` | src/adapter/file_adapter.rs:55 | A line written from a comma-free type and comma-free fields holds one `,` per field, so it reads back with as many fields as were written. |
| `FileAdapter.SectionEntries` | src/adapter/file_adapter.rs:53-57 | Every rule a section emits is a stored row of one of the visited types. |
| `FileAdapter.AppendSection` | src/adapter/file_adapter.rs:53-58 | Appends `ptype, f1,f2,...\n` for every rule of the visited types, type by type, rules in stored order. |
| `FileAdapter.SavePolicy` | src/adapter/file_adapter.rs:46-69 | An empty path gives `Error("save policy failed, file path is empty")`. Otherwise the result is the saved text: all `p` lines, then all `g` lines. |
| `FileAdapter.SavedEntries` | src/adapter/file_adapter.rs:51-66 | Every saved rule is a stored row of a `p` type or of a `g` type. |
| `FileAdapter.SavedText` | src/adapter/file_adapter.rs:51-66 | The text handed to `save_policy_file` is empty exactly when there is no rule to save, and otherwise ends with `\n`. |
| `FileAdapter.AddPolicy` | src/adapter/file_adapter.rs:71-74 | Always `Ok(true)`, and nothing changes. |
| `FileAdapter.RemovePolicy` | src/adapter/file_adapter.rs:76-79 | Always `Ok(true)`, and nothing changes. |
| `FileAdapter.RemoveFilteredPolicy` | src/adapter/file_adapter.rs:81-90 | Always `Ok(true)`, and nothing changes. |
| `LoadProperties.IgnoredLineChangesNothing` | src/adapter/file_adapter.rs:94-96 | An empty line or a comment leaves the table unchanged. |
| `LoadProperties.UnknownTypeChangesNothing` | src/adapter/file_adapter.rs:101-102 | A rule whose section or type is not in the model leaves the table unchanged, with no error. |
| `LoadProperties.RuleLineStores` | src/adapter/file_adapter.rs:98-105 | A rule for a known type changes only `table[first char of type][type]`. It appends the row unless the row equals the last stored row. |
| `LoadProperties.RuleLineGrowth` | src/adapter/file_adapter.rs:103-104 | The type's rows grow by at most one and keep all earlier rows. They stay the same exactly when the new row repeats the last one. |
| `LoadProperties.ApplyLineKeepsNoAdjacentDuplicates` | src/adapter/file_adapter.rs:103-104 | One line preserves the invariant that no type holds two equal adjacent rows. |
| `LoadProperties.LoadLinesKeepsNoAdjacentDuplicates` | src/adapter/file_adapter.rs:27-29 | A whole load preserves that invariant. |
| `LoadProperties.LoadLinesAppend` | src/adapter/file_adapter.rs:27-29 | Loading `a` and then `b` is the same as loading `a + b`. |
| `LoadProperties.LoadLinesFailsIff` | src/adapter/file_adapter.rs:27-29 | A load fails exactly when one of its lines has an empty policy type. |
| `SaveProperties.SectionRulesOfType` | src/adapter/file_adapter.rs:53-57 | Within a section's output, the rules of one type are exactly that type's rows, in stored order. |
| `SaveProperties.SectionEntriesOrigin` | src/adapter/file_adapter.rs:53-57 | A section emits one rule per stored row, each taken from a listed type's rows. |
| `SaveProperties.SavedSectionsInOrder` | src/adapter/file_adapter.rs:51-66 | There is one saved rule per stored row. All `p`-section rules come before all `g`-section rules. |
| `SaveProperties.SavedRowsPerType` | src/adapter/file_adapter.rs:53-65 | Each type's saved rules are exactly its stored rows, in stored order. |
| `RoundTrip.SplitRuleLine` | src/adapter/file_adapter.rs:97 | A saved line splits into its type, its first field behind one space, then its other fields. |
| `RoundTrip.TrimRulePieces` | src/adapter/file_adapter.rs:97 | Trimming those pieces gives the type followed by the row. |
| `RoundTrip.ParseRuleLine` | src/adapter/file_adapter.rs:94-99 | A saved line parses back into its type and its row. |
| `RoundTrip.RuleLineSingle` | src/adapter/file_adapter.rs:55 | A saved line holds no `\n` and does not end in `\r`. |
| `RoundTrip.ApplySavedLine` | src/adapter/file_adapter.rs:101-104 | Loading a saved line whose row does not repeat the last stored row appends that row. |
| `RoundTrip.LoadTypeBlock` | src/adapter/file_adapter.rs:103-104 | Loading one type's saved lines into that type, with no rows yet, stores exactly its rows. |
| `RoundTrip.LoadSection` | src/adapter/file_adapter.rs:53-57 | Loading a section's saved lines restores every type they cover. |
| `RoundTrip.LoadSavedEntries` | src/adapter/file_adapter.rs:51-66 | Loading all saved lines into the model with the same types and no rows restores the table. |
| `RoundTrip.SavedLinesReadBack` | src/adapter/file_adapter.rs:27 | The saved text reads back as exactly the saved lines. |
| `RoundTrip.SavedTextShape` | src/adapter/file_adapter.rs:51-66 | The saved text holds exactly one `\n` per saved rule, is empty only when there is no rule, and otherwise ends with `\n`. |
| `RoundTrip.SaveLoadRoundTrip` | src/adapter/file_adapter.rs:51-66 | Round trip: the saved text, read line by line into the same model emptied of rows, reproduces the table. Conditions: `pTypes` and `gTypes` list each type of their section exactly once; every type starts with its section letter, is trimmed and is free of `,` and `\n`; fields are trimmed and free of `,` and `\n`; rows are non-empty; there are no adjacent duplicate rows. |
| `DedupCases.AdjacentRepeatStoredOnce` | src/adapter/file_adapter.rs:103-104 | The same rule on two consecutive lines is stored once. |
| `DedupCases.DistantRepeatStoredTwice` | src/adapter/file_adapter.rs:103-104 | A rule repeated with a different rule in between is stored twice. |

## Left out

- File access is not modelled: `File::open`, `BufReader`, `File::create` and
  `write_all`.
  - `FileAdapter.LoadPolicy` starts from the file's lines.
  - `FileAdapter.SavePolicy` returns `Ok` of the text that `save_policy_file`
    would write.
  - I/O failures, including a line that is not valid UTF-8, are not modelled.
    `Errors.FromIoError` is their only entry point.
- The contents of `io::Error` are not modelled. The error is represented by
  the text its own `Display` prints.
- `HashMap` iteration order in `save_policy` is not modelled. The order in
  which the types of the `p` and `g` sections are visited is an explicit
  parameter (`pTypes`, `gTypes`), which must list each type exactly once.
  Properties are stated per type.
- The rest of casbin's `Model` is not modelled: token lists, definition text
  and the non-policy sections' contents. The model keeps only each type's
  policy vector. `src/model` is not part of this model.
- `FileAdapter.LoadPolicy`: does not state the model's contents after a line
  panics, because the source aborts there. It states only that the load
  fails.
- `FileAdapter.SavePolicy`: requires the `p` and `g` sections only when the
  path is non-empty. A missing section makes the source panic on `unwrap`;
  that panic is not modelled as a result.
- `FileAdapter.AddPolicy`, `FileAdapter.RemovePolicy`,
  `FileAdapter.RemoveFilteredPolicy`: modelled as pure functions, since none
  of them changes anything. `add_policy` takes `&mut self`;
  `remove_policy` and `remove_filtered_policy` take `&self`.
- Rust strings are UTF-8 bytes. The model works on characters, so indexing
  by `chars().nth(0)` and slicing agree.
- `benches/model_benchmark.rs` (timing harness) is not modelled, nor are the
  enforcer, role manager, matcher and effector, which are not part of this
  model.
