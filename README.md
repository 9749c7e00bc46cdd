# Provider schema linter, modelled in Dafny

This project models the schema linter in the Azure Terraform provider's
`internal/provider/provider_schema_test.go`. The linter walks the schema of
every data source and resource in the provider. It enforces three naming
rules:

- **Sensitive fields.** A field whose lower-cased name is `api_key`,
  `api_secret_key`, `password`, `private_key` or `ssh_private_key` must be
  marked `Sensitive`, whatever its type. So must a string field whose
  lower-cased name ends in `_api_key`.
- **`_enabled` fields are booleans.** A field whose lower-cased name ends in
  `_enabled` must be a `TypeBool`, unless the entry lists it as an exception.
- **No `name` defaulting to `default`.** A field called `name` in any case
  must not have the string default `default` in any case, unless the entry
  lists it as an exception.

All three walkers share one traversal. They collect a schema's field names
and sort them, then check each field in turn. They descend into the nested
schema of a `TypeList` or `TypeSet` whose `Elem` is a `*Resource` with a
non-nil `Schema`, and wrap a nested error in the enclosing field ("the field
X is a List: ..."). They return the first error found. The drivers do the
same at the catalog level. They sort the entry names, look up each entry's
exceptions (a missing entry gets none), and stop at the first failing entry.

Layout:

- `strings.dfy`: module `Strings`. ASCII `ToLower`, `EqualFold`, `HasSuffix`,
  the byte-wise order `sort.Strings` uses (`Less`, with its order lemmas),
  and insertion into a strictly sorted name list.
- `schema.dfy`: modules `Wrappers` (`Option`) and `Schemas`. Field, schema,
  the `Nested` test that decides recursion, and the sort of a schema's
  entries by name.
- `rules.dfy`: module `Rules`. Each rule's check on a single field, as a
  `Verdict`: `Skip` (the walker's `continue`), `Flag(reason)` or `Descend`.
  Also lemmas that characterise each verdict exactly.
- `walker.dfy`: module `Walker`. `Check` is the walk as a specification
  function. `HasViolation` is an order-free reference meaning. `WalkSchema`
  and `WalkField` are the walk as the source performs it: a collecting loop,
  a sort, then a loop with early return and recursion. The file also holds
  the lemmas linking these, and one entry method per rule.
- `catalog.dfy`: module `Catalogs`. The exception tables, the per-entry rule
  lookup, and the drivers over a catalog.

Two consequences of how the code is written are worth spelling out:

- An excepted field is skipped with `continue` before the recursion blocks
  (lines 180-182 and 280-282), so nothing nested under it is walked. For the
  `name` rule any excepted field hides what is nested under it;
  `Walker.ExceptedFieldHidesNestedViolation` shows this. The `_enabled` rule
  looks its exceptions up only inside `if strings.HasSuffix(key, "_enabled")`
  (lines 177-181), so excepting a list or set field whose name does not end
  in `_enabled` changes nothing and the walk still descends into it
  (`Rules.EnabledExceptionNeedsSuffix`).
- Each rule is its own test over a whole catalog, so the model has one driver
  per rule kind and catalog.

## Model

| member | source | states |
|---|---|---|
| `Strings.ToLower` | internal/provider/provider_schema_test.go:67 | the key keeps the name's length, lower-cases each ASCII letter, and contains no upper-case letter |
| `Strings.EqualFoldLowerConstant` | internal/provider/provider_schema_test.go:71 | for a lower-cased key and a lower-case constant, `EqualFold` is plain equality |
| `Strings.EqualFoldPointwise` | internal/provider/provider_schema_test.go:71 | `EqualFold` holds exactly when both strings have the same length and agree at every position once each character is lower-cased |
| `Strings.HasSuffixIsEndsWith` | internal/provider/provider_schema_test.go:76 | a string has a suffix exactly when it is some string followed by that suffix |
| `Strings.LessIsFirstDifference` | internal/provider/provider_schema_test.go:64 | the sort order puts `a` before `b` exactly when, at the first position where they differ, `a` has ended or holds the smaller character |
| `Strings.InsertName` | internal/provider/provider_schema_test.go:122-126 | adding one new name to a strictly ascending list keeps it strictly ascending, with exactly the old names plus the new one |
| `Schemas.Nested` | internal/provider/provider_schema_test.go:188-202 | a nested schema is found exactly when the type is `TypeList` or `TypeSet`, `Elem` is a `*Resource` and its `Schema` is non-nil; the result is that schema, tagged List exactly when the type is `TypeList` |
| `Schemas.InsertByName` | internal/provider/provider_schema_test.go:171 | inserting one entry into entries sorted by name keeps them sorted, and the result holds the old entries plus the new one |
| `Schemas.SortFields` | internal/provider/provider_schema_test.go:167-171 | the visiting order is sorted by name and is a permutation of the schema's entries |
| `Rules.MatchesAny` | internal/provider/provider_schema_test.go:70-74 | the loop over the secret names succeeds exactly when some listed name equals the key, ignoring case |
| `Rules.SensitiveVerdict` | internal/provider/provider_schema_test.go:66-78 | the sensitive check never skips a field, passes every field marked `Sensitive`, and reports only with reason "not marked sensitive" |
| `Rules.EnabledVerdict` | internal/provider/provider_schema_test.go:173-186 | the `_enabled` check skips only an excepted name, and reports only a non-excepted field that is not `TypeBool`, carrying its actual type |
| `Rules.NameDefaultVerdict` | internal/provider/provider_schema_test.go:274-294 | the `name` check skips exactly the excepted fields, and a reported field defaults to `default` |
| `Rules.DefaultsToDefaultExact` | internal/provider/provider_schema_test.go:285-293 | a default counts as `default` exactly when it is a Go string that lower-cases to `default`; a nil default or one of another type never does |
| `Rules.FieldVerdict` | internal/provider/provider_schema_test.go:66-294 | a field reported by a rule carries that rule's reason (a non-boolean type for the `_enabled` rule); the sensitive rule never skips a field |
| `Rules.IsSecretName` | internal/provider/provider_schema_test.go:51-57 | the case-insensitive test against the five secret names is membership of the lower-cased name in that list |
| `Rules.SensitiveVerdictExact` | internal/provider/provider_schema_test.go:70-78 | the sensitive rule reports a field exactly when it is not `Sensitive` and either its lower-cased name is a secret name (any type) or it is a `TypeString` ending in `_api_key`; it never skips |
| `Rules.SensitiveFieldPasses` | internal/provider/provider_schema_test.go:71 | a field marked `Sensitive` always passes the sensitive rule |
| `Rules.BareApiKeyHasNoSuffix` | internal/provider/provider_schema_test.go:76 | a bare `api_key` does not end in `_api_key`, so only the exact-name test can catch it |
| `Rules.EnabledVerdictExact` | internal/provider/provider_schema_test.go:177-186 | the `_enabled` rule skips exactly the excepted `_enabled` fields, and reports exactly the non-excepted `_enabled` fields that are not `TypeBool`, with their actual type |
| `Rules.ExceptingEnabledFieldSkipsIt` | internal/provider/provider_schema_test.go:180-182 | adding a reported field's lower-cased name to the exceptions turns the report into a skip |
| `Rules.EnabledExceptionNeedsSuffix` | internal/provider/provider_schema_test.go:177-181 | for a field whose lower-cased name does not end in `_enabled`, the `_enabled` rule descends whatever the exceptions |
| `Rules.BareEnabledPasses` | internal/provider/provider_schema_test.go:177 | a field named `enabled` in any case is never reported by the `_enabled` rule |
| `Rules.NameDefaultVerdictExact` | internal/provider/provider_schema_test.go:280-294 | the name rule skips exactly the excepted fields, and reports exactly a non-excepted field named `name` whose default is a string equal to `default` ignoring case; a nil default, a non-string default or any other string passes |
| `Rules.ExceptionsOnlySkip` | internal/provider/provider_schema_test.go:278-282 | with fewer exceptions, a field that was not skipped gets the same verdict |
| `Walker.Wrap` | internal/provider/provider_schema_test.go:191 | a wrapped error names the enclosing field first, with whether it is a list or a set, keeps the nested path after it, and keeps the offending field and reason |
| `Walker.Check` | internal/provider/provider_schema_test.go:166-205 | every error a walk returns carries the reason of the rule that walked |
| `Walker.CheckField` | internal/provider/provider_schema_test.go:173-203 | an error found at a field names that field at its head and carries the rule's reason |
| `Walker.FirstInOrder` | internal/provider/provider_schema_test.go:66-95 | the walk returns nil exactly when no field's own walk reports anything; otherwise it returns the report of the first field in visiting order that has one |
| `Walker.InOrderPassesIffAllPass` | internal/provider/provider_schema_test.go:173-205 | the walk over an order returns nil exactly when no field's own walk reports anything |
| `Walker.FirstReportInOrder` | internal/provider/provider_schema_test.go:173-205 | a walk that reports returns the report of some field at position `j`, and every field before `j` passes |
| `Walker.ReportOfFirstReporting` | internal/provider/provider_schema_test.go:173-205 | when every field before position `i` passes and the `i`-th reports, the walk returns the `i`-th field's report |
| `Walker.CheckIsNoneIffClean` | internal/provider/provider_schema_test.go:59-97 | a walk returns nil exactly when no field at any reachable depth violates the rule |
| `Walker.FieldReportedIffViolates` | internal/provider/provider_schema_test.go:80-94 | one field's walk reports something exactly when the field violates the rule itself or, when walked into, in its nested schema |
| `Walker.EmptySchemaPasses` | internal/provider/provider_schema_test.go:95-97 | the empty schema passes every rule |
| `Walker.ReportIsGenuine` | internal/provider/provider_schema_test.go:82-84 | every error can be followed into the schema: each step is a walked-into field of the named collection type, ending at a field the rule reports for the given reason |
| `Walker.ReportedFieldIsFirst` | internal/provider/provider_schema_test.go:267-274 | no field whose name sorts before the reported field violates the rule at any depth |
| `Walker.FirstViolatingFieldIsReported` | internal/provider/provider_schema_test.go:274-311 | with unique names, the first violating field in ascending name order is the one reported, with its own report |
| `Walker.SortedWalkReportsLeastName` | internal/provider/provider_schema_test.go:173 | on entries sorted by name, the walk reports an entry named like the least entry that has a report |
| `Walker.FewerExceptionsFindMore` | internal/provider/provider_schema_test.go:180-181 | any violation found with some exceptions is also found with a subset of them |
| `Walker.MoreExceptionsStillPass` | internal/provider/provider_schema_test.go:280-281 | a schema that passes a rule still passes when exceptions are added |
| `Walker.WalkSchema` | internal/provider/provider_schema_test.go:166-205 | the walk as written (collect the entries, sort them by name, then the loop in `WalkEntries`) returns exactly `Check`'s result |
| `Walker.WalkEntries` | internal/provider/provider_schema_test.go:173-203 | the loop over the sorted entries, returning at the first report, returns exactly the walk over that order |
| `Walker.WalkField` | internal/provider/provider_schema_test.go:274-310 | one loop iteration (exception, own check, List or Set recursion with wrapping) returns exactly the field's report |
| `Walker.CollectSorted` | internal/provider/provider_schema_test.go:268-273 | collecting the entries one at a time and sorting yields the visiting order |
| `Walker.FindUnmarkedSensitiveField` | internal/provider/provider_schema_test.go:50-98 | nil exactly when no reachable field is an unmarked secret; otherwise the error leads to such a field, with reason "not marked sensitive" |
| `Walker.FindNonBooleanEnabledField` | internal/provider/provider_schema_test.go:165-206 | nil exactly when no reachable non-excepted `_enabled` field is a non-boolean; otherwise the error leads to one and carries its non-boolean type |
| `Walker.FindNameDefaultingToDefault` | internal/provider/provider_schema_test.go:266-314 | nil exactly when no reachable non-excepted `name` field defaults to `default`; otherwise the error leads to one |
| `Walker.SingleFieldSchema` | internal/provider/provider_schema_test.go:66 | a schema of one field reports what that field's walk reports |
| `Walker.SecretInSingleField` | internal/provider/provider_schema_test.go:66-77 | an unmarked string field `api_key` on its own is reported with an empty path |
| `Walker.NestedSecretIsReportedWithPath` | internal/provider/provider_schema_test.go:80-86 | an unmarked string `api_key` inside a list field `settings` is reported as `settings` (List), then `api_key` |
| `Walker.NameDefaultInSingleField` | internal/provider/provider_schema_test.go:284-292 | a field `Name` defaulting to `Default` is reported, case ignored on both sides |
| `Walker.NestedNameDefaultIsReported` | internal/provider/provider_schema_test.go:304-310 | that field nested in a set field `rule` is reported wrapped as `rule` (Set) |
| `Walker.ExceptedFieldHidesNestedViolation` | internal/provider/provider_schema_test.go:280-282 | when `rule` is excepted, the walk returns nil, although its nested schema still violates under the same exceptions |
| `Catalogs.SortedNames` | internal/provider/provider_schema_test.go:230-234 | the entry names, collected and sorted, are strictly ascending and are exactly the catalog's names |
| `Catalogs.SortedPosition` | internal/provider/provider_schema_test.go:256 | in the sorted entry list, a name that sorts before another is visited before it |
| `Catalogs.RuleFor` | internal/provider/provider_schema_test.go:155-158 | an entry missing from the table gets the rule with no exceptions; an entry present gets exactly its listed names; either way the rule is the bare rule with possibly more exceptions |
| `Catalogs.ResourceExceptions` | internal/provider/provider_schema_test.go:42-46 | the sensitive resource driver uses no exception table, the other two use a non-empty one |
| `Catalogs.ExceptionTablesAreLowerCase` | internal/provider/provider_schema_test.go:129-153 | every excepted name in the resource tables is lower case, as the lookups with the lower-cased key need |
| `Catalogs.EnabledExceptionsAreEnabledFields` | internal/provider/provider_schema_test.go:129-153 | every name the `_enabled` table excepts is lower case and ends in `_enabled` |
| `Catalogs.NameDefaultExceptionsAreNameFields` | internal/provider/provider_schema_test.go:237-254 | every name the `name` table excepts is `name` itself |
| `Catalogs.ListedExceptionsTakeEffect` | internal/provider/provider_schema_test.go:155-160 | every exception listed for a resource takes effect: a field whose lower-cased name it lists is skipped in that resource, whatever its type or default |
| `Catalogs.ExceptedFieldIsSkipped` | internal/provider/provider_schema_test.go:177-182 | a field whose lower-cased name the entry excepts is skipped, given the rule takes exceptions and, for the `_enabled` rule, the name ends in `_enabled` |
| `Catalogs.CheckCatalog` | internal/provider/provider_schema_test.go:155-162 | the driver succeeds exactly when every entry passes with its own exceptions; otherwise it names a failing entry with that entry's error, and every entry sorting before it passes |
| `Catalogs.WalkInOrder` | internal/provider/provider_schema_test.go:155-162 | the loop over the sorted entries stops at the first entry whose walk fails, returns that walk's error, and every entry before it passes |
| `Catalogs.EarlierEntriesPass` | internal/provider/provider_schema_test.go:234-256 | once the first entries of the sorted list pass, every catalog entry sorting before the next one passes (all of them, once the list is exhausted) |
| `Catalogs.CheckDataSources` | internal/provider/provider_schema_test.go:208-224 | the data-source drivers check every entry with no exceptions, succeed exactly when all pass, and otherwise report the first failing entry |
| `Catalogs.CheckResources` | internal/provider/provider_schema_test.go:226-264 | the resource drivers check every entry with its exceptions from the rule's table, succeed exactly when all pass, and otherwise report the first failing entry |
| `Catalogs.ExceptionsAreScopedToTheirEntry` | internal/provider/provider_schema_test.go:257-260 | exceptions declared for one entry never change another entry's check |
| `Catalogs.MissingEntryHasNoExceptions` | internal/provider/provider_schema_test.go:157 | an entry missing from the exception table is checked with an empty exception set |
| `Catalogs.KubernetesExceptionStaysWithKubernetes` | internal/provider/provider_schema_test.go:139-142 | a string `transparent_huge_page_enabled` is skipped in `azurerm_kubernetes_cluster`, but reported as a `TypeString` in a resource with no exception for it |

## Left out

- The provider registry (`TestAzureProvider`, `DataSourcesMap`, `ResourcesMap`) is not modelled. The drivers take a catalog (entry name to root schema) as a parameter.
- `testing.T` and `t.Fatalf` are not modelled. A driver returns the first failing entry and its error, or nothing.
- The `fmt.Errorf` text is not modelled. An error is structured: the enclosing List/Set fields, the offending field's name as declared, and a reason. The `_enabled` reason carries the actual type.
- `Strings.ToLower`: only ASCII letters are lower-cased. Go's `strings.ToLower` and `strings.EqualFold` also fold other Unicode letters, such as the Kelvin sign.
- `sort.Strings`: its algorithm is not modelled. Sorting is by insertion, in the same byte-wise order (code-point order for UTF-8 text).
- The schema is a list of named fields, not a Go map. A list makes the visiting order an explicit value that the sort produces and the lemmas can talk about. Key uniqueness (`Schemas.DistinctNames`) is assumed only where identity by name matters (`Walker.FirstViolatingFieldIsReported`).
- A non-nil `Elem` holding a nil `*Resource` is not modelled. Go would dereference it and panic.
- A nil `*Schema` value in a schema map is not modelled: every field is present. Go reads `field.Type` of every field (lines 80, 188 and 296) and would panic on a nil one.
- A nil `*Resource` catalog entry is not modelled. Every entry has a schema; Go reads `.Schema` of the entry unconditionally (lines 26, 44, 112, 159, 220, 260) and would panic.
- All other `pluginsdk.Schema` attributes are left out. Only `Type`, `Sensitive`, `Default` (string or not) and `Elem` are read.
- Idempotence has no lemma. Every walk is a function of the schema and the exceptions, so repeating it gives the same result by construction.
