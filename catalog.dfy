/**
 The drivers: walk every entry of a catalog (the provider's data sources or
 its resources) in ascending order of name, run one rule on each entry's
 schema with that entry's exceptions, and stop at the first entry that
 fails.
 */
module Catalogs {
  import opened Wrappers
  import opened Strings
  import opened Schemas
  import opened Rules
  import opened Walker

  /** A catalog: entry name to the entry's root schema. */
  type Catalog = map<string, Schema>

  /** Per-entry exceptions: entry name to the lower-cased field names excepted in it. */
  type Exceptions = map<string, set<string>>

  datatype RuleKind = SensitiveFieldsKind | EnabledFieldsKind | NameDefaultKind

  /** The entry that failed and the report its walk returned. */
  datatype EntryFailure = EntryFailure(entry: string, violation: Violation)

  /** Resources whose `_enabled` fields are not booleans yet, by agreement. */
  const EnabledFieldExceptions: Exceptions := map[
    "azurerm_datadog_monitor_sso_configuration" := {"single_sign_on_enabled"},
    "azurerm_netapp_volume" := {"protocols_enabled"},
    "azurerm_kubernetes_cluster" := {"transparent_huge_page_enabled"},
    "azurerm_kubernetes_cluster_node_pool" := {"transparent_huge_page_enabled"},
    "azurerm_iot_security_solution" := {"recommendations_enabled"}
  ]

  /** Resources whose `name` field may default to `default`, by agreement. */
  const NameDefaultExceptions: Exceptions := map[
    "azurerm_datadog_monitor_sso_configuration" := {"name"},
    "azurerm_datadog_monitor_tag_rule" := {"name"},
    "azurerm_redis_enterprise_database" := {"name"}
  ]

  /** A rule of the given kind with the given exceptions; the sensitive rule takes none. */
  function RuleWith(kind: RuleKind, exceptions: set<string>): Rule {
    match kind
    case SensitiveFieldsKind => SensitiveFields
    case EnabledFieldsKind => EnabledFieldsAreBooleans(exceptions)
    case NameDefaultKind => NameDoesNotDefaultToDefault(exceptions)
  }

  /**
   The rule an entry is checked with: its own exceptions, or none when the
   table has no entry for it (a lookup in a Go map yields the nil map).
   */
  function RuleFor(kind: RuleKind, exceptions: Exceptions, entry: string): (r: Rule)
    ensures entry !in exceptions ==> r == RuleWith(kind, {})
    ensures FewerExceptions(RuleWith(kind, {}), r)
    ensures kind != SensitiveFieldsKind && entry in exceptions ==> r.exceptions == exceptions[entry]
  {
    RuleWith(kind, if entry in exceptions then exceptions[entry] else {})
  }

  /** The exception tables of the resource drivers; the sensitive driver has none. */
  function ResourceExceptions(kind: RuleKind): (r: Exceptions)
    ensures kind == SensitiveFieldsKind ==> r == map[]
    ensures kind != SensitiveFieldsKind ==> |r| > 0
  {
    match kind
    case SensitiveFieldsKind => map[]
    case EnabledFieldsKind => EnabledFieldExceptions
    case NameDefaultKind => NameDefaultExceptions
  }

  /**
   Every excepted name in the resource drivers' tables is lower case, as
   the lookups with the lower-cased field name need.
   */
  lemma ExceptionTablesAreLowerCase(kind: RuleKind)
    ensures forall e, x :: e in ResourceExceptions(kind) && x in ResourceExceptions(kind)[e] ==> IsLower(x)
  {
    var table := ResourceExceptions(kind);
    EnabledExceptionsAreEnabledFields();
    NameDefaultExceptionsAreNameFields();
    forall e, x | e in table && x in table[e] ensures IsLower(x) {
      if kind == EnabledFieldsKind {
        assert EnabledException(x);
      }
    }
  }

  /** A field name the `_enabled` rule can except: lower case and ending in `_enabled`. */
  predicate EnabledException(x: string) {
    IsLower(x) && HasSuffix(x, EnabledSuffix)
  }

  /** A lower-case stem followed by `_enabled` is a name the `_enabled` rule can except. */
  lemma EnabledStem(stem: string)
    requires IsLower(stem)
    ensures EnabledException(stem + EnabledSuffix)
  {
    var x := stem + EnabledSuffix;
    assert IsLower(EnabledSuffix);
    LowerConcat(stem, EnabledSuffix);
    assert x[|x| - |EnabledSuffix|..] == EnabledSuffix;
  }

  /**
   Every exception in the `_enabled` table names a lower-case field ending
   in `_enabled`, so each one can take effect.
   */
  lemma EnabledExceptionsAreEnabledFields()
    ensures forall e, x :: e in EnabledFieldExceptions && x in EnabledFieldExceptions[e] ==> EnabledException(x)
  {
    EnabledExceptionNames();
    ExceptedEnabledNamesAreEnabledFields();
  }

  /** The field names the `_enabled` table excepts, in any of its entries. */
  lemma EnabledExceptionNames()
    ensures forall e, x :: e in EnabledFieldExceptions && x in EnabledFieldExceptions[e] ==>
              x == "single_sign_on_enabled" || x == "protocols_enabled" ||
              x == "transparent_huge_page_enabled" || x == "recommendations_enabled"
  {
  }

  lemma ExceptedEnabledNamesAreEnabledFields()
    ensures EnabledException("single_sign_on_enabled") && EnabledException("protocols_enabled")
    ensures EnabledException("transparent_huge_page_enabled") && EnabledException("recommendations_enabled")
  {
    SingleSignOnEnabled();
    ProtocolsEnabled();
    TransparentHugePageEnabled();
    RecommendationsEnabled();
  }

  lemma SingleSignOnEnabled()
    ensures EnabledException("single_sign_on_enabled")
  {
    assert IsLower("single_sign_on");
    EnabledStem("single_sign_on");
    assert "single_sign_on" + EnabledSuffix == "single_sign_on_enabled";
  }

  lemma ProtocolsEnabled()
    ensures EnabledException("protocols_enabled")
  {
    assert IsLower("protocols");
    EnabledStem("protocols");
    assert "protocols" + EnabledSuffix == "protocols_enabled";
  }

  lemma TransparentHugePageEnabled()
    ensures EnabledException("transparent_huge_page_enabled")
  {
    assert IsLower("transparent") && IsLower("_huge_page");
    LowerConcat("transparent", "_huge_page");
    EnabledStem("transparent_huge_page");
    assert "transparent_huge_page" + EnabledSuffix == "transparent_huge_page_enabled";
  }

  lemma RecommendationsEnabled()
    ensures EnabledException("recommendations_enabled")
  {
    assert IsLower("recommendations");
    EnabledStem("recommendations");
    assert "recommendations" + EnabledSuffix == "recommendations_enabled";
  }

  /** Every exception in the `name` table is the field `name` itself. */
  lemma NameDefaultExceptionsAreNameFields()
    ensures forall e, x :: e in NameDefaultExceptions && x in NameDefaultExceptions[e] ==> x == "name" && IsLower(x)
  {
  }

  /**
   Every exception listed in a resource driver's table takes effect: in
   the entry that lists it, a field whose lower-cased name is the excepted
   name is skipped, whatever its type or default.
   */
  lemma ListedExceptionsTakeEffect(kind: RuleKind, entry: string, name: string, f: Field)
    requires entry in ResourceExceptions(kind) && ToLower(name) in ResourceExceptions(kind)[entry]
    ensures FieldVerdict(RuleFor(kind, ResourceExceptions(kind), entry), name, f) == Skip
  {
    var table := ResourceExceptions(kind);
    if kind == EnabledFieldsKind {
      EnabledExceptionsAreEnabledFields();
      assert EnabledException(ToLower(name));
    }
    ExceptedFieldIsSkipped(kind, table, entry, name, f);
  }

  /**
   A field whose lower-cased name an entry excepts is skipped in that entry,
   provided the rule takes exceptions and, for the `_enabled` rule, the
   name ends in `_enabled`.
   */
  lemma ExceptedFieldIsSkipped(kind: RuleKind, exceptions: Exceptions, entry: string, name: string, f: Field)
    requires kind != SensitiveFieldsKind
    requires entry in exceptions && ToLower(name) in exceptions[entry]
    requires kind == EnabledFieldsKind ==> HasSuffix(ToLower(name), EnabledSuffix)
    ensures FieldVerdict(RuleFor(kind, exceptions, entry), name, f) == Skip
  {
  }

  /** Collects a set of names one at a time into ascending order. */
  method SortedNames(names: set<string>) returns (sorted: seq<string>)
    ensures StrictlySorted(sorted)
    ensures forall n :: n in sorted <==> n in names
  {
    sorted := [];
    var rest := names;
    while rest != {}
      invariant rest <= names
      invariant StrictlySorted(sorted)
      invariant forall n :: n in sorted <==> n in names && n !in rest
      decreases rest
    {
      var n :| n in rest;
      var next := InsertName(sorted, n);
      assert forall m :: m in next <==> m in multiset(next);
      sorted := next;
      rest := rest - {n};
    }
  }

  /** In a strictly ascending sequence, a name that sorts before another comes first. */
  lemma SortedPosition(names: seq<string>, i: nat, k: nat)
    requires StrictlySorted(names)
    requires i < |names| && k < |names| && Less(names[k], names[i])
    ensures k < i
  {
    if k == i {
      LessIrreflexive(names[i]);
    } else if i < k {
      LessAsymmetric(names[i], names[k]);
    }
  }

  /** One entry of a catalog passes its walk under the rule its exceptions give it. */
  ghost predicate EntryPasses(kind: RuleKind, catalog: Catalog, exceptions: Exceptions, e: string)
    requires e in catalog
  {
    Check(RuleFor(kind, exceptions, e), catalog[e]).None?
  }

  /**
   A catalog passes when every entry passes; otherwise the failure names
   the first failing entry in ascending order and its walk's report.
   */
  method CheckCatalog(kind: RuleKind, catalog: Catalog, exceptions: Exceptions) returns (failure: Option<EntryFailure>)
    ensures failure.None? <==> forall e :: e in catalog ==> EntryPasses(kind, catalog, exceptions, e)
    ensures failure.Some? ==>
              && failure.value.entry in catalog
              && Check(RuleFor(kind, exceptions, failure.value.entry), catalog[failure.value.entry]) == Some(failure.value.violation)
              && forall e :: e in catalog && Less(e, failure.value.entry) ==> EntryPasses(kind, catalog, exceptions, e)
  {
    var names := SortedNames(catalog.Keys);
    var i, err := WalkInOrder(kind, catalog, exceptions, names);
    EarlierEntriesPass(kind, catalog, exceptions, names, i);
    if i < |names| {
      assert names[i] in catalog && !EntryPasses(kind, catalog, exceptions, names[i]);
      failure := Some(EntryFailure(names[i], err.value));
    } else {
      failure := None;
    }
  }

  /**
   Walks the entries in the order given and stops at the first that fails:
   `i` is its position (`|names|` when none fails) and every entry before it
   passes.
   */
  method WalkInOrder(kind: RuleKind, catalog: Catalog, exceptions: Exceptions, names: seq<string>)
    returns (i: nat, err: Option<Violation>)
    requires forall n :: n in names ==> n in catalog
    ensures i <= |names|
    ensures forall k :: 0 <= k < i ==> EntryPasses(kind, catalog, exceptions, names[k])
    ensures i < |names| ==> err.Some? && Check(RuleFor(kind, exceptions, names[i]), catalog[names[i]]) == err
  {
    i, err := 0, None;
    while i < |names|
      invariant i <= |names|
      invariant forall k :: 0 <= k < i ==> EntryPasses(kind, catalog, exceptions, names[k])
    {
      err := WalkSchema(RuleFor(kind, exceptions, names[i]), catalog[names[i]]);
      if err.Some? {
        return;
      }
      i := i + 1;
    }
  }

  /**
   When the first `i` entries in ascending order pass, so does every entry
   whose name sorts before the `i`-th (every entry, once all are visited).
   */
  lemma EarlierEntriesPass(kind: RuleKind, catalog: Catalog, exceptions: Exceptions, names: seq<string>, i: nat)
    requires StrictlySorted(names) && i <= |names|
    requires forall n :: n in names <==> n in catalog
    requires forall k :: 0 <= k < i ==> EntryPasses(kind, catalog, exceptions, names[k])
    ensures i < |names| ==>
              forall e :: e in catalog && Less(e, names[i]) ==> EntryPasses(kind, catalog, exceptions, e)
    ensures i == |names| ==> forall e :: e in catalog ==> EntryPasses(kind, catalog, exceptions, e)
  {
    forall e | e in catalog && (i == |names| || Less(e, names[i]))
      ensures EntryPasses(kind, catalog, exceptions, e)
    {
      var k :| 0 <= k < |names| && names[k] == e;
      if i < |names| {
        SortedPosition(names, i, k);
      }
    }
  }

  /** The data source drivers: every data source is checked without exceptions. */
  method CheckDataSources(kind: RuleKind, dataSources: Catalog) returns (failure: Option<EntryFailure>)
    ensures failure.None? <==> forall e :: e in dataSources ==> Check(RuleWith(kind, {}), dataSources[e]).None?
    ensures failure.Some? ==>
              && failure.value.entry in dataSources
              && Check(RuleWith(kind, {}), dataSources[failure.value.entry]) == Some(failure.value.violation)
              && forall e :: e in dataSources && Less(e, failure.value.entry) ==>
                   Check(RuleWith(kind, {}), dataSources[e]).None?
  {
    failure := CheckCatalog(kind, dataSources, map[]);
  }

  /** The resource drivers: each resource is checked with its own exceptions from the tables. */
  method CheckResources(kind: RuleKind, resources: Catalog) returns (failure: Option<EntryFailure>)
    ensures failure.None? <==>
              forall e :: e in resources ==> Check(RuleFor(kind, ResourceExceptions(kind), e), resources[e]).None?
    ensures failure.Some? ==>
              && failure.value.entry in resources
              && Check(RuleFor(kind, ResourceExceptions(kind), failure.value.entry), resources[failure.value.entry])
                   == Some(failure.value.violation)
              && forall e :: e in resources && Less(e, failure.value.entry) ==>
                   Check(RuleFor(kind, ResourceExceptions(kind), e), resources[e]).None?
  {
    failure := CheckCatalog(kind, resources, ResourceExceptions(kind));
  }

  /**
   Exceptions are scoped to their entry: declaring exceptions for entry `a`
   changes nothing in the check of any other entry.
   */
  lemma ExceptionsAreScopedToTheirEntry(kind: RuleKind, exceptions: Exceptions, a: string, keys: set<string>, b: string, s: Schema)
    requires a != b
    ensures Check(RuleFor(kind, exceptions[a := keys], b), s) == Check(RuleFor(kind, exceptions, b), s)
  {
  }

  /** An entry missing from the exception table is checked with no exceptions at all. */
  lemma MissingEntryHasNoExceptions(kind: RuleKind, exceptions: Exceptions, entry: string)
    requires entry !in exceptions
    ensures RuleFor(kind, exceptions, entry) == RuleWith(kind, {})
  {
  }

  /**
   The exception for `transparent_huge_page_enabled` in the Kubernetes
   cluster resource does not carry over to a resource without one: a string
   field of that name is skipped in the first and reported in the second.
   */
  lemma KubernetesExceptionStaysWithKubernetes(f: Field)
    requires f.typ == TypeString
    ensures FieldVerdict(RuleFor(EnabledFieldsKind, EnabledFieldExceptions, "azurerm_kubernetes_cluster"),
                         "transparent_huge_page_enabled", f) == Skip
    ensures FieldVerdict(RuleFor(EnabledFieldsKind, EnabledFieldExceptions, "azurerm_linux_virtual_machine"),
                         "transparent_huge_page_enabled", f) == Flag(EnabledNotBoolean(TypeString))
  {
    var key := "transparent_huge_page_enabled";
    TransparentHugePageEnabled();
    LowerIsFixed(key);
    assert "azurerm_linux_virtual_machine" !in EnabledFieldExceptions;
  }
}
