/**
 The three lint rules, each as the check a walker makes on one field before
 it decides whether to descend: the field is skipped outright (an exception,
 the `continue` in the walker), reported, or passed on to the recursion.
 */
module Rules {
  import opened Wrappers
  import opened Strings
  import opened Schemas

  /**
   A rule together with the exceptions it was called with. The sensitive
   field rule takes none; the other two take the set of lower-cased field
   names excepted for the entry being checked.
   */
  datatype Rule =
    | SensitiveFields
    | EnabledFieldsAreBooleans(exceptions: set<string>)
    | NameDoesNotDefaultToDefault(exceptions: set<string>)

  /** Why a field was reported; `EnabledNotBoolean` carries the type it has instead. */
  datatype Reason =
    | NotMarkedSensitive
    | EnabledNotBoolean(actual: ValueType)
    | NameDefaultsToDefault

  /** What a rule makes of one field before any recursion. */
  datatype Verdict = Skip | Flag(reason: Reason) | Descend

  /** Names that hold a secret whatever their type. */
  const ExactMatchFieldNames: seq<string> :=
    ["api_key", "api_secret_key", "password", "private_key", "ssh_private_key"]

  const ApiKeySuffix: string := "_api_key"
  const EnabledSuffix: string := "_enabled"

  /** The loop over the secret names: does `key` equal one of `vals`, ignoring case? */
  function MatchesAny(key: string, vals: seq<string>): (r: bool)
    ensures r <==> exists i :: 0 <= i < |vals| && EqualFold(key, vals[i])
  {
    if vals == [] then false
    else EqualFold(key, vals[0]) || MatchesAny(key, vals[1..])
  }

  /**
   The sensitive field check: it never skips, passes every field marked
   sensitive, and reports only an unmarked field.
   */
  function SensitiveVerdict(name: string, f: Field): (v: Verdict)
    ensures v != Skip
    ensures f.sensitive ==> v == Descend
    ensures v.Flag? ==> v.reason == NotMarkedSensitive
  {
    var key := ToLower(name);
    if MatchesAny(key, ExactMatchFieldNames) && !f.sensitive then Flag(NotMarkedSensitive)
    else if HasSuffix(key, ApiKeySuffix) && f.typ == TypeString && !f.sensitive then Flag(NotMarkedSensitive)
    else Descend
  }

  /**
   The `_enabled` check: only a field whose lower-cased name ends in
   `_enabled` is skipped or reported; a skipped one is excepted, and a
   reported one is not a boolean and carries its type.
   */
  function EnabledVerdict(exceptions: set<string>, name: string, f: Field): (v: Verdict)
    ensures v == Skip ==> ToLower(name) in exceptions
    ensures v.Flag? ==> ToLower(name) !in exceptions && f.typ != TypeBool && v.reason == EnabledNotBoolean(f.typ)
  {
    var key := ToLower(name);
    if HasSuffix(key, EnabledSuffix) && key in exceptions then Skip
    else if HasSuffix(key, EnabledSuffix) && f.typ != TypeBool then Flag(EnabledNotBoolean(f.typ))
    else Descend
  }

  /** Whether a `Default` is a Go string equal to "default", ignoring case. */
  predicate DefaultsToDefault(d: Option<DefaultValue>) {
    d.Some? && d.value.StringDefault? && EqualFold(d.value.s, "default")
  }

  /**
   A default defaults to `default` exactly when it is a string that
   lower-cases to `default`: a nil default or one of another Go type never does.
   */
  lemma DefaultsToDefaultExact(d: Option<DefaultValue>)
    ensures DefaultsToDefault(d) <==> d.Some? && d.value.StringDefault? && ToLower(d.value.s) == "default"
  {
    LowerIsFixed("default");
  }

  /**
   The `name` check: exactly the excepted fields are skipped, whatever
   their name; a reported field is not excepted and defaults to `default`.
   */
  function NameDefaultVerdict(exceptions: set<string>, name: string, f: Field): (v: Verdict)
    ensures v == Skip <==> ToLower(name) in exceptions
    ensures v.Flag? ==> v.reason == NameDefaultsToDefault && DefaultsToDefault(f.default)
  {
    var key := ToLower(name);
    if key in exceptions then Skip
    else if EqualFold(key, "name") && DefaultsToDefault(f.default) then Flag(NameDefaultsToDefault)
    else Descend
  }

  /** The reasons each rule reports with. */
  predicate Produces(rule: Rule, reason: Reason) {
    match rule
    case SensitiveFields => reason == NotMarkedSensitive
    case EnabledFieldsAreBooleans(_) => reason.EnabledNotBoolean? && reason.actual != TypeBool
    case NameDoesNotDefaultToDefault(_) => reason == NameDefaultsToDefault
  }

  function FieldVerdict(rule: Rule, name: string, f: Field): (v: Verdict)
    ensures v.Flag? ==> Produces(rule, v.reason)
    ensures rule.SensitiveFields? ==> v != Skip
  {
    match rule
    case SensitiveFields => SensitiveVerdict(name, f)
    case EnabledFieldsAreBooleans(exceptions) => EnabledVerdict(exceptions, name, f)
    case NameDoesNotDefaultToDefault(exceptions) => NameDefaultVerdict(exceptions, name, f)
  }

  lemma SecretNamesAreLowerCase()
    ensures forall i :: 0 <= i < |ExactMatchFieldNames| ==> IsLower(ExactMatchFieldNames[i])
  {
    var names := ExactMatchFieldNames;
    assert IsLower(names[0]) && IsLower(names[1]) && IsLower(names[2]);
    assert IsLower(names[3]) && IsLower(names[4]);
  }

  /** The exact-name test compares the lower-cased name with the five secret names. */
  lemma IsSecretName(name: string)
    ensures MatchesAny(ToLower(name), ExactMatchFieldNames) <==> ToLower(name) in ExactMatchFieldNames
  {
    SecretNamesAreLowerCase();
    forall i | 0 <= i < |ExactMatchFieldNames|
      ensures EqualFold(ToLower(name), ExactMatchFieldNames[i]) <==> ToLower(name) == ExactMatchFieldNames[i]
    {
      EqualFoldLowerConstant(ToLower(name), ExactMatchFieldNames[i]);
    }
  }

  /**
   The sensitive field rule reports a field exactly when it is not marked
   sensitive and either its lower-cased name is one of the secret names
   (whatever its type) or it is a string whose lower-cased name ends in
   `_api_key`. It never skips a field.
   */
  lemma SensitiveVerdictExact(name: string, f: Field)
    ensures FieldVerdict(SensitiveFields, name, f) != Skip
    ensures FieldVerdict(SensitiveFields, name, f).Flag? ==> FieldVerdict(SensitiveFields, name, f).reason == NotMarkedSensitive
    ensures FieldVerdict(SensitiveFields, name, f).Flag? <==>
              !f.sensitive &&
              (ToLower(name) in ExactMatchFieldNames ||
               (HasSuffix(ToLower(name), "_api_key") && f.typ == TypeString))
  {
    IsSecretName(name);
  }

  /** A field marked sensitive always passes the sensitive field rule. */
  lemma SensitiveFieldPasses(name: string, f: Field)
    requires f.sensitive
    ensures FieldVerdict(SensitiveFields, name, f) == Descend
  {
  }

  /** A bare `api_key` does not end in `_api_key`: only the exact-name test catches it. */
  lemma BareApiKeyHasNoSuffix()
    ensures !HasSuffix("api_key", ApiKeySuffix)
  {
  }

  /**
   The boolean naming rule skips a field whose lower-cased name ends in
   `_enabled` and is excepted, reports one that ends in `_enabled`, is not
   excepted and is not a boolean (giving its type), and passes every other.
   */
  lemma EnabledVerdictExact(exceptions: set<string>, name: string, f: Field)
    ensures var v := FieldVerdict(EnabledFieldsAreBooleans(exceptions), name, f);
      && (v == Skip <==> HasSuffix(ToLower(name), "_enabled") && ToLower(name) in exceptions)
      && (v.Flag? <==> HasSuffix(ToLower(name), "_enabled") && ToLower(name) !in exceptions && f.typ != TypeBool)
      && (v.Flag? ==> v.reason == EnabledNotBoolean(f.typ))
  {
  }

  /** Excepting a field's lower-cased name turns a boolean naming report into a skip. */
  lemma ExceptingEnabledFieldSkipsIt(exceptions: set<string>, name: string, f: Field)
    requires FieldVerdict(EnabledFieldsAreBooleans(exceptions), name, f).Flag?
    ensures FieldVerdict(EnabledFieldsAreBooleans(exceptions + {ToLower(name)}), name, f) == Skip
  {
  }

  /**
   The `_enabled` rule looks exceptions up only for names ending in
   `_enabled`: for any other field, such as a list of resources, an
   exception changes nothing, so the walk still descends into it.
   */
  lemma EnabledExceptionNeedsSuffix(exceptions: set<string>, name: string, f: Field)
    requires !HasSuffix(ToLower(name), EnabledSuffix)
    ensures FieldVerdict(EnabledFieldsAreBooleans(exceptions), name, f) == Descend
  {
  }

  /** A field called `enabled` (in any case) has no `_enabled` suffix and is never reported. */
  lemma BareEnabledPasses(exceptions: set<string>, name: string, f: Field)
    requires ToLower(name) == "enabled"
    ensures FieldVerdict(EnabledFieldsAreBooleans(exceptions), name, f) == Descend
  {
  }

  /**
   The name default rule skips every excepted field and reports one that is
   called `name` (in any case) and whose default is a string equal to
   `default` in any case; a missing default, one of another type, or any
   other string passes.
   */
  lemma NameDefaultVerdictExact(exceptions: set<string>, name: string, f: Field)
    ensures var v := FieldVerdict(NameDoesNotDefaultToDefault(exceptions), name, f);
      && (v == Skip <==> ToLower(name) in exceptions)
      && (v.Flag? ==> v.reason == NameDefaultsToDefault)
      && (v.Flag? <==>
            ToLower(name) !in exceptions && ToLower(name) == "name" &&
            f.default.Some? && f.default.value.StringDefault? &&
            ToLower(f.default.value.s) == "default")
  {
    LowerIsFixed("name");
    LowerIsFixed("default");
    EqualFoldLowerConstant(ToLower(name), "name");
  }

  /**
   `r1` is `r2` with possibly fewer exceptions: the same rule, and the
   exceptions of `r1` are among those of `r2`.
   */
  predicate FewerExceptions(r1: Rule, r2: Rule) {
    match r1
    case SensitiveFields => r2.SensitiveFields?
    case EnabledFieldsAreBooleans(e1) => r2.EnabledFieldsAreBooleans? && e1 <= r2.exceptions
    case NameDoesNotDefaultToDefault(e1) => r2.NameDoesNotDefaultToDefault? && e1 <= r2.exceptions
  }

  /**
   Exceptions only turn verdicts into skips: with fewer exceptions a field
   that was not skipped gets the same verdict.
   */
  lemma ExceptionsOnlySkip(r1: Rule, r2: Rule, name: string, f: Field)
    requires FewerExceptions(r1, r2)
    requires FieldVerdict(r2, name, f) != Skip
    ensures FieldVerdict(r1, name, f) == FieldVerdict(r2, name, f)
  {
  }
}
