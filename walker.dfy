/**
 The recursive walk the three rules share: visit a schema's fields in
 ascending order of name, make the rule's check on each, descend into the
 nested schema of a list or set of resources, and stop at the first field
 reported. `Check` is the specification, `WalkSchema` the walk as the
 source performs it, with a collecting loop, a sort and an early return.
 */
module Walker {
  import opened Wrappers
  import opened Strings
  import opened Schemas
  import opened Rules

  /** One enclosing field a nested report passed through: "the field X is a List". */
  datatype Step = Step(field: string, kind: Collection)

  /**
   A report: the enclosing fields from the outermost in, the name of the
   offending field as declared, and the reason.
   */
  datatype Violation = Violation(path: seq<Step>, field: string, reason: Reason)

  /** The name of the top-level field a report is about. */
  function TopName(v: Violation): string {
    if v.path == [] then v.field else v.path[0].field
  }

  /** Wraps a nested report in the field that encloses it. */
  function Wrap(name: string, kind: Collection, v: Violation): (w: Violation)
    ensures TopName(w) == name && |w.path| == |v.path| + 1 && w.path[1..] == v.path
    ensures w.path[0] == Step(name, kind)
    ensures w.field == v.field && w.reason == v.reason
  {
    v.(path := [Step(name, kind)] + v.path)
  }

  /** The report of one rule on one schema: `None` is Go's nil error. */
  function Check(rule: Rule, s: Schema): (r: Option<Violation>)
    ensures r.Some? ==> Produces(rule, r.value.reason)
    decreases s, |s.fields| + 1
  {
    CheckInOrder(rule, s, SortFields(s.fields))
  }

  /** The walk over entries of `s` in the given order: the first field reported wins. */
  function CheckInOrder(rule: Rule, s: Schema, order: seq<NamedField>): (r: Option<Violation>)
    requires forall nf :: nf in order ==> nf in s.fields
    requires |order| <= |s.fields|
    ensures r.Some? ==> Produces(rule, r.value.reason)
    decreases s, |order|
  {
    if order == [] then None
    else
      assert order[0] in s.fields;
      match CheckField(rule, order[0])
      case Some(v) => Some(v)
      case None => CheckInOrder(rule, s, order[1..])
  }

  /**
   One field: the rule's own check first, then the nested schema of a list
   or set of resources, whose report comes back wrapped in this field.
   */
  function CheckField(rule: Rule, nf: NamedField): (r: Option<Violation>)
    ensures r.Some? ==> TopName(r.value) == nf.name
    ensures r.Some? ==> Produces(rule, r.value.reason)
    decreases nf, 0
  {
    match FieldVerdict(rule, nf.name, nf.field)
    case Skip => None
    case Flag(reason) => Some(Violation([], nf.name, reason))
    case Descend =>
      match Nested(nf.field)
      case None => None
      case Some(n) =>
        match Check(rule, n.schema)
        case None => None
        case Some(v) => Some(Wrap(nf.name, n.kind, v))
  }

  /**
   The reference meaning of a rule, free of any order: some field reachable
   from `s` is reported by the rule.
   */
  ghost predicate HasViolation(rule: Rule, s: Schema)
    decreases s, 1
  {
    exists nf :: nf in s.fields && Violates(rule, nf)
  }

  /** A field is reported itself, or is walked into and its nested schema has a violation. */
  ghost predicate Violates(rule: Rule, nf: NamedField)
    decreases nf, 0
  {
    match FieldVerdict(rule, nf.name, nf.field)
    case Skip => false
    case Flag(_) => true
    case Descend => Nested(nf.field).Some? && HasViolation(rule, Nested(nf.field).value.schema)
  }

  /**
   The walk reports the first field of `order` whose own walk reports
   something, and reports nothing when no field does.
   */
  lemma FirstInOrder(rule: Rule, s: Schema, order: seq<NamedField>)
    requires forall nf :: nf in order ==> nf in s.fields
    requires |order| <= |s.fields|
    ensures CheckInOrder(rule, s, order).None? <==>
              forall k :: 0 <= k < |order| ==> CheckField(rule, order[k]).None?
    ensures CheckInOrder(rule, s, order).Some? ==>
              exists j :: 0 <= j < |order| && CheckField(rule, order[j]) == CheckInOrder(rule, s, order) &&
                forall k :: 0 <= k < j ==> CheckField(rule, order[k]).None?
  {
    InOrderPassesIffAllPass(rule, s, order);
    if CheckInOrder(rule, s, order).Some? {
      var j := FirstReportInOrder(rule, s, order);
    }
  }

  /** The walk over `order` reports nothing exactly when no field's own walk does. */
  lemma {:induction false} InOrderPassesIffAllPass(rule: Rule, s: Schema, order: seq<NamedField>)
    requires forall nf :: nf in order ==> nf in s.fields
    requires |order| <= |s.fields|
    ensures CheckInOrder(rule, s, order).None? <==>
              forall k :: 0 <= k < |order| ==> CheckField(rule, order[k]).None?
    decreases |order|
  {
    if order != [] && CheckField(rule, order[0]).None? {
      var rest := order[1..];
      assert CheckInOrder(rule, s, order) == CheckInOrder(rule, s, rest);
      InOrderPassesIffAllPass(rule, s, rest);
      assert forall k :: 0 < k < |order| ==> order[k] == rest[k - 1];
    }
  }

  /** A walk over `order` that reports returns the report of the first field that has one. */
  lemma {:induction false} FirstReportInOrder(rule: Rule, s: Schema, order: seq<NamedField>) returns (j: nat)
    requires forall nf :: nf in order ==> nf in s.fields
    requires |order| <= |s.fields|
    requires CheckInOrder(rule, s, order).Some?
    ensures j < |order| && CheckField(rule, order[j]) == CheckInOrder(rule, s, order)
    ensures forall k :: 0 <= k < j ==> CheckField(rule, order[k]).None?
    decreases |order|
  {
    if CheckField(rule, order[0]).Some? {
      j := 0;
    } else {
      var rest := order[1..];
      assert CheckInOrder(rule, s, order) == CheckInOrder(rule, s, rest);
      var i := FirstReportInOrder(rule, s, rest);
      j := i + 1;
      assert forall k :: 0 < k <= j ==> order[k] == rest[k - 1];
    }
  }

  /**
   Soundness and completeness: a rule's walk returns nil exactly when no
   field at any reachable depth violates the rule.
   */
  lemma {:induction false} CheckIsNoneIffClean(rule: Rule, s: Schema)
    ensures Check(rule, s).None? <==> !HasViolation(rule, s)
    decreases s, 1
  {
    var order := SortFields(s.fields);
    assert Check(rule, s) == CheckInOrder(rule, s, order);
    FirstInOrder(rule, s, order);
    if HasViolation(rule, s) {
      var nf :| nf in s.fields && Violates(rule, nf);
      FieldReportedIffViolates(rule, nf);
      assert nf in order;
      var k :| 0 <= k < |order| && order[k] == nf;
    } else {
      forall k | 0 <= k < |order| ensures CheckField(rule, order[k]).None? {
        assert order[k] in s.fields;
        FieldReportedIffViolates(rule, order[k]);
      }
    }
  }

  lemma {:induction false} FieldReportedIffViolates(rule: Rule, nf: NamedField)
    ensures CheckField(rule, nf).None? <==> !Violates(rule, nf)
    decreases nf, 0
  {
    if FieldVerdict(rule, nf.name, nf.field) == Descend && Nested(nf.field).Some? {
      CheckIsNoneIffClean(rule, Nested(nf.field).value.schema);
    }
  }

  /** The empty schema passes every rule. */
  lemma EmptySchemaPasses(rule: Rule)
    ensures Check(rule, Schema([])).None?
  {
  }

  /**
   A report can be followed back into the schema: each step names an
   enclosing field of that collection type that the rule walked into, and
   the last names a field the rule itself reports, for the reason given.
   */
  ghost predicate Locates(rule: Rule, s: Schema, v: Violation)
    decreases |v.path|, 1
  {
    exists nf :: nf in s.fields && LocatesIn(rule, nf, v)
  }

  ghost predicate LocatesIn(rule: Rule, nf: NamedField, v: Violation)
    decreases |v.path|, 0
  {
    if v.path == [] then
      nf.name == v.field && FieldVerdict(rule, nf.name, nf.field) == Flag(v.reason)
    else
      && nf.name == v.path[0].field
      && FieldVerdict(rule, nf.name, nf.field) == Descend
      && Nested(nf.field).Some?
      && Nested(nf.field).value.kind == v.path[0].kind
      && Locates(rule, Nested(nf.field).value.schema, v.(path := v.path[1..]))
  }

  /** Every report a walk returns points at a real offending field. */
  lemma {:induction false} ReportIsGenuine(rule: Rule, s: Schema)
    requires Check(rule, s).Some?
    ensures Locates(rule, s, Check(rule, s).value)
    decreases s, 1
  {
    InOrderReportIsGenuine(rule, s, SortFields(s.fields));
  }

  lemma {:induction false} InOrderReportIsGenuine(rule: Rule, s: Schema, order: seq<NamedField>)
    requires forall nf :: nf in order ==> nf in s.fields
    requires |order| <= |s.fields|
    requires CheckInOrder(rule, s, order).Some?
    ensures Locates(rule, s, CheckInOrder(rule, s, order).value)
    decreases s, 0, |order|
  {
    var nf := order[0];
    if CheckField(rule, nf).Some? {
      assert nf in s.fields;
      FieldReportIsGenuine(rule, nf);
    } else {
      InOrderReportIsGenuine(rule, s, order[1..]);
    }
  }

  lemma {:induction false} FieldReportIsGenuine(rule: Rule, nf: NamedField)
    requires CheckField(rule, nf).Some?
    ensures LocatesIn(rule, nf, CheckField(rule, nf).value)
    decreases nf, 0
  {
    var v := CheckField(rule, nf).value;
    if FieldVerdict(rule, nf.name, nf.field) == Descend {
      var n := Nested(nf.field).value;
      ReportIsGenuine(rule, n.schema);
      assert v.(path := v.path[1..]) == Check(rule, n.schema).value;
    }
  }

  /**
   The report is about the first offending field in ascending order of
   name: no field whose name sorts before the reported one violates the
   rule at any depth.
   */
  lemma ReportedFieldIsFirst(rule: Rule, s: Schema)
    requires Check(rule, s).Some?
    ensures forall nf :: nf in s.fields && Less(nf.name, TopName(Check(rule, s).value)) ==> !Violates(rule, nf)
  {
    var order := SortFields(s.fields);
    FirstInOrder(rule, s, order);
    var j :| 0 <= j < |order| && CheckField(rule, order[j]) == Check(rule, s) &&
      forall k :: 0 <= k < j ==> CheckField(rule, order[k]).None?;
    forall nf | nf in s.fields && Less(nf.name, order[j].name) ensures !Violates(rule, nf) {
      var i :| 0 <= i < |order| && order[i] == nf;
      if i == j {
        LessIrreflexive(nf.name);
      } else if i < j {
        FieldReportedIffViolates(rule, nf);
      }
    }
  }

  /**
   Conversely, in a schema whose names are unique (a Go map), the first
   offending field in ascending order of name is the one reported, with its
   own report.
   */
  lemma FirstViolatingFieldIsReported(rule: Rule, s: Schema, nf: NamedField)
    requires DistinctNames(s)
    requires nf in s.fields && Violates(rule, nf)
    requires forall e :: e in s.fields && Less(e.name, nf.name) ==> !Violates(rule, e)
    ensures Check(rule, s).Some? && Check(rule, s) == CheckField(rule, nf)
  {
    var order := SortFields(s.fields);
    forall e | e in s.fields ensures CheckField(rule, e).None? <==> !Violates(rule, e) {
      FieldReportedIffViolates(rule, e);
    }
    var first := SortedWalkReportsLeastName(rule, s, order, nf);
    var a :| 0 <= a < |s.fields| && s.fields[a] == first;
    var b :| 0 <= b < |s.fields| && s.fields[b] == nf;
    assert a == b;
  }

  /**
   On entries sorted by name, the walk reports an entry whose name is that of
   the least entry with a report.
   */
  lemma {:induction false} SortedWalkReportsLeastName(rule: Rule, s: Schema, order: seq<NamedField>, nf: NamedField)
      returns (first: NamedField)
    requires forall e :: e in order ==> e in s.fields
    requires |order| <= |s.fields|
    requires SortedByName(order)
    requires nf in order && CheckField(rule, nf).Some?
    requires forall e :: e in order && Less(e.name, nf.name) ==> CheckField(rule, e).None?
    ensures first in order && first.name == nf.name
    ensures CheckInOrder(rule, s, order) == CheckField(rule, first)
    decreases |order|
  {
    var head := order[0];
    if CheckField(rule, head).Some? {
      first := head;
      assert !Less(head.name, nf.name);
      if head != nf {
        var i :| 0 <= i < |order| && order[i] == nf;
        assert !Less(nf.name, head.name);
        if head.name != nf.name {
          LessTotal(head.name, nf.name);
        }
      }
    } else {
      assert order == [head] + order[1..];
      assert SortedByName(order[1..]);
      first := SortedWalkReportsLeastName(rule, s, order[1..], nf);
    }
  }

  /**
   Fewer exceptions never hide a violation: whatever a rule finds with some
   exceptions, it also finds with a subset of them.
   */
  lemma {:induction false} FewerExceptionsFindMore(r1: Rule, r2: Rule, s: Schema)
    requires FewerExceptions(r1, r2)
    ensures HasViolation(r2, s) ==> HasViolation(r1, s)
    decreases s, 1
  {
    if HasViolation(r2, s) {
      var nf :| nf in s.fields && Violates(r2, nf);
      FieldFewerExceptions(r1, r2, nf);
    }
  }

  lemma {:induction false} FieldFewerExceptions(r1: Rule, r2: Rule, nf: NamedField)
    requires FewerExceptions(r1, r2)
    ensures Violates(r2, nf) ==> Violates(r1, nf)
    decreases nf, 0
  {
    if Violates(r2, nf) {
      ExceptionsOnlySkip(r1, r2, nf.name, nf.field);
      if FieldVerdict(r2, nf.name, nf.field) == Descend {
        FewerExceptionsFindMore(r1, r2, Nested(nf.field).value.schema);
      }
    }
  }

  /** A schema that passes a rule still passes it with more exceptions. */
  lemma MoreExceptionsStillPass(r1: Rule, r2: Rule, s: Schema)
    requires FewerExceptions(r1, r2)
    requires Check(r1, s).None?
    ensures Check(r2, s).None?
  {
    CheckIsNoneIffClean(r1, s);
    CheckIsNoneIffClean(r2, s);
    FewerExceptionsFindMore(r1, r2, s);
  }

  /**
   The walk as the source performs it: collect the entries and sort them by
   name, then visit them in turn, returning at the first report and
   wrapping a nested report in the field that holds it.
   */
  method WalkSchema(rule: Rule, s: Schema) returns (err: Option<Violation>)
    ensures err == Check(rule, s)
    decreases s, 2
  {
    var order := CollectSorted(s.fields);
    err := WalkEntries(rule, s, order);
  }

  /** The loop over the sorted entries, returning at the first field reported. */
  method WalkEntries(rule: Rule, s: Schema, order: seq<NamedField>) returns (err: Option<Violation>)
    requires forall nf :: nf in order ==> nf in s.fields
    requires |order| <= |s.fields|
    ensures err == CheckInOrder(rule, s, order)
    decreases s, 1
  {
    var i := 0;
    while i < |order|
      invariant 0 <= i <= |order|
      invariant forall k :: 0 <= k < i ==> CheckField(rule, order[k]).None?
    {
      var nf := order[i];
      assert nf in s.fields;
      err := WalkField(rule, nf);
      if err.Some? {
        ReportOfFirstReporting(rule, s, order, i);
        return;
      }
      assert forall k :: 0 <= k < i + 1 ==> CheckField(rule, order[k]).None? by {
        assert CheckField(rule, order[i]) == err;
      }
      i := i + 1;
    }
    InOrderPassesIffAllPass(rule, s, order);
    return None;
  }

  /**
   When every field before position `i` passes and the `i`-th reports, the
   walk over `order` returns the `i`-th field's report.
   */
  lemma {:induction false} ReportOfFirstReporting(rule: Rule, s: Schema, order: seq<NamedField>, i: nat)
    requires forall nf :: nf in order ==> nf in s.fields
    requires |order| <= |s.fields|
    requires i < |order| && CheckField(rule, order[i]).Some?
    requires forall k :: 0 <= k < i ==> CheckField(rule, order[k]).None?
    ensures CheckInOrder(rule, s, order) == CheckField(rule, order[i])
    decreases i
  {
    if i > 0 {
      var rest := order[1..];
      assert CheckInOrder(rule, s, order) == CheckInOrder(rule, s, rest);
      assert forall k :: 0 < k <= i ==> order[k] == rest[k - 1];
      ReportOfFirstReporting(rule, s, rest, i - 1);
    }
  }

  /** One iteration of the walk: the rule's own check, then the nested schema. */
  method WalkField(rule: Rule, nf: NamedField) returns (err: Option<Violation>)
    ensures err == CheckField(rule, nf)
    decreases nf, 0
  {
    match FieldVerdict(rule, nf.name, nf.field)
    case Skip =>
      return None;
    case Flag(reason) =>
      return Some(Violation([], nf.name, reason));
    case Descend =>
      match Nested(nf.field)
      case None =>
        return None;
      case Some(nested) =>
        var inner := WalkSchema(rule, nested.schema);
        if inner.Some? {
          return Some(Wrap(nf.name, nested.kind, inner.value));
        }
        return None;
  }

  /** Collects a schema's entries one at a time into ascending order of name. */
  method CollectSorted(fields: seq<NamedField>) returns (order: seq<NamedField>)
    ensures order == SortFields(fields)
  {
    order := [];
    var n := 0;
    while n < |fields|
      invariant 0 <= n <= |fields|
      invariant order == SortFields(fields[..n])
    {
      assert fields[..n + 1][..n] == fields[..n];
      order := InsertByName(order, fields[n]);
      n := n + 1;
    }
    assert fields[..n] == fields;
  }

  /**
   The sensitive field walk: nil exactly when no reachable field is a secret
   left unmarked, otherwise a report that leads to such a field.
   */
  method FindUnmarkedSensitiveField(s: Schema) returns (err: Option<Violation>)
    ensures err == Check(SensitiveFields, s)
    ensures err.None? <==> !HasViolation(SensitiveFields, s)
    ensures err.Some? ==> err.value.reason == NotMarkedSensitive && Locates(SensitiveFields, s, err.value)
  {
    err := WalkSchema(SensitiveFields, s);
    CheckIsNoneIffClean(SensitiveFields, s);
    if err.Some? {
      ReportIsGenuine(SensitiveFields, s);
    }
  }

  /**
   The boolean naming walk: nil exactly when no reachable, non-excepted
   `_enabled` field has a type other than boolean; otherwise a report that
   leads to one and carries its type.
   */
  method FindNonBooleanEnabledField(s: Schema, exceptions: set<string>) returns (err: Option<Violation>)
    ensures err == Check(EnabledFieldsAreBooleans(exceptions), s)
    ensures err.None? <==> !HasViolation(EnabledFieldsAreBooleans(exceptions), s)
    ensures err.Some? ==>
              err.value.reason.EnabledNotBoolean? && err.value.reason.actual != TypeBool &&
              Locates(EnabledFieldsAreBooleans(exceptions), s, err.value)
  {
    err := WalkSchema(EnabledFieldsAreBooleans(exceptions), s);
    CheckIsNoneIffClean(EnabledFieldsAreBooleans(exceptions), s);
    if err.Some? {
      ReportIsGenuine(EnabledFieldsAreBooleans(exceptions), s);
    }
  }

  /**
   The name default walk: nil exactly when no reachable, non-excepted field
   called `name` defaults to the string `default`; otherwise a report that
   leads to one.
   */
  method FindNameDefaultingToDefault(s: Schema, exceptions: set<string>) returns (err: Option<Violation>)
    ensures err == Check(NameDoesNotDefaultToDefault(exceptions), s)
    ensures err.None? <==> !HasViolation(NameDoesNotDefaultToDefault(exceptions), s)
    ensures err.Some? ==>
              err.value.reason == NameDefaultsToDefault &&
              Locates(NameDoesNotDefaultToDefault(exceptions), s, err.value)
  {
    err := WalkSchema(NameDoesNotDefaultToDefault(exceptions), s);
    CheckIsNoneIffClean(NameDoesNotDefaultToDefault(exceptions), s);
    if err.Some? {
      ReportIsGenuine(NameDoesNotDefaultToDefault(exceptions), s);
    }
  }

  /** A schema of one field reports what that field reports. */
  lemma SingleFieldSchema(rule: Rule, nf: NamedField)
    ensures Check(rule, Schema([nf])) == CheckField(rule, nf)
  {
    var s := Schema([nf]);
    assert [nf][..0] == [];
    assert SortFields([nf]) == [nf];
    assert CheckInOrder(rule, s, [nf][1..]) == None;
  }

  /** An unmarked string `api_key` on its own is reported with an empty path. */
  lemma SecretInSingleField()
    ensures
      var secret := NamedField("api_key", Field(TypeString, false, None, NoElem));
      Check(SensitiveFields, Schema([secret])) == Some(Violation([], "api_key", NotMarkedSensitive))
  {
    var secret := NamedField("api_key", Field(TypeString, false, None, NoElem));
    LowerIsFixed("api_key");
    SensitiveVerdictExact("api_key", secret.field);
    SingleFieldSchema(SensitiveFields, secret);
  }

  /**
   A secret nested in a list of resources is reported with the list field
   as its enclosing step: "the field settings is a List: field api_key ...".
   */
  lemma NestedSecretIsReportedWithPath()
    ensures
      var inner := Schema([NamedField("api_key", Field(TypeString, false, None, NoElem))]);
      var s := Schema([NamedField("settings", Field(TypeList, false, None, ResourceElem(Some(inner))))]);
      Check(SensitiveFields, s) == Some(Violation([Step("settings", List)], "api_key", NotMarkedSensitive))
  {
    var inner := Schema([NamedField("api_key", Field(TypeString, false, None, NoElem))]);
    var settings := NamedField("settings", Field(TypeList, false, None, ResourceElem(Some(inner))));
    var v := Violation([], "api_key", NotMarkedSensitive);
    SecretInSingleField();
    assert FieldVerdict(SensitiveFields, settings.name, settings.field) == Descend by {
      LowerIsFixed("settings");
      assert "settings" != "password" by { assert "settings"[0] != "password"[0]; }
      SensitiveVerdictExact("settings", settings.field);
    }
    assert Nested(settings.field) == Some(NestedSchema(List, inner));
    assert Wrap("settings", List, v) == Violation([Step("settings", List)], "api_key", NotMarkedSensitive) by {
      assert [Step("settings", List)] + [] == [Step("settings", List)];
    }
    SingleFieldSchema(SensitiveFields, settings);
  }

  /** The name default violation used by the two examples below, on its own. */
  lemma NameDefaultInSingleField()
    ensures
      var named := NamedField("Name", Field(TypeString, false, Some(StringDefault("Default")), NoElem));
      Check(NameDoesNotDefaultToDefault({}), Schema([named])) == Some(Violation([], "Name", NameDefaultsToDefault))
  {
    var named := NamedField("Name", Field(TypeString, false, Some(StringDefault("Default")), NoElem));
    assert ToLower("Name") == "name";
    assert ToLower("Default") == "default";
    NameDefaultVerdictExact({}, "Name", named.field);
    SingleFieldSchema(NameDoesNotDefaultToDefault({}), named);
  }

  /** A violation nested in a set of resources is reported wrapped in the set field. */
  lemma NestedNameDefaultIsReported()
    ensures
      var inner := Schema([NamedField("Name", Field(TypeString, false, Some(StringDefault("Default")), NoElem))]);
      var s := Schema([NamedField("rule", Field(TypeSet, false, None, ResourceElem(Some(inner))))]);
      Check(NameDoesNotDefaultToDefault({}), s) == Some(Violation([Step("rule", Set)], "Name", NameDefaultsToDefault))
  {
    var inner := Schema([NamedField("Name", Field(TypeString, false, Some(StringDefault("Default")), NoElem))]);
    var ruleField := NamedField("rule", Field(TypeSet, false, None, ResourceElem(Some(inner))));
    var v := Violation([], "Name", NameDefaultsToDefault);
    NameDefaultInSingleField();
    assert FieldVerdict(NameDoesNotDefaultToDefault({}), ruleField.name, ruleField.field) == Descend by {
      LowerIsFixed("rule");
      NameDefaultVerdictExact({}, "rule", ruleField.field);
    }
    assert Nested(ruleField.field) == Some(NestedSchema(Set, inner));
    assert Wrap("rule", Set, v) == Violation([Step("rule", Set)], "Name", NameDefaultsToDefault) by {
      assert [Step("rule", Set)] + [] == [Step("rule", Set)];
    }
    SingleFieldSchema(NameDoesNotDefaultToDefault({}), ruleField);
  }

  /**
   An excepted field is skipped before any recursion: the violation nested
   in the set field above is not reported once that field is excepted.
   */
  lemma ExceptedFieldHidesNestedViolation()
    ensures
      var inner := Schema([NamedField("Name", Field(TypeString, false, Some(StringDefault("Default")), NoElem))]);
      var s := Schema([NamedField("rule", Field(TypeSet, false, None, ResourceElem(Some(inner))))]);
      && HasViolation(NameDoesNotDefaultToDefault({"rule"}), inner)
      && Check(NameDoesNotDefaultToDefault({"rule"}), s) == None
  {
    var named := NamedField("Name", Field(TypeString, false, Some(StringDefault("Default")), NoElem));
    var inner := Schema([named]);
    var ruleField := NamedField("rule", Field(TypeSet, false, None, ResourceElem(Some(inner))));
    assert Violates(NameDoesNotDefaultToDefault({"rule"}), named) by {
      assert ToLower("Name") == "name";
      assert ToLower("Default") == "default";
      NameDefaultVerdictExact({"rule"}, "Name", named.field);
    }
    assert named in inner.fields;
    assert FieldVerdict(NameDoesNotDefaultToDefault({"rule"}), ruleField.name, ruleField.field) == Skip by {
      LowerIsFixed("rule");
    }
    SingleFieldSchema(NameDoesNotDefaultToDefault({"rule"}), ruleField);
  }
}
