/** An optional value: Go's nil pointer or nil interface is `None`. */
module Wrappers {
  datatype Option<+T> = None | Some(value: T)
}

/**
 The slice of the plugin SDK's schema that the linter reads: a field's
 `Type`, `Sensitive`, `Default` and `Elem`, and the map of named fields that
 makes up a schema.
 */
module Schemas {
  import opened Wrappers
  import opened Strings

  /** The plugin SDK's `ValueType` constants. */
  datatype ValueType =
    | TypeInvalid
    | TypeBool
    | TypeInt
    | TypeFloat
    | TypeString
    | TypeList
    | TypeMap
    | TypeSet

  /** A field's `Default`: only whether it is a Go `string` matters. */
  datatype DefaultValue = StringDefault(s: string) | OtherDefault

  /**
   A field's `Elem`: `NoElem` is nil, `SchemaElem` a `*Schema` (the element
   type of a list of primitives), `ResourceElem` a `*Resource`, whose
   `Schema` map may itself be nil.
   */
  datatype Elem = NoElem | SchemaElem | ResourceElem(schema: Option<Schema>)

  datatype Field = Field(typ: ValueType, sensitive: bool, default: Option<DefaultValue>, elem: Elem)

  datatype NamedField = NamedField(name: string, field: Field)

  /**
   A schema, the Go map from field name to field, as its list of entries.
   The Go map has no order; the linter imposes one by sorting the names.
   */
  datatype Schema = Schema(fields: seq<NamedField>)

  /** Keys of a Go map are unique. */
  predicate DistinctNames(s: Schema) {
    forall i, j :: 0 <= i < j < |s.fields| ==> s.fields[i].name != s.fields[j].name
  }

  /** The two collection types whose nested resources the linter walks. */
  datatype Collection = List | Set

  datatype NestedSchema = NestedSchema(kind: Collection, schema: Schema)

  /**
   The nested schema a walker descends into: the field is a `TypeList` or a
   `TypeSet`, its `Elem` is a `*Resource`, and that resource's `Schema` is
   not nil.
   */
  function Nested(f: Field): (r: Option<NestedSchema>)
    ensures r.Some? <==> (f.typ == TypeList || f.typ == TypeSet) && f.elem.ResourceElem? && f.elem.schema.Some?
    ensures r.Some? ==> f.elem.schema.value == r.value.schema
    ensures r.Some? ==> (r.value.kind == List <==> f.typ == TypeList)
  {
    match f.elem
    case ResourceElem(Some(s)) =>
      if f.typ == TypeList then Some(NestedSchema(List, s))
      else if f.typ == TypeSet then Some(NestedSchema(Set, s))
      else None
    case _ => None
  }

  /** Entries in ascending order of name; equal names keep no particular order. */
  predicate SortedByName(fs: seq<NamedField>) {
    forall i, j :: 0 <= i < j < |fs| ==> !Less(fs[j].name, fs[i].name)
  }

  /** Puts one entry into its place among entries already sorted by name. */
  function InsertByName(fs: seq<NamedField>, x: NamedField): (r: seq<NamedField>)
    requires SortedByName(fs)
    ensures SortedByName(r)
    ensures multiset(r) == multiset(fs) + multiset{x}
  {
    if fs == [] then [x]
    else if Less(x.name, fs[0].name) then
      BelowHeadIsBelowAll(x, fs);
      PrependByName(x, fs);
      [x] + fs
    else
      var tail := InsertByName(fs[1..], x);
      AboveHeadAfterInsert(fs, x, tail);
      PrependByName(fs[0], tail);
      assert fs == [fs[0]] + fs[1..];
      assert multiset([fs[0]] + tail) == multiset{fs[0]} + multiset(tail);
      assert multiset(fs) == multiset{fs[0]} + multiset(fs[1..]);
      [fs[0]] + tail
  }

  lemma BelowHeadIsBelowAll(x: NamedField, fs: seq<NamedField>)
    requires SortedByName(fs) && |fs| > 0 && Less(x.name, fs[0].name)
    ensures forall e :: e in fs ==> !Less(e.name, x.name)
  {
    forall e | e in fs ensures !Less(e.name, x.name) {
      var j :| 0 <= j < |fs| && fs[j] == e;
      if Less(e.name, x.name) {
        LessTransitive(e.name, x.name, fs[0].name);
        if j == 0 { LessIrreflexive(e.name); }
      }
    }
  }

  lemma AboveHeadAfterInsert(fs: seq<NamedField>, x: NamedField, tail: seq<NamedField>)
    requires SortedByName(fs) && |fs| > 0 && !Less(x.name, fs[0].name)
    requires multiset(tail) == multiset(fs[1..]) + multiset{x}
    ensures forall e :: e in tail ==> !Less(e.name, fs[0].name)
  {
    forall e | e in tail ensures !Less(e.name, fs[0].name) {
      assert e in multiset(tail);
      if e != x {
        assert e in multiset(fs[1..]);
        var j :| 0 <= j < |fs[1..]| && fs[1..][j] == e;
        assert fs[j + 1] == e;
      }
    }
  }

  lemma PrependByName(a: NamedField, t: seq<NamedField>)
    requires SortedByName(t)
    requires forall e :: e in t ==> !Less(e.name, a.name)
    ensures SortedByName([a] + t)
  {
    forall i, j | 0 <= i < j < |[a] + t| ensures !Less(([a] + t)[j].name, ([a] + t)[i].name) {
      if i > 0 {
        assert ([a] + t)[i] == t[i - 1] && ([a] + t)[j] == t[j - 1];
      } else {
        assert ([a] + t)[j] in t;
      }
    }
  }

  /**
   The order in which a walker visits a schema's entries: the names are
   collected one by one and sorted, here by inserting each entry in turn.
   */
  function SortFields(fs: seq<NamedField>): (r: seq<NamedField>)
    ensures SortedByName(r)
    ensures multiset(r) == multiset(fs)
    ensures |r| == |fs|
    ensures forall nf :: nf in r <==> nf in fs
  {
    if fs == [] then []
    else
      assert fs == fs[..|fs| - 1] + [fs[|fs| - 1]];
      var r := InsertByName(SortFields(fs[..|fs| - 1]), fs[|fs| - 1]);
      assert |r| == |multiset(r)|;
      assert forall nf :: nf in r <==> nf in multiset(r);
      r
  }
}
