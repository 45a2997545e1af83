/** Go values as the redactor sees them through reflection, and what it returns.

    Values are finite trees. `Invalid` is the zero reflect.Value, which is what an empty
    interface holds; `Iface` is a value of interface kind, such as an element of a []any. */
module GoValue {
  import opened Wrappers

  /** A runtime type. `Descriptor` is the struct type behind every reflect.Type value; every
      other type is known by a number. */
  datatype GoType = Descriptor | Declared(id: nat)

  datatype Scalar = Text(s: string) | Number(n: int) | Opaque(id: int)

  /** A map key: of string kind, or anything else. */
  datatype Key = TextKey(s: string) | OtherKey(v: Scalar)

  /** A struct field; `tag` is the content of its json tag, empty when it has none. */
  datatype Field = Field(name: string, tag: string, exported: bool, val: Value)

  datatype Entry = Entry(key: Key, val: Value)

  /** The entries of a map are listed in the order in which MapKeys happens to return them. */
  datatype Value =
    | Invalid
    | NilPtr(ty: GoType)
    | Ptr(to: Value)
    | Iface(elem: Value)
    | Struct(ty: GoType, fields: seq<Field>)
    | Map(ty: GoType, entries: seq<Entry>)
    | Slice(elems: seq<Value>)
    | Prim(scalar: Scalar)

  /** What the redactor returns: nil, an input value as it was, a map[string]any, a []any or a string. */
  datatype Out =
    | Nil
    | Raw(v: Value)
    | Obj(m: map<string, Out>)
    | Arr(s: seq<Out>)
    | Str(text: string)

  /** What lives in libraries: fmt.Sprint on values and on keys, the two case conversions of strcase,
      and the folding that strings.EqualFold compares under. */
  datatype Env = Env(sprint: Value -> string, sprintKey: Scalar -> string,
                     camel: string -> string, snake: string -> string, fold: string -> string)
  {
    predicate EqualFold(a: string, b: string) {
      fold(a) == fold(b)
    }
  }

  /** The part of a string before its first comma. */
  function BeforeComma(s: string): (r: string)
    ensures ',' !in r
    ensures r == s || r + "," <= s
  {
    if s == "" || s[0] == ',' then "" else [s[0]] + BeforeComma(s[1..])
  }

  lemma {:induction false} NoComma(s: string)
    requires ',' !in s
    ensures BeforeComma(s) == s
  {
    if s != "" {
      NoComma(s[1..]);
    }
  }

  /** The key a struct field is rendered under: its name if its json tag is empty or gives no name or "-",
      and otherwise the tag up to its first comma. */
  function FieldKey(f: Field): (r: string)
    ensures f.tag in {"", "-"} || "," <= f.tag || "-," <= f.tag ==> r == f.name
    ensures !(f.tag in {"", "-"} || "," <= f.tag || "-," <= f.tag) ==> ',' !in r && (r == f.tag || r + "," <= f.tag)
  {
    if f.tag == "" then f.name
    else
      var first := BeforeComma(f.tag);
      assert "-," <= f.tag ==> first == "-" by {
        if "-," <= f.tag {
          assert BeforeComma(f.tag[1..]) == "";
        }
      }
      assert f.tag == "-" ==> first == "-" by {
        assert f.tag == "-" ==> f.tag[1..] == "";
      }
      if first != "" && first != "-" then first else f.name
  }

  function MapKey(e: Env, k: Key): string {
    match k
    case TextKey(s) => s
    case OtherKey(v) => e.sprintKey(v)
  }

  /** reflect.Indirect removes exactly one pointer. */
  function Indirect(v: Value): (r: Value)
    ensures r == v || r < v
  {
    if v.Ptr? then v.to else v
  }

  /** A rendered key with the value stored under it. */
  datatype Child = Child(key: string, val: Value)

  function ExportedFields(fields: seq<Field>): seq<Child> {
    if fields == [] then []
    else
      var f := fields[|fields| - 1];
      ExportedFields(fields[..|fields| - 1]) + if f.exported then [Child(FieldKey(f), f.val)] else []
  }

  lemma ExportedStep(fields: seq<Field>, i: nat)
    requires i < |fields|
    ensures var f, before := fields[i], ExportedFields(fields[..i]);
            ExportedFields(fields[..i + 1]) == if f.exported then before + [Child(FieldKey(f), f.val)] else before
  {
    assert fields[..i + 1][..i] == fields[..i];
  }

  /** The rendered fields of a struct are exactly its exported ones. */
  lemma {:induction false} ExportedFieldsExact(fields: seq<Field>)
    ensures forall c :: c in ExportedFields(fields) <==> exists f <- fields :: f.exported && c == Child(FieldKey(f), f.val)
  {
    if fields != [] {
      var init, f := fields[..|fields| - 1], fields[|fields| - 1];
      ExportedFieldsExact(init);
      assert forall g :: g in fields <==> g in init || g == f;
    }
  }

  function RenderedEntries(e: Env, entries: seq<Entry>): (cs: seq<Child>)
    ensures |cs| == |entries|
    ensures forall i :: 0 <= i < |cs| ==> cs[i] == Child(MapKey(e, entries[i].key), entries[i].val)
  {
    seq(|entries|, i requires 0 <= i < |entries| => Child(MapKey(e, entries[i].key), entries[i].val))
  }

  /** The rendered children of a struct or map; unexported fields are not among them. */
  function Children(e: Env, n: Value): (cs: seq<Child>)
    requires n.Struct? || n.Map?
    ensures forall c <- cs :: c.val < n
  {
    match n
    case Struct(_, fields) =>
      var cs := ExportedFields(fields);
      assert forall c <- cs :: c.val < n by {
        ExportedFieldsExact(fields);
        forall c <- cs ensures c.val < n {
          var f :| f in fields && f.exported && c == Child(FieldKey(f), f.val);
        }
      }
      cs
    case Map(_, entries) =>
      var cs := RenderedEntries(e, entries);
      assert forall c <- cs :: c.val < n;
      cs
  }
}
