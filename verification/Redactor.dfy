/** The Redactor object: its three filter lists, and the loops that scan them and rebuild values. */
module RedactorObject {
  import opened Wrappers
  import opened GoValue
  import opened Filters
  import opened Redaction

  class Redactor {
    const e: Env
    var structFilters: seq<Filter>
    var structFieldFilters: seq<Filter>
    var generalFieldFilters: seq<Filter>

    ghost function Contents(): Index
      reads this
    {
      Index(structFilters, structFieldFilters, generalFieldFilters)
    }

    constructor (e: Env)
      ensures this.e == e && Contents() == EMPTY
    {
      this.e := e;
      structFilters, structFieldFilters, generalFieldFilters := [], [], [];
    }

    method AddFilters(filters: seq<Filter>)
      modifies this
      ensures Contents() == Filters.AddFilters(e, old(Contents()), filters)
    {
      for i := 0 to |filters|
        invariant Contents() == Filters.AddFilters(e, old(Contents()), filters[..i])
      {
        var f := filters[i];
        assert filters[..i + 1][..i] == filters[..i];
        if f.ty.None? {
          generalFieldFilters := generalFieldFilters + FilterWithFields(e, f);
        } else if f.field == "" {
          structFilters := structFilters + [f];
        } else {
          structFieldFilters := structFieldFilters + [f];
          structFieldFilters := structFieldFilters + FilterWithFields(e, f);
        }
      }
      assert filters[..|filters|] == filters;
    }

    method FilterStruct(ty: GoType) returns (found: Option<Filter>)
      ensures found.None? ==> forall f <- structFilters :: f.ty != Some(ty)
      ensures found.Some? ==> exists i :: 0 <= i < |structFilters| && structFilters[i] == found.value && found.value.ty == Some(ty)
                                          && forall j :: 0 <= j < i ==> structFilters[j].ty != Some(ty)
      ensures Filters.FilterStruct(Contents(), ty) == if found.None? then None else Some(found.value.mode)
    {
      for i := 0 to |structFilters|
        invariant forall j :: 0 <= j < i ==> structFilters[j].ty != Some(ty)
        invariant FirstOfType(structFilters[i..], ty) == FirstOfType(structFilters, ty)
      {
        if structFilters[i].ty == Some(ty) {
          return Some(structFilters[i]);
        }
        assert structFilters[i..][1..] == structFilters[i + 1..];
      }
      found := None;
    }

    method FilterField(ty: Option<GoType>, key: string) returns (found: Option<Filter>)
      ensures Filters.FilterField(e, Contents(), ty, key) == if found.None? then None else Some(found.value.mode)
      ensures found.Some? ==> found.value in structFieldFilters + generalFieldFilters && e.EqualFold(key, found.value.field)
    {
      if ty.Some? {
        for i := 0 to |structFieldFilters|
          invariant FirstHit(e, structFieldFilters[i..], ty, key) == FirstHit(e, structFieldFilters, ty, key)
        {
          var f := structFieldFilters[i];
          if ty == f.ty && e.EqualFold(key, f.field) {
            return Some(f);
          }
          assert structFieldFilters[i..][1..] == structFieldFilters[i + 1..];
        }
      }
      for i := 0 to |generalFieldFilters|
        invariant FirstHit(e, generalFieldFilters[i..], None, key) == FirstHit(e, generalFieldFilters, None, key)
      {
        var f := generalFieldFilters[i];
        if e.EqualFold(key, f.field) {
          return Some(f);
        }
        assert generalFieldFilters[i..][1..] == generalFieldFilters[i + 1..];
      }
      found := None;
    }

    /** Redact: nil for nil, and otherwise the rebuilt value. */
    method Redact(v: Value) returns (o: Out)
      ensures o == RedactRoot(e, Contents(), v)
      ensures v.Invalid? ==> o == Nil
      ensures !v.Invalid? ==> o == Redaction.Redact(e, Contents(), Place(None, ""), v).0
    {
      if v.Invalid? {
        return Nil;
      }
      var hit;
      o, hit := RedactValue(ROOT, v);
    }

    method RedactValue(at: Place, v: Value) returns (o: Out, hit: bool)
      ensures (o, hit) == Redaction.Redact(e, Contents(), at, v)
      ensures v.Invalid? ==> (o, hit) == (Nil, false)
      ensures v.NilPtr? ==> (o, hit) == (Raw(v), false)
      decreases v, 1
    {
      if v.Invalid? {
        return Nil, false;
      }
      if v.NilPtr? {
        return Raw(v), false;
      }
      var n := Indirect(v);
      match n
      case Iface(x) =>
        o, hit := RedactValue(at, x);
      case Struct(ty, fields) =>
        var found := FilterStruct(ty);
        if found.Some? {
          o := ApplyMode(e, found.value.mode, n);
          return o, true;
        }
        var m;
        m, hit := RedactFields(v, n);
        o := if hit then Obj(m) else Raw(n);
      case Map(ty, entries) =>
        var found := FilterField(at.ty, at.key);
        if found.Some? {
          o := ApplyMode(e, found.value.mode, n);
          return o, true;
        }
        var m;
        m, hit := RedactEntries(v, n);
        o := if hit then Obj(m) else Raw(n);
      case Slice(elems) =>
        var found := FilterField(at.ty, at.key);
        if found.Some? {
          o := ApplyMode(e, found.value.mode, n);
          return o, true;
        }
        var s;
        s, hit := RedactElements(at, v, n);
        o := if hit then Arr(s) else Raw(n);
      case _ =>
        var found := FilterField(at.ty, at.key);
        if found.Some? {
          o := ApplyMode(e, found.value.mode, n);
          return o, true;
        }
        return Raw(n), false;
    }

    /** The loop over a struct's fields. */
    method RedactFields(ghost v: Value, n: Value) returns (m: map<string, Out>, hit: bool)
      requires n.Struct? && n == Indirect(v)
      ensures (m, hit) == RedactChildren(e, Contents(), n.ty, v, Children(e, n))
      decreases v, 0
    {
      m, hit := map[], false;
      ExportedFieldsExact(n.fields);
      for i := 0 to |n.fields|
        invariant forall c <- ExportedFields(n.fields[..i]) :: c.val < v
        invariant (m, hit) == RedactChildren(e, Contents(), n.ty, v, ExportedFields(n.fields[..i]))
      {
        var field := n.fields[i];
        ExportedStep(n.fields, i);
        if !field.exported {
          continue;
        }
        var key := FieldKey(field);
        var o, h := RedactValue(Place(Some(n.ty), key), field.val);
        m, hit := m[key := o], hit || h;
        RedactChildrenStep(e, Contents(), n.ty, v, ExportedFields(n.fields[..i]), Child(key, field.val));
      }
      assert n.fields[..|n.fields|] == n.fields;
    }

    /** The loop over a map's entries, in whatever order they are listed. */
    method RedactEntries(ghost v: Value, n: Value) returns (m: map<string, Out>, hit: bool)
      requires n.Map? && n == Indirect(v)
      ensures (m, hit) == RedactChildren(e, Contents(), n.ty, v, Children(e, n))
      decreases v, 0
    {
      m, hit := map[], false;
      ghost var cs := Children(e, n);
      for i := 0 to |n.entries|
        invariant forall c <- cs[..i] :: c.val < v
        invariant (m, hit) == RedactChildren(e, Contents(), n.ty, v, cs[..i])
      {
        var key := MapKey(e, n.entries[i].key);
        assert cs[i] in cs && cs[..i + 1] == cs[..i] + [cs[i]];
        var o, h := RedactValue(Place(Some(n.ty), key), n.entries[i].val);
        m, hit := m[key := o], hit || h;
        RedactChildrenStep(e, Contents(), n.ty, v, cs[..i], cs[i]);
      }
      assert cs[..|cs|] == cs;
    }

    /** The loop over a slice's elements. */
    method RedactElements(at: Place, ghost v: Value, n: Value) returns (s: seq<Out>, hit: bool)
      requires n.Slice? && n == Indirect(v)
      ensures (s, hit) == RedactElems(e, Contents(), at, v, n.elems)
      decreases v, 0
    {
      s, hit := [], false;
      for i := 0 to |n.elems|
        invariant (s, hit) == RedactElems(e, Contents(), at, v, n.elems[..i])
      {
        var o, h := RedactValue(at, n.elems[i]);
        s, hit := s + [o], hit || h;
        assert n.elems[..i + 1][..i] == n.elems[..i];
      }
      assert n.elems[..|n.elems|] == n.elems;
    }
  }

  method ApplyMode(e: Env, mode: Mode, n: Value) returns (o: Out)
    ensures o == Apply(e, mode, n)
    ensures match mode { case Full => o == Str("<REDACTED>") case Partial => o == PartialRedact(e, n) case Custom(f) => o == f(n) }
  {
    match mode
    case Full => o := Str(REDACTED);
    case Partial => o := PartialRedactValue(e, n);
    case Custom(f) => o := f(n);
  }

  method PartialRedactValue(e: Env, v: Value) returns (o: Out)
    ensures o == PartialRedact(e, v)
    ensures v.Invalid? ==> o == Nil
    ensures v.NilPtr? ==> o == Raw(v)
    decreases v, 1
  {
    if v.Invalid? {
      return Nil;
    }
    if v.NilPtr? {
      return Raw(v);
    }
    var n := Indirect(v);
    match n
    case Iface(x) =>
      o := PartialRedactValue(e, x);
    case Slice(elems) =>
      var s := [];
      for i := 0 to |elems|
        invariant |s| == i && forall j :: 0 <= j < i ==> s[j] == PartialRedact(e, elems[j])
      {
        var x := PartialRedactValue(e, elems[i]);
        s := s + [x];
      }
      o := Arr(s);
    case Struct(_, _) =>
      var m := PartialRedactFields(e, v, n);
      o := Obj(m);
    case Map(_, _) =>
      var m := PartialRedactEntries(e, v, n);
      o := Obj(m);
    case _ =>
      return Str(PartialString(e.sprint(n)));
  }

  method PartialRedactFields(e: Env, ghost v: Value, n: Value) returns (m: map<string, Out>)
    requires n.Struct? && n == Indirect(v)
    ensures m == PartialChildren(e, v, Children(e, n))
    decreases v, 0
  {
    m := map[];
    ExportedFieldsExact(n.fields);
    for i := 0 to |n.fields|
      invariant forall c <- ExportedFields(n.fields[..i]) :: c.val < v
      invariant m == PartialChildren(e, v, ExportedFields(n.fields[..i]))
    {
      var field := n.fields[i];
      ExportedStep(n.fields, i);
      if !field.exported {
        continue;
      }
      var x := PartialRedactValue(e, field.val);
      m := m[FieldKey(field) := x];
      PartialChildrenStep(e, v, ExportedFields(n.fields[..i]), Child(FieldKey(field), field.val));
    }
    assert n.fields[..|n.fields|] == n.fields;
  }

  method PartialRedactEntries(e: Env, ghost v: Value, n: Value) returns (m: map<string, Out>)
    requires n.Map? && n == Indirect(v)
    ensures m == PartialChildren(e, v, Children(e, n))
    decreases v, 0
  {
    m := map[];
    ghost var cs := Children(e, n);
    for i := 0 to |n.entries|
      invariant forall c <- cs[..i] :: c.val < v
      invariant m == PartialChildren(e, v, cs[..i])
    {
      assert cs[i] in cs && cs[..i + 1] == cs[..i] + [cs[i]];
      var x := PartialRedactValue(e, n.entries[i].val);
      m := m[MapKey(e, n.entries[i].key) := x];
      PartialChildrenStep(e, v, cs[..i], cs[i]);
    }
    assert cs[..|cs|] == cs;
  }
}
