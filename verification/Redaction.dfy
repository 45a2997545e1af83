/** What the redactor computes, as functions: the three redaction modes and the recursive rebuild. */
module Redaction {
  import opened Wrappers
  import opened GoValue
  import opened Filters

  const MAX_STARS := 5
  const REDACTED := "<REDACTED>"

  function StarsOf(n: nat): (r: string)
    ensures |r| == n
  {
    seq(n, _ => '*')
  }

  /** How many of n runes stay readable: thirty percent, rounded down. */
  function Revealed(n: nat): nat {
    n * 3 / 10
  }

  function StarCount(n: nat): nat {
    if n - Revealed(n) < MAX_STARS then n - Revealed(n) else MAX_STARS
  }

  function PartialString(s: string): string {
    s[..Revealed(|s|)] + StarsOf(StarCount(|s|))
  }

  /** PartialRedact: every leaf under the value is shortened and starred. */
  function PartialRedact(e: Env, v: Value): Out
    decreases v, 1, 0
  {
    if v.Invalid? then Nil
    else if v.NilPtr? then Raw(v)
    else
      var n := Indirect(v);
      match n
      case Struct(_, _) => Obj(PartialChildren(e, v, Children(e, n)))
      case Map(_, _) => Obj(PartialChildren(e, v, Children(e, n)))
      case Iface(x) => PartialRedact(e, x)
      case Slice(elems) => Arr(seq(|elems|, i requires 0 <= i < |elems| => PartialRedact(e, elems[i])))
      case _ => Str(PartialString(e.sprint(n)))
  }

  /** Children are stored one after the other; a later one overwrites an equal key. */
  function PartialChildren(e: Env, v: Value, cs: seq<Child>): (m: map<string, Out>)
    requires forall c <- cs :: c.val < v
    decreases v, 0, |cs|
  {
    if cs == [] then map[]
    else
      var c := cs[|cs| - 1];
      assert cs == cs[..|cs| - 1] + [c];
      PartialChildren(e, v, cs[..|cs| - 1])[c.key := PartialRedact(e, c.val)]
  }

  lemma PartialChildrenStep(e: Env, v: Value, init: seq<Child>, last: Child)
    requires forall c <- init + [last] :: c.val < v
    ensures (forall c <- init :: c.val < v) && last.val < v
    ensures PartialChildren(e, v, init + [last]) == PartialChildren(e, v, init)[last.key := PartialRedact(e, last.val)]
  {
    var cs := init + [last];
    assert cs[..|cs| - 1] == init && cs[|cs| - 1] == last;
    assert forall c <- init :: c in cs;
  }

  function Apply(e: Env, mode: Mode, n: Value): Out {
    match mode
    case Full => Str(REDACTED)
    case Partial => PartialRedact(e, n)
    case Custom(f) => f(n)
  }

  /** The parent type and key that a node is reached under. */
  datatype Place = Place(ty: Option<GoType>, key: string)

  const ROOT := Place(None, "")

  /** The mode a node is matched with: structs are looked up by their type alone, everything else by
      its place. */
  function Selected(e: Env, r: Index, at: Place, n: Value): Option<Mode> {
    if n.Struct? then FilterStruct(r, n.ty) else FilterField(e, r, at.ty, at.key)
  }

  /** redact: the output, and whether anything was redacted. */
  function Redact(e: Env, r: Index, at: Place, v: Value): (Out, bool)
    decreases v, 1, 0
  {
    if v.Invalid? then (Nil, false)
    else if v.NilPtr? then (Raw(v), false)
    else
      var n := Indirect(v);
      match n
      case Iface(x) => Redact(e, r, at, x)
      case Struct(ty, _) =>
        var mode := FilterStruct(r, ty);
        if mode.Some? then (Apply(e, mode.value, n), true)
        else
          var (m, hit) := RedactChildren(e, r, ty, v, Children(e, n));
          if hit then (Obj(m), true) else (Raw(n), false)
      case Map(ty, _) =>
        var mode := FilterField(e, r, at.ty, at.key);
        if mode.Some? then (Apply(e, mode.value, n), true)
        else
          var (m, hit) := RedactChildren(e, r, ty, v, Children(e, n));
          if hit then (Obj(m), true) else (Raw(n), false)
      case Slice(elems) =>
        var mode := FilterField(e, r, at.ty, at.key);
        if mode.Some? then (Apply(e, mode.value, n), true)
        else
          var (s, hit) := RedactElems(e, r, at, v, elems);
          if hit then (Arr(s), true) else (Raw(n), false)
      case _ =>
        var mode := FilterField(e, r, at.ty, at.key);
        if mode.Some? then (Apply(e, mode.value, n), true) else (Raw(n), false)
  }

  function RedactChildren(e: Env, r: Index, ty: GoType, v: Value, cs: seq<Child>): (res: (map<string, Out>, bool))
    requires forall c <- cs :: c.val < v
    decreases v, 0, |cs|
  {
    if cs == [] then (map[], false)
    else
      var c := cs[|cs| - 1];
      var (m, hit) := RedactChildren(e, r, ty, v, cs[..|cs| - 1]);
      var (o, h) := Redact(e, r, Place(Some(ty), c.key), c.val);
      (m[c.key := o], hit || h)
  }

  lemma RedactChildrenStep(e: Env, r: Index, ty: GoType, v: Value, init: seq<Child>, last: Child)
    requires forall c <- init + [last] :: c.val < v
    ensures (forall c <- init :: c.val < v) && last.val < v
    ensures var (m, hit) := RedactChildren(e, r, ty, v, init);
            var (o, h) := Redact(e, r, Place(Some(ty), last.key), last.val);
            RedactChildren(e, r, ty, v, init + [last]) == (m[last.key := o], hit || h)
  {
    var cs := init + [last];
    assert cs[..|cs| - 1] == init && cs[|cs| - 1] == last;
    assert forall c <- init :: c in cs;
  }

  /** Elements keep the place of their slice. */
  function RedactElems(e: Env, r: Index, at: Place, v: Value, elems: seq<Value>): (res: (seq<Out>, bool))
    requires forall i :: 0 <= i < |elems| ==> elems[i] < v
    ensures |res.0| == |elems|
    decreases v, 0, |elems|
  {
    if elems == [] then ([], false)
    else
      var (s, hit) := RedactElems(e, r, at, v, elems[..|elems| - 1]);
      var (o, h) := Redact(e, r, at, elems[|elems| - 1]);
      (s + [o], hit || h)
  }

  /** Redact on a Redactor: nil for nil, otherwise the root's output. */
  function RedactRoot(e: Env, r: Index, v: Value): Out {
    if v.Invalid? then Nil else Redact(e, r, ROOT, v).0
  }

  /** A record with one child and no match of its own. */
  lemma OneChild(e: Env, r: Index, at: Place, n: Value, c: Child)
    requires (n.Struct? || n.Map?) && Children(e, n) == [c] && Selected(e, r, at, n) == None
    ensures var (o, hit) := Redact(e, r, Place(Some(n.ty), c.key), c.val);
            Redact(e, r, at, n) == if hit then (Obj(map[c.key := o]), true) else (Raw(n), false)
  {
    assert [] + [c] == [c];
    RedactChildrenStep(e, r, n.ty, n, [], c);
  }

  lemma OneField(e: Env, r: Index, at: Place, ty: GoType, f: Field)
    requires f.exported && FilterStruct(r, ty) == None
    ensures var (o, hit) := Redact(e, r, Place(Some(ty), FieldKey(f)), f.val);
            Redact(e, r, at, Struct(ty, [f])) == if hit then (Obj(map[FieldKey(f) := o]), true) else (Raw(Struct(ty, [f])), false)
  {
    ExportedStep([f], 0);
    assert [f][..1] == [f] && [f][..0] == [];
    OneChild(e, r, at, Struct(ty, [f]), Child(FieldKey(f), f.val));
  }

  lemma RedactScalar(e: Env, r: Index, at: Place, s: Scalar)
    ensures Redact(e, r, at, Prim(s)) ==
            match Selected(e, r, at, Prim(s)) { case None => (Raw(Prim(s)), false) case Some(mode) => (Apply(e, mode, Prim(s)), true) }
  {
  }
}
