/** Exactly what the output of Redact reveals, for redactors with FullRedact and PartialRedact filters. */
module Leak {
  import opened Wrappers
  import opened GoValue
  import opened Filters
  import opened Redaction
  import opened Paths
  import opened PathMeaning
  import opened PartialMeaning
  import Order

  /** How a value is looked at: by redact at a place, or by PartialRedact below a match. */
  datatype Lens = Looking(at: Place) | Shortening

  /** What one level shows: a whole output, or a container whose children are looked at in turn. The
      children of a record are looked at under its type, or by PartialRedact if there is none. */
  datatype Head = Leaf(o: Out) | Record(ty: Option<GoType>, cs: seq<Child>) | List(lens: Lens, elems: seq<Value>)

  function Below(ty: Option<GoType>, key: string): Lens {
    if ty.None? then Shortening else Looking(Place(ty, key))
  }

  function ShortHead(e: Env, v: Value): (h: Head)
    ensures h.Record? ==> forall c <- h.cs :: c.val < v
    ensures h.List? ==> forall i :: 0 <= i < |h.elems| ==> h.elems[i] < v
  {
    match Peel(v)
    case Gone(o) => Leaf(o)
    case Node(n) =>
      if n.Struct? || n.Map? then Record(None, Children(e, n))
      else if n.Slice? then List(Shortening, n.elems)
      else Leaf(Str(PartialString(e.sprint(n))))
  }

  /** A match shows what its mode leaves; without one, a container with a match below shows its children,
      and everything else is shown whole. */
  ghost function LookHead(e: Env, r: Index, at: Place, v: Value): (h: Head)
    ensures h.Record? ==> forall c <- h.cs :: c.val < v
    ensures h.List? ==> forall i :: 0 <= i < |h.elems| ==> h.elems[i] < v
  {
    match Peel(v)
    case Gone(o) => Leaf(o)
    case Node(n) =>
      var mode := Selected(e, r, at, n);
      if mode == Some(Partial) then ShortHead(e, n)
      else if mode.Some? then Leaf(Str(REDACTED))
      else if !MatchBelow(e, Filtering(e, r), at, v, []) then Leaf(Raw(n))
      else if n.Struct? || n.Map? then Record(Some(n.ty), Children(e, n))
      else if n.Slice? then List(Looking(at), n.elems)
      else Leaf(Raw(n))
  }

  ghost function HeadOf(e: Env, r: Index, x: Lens, v: Value): (h: Head)
    ensures h.Record? ==> forall c <- h.cs :: c.val < v
    ensures h.List? ==> forall i :: 0 <= i < |h.elems| ==> h.elems[i] < v
  {
    match x
    case Looking(at) => LookHead(e, r, at, v)
    case Shortening => ShortHead(e, v)
  }

  /** Two values, each looked at in its own way, that show the same. */
  ghost predicate SameSeen(e: Env, r: Index, x: Lens, v: Value, y: Lens, w: Value)
    decreases v
  {
    match (HeadOf(e, r, x, v), HeadOf(e, r, y, w))
    case (Leaf(o), Leaf(p)) => o == p
    case (Record(t, cs), Record(u, ds)) =>
      && KeysOf(cs) == KeysOf(ds)
      && forall c <- cs, d <- ds :: c.key == d.key ==> SameSeen(e, r, Below(t, c.key), c.val, Below(u, d.key), d.val)
    case (List(a, xs), List(b, ys)) =>
      |xs| == |ys| && forall i :: 0 <= i < |xs| ==> SameSeen(e, r, a, xs[i], b, ys[i])
    case _ => false
  }

  // ---- One level ----

  type Seer = (Lens, Value) -> Out

  function Seen(e: Env, r: Index): (s: Seer)
    ensures forall at, v :: s(Looking(at), v) == Redact(e, r, at, v).0
    ensures forall v :: s(Shortening, v) == PartialRedact(e, v)
  {
    (x: Lens, v: Value) => match x { case Looking(at) => Redact(e, r, at, v).0 case Shortening => PartialRedact(e, v) }
  }

  ghost predicate HoldsSeen(s: Seer, ty: Option<GoType>, cs: seq<Child>, m: map<string, Out>) {
    m.Keys == KeysOf(cs) && forall c <- cs :: m[c.key] == s(Below(ty, c.key), c.val)
  }

  /** The output shows what the head says, with the children's outputs below. */
  ghost predicate Shows(s: Seer, o: Out, h: Head) {
    match h
    case Leaf(p) => o == p && !p.Obj? && !p.Arr?
    case Record(t, cs) => o.Obj? && HoldsSeen(s, t, cs, o.m)
    case List(x, elems) => o.Arr? && |o.s| == |elems| && forall i :: 0 <= i < |elems| ==> o.s[i] == s(x, elems[i])
  }

  ghost predicate NoCustom(r: Index) {
    forall f <- r.structs + r.structFields + r.general :: !f.mode.Custom?
  }

  lemma SelectedNotCustom(e: Env, r: Index, at: Place, n: Value)
    requires NoCustom(r) && Selected(e, r, at, n).Some?
    ensures !Selected(e, r, at, n).value.Custom?
  {
    if n.Struct? {
      Order.TypeComesFromFilter(r.structs, n.ty);
    } else if at.ty.Some? && FirstHit(e, r.structFields, at.ty, at.key).Some? {
      Order.HitComesFromFilter(e, r.structFields, at.ty, at.key);
    } else {
      Order.HitComesFromFilter(e, r.general, None, at.key);
    }
  }

  lemma ShortShows(e: Env, r: Index, s: Seer, v: Value)
    requires s == Seen(e, r) && Distinct(e, v)
    ensures Shows(s, PartialRedact(e, v), ShortHead(e, v))
  {
    var h := Partially(e);
    PartialOneLevel(e, h, v);
    assert h(v) == PartialRedact(e, v) && forall w :: h(w) == s(Shortening, w);
  }

  lemma LookShows(e: Env, r: Index, s: Seer, at: Place, v: Value)
    requires s == Seen(e, r) && Distinct(e, v) && NoCustom(r)
    ensures Shows(s, Redact(e, r, at, v).0, LookHead(e, r, at, v))
  {
    var f, g := Redactor(e, r), Filtering(e, r);
    RedactIsLawful(e, r);
    assert OneLevel(e, g, f, at, v) && f(at, v) == Redact(e, r, at, v);
    if Peel(v).Node? {
      var n := Peel(v).n;
      if Selected(e, r, at, n).Some? {
        SelectedNotCustom(e, r, at, n);
        NodeDistinct(e, v);
        ShortShows(e, r, s, n);
      } else {
        FlagLaw(e, g, f, at, v);
        HitIsMatchBelow(e, g, at, v);
        assert forall p, w :: f(p, w).0 == s(Looking(p), w);
      }
    }
  }

  lemma HitIsMatchBelow(e: Env, g: Matcher, at: Place, v: Value)
    ensures MatchBelow(e, g, at, v, []) <==> exists p :: FirstMatched(e, g, at, v, p)
  {
    assert forall q: seq<Step> :: [] + q == q;
    if p :| FirstMatched(e, g, at, v, p) {
      assert FirstMatched(e, g, at, v, [] + p);
    }
  }

  ghost predicate AllShow(e: Env, r: Index, s: Seer) {
    forall x, v :: Distinct(e, v) ==> Shows(s, s(x, v), HeadOf(e, r, x, v))
  }

  lemma SeenShows(e: Env, r: Index)
    requires NoCustom(r)
    ensures AllShow(e, r, Seen(e, r))
  {
    var s := Seen(e, r);
    forall x: Lens, v: Value | Distinct(e, v) ensures Shows(s, s(x, v), HeadOf(e, r, x, v)) {
      match x
      case Looking(at) => LookShows(e, r, s, at, v);
      case Shortening => ShortShows(e, r, s, v);
    }
  }

  // ---- Every level ----

  ghost predicate HeadDistinct(e: Env, h: Head) {
    match h
    case Leaf(_) => true
    case Record(_, cs) => forall c <- cs :: Distinct(e, c.val)
    case List(_, elems) => forall i :: 0 <= i < |elems| ==> Distinct(e, elems[i])
  }

  lemma ShortHeadDistinct(e: Env, v: Value)
    requires Distinct(e, v)
    ensures HeadDistinct(e, ShortHead(e, v))
  {
  }

  lemma HeadsDistinct(e: Env, r: Index, x: Lens, v: Value)
    requires Distinct(e, v)
    ensures HeadDistinct(e, HeadOf(e, r, x, v))
  {
    if x.Looking? && Peel(v).Node? {
      NodeDistinct(e, v);
      ShortHeadDistinct(e, Peel(v).n);
    }
  }

  ghost predicate SameUnderKeys(s: Seer, t: Option<GoType>, cs: seq<Child>, u: Option<GoType>, ds: seq<Child>) {
    && KeysOf(cs) == KeysOf(ds)
    && forall c <- cs, d <- ds :: c.key == d.key ==> s(Below(t, c.key), c.val) == s(Below(u, d.key), d.val)
  }

  lemma RecordsSeen(s: Seer, t: Option<GoType>, cs: seq<Child>, u: Option<GoType>, ds: seq<Child>,
                    a: map<string, Out>, b: map<string, Out>)
    requires HoldsSeen(s, t, cs, a) && HoldsSeen(s, u, ds, b)
    ensures a == b <==> SameUnderKeys(s, t, cs, u, ds)
  {
    ObjectsEqual((c: Child) => s(Below(t, c.key), c.val), cs, a, (c: Child) => s(Below(u, c.key), c.val), ds, b);
  }

  lemma {:induction false} LeakOf(e: Env, r: Index, s: Seer, x: Lens, v: Value, y: Lens, w: Value)
    requires AllShow(e, r, s) && Distinct(e, v) && Distinct(e, w)
    ensures s(x, v) == s(y, w) <==> SameSeen(e, r, x, v, y, w)
    decreases v
  {
    var h, k := HeadOf(e, r, x, v), HeadOf(e, r, y, w);
    HeadsDistinct(e, r, x, v);
    HeadsDistinct(e, r, y, w);
    assert Shows(s, s(x, v), h) && Shows(s, s(y, w), k);
    if h.Record? && k.Record? {
      forall c <- h.cs, d <- k.cs
        ensures s(Below(h.ty, c.key), c.val) == s(Below(k.ty, d.key), d.val)
                <==> SameSeen(e, r, Below(h.ty, c.key), c.val, Below(k.ty, d.key), d.val)
      {
        LeakOf(e, r, s, Below(h.ty, c.key), c.val, Below(k.ty, d.key), d.val);
      }
      RecordsSeen(s, h.ty, h.cs, k.ty, k.cs, s(x, v).m, s(y, w).m);
    } else if h.List? && k.List? {
      forall i | 0 <= i < |h.elems| && i < |k.elems|
        ensures s(h.lens, h.elems[i]) == s(k.lens, k.elems[i]) <==> SameSeen(e, r, h.lens, h.elems[i], k.lens, k.elems[i])
      {
        LeakOf(e, r, s, h.lens, h.elems[i], k.lens, k.elems[i]);
      }
    }
  }

  /** Redact confuses two values if and only if they show the same: the same nils, what is untouched
      entirely, the same keys and lengths around matches, and of a match what its mode leaves. */
  lemma RedactLeak(e: Env, r: Index, at: Place, v: Value, w: Value)
    requires NoCustom(r) && Distinct(e, v) && Distinct(e, w)
    ensures Redact(e, r, at, v).0 == Redact(e, r, at, w).0 <==> SameSeen(e, r, Looking(at), v, Looking(at), w)
  {
    SeenShows(e, r);
    LeakOf(e, r, Seen(e, r), Looking(at), v, Looking(at), w);
  }
}
