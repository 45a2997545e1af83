/** When redacting a second time changes nothing, for redactors that only know general FullRedact filters. */
module Idempotence {
  import opened Wrappers
  import opened GoValue
  import opened Filters
  import opened Redaction
  import opened Paths
  import opened PartialMeaning
  import opened PathMeaning

  ghost predicate OnlyGeneralFull(r: Index) {
    r.structs == [] && r.structFields == [] && forall f <- r.general :: f.mode == Full
  }

  /** Such redactors come from adding general FullRedact filters only. */
  lemma {:induction false} GeneralFullFilters(e: Env, fs: seq<Filter>)
    requires forall f <- fs :: f.ty.None? && f.mode == Full
    ensures OnlyGeneralFull(AddFilters(e, EMPTY, fs))
  {
    if fs != [] {
      GeneralFullFilters(e, fs[..|fs| - 1]);
    }
  }

  /** A key that the redactor fully redacts wherever it looks fields up. */
  predicate KeyHit(e: Env, r: Index, key: string) {
    FirstHit(e, r.general, None, key).Some?
  }

  lemma {:induction false} HitIsFull(e: Env, fs: seq<Filter>, key: string)
    requires forall f <- fs :: f.mode == Full
    ensures FirstHit(e, fs, None, key) in {None, Some(Full)}
  {
    if fs != [] && !FieldHit(e, fs[0], None, key) {
      HitIsFull(e, fs[1..], key);
    }
  }

  /** What a matcher of this kind does: only the key counts, and structs never match. */
  ghost predicate KeyMatcher(e: Env, r: Index, g: Matcher) {
    forall at, n :: g(at, n) == if !n.Struct? && KeyHit(e, r, at.key) then Some(Str(REDACTED)) else None
  }

  lemma FilteringByKey(e: Env, r: Index)
    requires OnlyGeneralFull(r)
    ensures KeyMatcher(e, r, Filtering(e, r))
  {
    var g := Filtering(e, r);
    forall at: Place, n: Value
      ensures g(at, n) == if !n.Struct? && KeyHit(e, r, at.key) then Some(Str(REDACTED)) else None
    {
      HitIsFull(e, r.general, at.key);
    }
  }

  /** How reflection reads an output that is passed in again: a map[string]any, a []any, a string, or
      the value that was returned untouched. The map may list its keys in any order. */
  ghost predicate Reads(w: Value, o: Out)
    decreases o
  {
    match o
    case Nil => w == Invalid
    case Raw(v) => w == v
    case Str(s) => w == Prim(Text(s))
    case Obj(m) =>
      && w.Map? && DistinctEntries(w.entries) && TextKeys(w.entries) == m.Keys
      && forall x <- w.entries :: x.key.TextKey? && x.val.Iface? && x.key.s in m && Reads(x.val.elem, m[x.key.s])
    case Arr(s) =>
      && w.Slice? && |w.elems| == |s|
      && forall i :: 0 <= i < |s| ==> w.elems[i].Iface? && Reads(w.elems[i].elem, s[i])
  }

  ghost predicate DistinctEntries(es: seq<Entry>) {
    forall i, j :: 0 <= i < j < |es| ==> es[i].key != es[j].key
  }

  ghost function TextKeys(es: seq<Entry>): set<string> {
    set x <- es | x.key.TextKey? :: x.key.s
  }

  ghost predicate MatchFree(e: Env, g: Matcher, at: Place, v: Value) {
    forall p :: !FirstMatched(e, g, at, v, p)
  }

  /** Redacting again changes nothing: the value is not a pointer behind a pointer, and where a struct
      was rebuilt into a map its own key is not one that is redacted. */
  ghost predicate Stable(e: Env, r: Index, g: Matcher, at: Place, v: Value)
    decreases v
  {
    match Peel(v)
    case Gone(_) => true
    case Node(n) =>
      if MatchFree(e, g, at, v) then !n.Ptr? && !n.Invalid?
      else if g(at, n).Some? then true
      else if IsRecord(n) then
        && (n.Struct? ==> !KeyHit(e, r, at.key))
        && forall c <- Children(e, n) :: Stable(e, r, g, Place(Some(n.ty), c.key), c.val)
      else n.Slice? ==> forall i :: 0 <= i < |n.elems| ==> Stable(e, r, g, at, n.elems[i])
  }

  // ---- Reading an output back ----

  /** The children of a read-back object: its keys, each with an interface holding the output there. */
  ghost predicate ReadsChildren(cs: seq<Child>, m: map<string, Out>) {
    && DistinctKeys(cs) && KeysOf(cs) == m.Keys
    && forall c <- cs :: c.key in m && c.val.Iface? && Reads(c.val.elem, m[c.key])
  }

  lemma ReadObject(e: Env, w: Value, m: map<string, Out>)
    requires Reads(w, Obj(m))
    ensures ReadsChildren(Children(e, w), m)
  {
    var es, cs := w.entries, Children(e, w);
    forall i | 0 <= i < |es| ensures cs[i].key == es[i].key.s && es[i].key.TextKey? {
      assert es[i] in es;
    }
    forall c <- cs ensures c.key in m && c.val.Iface? && Reads(c.val.elem, m[c.key]) {
      var i :| 0 <= i < |cs| && cs[i] == c;
      assert es[i] in es;
    }
    forall k <- m.Keys ensures k in KeysOf(cs) {
      assert k in TextKeys(es);
      var x :| x in es && x.key.TextKey? && x.key.s == k;
      var i :| 0 <= i < |es| && es[i] == x;
      assert cs[i] in cs;
    }
  }

  lemma SameObjects(f: Rewriter, ty: GoType, cs: seq<Child>, a: map<string, Out>, b: map<string, Out>)
    requires HoldsOutputs(f, ty, cs, a) && HoldsOutputs(f, ty, cs, b)
    ensures a == b
  {
    forall k <- a.Keys ensures a[k] == b[k] {
      var c :| c in cs && c.key == k;
    }
  }

  /** Values with the same node have the same result at the same place. */
  lemma SameNode(e: Env, g: Matcher, f: Rewriter, at: Place, v: Value, w: Value)
    requires OneLevel(e, g, f, at, v) && OneLevel(e, g, f, at, w) && Peel(v) == Peel(w)
    ensures f(at, v) == f(at, w)
  {
    if Peel(v).Node? && f(at, v).1 && g(at, Peel(v).n).None? && Peel(v).n.Slice? {
      assert f(at, v).0.s == f(at, w).0.s;
    } else if Peel(v).Node? && f(at, v).1 && g(at, Peel(v).n).None? {
      SameObjects(f, Peel(v).n.ty, Children(e, Peel(v).n), f(at, v).0.m, f(at, w).0.m);
    }
  }

  /** Only the key of a place matters to a key matcher. */
  lemma {:induction false} SameKey(e: Env, r: Index, g: Matcher, f: Rewriter, at: Place, to: Place, v: Value)
    requires KeyMatcher(e, r, g) && Lawful(e, g, f) && Distinct(e, v) && at.key == to.key
    ensures f(at, v) == f(to, v)
    decreases v
  {
    assert OneLevel(e, g, f, at, v) && OneLevel(e, g, f, to, v);
    if Peel(v).Node? {
      var n := Peel(v).n;
      assert g(at, n) == g(to, n);
      if n.Slice? {
        forall i | 0 <= i < |n.elems| ensures f(at, n.elems[i]) == f(to, n.elems[i]) {
          SameKey(e, r, g, f, at, to, n.elems[i]);
        }
        if f(at, v).1 && g(at, n).None? {
          assert f(at, v).0.s == f(to, v).0.s;
        }
      } else if IsRecord(n) && f(at, v).1 && g(at, n).None? {
        SameObjects(f, n.ty, Children(e, n), f(at, v).0.m, f(to, v).0.m);
      }
    }
  }

  /** An output is read back as a value with distinct keys. */
  lemma {:induction false} ReadDistinct(e: Env, g: Matcher, f: Rewriter, at: Place, v: Value, w: Value)
    requires Lawful(e, g, f) && Distinct(e, v) && Reads(w, f(at, v).0)
    requires forall at, n :: g(at, n).Some? ==> g(at, n).value.Str?
    ensures Distinct(e, w)
    decreases v, 1
  {
    assert OneLevel(e, g, f, at, v);
    if Peel(v).Node? {
      var n := Peel(v).n;
      NodeDistinct(e, v);
      if f(at, v).1 && g(at, n).None? {
        if n.Slice? {
          forall i | 0 <= i < |w.elems| ensures Distinct(e, w.elems[i]) {
            ReadDistinct(e, g, f, at, n.elems[i], w.elems[i].elem);
            WrappedDistinct(e, w.elems[i].elem);
          }
        } else {
          ReadRecordDistinct(e, g, f, n, f(at, v).0.m, w);
        }
      }
    }
  }

  lemma {:induction false} ReadRecordDistinct(e: Env, g: Matcher, f: Rewriter, n: Value, m: map<string, Out>, w: Value)
    requires Lawful(e, g, f) && IsRecord(n) && (forall d <- Children(e, n) :: Distinct(e, d.val))
    requires HoldsOutputs(f, n.ty, Children(e, n), m) && Reads(w, Obj(m))
    requires forall at, n :: g(at, n).Some? ==> g(at, n).value.Str?
    ensures Distinct(e, w)
    decreases n, 0
  {
    ReadObject(e, w, m);
    assert Peel(w) == Node(w);
    forall c <- Children(e, w) ensures Distinct(e, c.val) {
      assert c.key in KeysOf(Children(e, n));
      var d :| d in Children(e, n) && d.key == c.key;
      ReadDistinct(e, g, f, Place(Some(n.ty), d.key), d.val, c.val.elem);
      WrappedDistinct(e, c.val.elem);
    }
  }

  lemma WrappedDistinct(e: Env, x: Value)
    ensures Distinct(e, Iface(x)) <==> Distinct(e, x)
    ensures Peel(Iface(x)) == Peel(x)
  {
  }

  // ---- Redacting what was read back ----

  /** A value in which nothing was redacted comes back unless it is a pointer behind a pointer. */
  lemma UntouchedAgain(e: Env, r: Index, g: Matcher, f: Rewriter, at: Place, to: Place, v: Value)
    requires KeyMatcher(e, r, g) && Lawful(e, g, f) && Distinct(e, v) && at.key == to.key
    requires Peel(v).Node? && !f(at, v).1
    ensures var n := Peel(v).n; f(to, n).0 == Raw(n) <==> !n.Ptr? && !n.Invalid?
    ensures var n := Peel(v).n; !n.Ptr? && !n.Invalid? ==> f(to, n) == f(at, v)
  {
    var n := Peel(v).n;
    NodeDistinct(e, v);
    assert OneLevel(e, g, f, at, v) && OneLevel(e, g, f, to, n) && OneLevel(e, g, f, at, n);
    if n.Ptr? {
      assert Peel(n).Node? ==> Peel(n).n < n;
      assert f(to, n).0 != Raw(n);
    } else if !n.Invalid? && !n.NilPtr? {
      assert Peel(n) == Node(n);
      SameNode(e, g, f, at, v, n);
      SameKey(e, r, g, f, at, to, n);
    }
  }

  /** One child under two passes: the second leaves the output if and only if the child is stable. */
  ghost predicate ChildAgain(f: Rewriter, at: Place, to: Place, v: Value, w: Value, stable: bool) {
    (f(to, w).0 == f(at, v).0 <==> stable) && (stable ==> f(to, w) == f(at, v))
  }

  ghost predicate AllStable(st: Child -> bool, cs: seq<Child>) {
    forall d <- cs :: st(d)
  }

  /** Two objects built from paired children are equal if and only if every child is stable. */
  lemma ObjectsAgain(f: Rewriter, ty: GoType, ds: seq<Child>, m: map<string, Out>, to: GoType, cs: seq<Child>, st: Child -> bool)
    requires HoldsOutputs(f, ty, ds, m) && KeysOf(cs) == m.Keys && SomeChildHit(f, ty, ds)
    requires forall c <- cs, d <- ds :: c.key == d.key ==>
               ChildAgain(f, Place(Some(ty), d.key), Place(Some(to), c.key), d.val, c.val, st(d))
    ensures AllStable(st, ds) ==> SomeChildHit(f, to, cs) && HoldsOutputs(f, to, cs, m)
    ensures HoldsOutputs(f, to, cs, m) ==> AllStable(st, ds)
  {
    if AllStable(st, ds) {
      var d :| d in ds && f(Place(Some(ty), d.key), d.val).1;
      assert d.key in KeysOf(cs);
      var c :| c in cs && c.key == d.key;
      forall c <- cs ensures m[c.key] == f(Place(Some(to), c.key), c.val).0 {
        assert c.key in KeysOf(ds);
        var d :| d in ds && d.key == c.key;
      }
    }
    if HoldsOutputs(f, to, cs, m) {
      forall d <- ds ensures st(d) {
        assert d.key in KeysOf(cs);
        var c :| c in cs && c.key == d.key;
      }
    }
  }

  lemma RecordAgain(f: Rewriter, ty: GoType, ds: seq<Child>, m: map<string, Out>, to: GoType, cs: seq<Child>, st: Child -> bool, res: (Out, bool))
    requires HoldsOutputs(f, ty, ds, m) && KeysOf(cs) == m.Keys && SomeChildHit(f, ty, ds)
    requires forall c <- cs, d <- ds :: c.key == d.key ==>
               ChildAgain(f, Place(Some(ty), d.key), Place(Some(to), c.key), d.val, c.val, st(d))
    requires res.1 <==> SomeChildHit(f, to, cs)
    requires if res.1 then res.0.Obj? && HoldsOutputs(f, to, cs, res.0.m) else !res.0.Obj?
    ensures res.0 == Obj(m) <==> AllStable(st, ds)
    ensures res.0 == Obj(m) ==> res.1
  {
    ObjectsAgain(f, ty, ds, m, to, cs, st);
    if AllStable(st, ds) {
      SameObjects(f, to, cs, m, res.0.m);
    }
  }

  /** What the second pass makes of a map. */
  lemma MapLevel(e: Env, r: Index, g: Matcher, f: Rewriter, to: Place, w: Value)
    requires Lawful(e, g, f) && Distinct(e, w) && KeyMatcher(e, r, g) && w.Map?
    ensures KeyHit(e, r, to.key) ==> f(to, w).0.Str?
    ensures !KeyHit(e, r, to.key) ==>
              && (f(to, w).1 <==> SomeChildHit(f, w.ty, Children(e, w)))
              && (if f(to, w).1 then f(to, w).0.Obj? && HoldsOutputs(f, w.ty, Children(e, w), f(to, w).0.m) else !f(to, w).0.Obj?)
  {
    assert OneLevel(e, g, f, to, w) && Peel(w) == Node(w);
  }

  /** The second pass over a rebuilt record; `hit` says whether the key it is read back under is redacted. */
  lemma RebuiltAgain(e: Env, f: Rewriter, at: Place, to: Place, v: Value, n: Value,
                     m: map<string, Out>, w: Value, st: Child -> bool, hit: bool)
    requires f(at, v) == (Obj(m), true)
    requires IsRecord(n) && HoldsOutputs(f, n.ty, Children(e, n), m) && SomeChildHit(f, n.ty, Children(e, n))
    requires w.Map? && KeysOf(Children(e, w)) == m.Keys
    requires hit ==> n.Struct? && f(to, w).0.Str?
    requires !hit ==>
               && (f(to, w).1 <==> SomeChildHit(f, w.ty, Children(e, w)))
               && (if f(to, w).1 then f(to, w).0.Obj? && HoldsOutputs(f, w.ty, Children(e, w), f(to, w).0.m) else !f(to, w).0.Obj?)
    requires forall c <- Children(e, w), d <- Children(e, n) :: c.key == d.key ==>
               ChildAgain(f, Place(Some(n.ty), d.key), Place(Some(w.ty), c.key), d.val, c.val, st(d))
    ensures ChildAgain(f, at, to, v, w, (n.Struct? ==> !hit) && AllStable(st, Children(e, n)))
  {
    if !hit {
      RecordAgain(f, n.ty, Children(e, n), m, w.ty, Children(e, w), st, f(to, w));
    }
  }

  lemma SliceAgain(e: Env, r: Index, g: Matcher, f: Rewriter, at: Place, to: Place, v: Value, w: Value)
    requires OneLevel(e, g, f, at, v) && OneLevel(e, g, f, to, w) && KeyMatcher(e, r, g) && at.key == to.key
    requires Peel(v).Node? && Peel(v).n.Slice? && f(at, v).1 && g(at, Peel(v).n).None?
    requires w.Slice? && |w.elems| == |Peel(v).n.elems|
    requires forall i :: 0 <= i < |w.elems| ==>
               ChildAgain(f, at, to, Peel(v).n.elems[i], w.elems[i], Stable(e, r, g, at, Peel(v).n.elems[i]))
    ensures ChildAgain(f, at, to, v, w, forall i :: 0 <= i < |w.elems| ==> Stable(e, r, g, at, Peel(v).n.elems[i]))
  {
    var n := Peel(v).n;
    assert Peel(w) == Node(w);
    if forall i :: 0 <= i < |w.elems| ==> Stable(e, r, g, at, n.elems[i]) {
      var i :| 0 <= i < |n.elems| && f(at, n.elems[i]).1;
      assert f(to, w.elems[i]).1;
      assert f(to, w).0.s == f(at, v).0.s;
    }
  }

  lemma {:induction false} Again(e: Env, r: Index, g: Matcher, f: Rewriter, at: Place, to: Place, v: Value, w: Value)
    requires KeyMatcher(e, r, g) && Lawful(e, g, f) && Distinct(e, v) && at.key == to.key
    requires Reads(w, f(at, v).0)
    ensures ChildAgain(f, at, to, v, w, Stable(e, r, g, at, v))
    decreases v, 2
  {
    assert OneLevel(e, g, f, at, v);
    ReadDistinct(e, g, f, at, v, w);
    assert OneLevel(e, g, f, to, w);
    if Peel(v).Gone? || !f(at, v).1 || g(at, Peel(v).n).Some? {
      EasyAgain(e, r, g, f, at, to, v, w);
    } else if IsRecord(Peel(v).n) {
      RecordValueAgain(e, r, g, f, at, to, v, w);
    } else {
      SliceElemsAgain(e, r, g, f, at, to, Peel(v).n.elems, f(at, v).0.s, w.elems, Peel(v).n);
      SliceAgain(e, r, g, f, at, to, v, w);
      StableContainer(e, r, g, f, at, v);
    }
  }

  lemma {:induction false} RecordValueAgain(e: Env, r: Index, g: Matcher, f: Rewriter, at: Place, to: Place, v: Value, w: Value)
    requires KeyMatcher(e, r, g) && Lawful(e, g, f) && Distinct(e, v) && Distinct(e, w) && at.key == to.key
    requires OneLevel(e, g, f, at, v) && Reads(w, f(at, v).0)
    requires Peel(v).Node? && IsRecord(Peel(v).n) && f(at, v).1 && g(at, Peel(v).n).None?
    ensures ChildAgain(f, at, to, v, w, Stable(e, r, g, at, v))
    decreases v, 1
  {
    var n := Peel(v).n;
    RebuiltRecord(e, g, f, at, v);
    RecordChildrenAgain(e, r, g, f, n, f(at, v).0.m, w, StableChild(e, r, g, n.ty));
    StableRecordAgain(e, r, g, f, at, to, v, n, f(at, v).0.m, w);
  }

  /** What the first pass made of a record. */
  lemma RebuiltRecord(e: Env, g: Matcher, f: Rewriter, at: Place, v: Value)
    requires OneLevel(e, g, f, at, v) && Distinct(e, v)
    requires Peel(v).Node? && IsRecord(Peel(v).n) && f(at, v).1 && g(at, Peel(v).n).None?
    ensures var n := Peel(v).n;
            && f(at, v).0.Obj? && HoldsOutputs(f, n.ty, Children(e, n), f(at, v).0.m) && SomeChildHit(f, n.ty, Children(e, n))
            && forall d <- Children(e, n) :: Distinct(e, d.val)
  {
  }

  lemma StableRecordAgain(e: Env, r: Index, g: Matcher, f: Rewriter, at: Place, to: Place, v: Value, n: Value,
                          m: map<string, Out>, w: Value)
    requires KeyMatcher(e, r, g) && Lawful(e, g, f) && Distinct(e, v) && Distinct(e, w) && at.key == to.key
    requires Peel(v) == Node(n) && IsRecord(n) && f(at, v) == (Obj(m), true) && g(at, n).None?
    requires HoldsOutputs(f, n.ty, Children(e, n), m) && SomeChildHit(f, n.ty, Children(e, n))
    requires w.Map? && KeysOf(Children(e, w)) == m.Keys
    requires forall c <- Children(e, w), d <- Children(e, n) :: c.key == d.key ==>
               ChildAgain(f, Place(Some(n.ty), d.key), Place(Some(w.ty), c.key), d.val, c.val, StableChild(e, r, g, n.ty)(d))
    ensures ChildAgain(f, at, to, v, w, Stable(e, r, g, at, v))
  {
    MapLevel(e, r, g, f, to, w);
    StableContainer(e, r, g, f, at, v);
    RebuiltAgain(e, f, at, to, v, n, m, w, StableChild(e, r, g, n.ty), KeyHit(e, r, at.key));
  }

  /** The second pass where the first had nothing to rebuild. */
  lemma EasyAgain(e: Env, r: Index, g: Matcher, f: Rewriter, at: Place, to: Place, v: Value, w: Value)
    requires KeyMatcher(e, r, g) && Lawful(e, g, f) && Distinct(e, v) && Distinct(e, w) && at.key == to.key
    requires Reads(w, f(at, v).0)
    requires Peel(v).Gone? || !f(at, v).1 || g(at, Peel(v).n).Some?
    ensures ChildAgain(f, at, to, v, w, Stable(e, r, g, at, v))
  {
    assert OneLevel(e, g, f, at, v) && OneLevel(e, g, f, to, w);
    FlagLaw(e, g, f, at, v);
    if Peel(v).Node? {
      if f(at, v).1 {
        assert Peel(w) == Node(w) && g(to, w) == Some(Str(REDACTED));
      } else {
        UntouchedAgain(e, r, g, f, at, to, v);
      }
    }
  }

  lemma StableContainer(e: Env, r: Index, g: Matcher, f: Rewriter, at: Place, v: Value)
    requires Lawful(e, g, f) && Distinct(e, v) && Peel(v).Node? && f(at, v).1 && g(at, Peel(v).n).None?
    ensures var n := Peel(v).n;
            if IsRecord(n) then
              Stable(e, r, g, at, v) <==> (n.Struct? ==> !KeyHit(e, r, at.key)) && AllStable(StableChild(e, r, g, n.ty), Children(e, n))
            else
              n.Slice? && (Stable(e, r, g, at, v) <==> forall i :: 0 <= i < |n.elems| ==> Stable(e, r, g, at, n.elems[i]))
  {
    assert OneLevel(e, g, f, at, v);
    FlagLaw(e, g, f, at, v);
  }

  ghost function StableChild(e: Env, r: Index, g: Matcher, ty: GoType): (st: Child -> bool)
    ensures forall d :: st(d) <==> Stable(e, r, g, Place(Some(ty), d.key), d.val)
  {
    (d: Child) => Stable(e, r, g, Place(Some(ty), d.key), d.val)
  }

  lemma {:induction false} RecordChildrenAgain(e: Env, r: Index, g: Matcher, f: Rewriter, n: Value, m: map<string, Out>, w: Value, st: Child -> bool)
    requires KeyMatcher(e, r, g) && Lawful(e, g, f)
    requires IsRecord(n) && (forall d <- Children(e, n) :: Distinct(e, d.val)) && HoldsOutputs(f, n.ty, Children(e, n), m)
    requires Reads(w, Obj(m)) && Distinct(e, w) && st == StableChild(e, r, g, n.ty)
    ensures KeysOf(Children(e, w)) == m.Keys
    ensures forall c <- Children(e, w), d <- Children(e, n) :: c.key == d.key ==>
              ChildAgain(f, Place(Some(n.ty), d.key), Place(Some(w.ty), c.key), d.val, c.val, st(d))
    decreases n, 0
  {
    ReadObject(e, w, m);
    assert Peel(w) == Node(w);
    forall c <- Children(e, w), d <- Children(e, n) | c.key == d.key
      ensures ChildAgain(f, Place(Some(n.ty), d.key), Place(Some(w.ty), c.key), d.val, c.val, st(d))
    {
      var p, q := Place(Some(n.ty), d.key), Place(Some(w.ty), c.key);
      Again(e, r, g, f, p, q, d.val, c.val.elem);
      WrappedAgain(e, g, f, q, c.val.elem);
    }
  }

  lemma {:induction false} SliceElemsAgain(e: Env, r: Index, g: Matcher, f: Rewriter, at: Place, to: Place,
                                           xs: seq<Value>, s: seq<Out>, ys: seq<Value>, n: Value)
    requires KeyMatcher(e, r, g) && Lawful(e, g, f) && at.key == to.key && n == Slice(xs)
    requires HoldsElems(f, at, xs, s) && |ys| == |s|
    requires forall i :: 0 <= i < |xs| ==> Distinct(e, xs[i]) && Distinct(e, ys[i])
    requires forall i :: 0 <= i < |s| ==> ys[i].Iface? && Reads(ys[i].elem, s[i])
    ensures forall i :: 0 <= i < |ys| ==> ChildAgain(f, at, to, xs[i], ys[i], Stable(e, r, g, at, xs[i]))
    decreases n, 0
  {
    forall i | 0 <= i < |ys| ensures ChildAgain(f, at, to, xs[i], ys[i], Stable(e, r, g, at, xs[i])) {
      Again(e, r, g, f, at, to, xs[i], ys[i].elem);
      WrappedAgain(e, g, f, to, ys[i].elem);
    }
  }

  lemma WrappedAgain(e: Env, g: Matcher, f: Rewriter, at: Place, x: Value)
    requires Lawful(e, g, f) && Distinct(e, Iface(x))
    ensures f(at, Iface(x)) == f(at, x)
  {
    WrappedDistinct(e, x);
    assert OneLevel(e, g, f, at, x) && OneLevel(e, g, f, at, Iface(x));
    SameNode(e, g, f, at, x, Iface(x));
  }

  // ---- Idempotence ----

  /** Redacting an output once more leaves it unchanged if and only if the value was stable. */
  lemma IdempotentExactly(e: Env, r: Index, at: Place, v: Value, w: Value)
    requires OnlyGeneralFull(r) && Distinct(e, v) && Reads(w, Redact(e, r, at, v).0)
    ensures Redact(e, r, at, w).0 == Redact(e, r, at, v).0 <==> Stable(e, r, Filtering(e, r), at, v)
  {
    var f, g := Redactor(e, r), Filtering(e, r);
    RedactIsLawful(e, r);
    FilteringByKey(e, r);
    assert f(at, v) == Redact(e, r, at, v) && f(at, w) == Redact(e, r, at, w);
    Again(e, r, g, f, at, at, v, w);
  }

  /** Values built from maps, slices, interfaces and scalars. */
  predicate Plain(v: Value) {
    match v
    case Invalid => true
    case Prim(_) => true
    case Iface(x) => Plain(x)
    case Map(_, es) => forall i :: 0 <= i < |es| ==> Plain(es[i].val)
    case Slice(xs) => forall i :: 0 <= i < |xs| ==> Plain(xs[i])
    case _ => false
  }

  lemma {:induction false} PlainPeels(v: Value)
    requires Plain(v) && Peel(v).Node?
    ensures Plain(Peel(v).n) && !Peel(v).n.Invalid? && !Peel(v).n.Ptr? && !Peel(v).n.Struct?
  {
    if v.Iface? {
      PlainPeels(v.elem);
    }
  }

  lemma {:induction false} PlainIsStable(e: Env, r: Index, g: Matcher, at: Place, v: Value)
    requires Plain(v)
    ensures Stable(e, r, g, at, v)
    decreases v
  {
    if Peel(v).Node? {
      var n := Peel(v).n;
      PlainPeels(v);
      if n.Map? {
        forall c <- Children(e, n) ensures Stable(e, r, g, Place(Some(n.ty), c.key), c.val) {
          PlainIsStable(e, r, g, Place(Some(n.ty), c.key), c.val);
        }
      } else if n.Slice? {
        forall i | 0 <= i < |n.elems| ensures Stable(e, r, g, at, n.elems[i]) {
          PlainIsStable(e, r, g, at, n.elems[i]);
        }
      }
    }
  }

  /** In particular Redact is idempotent on every plain value. */
  lemma PlainIdempotent(e: Env, r: Index, at: Place, v: Value, w: Value)
    requires OnlyGeneralFull(r) && Distinct(e, v) && Plain(v) && Reads(w, Redact(e, r, at, v).0)
    ensures Redact(e, r, at, w).0 == Redact(e, r, at, v).0
  {
    PlainIsStable(e, r, Filtering(e, r), at, v);
    IdempotentExactly(e, r, at, v, w);
  }

  const SECRET := Struct(Declared(0), [Field("a", "", true, Prim(Text("x")))])

  /** A map that holds a struct under the redacted key. */
  const HOLDER := Map(Declared(1), [Entry(TextKey("a"), SECRET)])

  lemma SecretRedacted(e: Env, r: Index, at: Place)
    requires FilterField(e, r, Some(Declared(0)), "a") == Some(Full) && FilterStruct(r, Declared(0)) == None
    ensures Redact(e, r, at, SECRET) == (Obj(map["a" := Str(REDACTED)]), true)
  {
    OneField(e, r, at, Declared(0), Field("a", "", true, Prim(Text("x"))));
    RedactScalar(e, r, Place(Some(Declared(0)), "a"), Text("x"));
  }

  lemma ReadHolder(w: Value) returns (x: Value)
    requires Reads(w, Obj(map["a" := Obj(map["a" := Str(REDACTED)])]))
    ensures w.Map? && w.entries == [Entry(TextKey("a"), Iface(x))] && x.Map?
  {
    var es := w.entries;
    forall i | 0 <= i < |es| ensures es[i].key == TextKey("a") {
      assert es[i] in es && es[i].key.s in TextKeys(es);
    }
    assert "a" in TextKeys(es);
    forall i, j | 0 <= i < |es| && 0 <= j < |es| ensures es[i].key == es[j].key && i == j {
    }
    assert es[0].key == es[|es| - 1].key;
    x := es[0].val.elem;
    assert es[0] in es;
  }

  lemma HolderRedacted()
    ensures RedactRoot(SAMPLE_ENV, ON_A, HOLDER) == Obj(map["a" := Obj(map["a" := Str(REDACTED)])])
  {
    KeyAHits(Some(Declared(0)));
    SecretRedacted(SAMPLE_ENV, ON_A, Place(Some(Declared(1)), "a"));
    OneChild(SAMPLE_ENV, ON_A, ROOT, HOLDER, Child("a", SECRET));
  }

  /** A struct under a redacted key: Redact redacts its field, but the map it turned into is redacted as
      a whole the second time. */
  lemma StructNotIdempotent(w: Value)
    requires Reads(w, RedactRoot(SAMPLE_ENV, ON_A, HOLDER))
    ensures RedactRoot(SAMPLE_ENV, ON_A, HOLDER) == Obj(map["a" := Obj(map["a" := Str(REDACTED)])])
    ensures RedactRoot(SAMPLE_ENV, ON_A, w) == Obj(map["a" := Str(REDACTED)])
  {
    HolderRedacted();
    var x := ReadHolder(w);
    KeyAHits(Some(w.ty));
    OneChild(SAMPLE_ENV, ON_A, ROOT, w, Child("a", Iface(x)));
  }

  /** A pointer behind a pointer loses one pointer each time. */
  lemma PointerNotIdempotent(e: Env, w: Value)
    requires Reads(w, RedactRoot(e, EMPTY, Ptr(Ptr(Prim(Text("x"))))))
    ensures RedactRoot(e, EMPTY, Ptr(Ptr(Prim(Text("x"))))) == Raw(Ptr(Prim(Text("x"))))
    ensures RedactRoot(e, EMPTY, w) == Raw(Prim(Text("x")))
  {
  }
}
