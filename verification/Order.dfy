/** The order in which a map lists its keys does not matter, at any depth. */
module Order {
  import opened Wrappers
  import opened GoValue
  import opened Filters
  import opened Redaction
  import opened Paths
  import opened PartialMeaning

  /** The same Go value: maps may list their entries in different orders, at every level. */
  ghost predicate SameValue(v: Value, w: Value)
    decreases v
  {
    match (v, w)
    case (Ptr(x), Ptr(y)) => SameValue(x, y)
    case (Iface(x), Iface(y)) => SameValue(x, y)
    case (Slice(xs), Slice(ys)) => |xs| == |ys| && forall i :: 0 <= i < |xs| ==> SameValue(xs[i], ys[i])
    case (Struct(t, fs), Struct(u, gs)) =>
      && t == u && |fs| == |gs|
      && forall i :: 0 <= i < |fs| ==> SameHeader(fs[i], gs[i]) && SameValue(fs[i].val, gs[i].val)
    case (Map(t, es), Map(u, ds)) =>
      && t == u && |es| == |ds| && EntryKeys(es) == EntryKeys(ds)
      && forall i :: 0 <= i < |es| ==> Listed(es[i], ds)
    case _ => v == w
  }

  /** The entry is listed, with the same value, somewhere among the others. */
  ghost predicate Listed(x: Entry, ds: seq<Entry>)
    decreases x
  {
    exists d <- ds :: x.key == d.key && SameValue(x.val, d.val)
  }

  ghost function EntryKeys(es: seq<Entry>): set<Key> {
    set x <- es :: x.key
  }

  predicate SameHeader(f: Field, g: Field) {
    f.name == g.name && f.tag == g.tag && f.exported == g.exported
  }

  ghost predicate SameOut(o: Out, p: Out)
    decreases o
  {
    match (o, p)
    case (Raw(v), Raw(w)) => SameValue(v, w)
    case (Obj(a), Obj(b)) => a.Keys == b.Keys && forall k <- a.Keys :: SameOut(a[k], b[k])
    case (Arr(s), Arr(t)) => |s| == |t| && forall i :: 0 <= i < |s| ==> SameOut(s[i], t[i])
    case _ => o == p
  }

  /** fmt prints maps in key order, so that printing the same value twice gives the same text. */
  ghost predicate PrintsByKey(e: Env) {
    forall v, w :: SameValue(v, w) ==> e.sprint(v) == e.sprint(w)
  }

  /** A custom mode must not look at the order of entries either. */
  ghost predicate OrderBlind(mode: Mode) {
    mode.Custom? ==> forall n, m :: SameValue(n, m) ==> SameOut(mode.f(n), mode.f(m))
  }

  ghost predicate AllOrderBlind(r: Index) {
    forall f <- r.structs + r.structFields + r.general :: OrderBlind(f.mode)
  }

  lemma {:induction false} SameValueReflexive(v: Value)
    ensures SameValue(v, v)
  {
    match v
    case Ptr(x) => SameValueReflexive(x);
    case Iface(x) => SameValueReflexive(x);
    case Slice(xs) => forall i | 0 <= i < |xs| ensures SameValue(xs[i], xs[i]) { SameValueReflexive(xs[i]); }
    case Struct(_, fs) => forall i | 0 <= i < |fs| ensures SameValue(fs[i].val, fs[i].val) { SameValueReflexive(fs[i].val); }
    case Map(_, es) => forall i | 0 <= i < |es| ensures Listed(es[i], es) {
        SameValueReflexive(es[i].val);
        assert es[i] in es;
      }
    case _ =>
  }

  lemma {:induction false} SameOutReflexive(o: Out)
    ensures SameOut(o, o)
  {
    match o
    case Raw(v) => SameValueReflexive(v);
    case Obj(m) => forall k <- m.Keys ensures SameOut(m[k], m[k]) { SameOutReflexive(m[k]); }
    case Arr(s) => forall i | 0 <= i < |s| { SameOutReflexive(s[i]); }
    case _ =>
  }

  lemma {:induction false} SamePeel(v: Value, w: Value)
    requires SameValue(v, w)
    ensures match (Peel(v), Peel(w)) {
              case (Gone(a), Gone(b)) => a == b
              case (Node(n), Node(m)) => SameValue(n, m)
              case _ => false
            }
  {
    if v.Iface? {
      SamePeel(v.elem, w.elem);
    } else if v.Ptr? && v.to.Iface? {
      SamePeel(v.to.elem, w.to.elem);
    }
  }

  /** The children of two records pair up by key. */
  ghost predicate PairedByKey(cs: seq<Child>, ds: seq<Child>) {
    && KeysOf(cs) == KeysOf(ds)
    && forall c <- cs, d <- ds :: c.key == d.key ==> SameValue(c.val, d.val)
  }

  lemma SameChild(cs: seq<Child>, c: Child, d: Child)
    requires DistinctKeys(cs) && c in cs && d in cs && c.key == d.key
    ensures c == d
  {
    var i :| 0 <= i < |cs| && cs[i] == c;
    var j :| 0 <= j < |cs| && cs[j] == d;
  }

  /** Each child of the one record has its counterpart in the other. */
  lemma PairFrom(cs: seq<Child>, ds: seq<Child>)
    requires DistinctKeys(ds)
    requires forall c <- cs :: exists d <- ds :: c.key == d.key && SameValue(c.val, d.val)
    requires forall d <- ds :: d.key in KeysOf(cs)
    ensures PairedByKey(cs, ds)
  {
    forall c <- cs, d <- ds | c.key == d.key ensures SameValue(c.val, d.val) {
      var d' :| d' in ds && c.key == d'.key && SameValue(c.val, d'.val);
      SameChild(ds, d, d');
    }
    forall k ensures k in KeysOf(cs) <==> k in KeysOf(ds) {
      if k in KeysOf(cs) {
        var c :| c in cs && c.key == k;
        var d :| d in ds && c.key == d.key && SameValue(c.val, d.val);
      }
    }
  }

  lemma StructChildren(e: Env, n: Value, m: Value)
    requires n.Struct? && SameValue(n, m) && DistinctKeys(Children(e, m))
    ensures PairedByKey(Children(e, n), Children(e, m))
  {
    var cs, ds := Children(e, n), Children(e, m);
    ExportedFieldsExact(n.fields);
    ExportedFieldsExact(m.fields);
    forall c <- cs ensures exists d <- ds :: c.key == d.key && SameValue(c.val, d.val) {
      var f :| f in n.fields && f.exported && c == Child(FieldKey(f), f.val);
      var i :| 0 <= i < |n.fields| && n.fields[i] == f;
      var g := m.fields[i];
      assert g in m.fields && Child(FieldKey(g), g.val) in ds;
    }
    forall d <- ds ensures d.key in KeysOf(cs) {
      var g :| g in m.fields && g.exported && d == Child(FieldKey(g), g.val);
      var i :| 0 <= i < |m.fields| && m.fields[i] == g;
      var f := n.fields[i];
      assert f in n.fields && Child(FieldKey(f), f.val) in cs;
    }
    PairFrom(cs, ds);
  }

  lemma MapForward(e: Env, n: Value, m: Value)
    requires n.Map? && SameValue(n, m)
    ensures forall c <- Children(e, n) :: exists d <- Children(e, m) :: c.key == d.key && SameValue(c.val, d.val)
  {
    var cs, ds := Children(e, n), Children(e, m);
    forall c <- cs ensures exists d <- ds :: c.key == d.key && SameValue(c.val, d.val) {
      var i :| 0 <= i < |cs| && cs[i] == c;
      assert Listed(n.entries[i], m.entries);
      var j := IndexOfTwin(n.entries[i], m.entries);
      assert ds[j] in ds;
    }
  }

  lemma MapChildren(e: Env, n: Value, m: Value)
    requires n.Map? && SameValue(n, m) && DistinctKeys(Children(e, m))
    ensures PairedByKey(Children(e, n), Children(e, m))
  {
    var cs, ds := Children(e, n), Children(e, m);
    MapForward(e, n, m);
    forall d <- ds ensures d.key in KeysOf(cs) {
      var j :| 0 <= j < |ds| && ds[j] == d;
      var i := IndexOfKey(n.entries, m.entries, j);
      assert cs[i] in cs;
    }
    PairFrom(cs, ds);
  }

  lemma IndexOfTwin(x: Entry, ds: seq<Entry>) returns (j: nat)
    requires Listed(x, ds)
    ensures j < |ds| && x.key == ds[j].key && SameValue(x.val, ds[j].val)
  {
    var d :| d in ds && x.key == d.key && SameValue(x.val, d.val);
    j :| 0 <= j < |ds| && ds[j] == d;
  }

  lemma IndexOfKey(es: seq<Entry>, ds: seq<Entry>, j: nat) returns (i: nat)
    requires EntryKeys(es) == EntryKeys(ds) && j < |ds|
    ensures i < |es| && es[i].key == ds[j].key
  {
    assert ds[j] in ds && ds[j].key in EntryKeys(es);
    var x :| x in es && x.key == ds[j].key;
    i :| 0 <= i < |es| && es[i] == x;
  }

  lemma RecordChildren(e: Env, n: Value, m: Value)
    requires IsRecord(n) && SameValue(n, m) && DistinctKeys(Children(e, m))
    ensures IsRecord(m) && n.ty == m.ty && PairedByKey(Children(e, n), Children(e, m))
  {
    if n.Struct? { StructChildren(e, n, m); } else { MapChildren(e, n, m); }
  }

  /** Reordering is among the things PartialRedact hides. */
  lemma {:induction false} SameIsVisiblySame(e: Env, v: Value, w: Value)
    requires PrintsByKey(e) && SameValue(v, w) && Distinct(e, v) && Distinct(e, w)
    ensures SameVisible(e, v, w)
    decreases v
  {
    SamePeel(v, w);
    if Peel(v).Node? {
      var n, m := Peel(v).n, Peel(w).n;
      if IsRecord(n) {
        RecordChildren(e, n, m);
        forall c <- Children(e, n), d <- Children(e, m) | c.key == d.key ensures SameVisible(e, c.val, d.val) {
          SameIsVisiblySame(e, c.val, d.val);
        }
      } else if n.Slice? {
        forall i | 0 <= i < |n.elems| ensures SameVisible(e, n.elems[i], m.elems[i]) {
          SameIsVisiblySame(e, n.elems[i], m.elems[i]);
        }
      }
    }
  }

  /** PartialRedact gives the same output for every order in which maps list their keys. */
  lemma PartialRedactOrderFree(e: Env, v: Value, w: Value)
    requires PrintsByKey(e) && SameValue(v, w) && Distinct(e, v) && Distinct(e, w)
    ensures PartialRedact(e, v) == PartialRedact(e, w)
  {
    SameIsVisiblySame(e, v, w);
    PartialRedactLeak(e, v, w);
  }

  // ---- Redact ----

  lemma {:induction false} HitComesFromFilter(e: Env, fs: seq<Filter>, ty: Option<GoType>, key: string)
    requires FirstHit(e, fs, ty, key).Some?
    ensures exists f <- fs :: f.mode == FirstHit(e, fs, ty, key).value
  {
    if !FieldHit(e, fs[0], ty, key) {
      HitComesFromFilter(e, fs[1..], ty, key);
    }
  }

  lemma {:induction false} TypeComesFromFilter(fs: seq<Filter>, ty: GoType)
    requires FirstOfType(fs, ty).Some?
    ensures exists f <- fs :: f.mode == FirstOfType(fs, ty).value
  {
    if fs[0].ty != Some(ty) {
      TypeComesFromFilter(fs[1..], ty);
    }
  }

  lemma SelectedOrderBlind(e: Env, r: Index, at: Place, n: Value)
    requires AllOrderBlind(r) && Selected(e, r, at, n).Some?
    ensures OrderBlind(Selected(e, r, at, n).value)
  {
    if n.Struct? {
      TypeComesFromFilter(r.structs, n.ty);
    } else if at.ty.Some? && FirstHit(e, r.structFields, at.ty, at.key).Some? {
      HitComesFromFilter(e, r.structFields, at.ty, at.key);
    } else {
      HitComesFromFilter(e, r.general, None, at.key);
    }
  }

  /** Matching ignores the order, and what replaces a match is the same up to the order. */
  ghost predicate MatchesOrderFree(e: Env, g: Matcher) {
    forall at, n, m :: SameValue(n, m) && Distinct(e, n) && Distinct(e, m) ==> SameMatch(g(at, n), g(at, m))
  }

  ghost predicate SameMatch(a: Option<Out>, b: Option<Out>) {
    if a.None? then b.None? else b.Some? && SameOut(a.value, b.value)
  }

  lemma FilteringOrderFree(e: Env, r: Index)
    requires PrintsByKey(e) && AllOrderBlind(r)
    ensures MatchesOrderFree(e, Filtering(e, r))
  {
    var g := Filtering(e, r);
    forall at, n, m | SameValue(n, m) && Distinct(e, n) && Distinct(e, m) ensures SameMatch(g(at, n), g(at, m)) {
      var mode := Selected(e, r, at, n);
      assert Selected(e, r, at, m) == mode;
      if mode.Some? {
        SelectedOrderBlind(e, r, at, n);
        match mode.value
        case Full =>
        case Partial =>
          PartialRedactOrderFree(e, n, m);
          SameOutReflexive(PartialRedact(e, n));
        case Custom(h) =>
      }
    }
  }

  lemma {:induction false} SameResult(e: Env, g: Matcher, f: Rewriter, at: Place, v: Value, w: Value)
    requires Lawful(e, g, f) && MatchesOrderFree(e, g)
    requires SameValue(v, w) && Distinct(e, v) && Distinct(e, w)
    ensures f(at, v).1 == f(at, w).1 && SameOut(f(at, v).0, f(at, w).0)
    decreases v, 1
  {
    assert OneLevel(e, g, f, at, v) && OneLevel(e, g, f, at, w);
    SamePeel(v, w);
    if Peel(v).Node? {
      var n, m := Peel(v).n, Peel(w).n;
      NodeDistinct(e, v);
      NodeDistinct(e, w);
      assert SameMatch(g(at, n), g(at, m));
      if g(at, n).None? {
        if IsRecord(n) {
          ChildrenResults(e, g, f, n, m);
          RecordResult(e, g, f, at, v, w);
        } else if n.Slice? {
          forall i | 0 <= i < |n.elems|
            ensures f(at, n.elems[i]).1 == f(at, m.elems[i]).1 && SameOut(f(at, n.elems[i]).0, f(at, m.elems[i]).0)
          {
            SameResult(e, g, f, at, n.elems[i], m.elems[i]);
          }
          SliceResult(e, g, f, at, v, w);
        }
      }
    } else {
      SameOutReflexive(f(at, v).0);
    }
  }

  lemma {:induction false} ChildrenResults(e: Env, g: Matcher, f: Rewriter, n: Value, m: Value)
    requires Lawful(e, g, f) && MatchesOrderFree(e, g)
    requires IsRecord(n) && SameValue(n, m) && DistinctKeys(Children(e, m))
    requires (forall c <- Children(e, n) :: Distinct(e, c.val)) && (forall d <- Children(e, m) :: Distinct(e, d.val))
    ensures IsRecord(m) && n.ty == m.ty && ResultsPaired(f, n.ty, Children(e, n), Children(e, m))
    decreases n, 0
  {
    RecordChildren(e, n, m);
    forall c <- Children(e, n), d <- Children(e, m) | c.key == d.key
      ensures var p := Place(Some(n.ty), c.key); f(p, c.val).1 == f(p, d.val).1 && SameOut(f(p, c.val).0, f(p, d.val).0)
    {
      SameResult(e, g, f, Place(Some(n.ty), c.key), c.val, d.val);
    }
  }

  lemma SliceResult(e: Env, g: Matcher, f: Rewriter, at: Place, v: Value, w: Value)
    requires OneLevel(e, g, f, at, v) && OneLevel(e, g, f, at, w) && Peel(v).Node? && Peel(w).Node?
    requires var n, m := Peel(v).n, Peel(w).n;
             && n.Slice? && m.Slice? && g(at, n).None? && g(at, m).None? && SameValue(n, m)
             && forall i :: 0 <= i < |n.elems| ==>
                  f(at, n.elems[i]).1 == f(at, m.elems[i]).1 && SameOut(f(at, n.elems[i]).0, f(at, m.elems[i]).0)
    ensures f(at, v).1 == f(at, w).1 && SameOut(f(at, v).0, f(at, w).0)
  {
  }

  ghost predicate ResultsPaired(f: Rewriter, ty: GoType, cs: seq<Child>, ds: seq<Child>) {
    && KeysOf(cs) == KeysOf(ds)
    && forall c <- cs, d <- ds :: c.key == d.key ==>
         var p := Place(Some(ty), c.key); f(p, c.val).1 == f(p, d.val).1 && SameOut(f(p, c.val).0, f(p, d.val).0)
  }

  lemma RecordFlagsSame(f: Rewriter, ty: GoType, cs: seq<Child>, ds: seq<Child>)
    requires ResultsPaired(f, ty, cs, ds)
    ensures SomeChildHit(f, ty, cs) <==> SomeChildHit(f, ty, ds)
  {
    if SomeChildHit(f, ty, cs) {
      var c :| c in cs && f(Place(Some(ty), c.key), c.val).1;
      assert c.key in KeysOf(ds);
      var d :| d in ds && d.key == c.key;
    }
    if SomeChildHit(f, ty, ds) {
      var d :| d in ds && f(Place(Some(ty), d.key), d.val).1;
      assert d.key in KeysOf(cs);
      var c :| c in cs && d.key == c.key;
    }
  }

  lemma RecordObjectsSame(f: Rewriter, ty: GoType, cs: seq<Child>, ds: seq<Child>, a: map<string, Out>, b: map<string, Out>)
    requires ResultsPaired(f, ty, cs, ds) && HoldsOutputs(f, ty, cs, a) && HoldsOutputs(f, ty, ds, b)
    ensures a.Keys == b.Keys && forall k <- a.Keys :: SameOut(a[k], b[k])
  {
    forall k <- a.Keys ensures SameOut(a[k], b[k]) {
      var c :| c in cs && c.key == k;
      assert k in KeysOf(ds);
      var d :| d in ds && d.key == k;
    }
  }

  lemma RecordResult(e: Env, g: Matcher, f: Rewriter, at: Place, v: Value, w: Value)
    requires OneLevel(e, g, f, at, v) && OneLevel(e, g, f, at, w) && Peel(v).Node? && Peel(w).Node?
    requires var n, m := Peel(v).n, Peel(w).n;
             && IsRecord(n) && IsRecord(m) && n.ty == m.ty && g(at, n).None? && g(at, m).None? && SameValue(n, m)
             && ResultsPaired(f, n.ty, Children(e, n), Children(e, m))
    ensures f(at, v).1 == f(at, w).1 && SameOut(f(at, v).0, f(at, w).0)
  {
    var n, m := Peel(v).n, Peel(w).n;
    var cs, ds := Children(e, n), Children(e, m);
    RecordFlagsSame(f, n.ty, cs, ds);
    if f(at, v).1 {
      RecordObjectsSame(f, n.ty, cs, ds, f(at, v).0.m, f(at, w).0.m);
    }
  }

  /** Redact gives the same flag and the same output for every order in which the maps of its input
      list their keys, at every depth. */
  lemma RedactOrderFree(e: Env, r: Index, at: Place, v: Value, w: Value)
    requires PrintsByKey(e) && AllOrderBlind(r)
    requires SameValue(v, w) && Distinct(e, v) && Distinct(e, w)
    ensures Redact(e, r, at, v).1 == Redact(e, r, at, w).1
    ensures SameOut(Redact(e, r, at, v).0, Redact(e, r, at, w).0)
  {
    RedactIsLawful(e, r);
    FilteringOrderFree(e, r);
    var f := Redactor(e, r);
    SameResult(e, Filtering(e, r), f, at, v, w);
    assert f(at, v) == Redact(e, r, at, v) && f(at, w) == Redact(e, r, at, w);
  }
}
