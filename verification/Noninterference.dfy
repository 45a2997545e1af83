/** What Redact hides: inputs that differ only below matches, in what the matching mode drops, give the
    same output and the same flag. */
module Noninterference {
  import opened Wrappers
  import opened GoValue
  import opened Filters
  import opened Redaction
  import opened Paths
  import opened PartialMeaning

  /** Two nodes at one place that the same filter replaces by the same thing. FullRedact hides
      everything, PartialRedact what is not visible. */
  ghost predicate ReplacedAlike(e: Env, r: Index, at: Place, n: Value, m: Value) {
    var mode := Selected(e, r, at, n);
    && mode.Some? && Selected(e, r, at, m) == mode
    && match mode.value {
         case Full => true
         case Partial => SameVisible(e, n, m)
         case Custom(f) => f(n) == f(m)
       }
  }

  /** The pointers and interfaces around a value's node, outermost first. */
  function Layers(v: Value): seq<bool> {
    if v.Iface? then [false] + Layers(v.elem)
    else if v.Ptr? && v.to.Iface? then [true, false] + Layers(v.to.elem)
    else if v.Ptr? then [true]
    else []
  }

  /** Field by field: the same names, tags and visibility, and the same unexported values. */
  ghost predicate SameFields(fs: seq<Field>, gs: seq<Field>) {
    && |fs| == |gs|
    && forall i :: 0 <= i < |fs| ==>
         && fs[i].name == gs[i].name && fs[i].tag == gs[i].tag && fs[i].exported == gs[i].exported
         && (!fs[i].exported ==> fs[i].val == gs[i].val)
  }

  /** Two containers that agree on everything but the values their rendered children hold. */
  ghost predicate SameFrame(n: Value, m: Value) {
    match (n, m)
    case (Struct(t, fs), Struct(u, gs)) => t == u && SameFields(fs, gs)
    case (Map(t, es), Map(u, ds)) => t == u && |es| == |ds| && forall i :: 0 <= i < |es| ==> es[i].key == ds[i].key
    case (Slice(xs), Slice(ys)) => |xs| == |ys|
    case _ => false
  }

  /** Two inputs that agree everywhere except below first matches. */
  ghost predicate Agree(e: Env, r: Index, at: Place, v: Value, w: Value)
    decreases v
  {
    || v == w
    || match (Peel(v), Peel(w)) {
         case (Node(n), Node(m)) =>
           if Selected(e, r, at, n).Some? || Selected(e, r, at, m).Some? then ReplacedAlike(e, r, at, n, m)
           else
             && Layers(v) == Layers(w) && SameFrame(n, m)
             && if n.Slice? then forall i :: 0 <= i < |n.elems| ==> Agree(e, r, at, n.elems[i], m.elems[i])
                else
                  var cs, ds := Children(e, n), Children(e, m);
                  |cs| == |ds| && forall i :: 0 <= i < |cs| ==> Agree(e, r, Place(Some(n.ty), cs[i].key), cs[i].val, ds[i].val)
         case _ => false
       }
  }

  lemma {:induction false} LayersDetermine(v: Value, w: Value)
    requires Layers(v) == Layers(w) && Peel(v).Node? && Peel(v) == Peel(w)
    ensures v == w
  {
    if v.Iface? {
      assert !Layers(w)[0] && w.Iface?;
      assert Layers(v)[1..] == Layers(v.elem) && Layers(w)[1..] == Layers(w.elem);
      LayersDetermine(v.elem, w.elem);
      assert v == w;
    } else if v.Ptr? && v.to.Iface? {
      assert |Layers(w)| > 1 && Layers(w)[0];
      assert Layers(v)[2..] == Layers(v.to.elem) && Layers(w)[2..] == Layers(w.to.elem);
      LayersDetermine(v.to.elem, w.to.elem);
      assert v.to == Iface(v.to.elem) && w.to == Iface(w.to.elem);
    } else if v.Ptr? {
      assert |Layers(w)| == 1 && Layers(w)[0] && w.Ptr?;
    }
  }

  lemma {:induction false} ExportedAgree(fs: seq<Field>, gs: seq<Field>)
    requires SameFields(fs, gs)
    ensures var cs, ds := ExportedFields(fs), ExportedFields(gs);
            && |cs| == |ds| && (forall i :: 0 <= i < |cs| ==> cs[i].key == ds[i].key)
            && (cs == ds ==> fs == gs)
  {
    if fs != [] {
      var k := |fs| - 1;
      ExportedAgree(fs[..k], gs[..k]);
      LastField(ExportedFields(fs[..k]), ExportedFields(gs[..k]), fs[k], gs[k]);
      assert fs == fs[..k] + [fs[k]] && gs == gs[..k] + [gs[k]];
    }
  }

  lemma LastField(cs: seq<Child>, ds: seq<Child>, f: Field, g: Field)
    requires |cs| == |ds| && forall i :: 0 <= i < |cs| ==> cs[i].key == ds[i].key
    requires f.name == g.name && f.tag == g.tag && f.exported == g.exported && (!f.exported ==> f.val == g.val)
    ensures var xs := cs + if f.exported then [Child(FieldKey(f), f.val)] else [];
            var ys := ds + if g.exported then [Child(FieldKey(g), g.val)] else [];
            && |xs| == |ys| && (forall i :: 0 <= i < |xs| ==> xs[i].key == ys[i].key)
            && (xs == ys ==> cs == ds && f == g)
  {
    if f.exported {
      var xs, ys := cs + [Child(FieldKey(f), f.val)], ds + [Child(FieldKey(g), g.val)];
      assert FieldKey(f) == FieldKey(g);
      if xs == ys {
        assert cs == xs[..|cs|] && ds == ys[..|ds|];
        assert xs[|cs|].val == ys[|ds|].val;
      }
    } else {
      assert cs + [] == cs && ds + [] == ds;
    }
  }

  /** A frame fixes the rendered keys, and with the children the whole container. */
  lemma FrameChildren(e: Env, n: Value, m: Value)
    requires SameFrame(n, m) && !n.Slice?
    ensures var cs, ds := Children(e, n), Children(e, m);
            && |cs| == |ds| && (forall i :: 0 <= i < |cs| ==> cs[i].key == ds[i].key)
            && (cs == ds ==> n == m)
  {
    if n.Struct? {
      ExportedAgree(n.fields, m.fields);
    } else {
      var cs, ds := Children(e, n), Children(e, m);
      if cs == ds {
        forall i | 0 <= i < |n.entries| ensures n.entries[i] == m.entries[i] {
          assert cs[i].val == ds[i].val;
        }
      }
    }
  }

  /** Rendered keys are distinct at every node that is looked into: not below a match that hides or
      replaces it as a whole. */
  ghost predicate Separate(e: Env, r: Index, at: Place, v: Value)
    decreases v
  {
    match Peel(v)
    case Gone(_) => true
    case Node(n) =>
      var mode := Selected(e, r, at, n);
      if mode.Some? then mode.value.Partial? ==> Distinct(e, n)
      else if n.Struct? || n.Map? then
        && DistinctKeys(Children(e, n))
        && forall c <- Children(e, n) :: Separate(e, r, Place(Some(n.ty), c.key), c.val)
      else n.Slice? ==> forall i :: 0 <= i < |n.elems| ==> Separate(e, r, at, n.elems[i])
  }

  /** Distinct keys everywhere are more than that. */
  lemma {:induction false} DistinctIsSeparate(e: Env, r: Index, at: Place, v: Value)
    requires Distinct(e, v)
    ensures Separate(e, r, at, v)
    decreases v
  {
    if Peel(v).Node? {
      var n := Peel(v).n;
      NodeDistinct(e, v);
      if n.Struct? || n.Map? {
        forall c <- Children(e, n) ensures Separate(e, r, Place(Some(n.ty), c.key), c.val) {
          DistinctIsSeparate(e, r, Place(Some(n.ty), c.key), c.val);
        }
      } else if n.Slice? {
        forall i | 0 <= i < |n.elems| ensures Separate(e, r, at, n.elems[i]) {
          DistinctIsSeparate(e, r, at, n.elems[i]);
        }
      }
    }
  }

  ghost predicate SeparatelyLawful(e: Env, r: Index, f: Rewriter) {
    forall at, v :: Separate(e, r, at, v) ==> OneLevel(e, Filtering(e, r), f, at, v)
  }

  lemma RedactIsSeparatelyLawful(e: Env, r: Index)
    ensures SeparatelyLawful(e, r, Redactor(e, r))
  {
    forall at: Place, v | Separate(e, r, at, v) ensures OneLevel(e, Filtering(e, r), Redactor(e, r), at, v) {
      RedactOneLevel(e, r, Redactor(e, r), at, v);
    }
  }

  lemma ReplacementsEqual(e: Env, r: Index, at: Place, n: Value, m: Value)
    requires ReplacedAlike(e, r, at, n, m)
    requires Selected(e, r, at, n).value.Partial? ==> Distinct(e, n) && Distinct(e, m)
    ensures Filtering(e, r)(at, n) == Filtering(e, r)(at, m)
  {
    if Selected(e, r, at, n).value.Partial? {
      PartialRedactLeak(e, n, m);
    }
  }

  lemma {:induction false} SameOutcome(e: Env, r: Index, f: Rewriter, at: Place, v: Value, w: Value)
    requires SeparatelyLawful(e, r, f) && Separate(e, r, at, v) && Separate(e, r, at, w) && Agree(e, r, at, v, w)
    ensures f(at, v) == f(at, w) && (!f(at, v).1 ==> v == w)
    decreases v
  {
    var g := Filtering(e, r);
    assert OneLevel(e, g, f, at, v) && OneLevel(e, g, f, at, w);
    if v != w {
      var n, m := Peel(v).n, Peel(w).n;
      if Selected(e, r, at, n).Some? || Selected(e, r, at, m).Some? {
        ReplacementsEqual(e, r, at, n, m);
      } else if n.Slice? {
        forall i | 0 <= i < |n.elems|
          ensures f(at, n.elems[i]) == f(at, m.elems[i]) && (!f(at, n.elems[i]).1 ==> n.elems[i] == m.elems[i])
        {
          SameOutcome(e, r, f, at, n.elems[i], m.elems[i]);
        }
        SliceOutcome(f, at, n.elems, m.elems);
        if f(at, v).1 {
          assert f(at, v).0.s == f(at, w).0.s;
        } else {
          LayersDetermine(v, w);
        }
      } else {
        var cs, ds := Children(e, n), Children(e, m);
        FrameChildren(e, n, m);
        forall i | 0 <= i < |cs|
          ensures var p := Place(Some(n.ty), cs[i].key);
                  f(p, cs[i].val) == f(p, ds[i].val) && (!f(p, cs[i].val).1 ==> cs[i].val == ds[i].val)
        {
          assert cs[i] in cs && ds[i] in ds;
          SameOutcome(e, r, f, Place(Some(n.ty), cs[i].key), cs[i].val, ds[i].val);
        }
        RecordOutcome(e, r, f, at, v, w);
      }
    }
  }

  lemma RecordOutcome(e: Env, r: Index, f: Rewriter, at: Place, v: Value, w: Value)
    requires OneLevel(e, Filtering(e, r), f, at, v) && OneLevel(e, Filtering(e, r), f, at, w)
    requires Peel(v).Node? && Peel(w).Node? && Layers(v) == Layers(w)
    requires var n, m := Peel(v).n, Peel(w).n;
             && SameFrame(n, m) && !n.Slice? && DistinctKeys(Children(e, m))
             && Selected(e, r, at, n).None? && Selected(e, r, at, m).None?
             && SameResults(f, n.ty, Children(e, n), Children(e, m))
    ensures f(at, v) == f(at, w) && (!f(at, v).1 ==> v == w)
  {
    var n, m := Peel(v).n, Peel(w).n;
    var cs, ds := Children(e, n), Children(e, m);
    RecordFlags(f, n.ty, cs, ds);
    if f(at, v).1 {
      RecordObjects(f, n.ty, cs, ds, f(at, v).0.m, f(at, w).0.m);
    } else {
      FrameChildren(e, n, m);
      LayersDetermine(v, w);
    }
  }

  lemma SliceOutcome(f: Rewriter, at: Place, xs: seq<Value>, ys: seq<Value>)
    requires |xs| == |ys|
    requires forall i :: 0 <= i < |xs| ==> f(at, xs[i]) == f(at, ys[i]) && (!f(at, xs[i]).1 ==> xs[i] == ys[i])
    ensures SomeElemHit(f, at, xs) <==> SomeElemHit(f, at, ys)
    ensures !SomeElemHit(f, at, xs) ==> xs == ys
  {
  }

  /** The children of two records agree in keys and results, and are the same where nothing was redacted. */
  ghost predicate SameResults(f: Rewriter, ty: GoType, cs: seq<Child>, ds: seq<Child>) {
    && |cs| == |ds|
    && forall i :: 0 <= i < |cs| ==>
         && cs[i].key == ds[i].key
         && var p := Place(Some(ty), cs[i].key); f(p, cs[i].val) == f(p, ds[i].val) && (!f(p, cs[i].val).1 ==> cs[i].val == ds[i].val)
  }

  lemma RecordFlags(f: Rewriter, ty: GoType, cs: seq<Child>, ds: seq<Child>)
    requires SameResults(f, ty, cs, ds)
    ensures SomeChildHit(f, ty, cs) <==> SomeChildHit(f, ty, ds)
    ensures !SomeChildHit(f, ty, cs) ==> cs == ds
  {
    forall i | 0 <= i < |cs| ensures f(Place(Some(ty), cs[i].key), cs[i].val).1 ==> SomeChildHit(f, ty, cs) && SomeChildHit(f, ty, ds) {
      assert cs[i] in cs && ds[i] in ds;
    }
    if SomeChildHit(f, ty, ds) {
      var d :| d in ds && f(Place(Some(ty), d.key), d.val).1;
      var i :| 0 <= i < |ds| && ds[i] == d;
    }
    if SomeChildHit(f, ty, cs) {
      var c :| c in cs && f(Place(Some(ty), c.key), c.val).1;
      var i :| 0 <= i < |cs| && cs[i] == c;
    }
  }

  lemma RecordObjects(f: Rewriter, ty: GoType, cs: seq<Child>, ds: seq<Child>, a: map<string, Out>, b: map<string, Out>)
    requires SameResults(f, ty, cs, ds) && DistinctKeys(ds) && HoldsOutputs(f, ty, cs, a) && HoldsOutputs(f, ty, ds, b)
    ensures a == b
  {
    var out := (c: Child) => f(Place(Some(ty), c.key), c.val).0;
    SameKeys(cs, ds);
    forall c <- cs, d <- ds | c.key == d.key ensures out(c) == out(d) {
      var i :| 0 <= i < |cs| && cs[i] == c;
      var j :| 0 <= j < |ds| && ds[j] == d;
      assert i == j;
    }
    ObjectsEqual(out, cs, a, out, ds, b);
  }

  lemma SameKeys(cs: seq<Child>, ds: seq<Child>)
    requires |cs| == |ds| && forall i :: 0 <= i < |cs| ==> cs[i].key == ds[i].key
    ensures KeysOf(cs) == KeysOf(ds)
  {
    forall c <- cs ensures c.key in KeysOf(ds) {
      var i :| 0 <= i < |cs| && cs[i] == c;
      assert ds[i] in ds;
    }
    forall d <- ds ensures d.key in KeysOf(cs) {
      var i :| 0 <= i < |ds| && ds[i] == d;
      assert cs[i] in cs;
    }
  }

  /** Redact does not depend on what lies hidden below its matches, not even on whether keys are distinct
      there. */
  lemma RedactNoninterference(e: Env, r: Index, at: Place, v: Value, w: Value)
    requires Separate(e, r, at, v) && Separate(e, r, at, w) && Agree(e, r, at, v, w)
    ensures Redact(e, r, at, v) == Redact(e, r, at, w)
  {
    RedactIsSeparatelyLawful(e, r);
    var f := Redactor(e, r);
    SameOutcome(e, r, f, at, v, w);
    assert f(at, v) == Redact(e, r, at, v) && f(at, w) == Redact(e, r, at, w);
  }
}
