/** Paths into values and into outputs, and what Redact leaves at every path. */
module Paths {
  import opened Wrappers
  import opened GoValue
  import opened Filters
  import opened Redaction

  /** What is left of a value once its outer pointer and interfaces are removed the way the redactor
      removes them: nothing to look into, or a node. A pointer behind a pointer is itself a node. */
  datatype Peeled = Gone(out: Out) | Node(n: Value)

  function Peel(v: Value): (p: Peeled)
    ensures p.Node? ==> !p.n.Iface? && (p.n == v || p.n < v)
    ensures p.Gone? ==> p.out == Nil || (p.out.Raw? && p.out.v.NilPtr?)
  {
    if v.Invalid? then Gone(Nil)
    else if v.NilPtr? then Gone(Raw(v))
    else
      var n := Indirect(v);
      if n.Iface? then Peel(n.elem) else Node(n)
  }

  datatype Step = Key(k: string) | At(i: nat)

  /** The value last stored under a key. */
  function FindKey(cs: seq<Child>, k: string): (r: Option<Value>)
    ensures r.Some? ==> Child(k, r.value) in cs
    ensures r.None? <==> forall c <- cs :: c.key != k
  {
    if cs == [] then None
    else if cs[|cs| - 1].key == k then Some(cs[|cs| - 1].val)
    else
      assert forall c <- cs :: c == cs[|cs| - 1] || c in cs[..|cs| - 1];
      FindKey(cs[..|cs| - 1], k)
  }

  /** One step down from a node reached at a place. */
  function ChildAt(e: Env, at: Place, n: Value, s: Step): (r: Option<(Place, Value)>)
    ensures r.Some? ==> r.value.1 < n
  {
    if (n.Struct? || n.Map?) && s.Key? then
      var w := FindKey(Children(e, n), s.k);
      if w.Some? then Some((Place(Some(n.ty), s.k), w.value)) else None
    else if n.Slice? && s.At? && s.i < |n.elems| then Some((at, n.elems[s.i]))
    else None
  }

  datatype Located = Located(at: Place, node: Peeled)

  /** The node at a path of a value, with the place it is reached at. */
  function Visit(e: Env, at: Place, v: Value, p: seq<Step>): Option<Located>
    decreases |p|
  {
    if p == [] then Some(Located(at, Peel(v)))
    else
      match Peel(v)
      case Gone(_) => None
      case Node(n) =>
        var c := ChildAt(e, at, n, p[0]);
        if c.None? then None else Visit(e, c.value.0, c.value.1, p[1..])
  }

  /** What an output holds at a path. An untouched value is entered through its rendered keys. */
  function OutAt(e: Env, o: Out, p: seq<Step>): Option<Out>
    decreases |p|
  {
    if p == [] then Some(o)
    else
      match o
      case Obj(m) => if p[0].Key? && p[0].k in m then OutAt(e, m[p[0].k], p[1..]) else None
      case Arr(s) => if p[0].At? && p[0].i < |s| then OutAt(e, s[p[0].i], p[1..]) else None
      case Raw(n) =>
        var c := ChildAt(e, ROOT, n, p[0]);
        if c.None? then None else OutAt(e, Untouched(Peel(c.value.1)), p[1..])
      case _ => None
  }

  /** The output for a value in which nothing is redacted. */
  function Untouched(p: Peeled): Out {
    match p
    case Gone(o) => o
    case Node(n) => Raw(n)
  }

  /** Rendered keys are distinct at every node. */
  ghost predicate Distinct(e: Env, v: Value) {
    match Peel(v)
    case Gone(_) => true
    case Node(n) =>
      if n.Struct? || n.Map? then
        DistinctKeys(Children(e, n)) && forall c <- Children(e, n) :: Distinct(e, c.val)
      else if n.Ptr? then Distinct(e, n)
      else n.Slice? ==> forall i :: 0 <= i < |n.elems| ==> Distinct(e, n.elems[i])
  }

  lemma NodeDistinct(e: Env, v: Value)
    requires Distinct(e, v) && Peel(v).Node?
    ensures Distinct(e, Peel(v).n)
  {
    var n := Peel(v).n;
    if !n.Ptr? && !n.Invalid? && !n.NilPtr? {
      assert Peel(n) == Node(n);
    }
  }

  function KeysOf(cs: seq<Child>): (ks: set<string>)
    ensures forall c <- cs :: c.key in ks
    ensures forall k <- ks :: exists c <- cs :: c.key == k
  {
    set c <- cs :: c.key
  }

  ghost predicate DistinctKeys(cs: seq<Child>) {
    forall i, j :: 0 <= i < j < |cs| ==> cs[i].key != cs[j].key
  }

  /** What replaces a node reached at a place, if a filter matches it. */
  type Matcher = (Place, Value) -> Option<Out>

  function Filtering(e: Env, r: Index): (g: Matcher)
    ensures forall at, n :: g(at, n) == match Selected(e, r, at, n) { case None => None case Some(mode) => Some(Apply(e, mode, n)) }
  {
    (at: Place, n: Value) => match Selected(e, r, at, n) { case None => None case Some(mode) => Some(Apply(e, mode, n)) }
  }

  /** The node at the path is matched. */
  predicate Matched(e: Env, g: Matcher, at: Place, v: Value, p: seq<Step>) {
    var l := Visit(e, at, v, p);
    l.Some? && l.value.node.Node? && g(l.value.at, l.value.node.n).Some?
  }

  /** What replaces the node at a path. */
  function Replacement(e: Env, g: Matcher, at: Place, v: Value, p: seq<Step>): Out
    requires Matched(e, g, at, v, p)
  {
    var l := Visit(e, at, v, p).value;
    g(l.at, l.node.n).value
  }

  /** The path leads to a match and passes no earlier one. */
  ghost predicate FirstMatched(e: Env, g: Matcher, at: Place, v: Value, p: seq<Step>) {
    && Matched(e, g, at, v, p)
    && forall i :: 0 <= i < |p| ==> !Matched(e, g, at, v, p[..i])
  }

  /** No match on the path, its end included. */
  ghost predicate Clear(e: Env, g: Matcher, at: Place, v: Value, p: seq<Step>) {
    forall i :: 0 <= i <= |p| ==> !Matched(e, g, at, v, p[..i])
  }

  // ---- One level of the recursion ----

  /** An output and a flag for every value at every place. The laws below speak of any such function,
      so that proofs about paths need not look into redact again. */
  type Rewriter = (Place, Value) -> (Out, bool)

  /** An object that holds an output for each child, under its key. */
  ghost predicate Holds(out: Child -> Out, cs: seq<Child>, m: map<string, Out>) {
    m.Keys == KeysOf(cs) && forall c <- cs :: m[c.key] == out(c)
  }

  lemma OneMore(out: Child -> Out, init: seq<Child>, last: Child, m: map<string, Out>)
    requires Holds(out, init, m) && DistinctKeys(init + [last])
    ensures Holds(out, init + [last], m[last.key := out(last)])
  {
    var cs := init + [last];
    assert forall c <- cs :: c in init || c == last;
    assert forall c <- init :: c in cs;
    assert last in cs by { assert cs[|init|] == last; }
    forall c <- init ensures c.key != last.key {
      var i :| 0 <= i < |init| && init[i] == c;
      assert cs[i] == c && cs[|init|] == last;
    }
  }

  /** Two objects are equal exactly when their keys agree and the outputs under each agree. */
  lemma ObjectsEqual(out: Child -> Out, cs: seq<Child>, a: map<string, Out>, put: Child -> Out, ds: seq<Child>, b: map<string, Out>)
    requires Holds(out, cs, a) && Holds(put, ds, b)
    ensures a == b <==> KeysOf(cs) == KeysOf(ds) && forall c <- cs, d <- ds :: c.key == d.key ==> out(c) == put(d)
  {
    if KeysOf(cs) == KeysOf(ds) && forall c <- cs, d <- ds :: c.key == d.key ==> out(c) == put(d) {
      forall k | k in a ensures a[k] == b[k] {
        var c :| c in cs && c.key == k;
        assert k in KeysOf(ds);
        var d :| d in ds && d.key == k;
      }
    }
  }

  /** An object holding each child's output under its key. */
  ghost predicate HoldsOutputs(f: Rewriter, ty: GoType, cs: seq<Child>, m: map<string, Out>) {
    && m.Keys == KeysOf(cs)
    && forall c <- cs :: m[c.key] == f(Place(Some(ty), c.key), c.val).0
  }

  ghost predicate SomeChildHit(f: Rewriter, ty: GoType, cs: seq<Child>) {
    exists c <- cs :: f(Place(Some(ty), c.key), c.val).1
  }

  ghost predicate HoldsElems(f: Rewriter, at: Place, elems: seq<Value>, s: seq<Out>) {
    |s| == |elems| && forall i :: 0 <= i < |elems| ==> s[i] == f(at, elems[i]).0
  }

  ghost predicate SomeElemHit(f: Rewriter, at: Place, elems: seq<Value>) {
    exists i :: 0 <= i < |elems| && f(at, elems[i]).1
  }

  /** The law of one level: a match replaces the node; a container without a match is rebuilt child by
      child if something below was redacted; everything else comes back peeled but untouched. */
  ghost predicate OneLevel(e: Env, g: Matcher, f: Rewriter, at: Place, v: Value) {
    var (o, hit) := f(at, v);
    && (!hit ==> o == Untouched(Peel(v)))
    && match Peel(v)
       case Gone(_) => !hit
       case Node(n) =>
         if g(at, n).Some? then hit && o == g(at, n).value
         else if n.Struct? || n.Map? then
           && (hit <==> SomeChildHit(f, n.ty, Children(e, n)))
           && (hit ==> o.Obj? && HoldsOutputs(f, n.ty, Children(e, n), o.m))
         else if n.Slice? then
           && (hit <==> SomeElemHit(f, at, n.elems))
           && (hit ==> o.Arr? && HoldsElems(f, at, n.elems, o.s))
         else !hit
  }

  ghost predicate Lawful(e: Env, g: Matcher, f: Rewriter) {
    forall at, v :: Distinct(e, v) ==> OneLevel(e, g, f, at, v)
  }

  function Redactor(e: Env, r: Index): (f: Rewriter)
    ensures forall at, v :: f(at, v) == Redact(e, r, at, v)
  {
    (at: Place, v: Value) => Redact(e, r, at, v)
  }

  lemma {:induction false} ChildrenRedacted(e: Env, r: Index, f: Rewriter, ty: GoType, v: Value, cs: seq<Child>)
    requires forall c <- cs :: c.val < v && f(Place(Some(ty), c.key), c.val) == Redact(e, r, Place(Some(ty), c.key), c.val)
    requires DistinctKeys(cs)
    ensures HoldsOutputs(f, ty, cs, RedactChildren(e, r, ty, v, cs).0)
    ensures RedactChildren(e, r, ty, v, cs).1 <==> SomeChildHit(f, ty, cs)
  {
    if cs != [] {
      var init, last := cs[..|cs| - 1], cs[|cs| - 1];
      assert cs == init + [last];
      RedactChildrenStep(e, r, ty, v, init, last);
      InitDistinct(init, last);
      ChildrenRedacted(e, r, f, ty, v, init);
      OneMoreChild(f, ty, init, last, RedactChildren(e, r, ty, v, init).0);
    }
  }

  lemma InitDistinct(init: seq<Child>, last: Child)
    requires DistinctKeys(init + [last])
    ensures DistinctKeys(init)
  {
    var cs := init + [last];
    assert forall i :: 0 <= i < |init| ==> cs[i] == init[i];
  }

  lemma OneMoreChild(f: Rewriter, ty: GoType, init: seq<Child>, last: Child, m: map<string, Out>)
    requires HoldsOutputs(f, ty, init, m) && DistinctKeys(init + [last])
    ensures HoldsOutputs(f, ty, init + [last], m[last.key := f(Place(Some(ty), last.key), last.val).0])
    ensures SomeChildHit(f, ty, init + [last]) <==> SomeChildHit(f, ty, init) || f(Place(Some(ty), last.key), last.val).1
  {
    var cs := init + [last];
    assert forall c :: c in cs <==> c in init || c == last;
    OneMore((c: Child) => f(Place(Some(ty), c.key), c.val).0, init, last, m);
  }

  lemma {:induction false} ElemsRedacted(e: Env, r: Index, f: Rewriter, at: Place, v: Value, elems: seq<Value>)
    requires f == Redactor(e, r)
    requires forall i :: 0 <= i < |elems| ==> elems[i] < v
    ensures HoldsElems(f, at, elems, RedactElems(e, r, at, v, elems).0)
    ensures RedactElems(e, r, at, v, elems).1 <==> SomeElemHit(f, at, elems)
  {
    if elems != [] {
      ElemsRedacted(e, r, f, at, v, elems[..|elems| - 1]);
    }
  }

  /** All that one level asks for: distinct keys in a record that no filter matches. */
  ghost predicate DistinctHere(e: Env, r: Index, at: Place, v: Value) {
    Peel(v).Node? ==>
      var n := Peel(v).n;
      (n.Struct? || n.Map?) && Selected(e, r, at, n).None? ==> DistinctKeys(Children(e, n))
  }

  lemma {:induction false} RedactOneLevel(e: Env, r: Index, f: Rewriter, at: Place, v: Value)
    requires f == Redactor(e, r) && DistinctHere(e, r, at, v)
    ensures OneLevel(e, Filtering(e, r), f, at, v)
  {
    if !v.Invalid? && !v.NilPtr? {
      if Indirect(v).Iface? {
        RedactOneLevel(e, r, f, at, Indirect(v).elem);
      } else {
        NodeOneLevel(e, r, f, at, v, Indirect(v));
      }
    }
  }

  lemma {:induction false} NodeOneLevel(e: Env, r: Index, f: Rewriter, at: Place, v: Value, n: Value)
    requires f == Redactor(e, r) && DistinctHere(e, r, at, v)
    requires !v.Invalid? && !v.NilPtr? && n == Indirect(v) && !n.Iface?
    ensures OneLevel(e, Filtering(e, r), f, at, v)
  {
    var res := Redact(e, r, at, v);
    if Selected(e, r, at, n).Some? {
      assert res == (Apply(e, Selected(e, r, at, n).value, n), true);
    } else if n.Struct? || n.Map? {
      var cs := Children(e, n);
      assert res == if RedactChildren(e, r, n.ty, v, cs).1 then (Obj(RedactChildren(e, r, n.ty, v, cs).0), true)
                    else (Raw(n), false);
      ChildrenRedacted(e, r, f, n.ty, v, cs);
    } else if n.Slice? {
      assert res == if RedactElems(e, r, at, v, n.elems).1 then (Arr(RedactElems(e, r, at, v, n.elems).0), true)
                    else (Raw(n), false);
      ElemsRedacted(e, r, f, at, v, n.elems);
    }
  }

  /** redact obeys the law of one level on every value with distinct rendered keys. */
  lemma RedactIsLawful(e: Env, r: Index)
    ensures Lawful(e, Filtering(e, r), Redactor(e, r))
  {
    forall at: Place, v | Distinct(e, v) ensures OneLevel(e, Filtering(e, r), Redactor(e, r), at, v) {
      RedactOneLevel(e, r, Redactor(e, r), at, v);
    }
  }

  lemma DistinctChild(e: Env, at: Place, v: Value, s: Step)
    requires Distinct(e, v) && Peel(v).Node? && ChildAt(e, at, Peel(v).n, s).Some?
    ensures Distinct(e, ChildAt(e, at, Peel(v).n, s).value.1)
  {
    if s.Key? {
      var c := Child(s.k, FindKey(Children(e, Peel(v).n), s.k).value);
      assert c in Children(e, Peel(v).n) && Distinct(e, c.val);
    }
  }

  /** Matches along a path are matches along its tail, seen from the child. */
  lemma MatchedStep(e: Env, g: Matcher, at: Place, v: Value, p: seq<Step>, i: nat)
    requires 0 < i <= |p|
    ensures Matched(e, g, at, v, p[..i]) <==>
            && Peel(v).Node?
            && ChildAt(e, at, Peel(v).n, p[0]).Some?
            && var c := ChildAt(e, at, Peel(v).n, p[0]).value; Matched(e, g, c.0, c.1, p[1..][..i - 1])
  {
    assert p[..i][0] == p[0] && p[..i][1..] == p[1..][..i - 1];
  }

  lemma FirstMatchedStep(e: Env, g: Matcher, at: Place, v: Value, p: seq<Step>)
    requires p != []
    ensures FirstMatched(e, g, at, v, p) <==>
            && !Matched(e, g, at, v, [])
            && Peel(v).Node?
            && ChildAt(e, at, Peel(v).n, p[0]).Some?
            && var c := ChildAt(e, at, Peel(v).n, p[0]).value; FirstMatched(e, g, c.0, c.1, p[1..])
  {
    assert p[..0] == [] && p[..|p|] == p && p[1..][..|p| - 1] == p[1..];
    forall i: nat | 0 < i <= |p| {
      MatchedStep(e, g, at, v, p, i);
    }
    if Peel(v).Node? && ChildAt(e, at, Peel(v).n, p[0]).Some? {
      var c := ChildAt(e, at, Peel(v).n, p[0]).value;
      forall i | 0 <= i < |p| - 1
        ensures Matched(e, g, at, v, p[..i + 1]) <==> Matched(e, g, c.0, c.1, p[1..][..i])
      {
        MatchedStep(e, g, at, v, p, i + 1);
      }
    }
  }
}
