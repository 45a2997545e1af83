/** What PartialRedact reveals: the shape of its output at every path, and exactly which inputs it
    cannot tell apart. */
module PartialMeaning {
  import opened Wrappers
  import opened GoValue
  import opened Redaction
  import opened Paths

  // ---- One string ----

  /** A shortened string is a prefix of thirty percent of the runes, rounded down, followed by a star for
      each of the others, but by no more than five; it keeps the original's length exactly up to seven
      runes. */
  lemma PartialStringShape(s: string)
    ensures var t, k := PartialString(s), |s| * 3 / 10;
            && 10 * k <= 3 * |s| < 10 * (k + 1)
            && |t| == k + (if |s| - k < 5 then |s| - k else 5)
            && t[..k] == s[..k] && (forall i :: k <= i < |t| ==> t[i] == '*')
            && (|t| == |s| <==> |s| <= 7) && (s != "" ==> k < |t|)
  {
    var t, k := PartialString(s), Revealed(|s|);
    assert t[..k] == s[..k];
  }

  /** Two strings with the same number of revealed runes, the same revealed runes and the same number of stars. */
  predicate SameShadow(s: string, t: string) {
    var k := Revealed(|s|);
    Revealed(|t|) == k && StarCount(|s|) == StarCount(|t|) && s[..k] == t[..k]
  }

  /** The length of the output tells how much of it was revealed. */
  lemma LengthTellsRevealed(n: nat, m: nat)
    requires Revealed(n) + StarCount(n) == Revealed(m) + StarCount(m)
    ensures Revealed(n) == Revealed(m) && StarCount(n) == StarCount(m)
  {
    if n < 7 || m < 7 {
    } else {
      assert StarCount(n) == StarCount(m) == 5;
    }
  }

  /** PartialRedact confuses two strings exactly when they have the same shadow; among strings of one
      length that is the same revealed prefix. */
  lemma StringLeak(s: string, t: string)
    ensures PartialString(s) == PartialString(t) <==> SameShadow(s, t)
    ensures |s| == |t| ==> (SameShadow(s, t) <==> s[..Revealed(|s|)] == t[..Revealed(|s|)])
  {
    var k := Revealed(|s|);
    if PartialString(s) == PartialString(t) {
      assert |PartialString(s)| == |PartialString(t)|;
      LengthTellsRevealed(|s|, |t|);
      assert s[..k] == PartialString(s)[..k] && t[..k] == PartialString(t)[..k];
    }
  }

  // ---- One level ----

  type Shortener = Value -> Out

  ghost predicate HoldsShort(h: Shortener, cs: seq<Child>, m: map<string, Out>) {
    m.Keys == KeysOf(cs) && forall c <- cs :: m[c.key] == h(c.val)
  }

  ghost predicate HoldsShortElems(h: Shortener, elems: seq<Value>, s: seq<Out>) {
    |s| == |elems| && forall i :: 0 <= i < |elems| ==> s[i] == h(elems[i])
  }

  ghost predicate IsRecord(n: Value) {
    n.Struct? || n.Map?
  }

  ghost predicate ShortLevel(e: Env, h: Shortener, v: Value) {
    match Peel(v)
    case Gone(o) => h(v) == o
    case Node(n) =>
      if IsRecord(n) then h(v).Obj? && HoldsShort(h, Children(e, n), h(v).m)
      else if n.Slice? then h(v).Arr? && HoldsShortElems(h, n.elems, h(v).s)
      else h(v) == Str(PartialString(e.sprint(n)))
  }

  ghost predicate Shortens(e: Env, h: Shortener) {
    forall v :: Distinct(e, v) ==> ShortLevel(e, h, v)
  }

  function Partially(e: Env): (h: Shortener)
    ensures forall v :: h(v) == PartialRedact(e, v)
  {
    (v: Value) => PartialRedact(e, v)
  }

  /** The keys are those of the children, whether or not they are distinct. */
  lemma {:induction false} PartialKeys(e: Env, v: Value, cs: seq<Child>)
    requires forall c <- cs :: c.val < v
    ensures PartialChildren(e, v, cs).Keys == KeysOf(cs)
  {
    if cs != [] {
      var init, last := cs[..|cs| - 1], cs[|cs| - 1];
      assert cs == init + [last];
      PartialChildrenStep(e, v, init, last);
      PartialKeys(e, v, init);
      KeysOneMore(init, last);
    }
  }

  lemma KeysOneMore(init: seq<Child>, last: Child)
    ensures KeysOf(init + [last]) == KeysOf(init) + {last.key}
  {
    var cs := init + [last];
    assert forall c :: c in cs <==> c in init || c == last;
  }

  lemma {:induction false} ChildrenShortened(e: Env, h: Shortener, v: Value, cs: seq<Child>)
    requires forall c <- cs :: c.val < v && h(c.val) == PartialRedact(e, c.val)
    requires DistinctKeys(cs)
    ensures HoldsShort(h, cs, PartialChildren(e, v, cs))
  {
    if cs != [] {
      var init, last := cs[..|cs| - 1], cs[|cs| - 1];
      assert cs == init + [last];
      PartialChildrenStep(e, v, init, last);
      InitDistinct(init, last);
      ChildrenShortened(e, h, v, init);
      OneMore((c: Child) => h(c.val), init, last, PartialChildren(e, v, init));
    }
  }

  lemma {:induction false} PartialOneLevel(e: Env, h: Shortener, v: Value)
    requires h == Partially(e) && Distinct(e, v)
    ensures ShortLevel(e, h, v)
  {
    if !v.Invalid? && !v.NilPtr? {
      var n := Indirect(v);
      if n.Iface? {
        PartialOneLevel(e, h, n.elem);
        assert h(v) == h(n.elem);
      } else if IsRecord(n) {
        assert h(v) == Obj(PartialChildren(e, v, Children(e, n)));
        ChildrenShortened(e, h, v, Children(e, n));
      } else if n.Slice? {
        assert h(v).Arr? && HoldsShortElems(h, n.elems, h(v).s);
      }
    }
  }

  lemma PartialShortens(e: Env)
    ensures Shortens(e, Partially(e))
  {
    forall v | Distinct(e, v) ensures ShortLevel(e, Partially(e), v) {
      PartialOneLevel(e, Partially(e), v);
    }
  }

  // ---- Every path ----

  /** The output at a path: nil stays nil, a struct or map becomes an object with exactly its rendered
      keys, a slice keeps its length, any other node becomes its shortened text. */
  ghost predicate ShortMeaning(e: Env, at: Place, v: Value, p: seq<Step>, o: Option<Out>) {
    match Visit(e, at, v, p)
    case None => o == None
    case Some(l) =>
      o.Some? && match l.node {
        case Gone(x) => o.value == x
        case Node(n) =>
          if IsRecord(n) then o.value.Obj? && o.value.m.Keys == KeysOf(Children(e, n))
          else if n.Slice? then o.value.Arr? && |o.value.s| == |n.elems|
          else o.value == Str(PartialString(e.sprint(n)))
      }
  }

  lemma {:induction false} ShortAt(e: Env, h: Shortener, at: Place, v: Value, p: seq<Step>)
    requires Shortens(e, h) && Distinct(e, v)
    ensures ShortMeaning(e, at, v, p, OutAt(e, h(v), p))
    decreases |p|
  {
    assert ShortLevel(e, h, v);
    if p != [] && Peel(v).Node? && ChildAt(e, at, Peel(v).n, p[0]).Some? {
      var c := ChildAt(e, at, Peel(v).n, p[0]).value;
      DistinctChild(e, at, v, p[0]);
      ShortAt(e, h, c.0, c.1, p[1..]);
      ShortStep(e, h, at, v, p);
    }
  }

  lemma ShortStep(e: Env, h: Shortener, at: Place, v: Value, p: seq<Step>)
    requires ShortLevel(e, h, v)
    requires p != [] && Peel(v).Node? && ChildAt(e, at, Peel(v).n, p[0]).Some?
    ensures OutAt(e, h(v), p) == OutAt(e, h(ChildAt(e, at, Peel(v).n, p[0]).value.1), p[1..])
  {
    var n := Peel(v).n;
    if p[0].Key? {
      var c := Child(p[0].k, FindKey(Children(e, n), p[0].k).value);
      assert c in Children(e, n);
    }
  }

  /** What PartialRedact leaves at every path of every value. */
  lemma PartialRedactMeaning(e: Env, v: Value, p: seq<Step>)
    requires Distinct(e, v)
    ensures ShortMeaning(e, ROOT, v, p, OutAt(e, PartialRedact(e, v), p))
  {
    PartialShortens(e);
    ShortAt(e, Partially(e), ROOT, v, p);
  }

  // ---- What is revealed ----

  /** Two values that differ at most in what PartialRedact hides: the same nils, the same keys and
      lengths, and leaves with the same shadow. The order of keys, the types, unexported fields and
      the difference between structs and maps are hidden too. */
  ghost predicate SameVisible(e: Env, v: Value, w: Value)
    decreases v
  {
    match (Peel(v), Peel(w))
    case (Gone(a), Gone(b)) => a == b
    case (Node(n), Node(m)) =>
      if IsRecord(n) && IsRecord(m) then
        && KeysOf(Children(e, n)) == KeysOf(Children(e, m))
        && forall c <- Children(e, n), d <- Children(e, m) :: c.key == d.key ==> SameVisible(e, c.val, d.val)
      else if n.Slice? && m.Slice? then
        |n.elems| == |m.elems| && forall i :: 0 <= i < |n.elems| ==> SameVisible(e, n.elems[i], m.elems[i])
      else !IsRecord(n) && !IsRecord(m) && !n.Slice? && !m.Slice? && SameShadow(e.sprint(n), e.sprint(m))
    case _ => false
  }

  lemma {:induction false} LeakOf(e: Env, h: Shortener, v: Value, w: Value)
    requires Shortens(e, h) && Distinct(e, v) && Distinct(e, w)
    ensures h(v) == h(w) <==> SameVisible(e, v, w)
    decreases v
  {
    assert ShortLevel(e, h, v) && ShortLevel(e, h, w);
    if Peel(v).Node? && Peel(w).Node? {
      var n, m := Peel(v).n, Peel(w).n;
      if IsRecord(n) && IsRecord(m) {
        forall c <- Children(e, n), d <- Children(e, m)
          ensures h(c.val) == h(d.val) <==> SameVisible(e, c.val, d.val)
        {
          LeakOf(e, h, c.val, d.val);
        }
        RecordLeak(h, Children(e, n), Children(e, m), h(v).m, h(w).m);
      } else if n.Slice? && m.Slice? {
        forall i | 0 <= i < |n.elems| && i < |m.elems|
          ensures h(n.elems[i]) == h(m.elems[i]) <==> SameVisible(e, n.elems[i], m.elems[i])
        {
          LeakOf(e, h, n.elems[i], m.elems[i]);
        }
      } else {
        StringLeak(e.sprint(n), e.sprint(m));
      }
    }
  }

  ghost predicate SameUnderKeys(h: Shortener, cs: seq<Child>, ds: seq<Child>) {
    && KeysOf(cs) == KeysOf(ds)
    && forall c <- cs, d <- ds :: c.key == d.key ==> h(c.val) == h(d.val)
  }

  /** Two objects are equal exactly when their keys agree and the outputs under each agree. */
  lemma RecordLeak(h: Shortener, cs: seq<Child>, ds: seq<Child>, a: map<string, Out>, b: map<string, Out>)
    requires HoldsShort(h, cs, a) && HoldsShort(h, ds, b)
    ensures a == b <==> SameUnderKeys(h, cs, ds)
  {
    ObjectsEqual((c: Child) => h(c.val), cs, a, (c: Child) => h(c.val), ds, b);
  }

  /** PartialRedact reveals exactly the visible part: it confuses two values if and only if that part is
      the same. */
  lemma PartialRedactLeak(e: Env, v: Value, w: Value)
    requires Distinct(e, v) && Distinct(e, w)
    ensures PartialRedact(e, v) == PartialRedact(e, w) <==> SameVisible(e, v, w)
  {
    PartialShortens(e);
    LeakOf(e, Partially(e), v, w);
  }
}
