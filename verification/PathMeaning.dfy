/** The path-wise meaning of Redact: the flag says exactly whether a match is reachable, and every path
    of the output holds what the first match on it prescribes, or the original. */
module PathMeaning {
  import opened Wrappers
  import opened GoValue
  import opened Filters
  import opened Redaction
  import opened Paths

  lemma UniqueKey(cs: seq<Child>, c: Child)
    requires DistinctKeys(cs) && c in cs
    ensures FindKey(cs, c.key) == Some(c.val)
  {
    var w := FindKey(cs, c.key).value;
    var i :| 0 <= i < |cs| && cs[i] == c;
    var j :| 0 <= j < |cs| && cs[j] == Child(c.key, w);
  }

  /** Without a match at the node itself, a redaction comes from a child. */
  lemma HitStep(e: Env, g: Matcher, f: Rewriter, at: Place, v: Value) returns (s: Step)
    requires OneLevel(e, g, f, at, v) && Distinct(e, v) && f(at, v).1 && !Matched(e, g, at, v, [])
    ensures Peel(v).Node? && ChildAt(e, at, Peel(v).n, s).Some?
    ensures var c := ChildAt(e, at, Peel(v).n, s).value; c.1 < v && f(c.0, c.1).1
  {
    var n := Peel(v).n;
    if n.Slice? {
      var i :| 0 <= i < |n.elems| && f(at, n.elems[i]).1;
      s := At(i);
    } else {
      s := HitKey(e, f, n);
    }
  }

  lemma HitKey(e: Env, f: Rewriter, n: Value) returns (s: Step)
    requires (n.Struct? || n.Map?) && DistinctKeys(Children(e, n)) && SomeChildHit(f, n.ty, Children(e, n))
    ensures s.Key? && FindKey(Children(e, n), s.k).Some?
    ensures f(Place(Some(n.ty), s.k), FindKey(Children(e, n), s.k).value).1
  {
    var c :| c in Children(e, n) && f(Place(Some(n.ty), c.key), c.val).1;
    UniqueKey(Children(e, n), c);
    s := Key(c.key);
  }

  /** A redacted value contains a match that no earlier match hides. */
  lemma {:induction false} HitHasMatch(e: Env, g: Matcher, f: Rewriter, at: Place, v: Value) returns (p: seq<Step>)
    requires Lawful(e, g, f) && Distinct(e, v) && f(at, v).1
    ensures FirstMatched(e, g, at, v, p)
    decreases v
  {
    p := [];
    if !Matched(e, g, at, v, []) {
      assert OneLevel(e, g, f, at, v);
      var s := HitStep(e, g, f, at, v);
      var c := ChildAt(e, at, Peel(v).n, s).value;
      DistinctChild(e, at, v, s);
      var q := HitHasMatch(e, g, f, c.0, c.1);
      p := [s] + q;
      assert p[1..] == q;
      FirstMatchedStep(e, g, at, v, p);
    }
  }

  /** The result for the child at a step is part of the result for the whole. */
  lemma ResultAtStep(e: Env, g: Matcher, f: Rewriter, at: Place, v: Value, s: Step)
    requires Lawful(e, g, f) && Distinct(e, v) && Peel(v).Node? && g(at, Peel(v).n).None?
    requires ChildAt(e, at, Peel(v).n, s).Some?
    ensures var c := ChildAt(e, at, Peel(v).n, s).value;
            && (f(c.0, c.1).1 ==> f(at, v).1)
            && (f(at, v).1 ==> match s {
                  case Key(k) => f(at, v).0.Obj? && k in f(at, v).0.m && f(at, v).0.m[k] == f(c.0, c.1).0
                  case At(i) => f(at, v).0.Arr? && i < |f(at, v).0.s| && f(at, v).0.s[i] == f(c.0, c.1).0
                })
  {
    assert OneLevel(e, g, f, at, v);
    var n := Peel(v).n;
    if s.Key? {
      var c := Child(s.k, FindKey(Children(e, n), s.k).value);
      assert c in Children(e, n);
    }
  }

  lemma {:induction false} MatchIsHit(e: Env, g: Matcher, f: Rewriter, at: Place, v: Value, p: seq<Step>)
    requires Lawful(e, g, f) && Distinct(e, v) && FirstMatched(e, g, at, v, p)
    ensures f(at, v).1
    decreases |p|
  {
    assert OneLevel(e, g, f, at, v);
    if p != [] {
      FirstMatchedStep(e, g, at, v, p);
      var c := ChildAt(e, at, Peel(v).n, p[0]).value;
      DistinctChild(e, at, v, p[0]);
      MatchIsHit(e, g, f, c.0, c.1, p[1..]);
      ResultAtStep(e, g, f, at, v, p[0]);
    }
  }

  /** In a rebuilt container the output along a path is the child's output along its tail. */
  lemma OutAtStep(e: Env, g: Matcher, f: Rewriter, at: Place, v: Value, p: seq<Step>)
    requires Lawful(e, g, f) && Distinct(e, v) && Peel(v).Node? && g(at, Peel(v).n).None? && f(at, v).1
    requires p != [] && ChildAt(e, at, Peel(v).n, p[0]).Some?
    ensures var c := ChildAt(e, at, Peel(v).n, p[0]).value;
            OutAt(e, f(at, v).0, p) == OutAt(e, f(c.0, c.1).0, p[1..])
  {
    ResultAtStep(e, g, f, at, v, p[0]);
  }

  lemma {:induction false} RedactedPath(e: Env, g: Matcher, f: Rewriter, at: Place, v: Value, p: seq<Step>, rest: seq<Step>)
    requires Lawful(e, g, f) && Distinct(e, v) && FirstMatched(e, g, at, v, p)
    ensures OutAt(e, f(at, v).0, p + rest) == OutAt(e, Replacement(e, g, at, v, p), rest)
    decreases |p|
  {
    if p == [] {
      assert OneLevel(e, g, f, at, v);
      assert f(at, v).0 == Replacement(e, g, at, v, p);
      assert p + rest == rest;
    } else {
      FirstMatchedStep(e, g, at, v, p);
      var c := ChildAt(e, at, Peel(v).n, p[0]).value;
      DistinctChild(e, at, v, p[0]);
      RedactedPath(e, g, f, c.0, c.1, p[1..], rest);
      MatchIsHit(e, g, f, at, v, p);
      RedactedStep(e, g, f, at, v, p, rest);
    }
  }

  lemma RedactedStep(e: Env, g: Matcher, f: Rewriter, at: Place, v: Value, p: seq<Step>, rest: seq<Step>)
    requires Lawful(e, g, f) && Distinct(e, v) && Peel(v).Node? && g(at, Peel(v).n).None? && f(at, v).1
    requires p != [] && ChildAt(e, at, Peel(v).n, p[0]).Some? && Matched(e, g, at, v, p)
    ensures var c := ChildAt(e, at, Peel(v).n, p[0]).value;
            && Matched(e, g, c.0, c.1, p[1..])
            && Replacement(e, g, at, v, p) == Replacement(e, g, c.0, c.1, p[1..])
            && OutAt(e, f(at, v).0, p + rest) == OutAt(e, f(c.0, c.1).0, p[1..] + rest)
  {
    var all := p + rest;
    assert all[0] == p[0] && all[1..] == p[1..] + rest;
    OutAtStep(e, g, f, at, v, all);
  }

  /** The output at a path without a match: the original there if nothing below it is redacted, and
      otherwise a container with exactly the original's keys or length. */
  ghost predicate ClearMeaning(e: Env, g: Matcher, at: Place, v: Value, p: seq<Step>, o: Option<Out>) {
    match Visit(e, at, v, p)
    case None => o == None
    case Some(l) =>
      if !MatchBelow(e, g, at, v, p) then o == Some(Untouched(l.node))
      else
        && l.node.Node? && o.Some?
        && if l.node.n.Slice? then o.value.Arr? && |o.value.s| == |l.node.n.elems|
           else (l.node.n.Struct? || l.node.n.Map?) && o.value.Obj?
                && o.value.m.Keys == KeysOf(Children(e, l.node.n))
  }

  ghost predicate MatchBelow(e: Env, g: Matcher, at: Place, v: Value, p: seq<Step>) {
    exists q :: FirstMatched(e, g, at, v, p + q)
  }

  lemma MatchBelowStep(e: Env, g: Matcher, at: Place, v: Value, p: seq<Step>)
    requires p != [] && !Matched(e, g, at, v, [])
    requires Peel(v).Node? && ChildAt(e, at, Peel(v).n, p[0]).Some?
    ensures var c := ChildAt(e, at, Peel(v).n, p[0]).value;
            MatchBelow(e, g, at, v, p) <==> MatchBelow(e, g, c.0, c.1, p[1..])
  {
    var c := ChildAt(e, at, Peel(v).n, p[0]).value;
    forall q: seq<Step>
      ensures FirstMatched(e, g, at, v, p + q) <==> FirstMatched(e, g, c.0, c.1, p[1..] + q)
    {
      FirstMatchedStep(e, g, at, v, p + q);
      assert (p + q)[1..] == p[1..] + q;
    }
  }

  /** An untouched node is entered exactly as the value it came from. */
  lemma {:induction false} UntouchedAt(e: Env, at: Place, v: Value, p: seq<Step>)
    ensures OutAt(e, Untouched(Peel(v)), p)
         == match Visit(e, at, v, p) { case None => None case Some(l) => Some(Untouched(l.node)) }
    decreases |p|
  {
    if p != [] && Peel(v).Node? && ChildAt(e, at, Peel(v).n, p[0]).Some? {
      var c := ChildAt(e, at, Peel(v).n, p[0]).value;
      UntouchedAt(e, c.0, c.1, p[1..]);
    }
  }

  lemma UnhitPath(e: Env, g: Matcher, f: Rewriter, at: Place, v: Value, p: seq<Step>)
    requires Lawful(e, g, f) && Distinct(e, v) && !f(at, v).1
    ensures ClearMeaning(e, g, at, v, p, OutAt(e, f(at, v).0, p))
  {
    assert OneLevel(e, g, f, at, v);
    UntouchedAt(e, at, v, p);
    forall q | FirstMatched(e, g, at, v, p + q) ensures false {
      MatchIsHit(e, g, f, at, v, p + q);
    }
  }

  lemma RebuiltHere(e: Env, g: Matcher, f: Rewriter, at: Place, v: Value)
    requires Lawful(e, g, f) && Distinct(e, v) && f(at, v).1 && !Matched(e, g, at, v, [])
    ensures ClearMeaning(e, g, at, v, [], Some(f(at, v).0))
  {
    assert OneLevel(e, g, f, at, v);
    var q := HitHasMatch(e, g, f, at, v);
    assert [] + q == q;
  }

  lemma {:induction false} ClearPath(e: Env, g: Matcher, f: Rewriter, at: Place, v: Value, p: seq<Step>)
    requires Lawful(e, g, f) && Distinct(e, v) && Clear(e, g, at, v, p)
    ensures ClearMeaning(e, g, at, v, p, OutAt(e, f(at, v).0, p))
    decreases |p|
  {
    assert OneLevel(e, g, f, at, v);
    assert p[..0] == [];
    if !f(at, v).1 {
      UnhitPath(e, g, f, at, v, p);
    } else if p == [] {
      RebuiltHere(e, g, f, at, v);
    } else if ChildAt(e, at, Peel(v).n, p[0]).Some? {
      var c := ChildAt(e, at, Peel(v).n, p[0]).value;
      DistinctChild(e, at, v, p[0]);
      ClearStep(e, g, at, v, p);
      ClearPath(e, g, f, c.0, c.1, p[1..]);
      MeaningStep(e, g, f, at, v, p);
    }
  }

  lemma MeaningStep(e: Env, g: Matcher, f: Rewriter, at: Place, v: Value, p: seq<Step>)
    requires Lawful(e, g, f) && Distinct(e, v) && Peel(v).Node? && g(at, Peel(v).n).None? && f(at, v).1
    requires p != [] && ChildAt(e, at, Peel(v).n, p[0]).Some?
    requires var c := ChildAt(e, at, Peel(v).n, p[0]).value; ClearMeaning(e, g, c.0, c.1, p[1..], OutAt(e, f(c.0, c.1).0, p[1..]))
    ensures ClearMeaning(e, g, at, v, p, OutAt(e, f(at, v).0, p))
  {
    OutAtStep(e, g, f, at, v, p);
    MatchBelowStep(e, g, at, v, p);
  }

  lemma ClearStep(e: Env, g: Matcher, at: Place, v: Value, p: seq<Step>)
    requires Clear(e, g, at, v, p) && p != [] && Peel(v).Node? && ChildAt(e, at, Peel(v).n, p[0]).Some?
    ensures var c := ChildAt(e, at, Peel(v).n, p[0]).value; Clear(e, g, c.0, c.1, p[1..])
  {
    var c := ChildAt(e, at, Peel(v).n, p[0]).value;
    forall i | 0 <= i <= |p[1..]| ensures !Matched(e, g, c.0, c.1, p[1..][..i]) {
      MatchedStep(e, g, at, v, p, i + 1);
    }
  }

  lemma LeastIndex(q: nat -> bool, last: nat) returns (i: nat)
    requires q(last)
    ensures i <= last && q(i) && forall j: nat :: j < i ==> !q(j)
  {
    i := 0;
    while !q(i)
      invariant i <= last && forall j: nat :: j < i ==> !q(j)
      decreases last - i
    {
      i := i + 1;
    }
  }

  lemma FirstMatchOn(e: Env, g: Matcher, at: Place, v: Value, p: seq<Step>) returns (i: nat)
    requires !Clear(e, g, at, v, p)
    ensures i <= |p| && FirstMatched(e, g, at, v, p[..i])
  {
    var last: nat :| last <= |p| && Matched(e, g, at, v, p[..last]);
    var q := (j: nat) => j <= |p| && Matched(e, g, at, v, p[..j]);
    i := LeastIndex(q, last);
    forall j | 0 <= j < i ensures !Matched(e, g, at, v, p[..i][..j]) {
      assert p[..i][..j] == p[..j] && !q(j);
    }
  }

  lemma FlagLaw(e: Env, g: Matcher, f: Rewriter, at: Place, v: Value)
    requires Lawful(e, g, f) && Distinct(e, v)
    ensures f(at, v).1 <==> exists p :: FirstMatched(e, g, at, v, p)
  {
    if f(at, v).1 {
      var p := HitHasMatch(e, g, f, at, v);
    }
    forall p | FirstMatched(e, g, at, v, p) ensures f(at, v).1 {
      MatchIsHit(e, g, f, at, v, p);
    }
  }

  // ---- The laws of redact ----

  /** Redact reports a redaction exactly when some match is reachable past no other; when it reports
      none, the output is the peeled input itself, unexported fields included. */
  lemma FlagExact(e: Env, r: Index, at: Place, v: Value)
    requires Distinct(e, v)
    ensures Redact(e, r, at, v).1 <==> exists p :: FirstMatched(e, Filtering(e, r), at, v, p)
    ensures !Redact(e, r, at, v).1 ==> Redact(e, r, at, v).0 == Untouched(Peel(v))
  {
    RedactIsLawful(e, r);
    var f, g := Redactor(e, r), Filtering(e, r);
    assert f(at, v) == Redact(e, r, at, v) && OneLevel(e, g, f, at, v);
    FlagLaw(e, g, f, at, v);
  }

  /** What redact leaves at every path. Without a match on the path: the original, or the rebuilt
      container that holds redactions further down. Otherwise, from the first match on: what that
      filter's mode makes of the node, whatever was stored below it. */
  lemma PathMeaning(e: Env, r: Index, at: Place, v: Value, p: seq<Step>)
    requires Distinct(e, v)
    ensures var g := Filtering(e, r); var o := OutAt(e, Redact(e, r, at, v).0, p);
            if Clear(e, g, at, v, p) then ClearMeaning(e, g, at, v, p, o)
            else exists i :: 0 <= i <= |p| && FirstMatched(e, g, at, v, p[..i])
                             && o == OutAt(e, Replacement(e, g, at, v, p[..i]), p[i..])
  {
    RedactIsLawful(e, r);
    var f, g := Redactor(e, r), Filtering(e, r);
    assert f(at, v) == Redact(e, r, at, v);
    if Clear(e, g, at, v, p) {
      ClearPath(e, g, f, at, v, p);
    } else {
      var i := FirstMatchOn(e, g, at, v, p);
      RedactedPath(e, g, f, at, v, p[..i], p[i..]);
      assert p[..i] + p[i..] == p;
    }
  }

  /** What a call of Redact leaves at every path of every value: the same, where the root is reached
      under no type and no key. */
  lemma RootMeaning(e: Env, r: Index, v: Value, p: seq<Step>)
    requires Distinct(e, v)
    ensures v.Invalid? ==> RedactRoot(e, r, v) == Nil
    ensures var at, g := Place(None, ""), Filtering(e, r); var o := OutAt(e, RedactRoot(e, r, v), p);
            if Clear(e, g, at, v, p) then ClearMeaning(e, g, at, v, p, o)
            else exists i :: 0 <= i <= |p| && FirstMatched(e, g, at, v, p[..i])
                             && o == OutAt(e, Replacement(e, g, at, v, p[..i]), p[i..])
  {
    PathMeaning(e, r, Place(None, ""), v, p);
    assert RedactRoot(e, r, v) == Redact(e, r, Place(None, ""), v).0;
  }

  // ---- What is matched, and where ----

  /** A struct is matched by a struct filter for its type, any other node by a field filter for the type
      and the key that it is reached under; the filter's mode then says what replaces it. */
  lemma MatchMeaning(e: Env, r: Index, at: Place, v: Value, p: seq<Step>, ty: Option<GoType>, key: string, n: Value)
    requires Visit(e, at, v, p) == Some(Located(Place(ty, key), Node(n)))
    ensures var mode := if n.Struct? then FilterStruct(r, n.ty) else FilterField(e, r, ty, key);
            && (Matched(e, Filtering(e, r), at, v, p) <==> mode.Some?)
            && (mode.Some? ==>
                  var o := Replacement(e, Filtering(e, r), at, v, p);
                  match mode.value { case Full => o == Str("<REDACTED>") case Partial => o == PartialRedact(e, n) case Custom(f) => o == f(n) })
  {
  }

  lemma {:induction false} VisitSnoc(e: Env, at: Place, v: Value, p: seq<Step>, s: Step)
    ensures Visit(e, at, v, p + [s]) ==
            match Visit(e, at, v, p) {
              case Some(Located(l, Node(n))) =>
                (match ChildAt(e, l, n, s) { case Some(c) => Some(Located(c.0, Peel(c.1))) case None => None })
              case _ => None
            }
    decreases |p|
  {
    if p == [] {
      assert p + [s] == [s] && [s][1..] == [];
    } else {
      assert (p + [s])[0] == p[0] && (p + [s])[1..] == p[1..] + [s];
      if Peel(v).Node? && ChildAt(e, at, Peel(v).n, p[0]).Some? {
        var c := ChildAt(e, at, Peel(v).n, p[0]).value;
        VisitSnoc(e, c.0, c.1, p[1..], s);
      }
    }
  }

  lemma {:induction false} VisitedDistinct(e: Env, at: Place, v: Value, p: seq<Step>)
    requires Distinct(e, v) && Visit(e, at, v, p).Some? && Visit(e, at, v, p).value.node.Node?
    ensures Distinct(e, Visit(e, at, v, p).value.node.n)
    decreases |p|
  {
    if p == [] {
      NodeDistinct(e, v);
    } else {
      var c := ChildAt(e, at, Peel(v).n, p[0]).value;
      DistinctChild(e, at, v, p[0]);
      VisitedDistinct(e, c.0, c.1, p[1..]);
    }
  }

  lemma ContainerKeys(e: Env, n: Value, c: Child)
    requires Distinct(e, n) && (n.Struct? || n.Map?) && c in Children(e, n)
    ensures FindKey(Children(e, n), c.key) == Some(c.val)
  {
    assert Peel(n) == Node(n);
    UniqueKey(Children(e, n), c);
  }

  /** A struct's exported field is reached under the struct's type and the field's rendered key. */
  lemma PlaceOfField(e: Env, at: Place, v: Value, p: seq<Step>, l: Place, n: Value, f: Field)
    requires Distinct(e, v) && Visit(e, at, v, p) == Some(Located(l, Node(n))) && n.Struct? && f in n.fields && f.exported
    ensures Visit(e, at, v, p + [Key(FieldKey(f))]) == Some(Located(Place(Some(n.ty), FieldKey(f)), Peel(f.val)))
  {
    VisitSnoc(e, at, v, p, Key(FieldKey(f)));
    VisitedDistinct(e, at, v, p);
    ExportedFieldsExact(n.fields);
    ContainerKeys(e, n, Child(FieldKey(f), f.val));
  }

  /** A map's entry is reached under the map's type and its key: a string as it is, anything else as it is
      printed. */
  lemma PlaceOfEntry(e: Env, at: Place, v: Value, p: seq<Step>, l: Place, n: Value, x: Entry)
    requires Distinct(e, v) && Visit(e, at, v, p) == Some(Located(l, Node(n))) && n.Map? && x in n.entries
    ensures var key := match x.key { case TextKey(s) => s case OtherKey(k) => e.sprintKey(k) };
            Visit(e, at, v, p + [Key(key)]) == Some(Located(Place(Some(n.ty), key), Peel(x.val)))
  {
    var key := match x.key { case TextKey(s) => s case OtherKey(k) => e.sprintKey(k) };
    VisitSnoc(e, at, v, p, Key(key));
    VisitedDistinct(e, at, v, p);
    var i :| 0 <= i < |n.entries| && n.entries[i] == x;
    assert Children(e, n)[i] == Child(key, x.val);
    ContainerKeys(e, n, Child(key, x.val));
  }

  /** A slice's element is reached under the type and key of the slice. */
  lemma PlaceOfElement(e: Env, at: Place, v: Value, p: seq<Step>, l: Place, n: Value, i: nat)
    requires Visit(e, at, v, p) == Some(Located(l, Node(n))) && n.Slice? && i < |n.elems|
    ensures Visit(e, at, v, p + [At(i)]) == Some(Located(l, Peel(n.elems[i])))
  {
    VisitSnoc(e, at, v, p, At(i));
  }

  // ---- The promise that a general filter redacts every field of its name ----

  /** A node under a filtered key, with no match above it, is replaced by what the filter's mode makes of
      it if and only if it is not a struct, or a struct filter applies to it, which then decides. Otherwise
      it is as if the filter were not there. */
  lemma FilteredFieldExactly(e: Env, r: Index, at: Place, v: Value, p: seq<Step>)
    requires Distinct(e, v) && Visit(e, at, v, p).Some? && Visit(e, at, v, p).value.node.Node?
    requires var l := Visit(e, at, v, p).value; FilterField(e, r, l.at.ty, l.at.key).Some?
    requires forall i :: 0 <= i < |p| ==> !Matched(e, Filtering(e, r), at, v, p[..i])
    ensures var l := Visit(e, at, v, p).value; var o := OutAt(e, Redact(e, r, at, v).0, p);
            var own := if l.node.n.Struct? then FilterStruct(r, l.node.n.ty) else None;
            if own.Some? then o == Some(Apply(e, own.value, l.node.n))
            else if !l.node.n.Struct? then o == Some(Apply(e, FilterField(e, r, l.at.ty, l.at.key).value, l.node.n))
            else ClearMeaning(e, Filtering(e, r), at, v, p, o)
  {
    var g := Filtering(e, r);
    assert p[..|p|] == p;
    if Matched(e, g, at, v, p) {
      ReplacedAt(e, r, at, v, p);
    } else {
      assert Clear(e, g, at, v, p);
      PathMeaning(e, r, at, v, p);
    }
  }

  lemma ReplacedAt(e: Env, r: Index, at: Place, v: Value, p: seq<Step>)
    requires Distinct(e, v) && FirstMatched(e, Filtering(e, r), at, v, p)
    ensures OutAt(e, Redact(e, r, at, v).0, p) == Some(Replacement(e, Filtering(e, r), at, v, p))
  {
    var f := Redactor(e, r);
    RedactIsLawful(e, r);
    RedactedPath(e, Filtering(e, r), f, at, v, p, []);
    assert f(at, v) == Redact(e, r, at, v) && p + [] == p;
  }

  /** A struct under the only filtered key comes back readable. */
  const READABLE := Map(Declared(1), [Entry(TextKey("a"), HELD)])

  const HELD := Struct(Declared(0), [Field("b", "", true, Prim(Text("x")))])

  lemma StructStaysReadable()
    ensures FilterField(SAMPLE_ENV, ON_A, Some(Declared(1)), "a") == Some(Full)
    ensures RedactRoot(SAMPLE_ENV, ON_A, READABLE) == Raw(READABLE)
  {
    KeyAHits(Some(Declared(1)));
    HeldStaysReadable();
    OneChild(SAMPLE_ENV, ON_A, ROOT, READABLE, Child("a", HELD));
  }

  lemma HeldStaysReadable()
    ensures Redact(SAMPLE_ENV, ON_A, Place(Some(Declared(1)), "a"), HELD) == (Raw(HELD), false)
  {
    assert ON_A.general == [Filter(None, "a", Full), Filter(None, "a", Full)];
    assert !FieldHit(SAMPLE_ENV, Filter(None, "a", Full), None, "b");
    OneField(SAMPLE_ENV, ON_A, Place(Some(Declared(1)), "a"), Declared(0), Field("b", "", true, Prim(Text("x"))));
    RedactScalar(SAMPLE_ENV, ON_A, Place(Some(Declared(0)), "b"), Text("x"));
  }

  // ---- The promise that a struct's field filter redacts the field of that name ----

  /** A field of a struct, with a filter on a name of that struct alone: unless the field holds a struct
      or nothing, it is replaced if and only if the key that it is rendered under folds to the name. The
      field's own name does not matter. */
  lemma NamedFieldExactly(e: Env, at: Place, ty: GoType, fields: seq<Field>, f: Field, name: string, mode: Mode)
    requires Distinct(e, Struct(ty, fields)) && f in fields && f.exported && name != "" && ty != Descriptor
    requires Peel(f.val).Node? && !Peel(f.val).n.Struct?
    ensures var v, r, p := Struct(ty, fields), AddFilters(e, EMPTY, [NewFilter(Sample(ty), name, mode)]), [Key(FieldKey(f))];
            var o := OutAt(e, Redact(e, r, at, v).0, p);
            if e.fold(FieldKey(f)) == e.fold(name) then o == Some(Apply(e, mode, Peel(f.val).n))
            else ClearMeaning(e, Filtering(e, r), at, v, p, o)
  {
    var v, r, key := Struct(ty, fields), AddFilters(e, EMPTY, [NewFilter(Sample(ty), name, mode)]), FieldKey(f);
    var p, g := [Key(key)], Filtering(e, r);
    ExportedFieldsExact(fields);
    UniqueKey(Children(e, v), Child(key, f.val));
    OneStructFilter(e, ty, name, mode, key);
    NoStructFilter(e, ty, name, mode, ty);
    assert p[..0] == [] && p[1..] == [] && p[..1] == p;
    assert ChildAt(e, at, v, p[0]) == Some((Place(Some(ty), key), f.val));
    assert Visit(e, at, v, p) == Visit(e, Place(Some(ty), key), f.val, p[1..]);
    assert Visit(e, at, v, p) == Some(Located(Place(Some(ty), key), Peel(f.val)));
    assert !Matched(e, g, at, v, []);
    if e.fold(key) == e.fold(name) {
      FilteredFieldExactly(e, r, at, v, p);
    } else {
      PathMeaning(e, r, at, v, p);
      assert Clear(e, g, at, v, p);
    }
  }

  /** The field Name of the struct, which its json tag renames. */
  const RENAMED := Struct(Declared(0), [Field("Name", "user_name", true, Prim(Text("x")))])

  lemma NotFoundByName(e: Env, r: Index)
    requires FilterField(e, r, Some(Declared(0)), "user_name") == None && FilterStruct(r, Declared(0)) == None
    ensures RedactRoot(e, r, RENAMED) == Raw(RENAMED)
  {
    NoComma("user_name");
    OneField(e, r, ROOT, Declared(0), Field("Name", "user_name", true, Prim(Text("x"))));
    RedactScalar(e, r, Place(Some(Declared(0)), "user_name"), Text("x"));
  }

  /** The documented filter on the field Name leaves it readable. */
  lemma RenamedFieldReadable(mode: Mode)
    ensures RedactRoot(SAMPLE_ENV, AddFilters(SAMPLE_ENV, EMPTY, [NewFilter(Sample(Declared(0)), "Name", mode)]), RENAMED) == Raw(RENAMED)
  {
    OneStructFilter(SAMPLE_ENV, Declared(0), "Name", mode, "user_name");
    NoStructFilter(SAMPLE_ENV, Declared(0), "Name", mode, Declared(0));
    NotFoundByName(SAMPLE_ENV, AddFilters(SAMPLE_ENV, EMPTY, [NewFilter(Sample(Declared(0)), "Name", mode)]));
  }
}
