/** Errors as the interceptors see them: wrapped, joined, and found again by errors.As. */
module Errors {
  import opened Wrappers

  datatype Code = Internal | DeadlineExceeded | Other(n: nat)

  /** `App` is an ApplicationError around another error; a wrapper has one error below it, a joined
      error has several. */
  datatype Err =
    | Plain(id: int)
    | Status(code: Code)
    | App(trace: string, inner: Err, code: Code, expected: bool)
    | Wrapped(inner: Err)
    | Joined(errs: seq<Err>)

  /** errors.As with an ApplicationError as its target. */
  function AsApp(err: Err): (r: Option<Err>)
    ensures r.Some? ==> r.value.App?
    decreases err, 1
  {
    match err
    case App(_, _, _, _) => Some(err)
    case Wrapped(inner) => AsApp(inner)
    case Joined(errs) => AsAppOfAny(errs)
    case _ => None
  }

  function AsAppOfAny(errs: seq<Err>): (r: Option<Err>)
    ensures r.Some? ==> r.value.App?
    decreases errs, 0
  {
    if errs == [] then None
    else
      var r := AsApp(errs[0]);
      if r.Some? then r else AsAppOfAny(errs[1..])
  }

  /** Every error in the tree, outer ones before inner ones and earlier ones before later ones. */
  function Preorder(err: Err): seq<Err>
    decreases err, 1
  {
    match err
    case App(_, inner, _, _) => [err] + Preorder(inner)
    case Wrapped(inner) => [err] + Preorder(inner)
    case Joined(errs) => [err] + PreorderOfAll(errs)
    case _ => [err]
  }

  function PreorderOfAll(errs: seq<Err>): seq<Err>
    decreases errs, 0
  {
    if errs == [] then [] else Preorder(errs[0]) + PreorderOfAll(errs[1..])
  }

  function FirstApp(es: seq<Err>): (r: Option<Err>)
    ensures r.Some? ==> r.value.App?
  {
    if es == [] then None else if es[0].App? then Some(es[0]) else FirstApp(es[1..])
  }

  lemma {:induction false} FirstAppConcat(a: seq<Err>, b: seq<Err>)
    ensures FirstApp(a + b) == if FirstApp(a).Some? then FirstApp(a) else FirstApp(b)
  {
    if a == [] {
      assert a + b == b;
    } else {
      FirstAppConcat(a[1..], b);
      assert (a + b)[1..] == a[1..] + b;
    }
  }

  /** However errors are wrapped and joined, errors.As finds the outermost ApplicationError: the first
      one that is met going inwards. */
  lemma {:induction false} AsAppIsOutermost(err: Err)
    ensures AsApp(err) == FirstApp(Preorder(err))
    decreases err, 1
  {
    match err
    case App(_, inner, _, _) => FirstAppConcat([err], Preorder(inner));
    case Wrapped(inner) =>
      AsAppIsOutermost(inner);
      FirstAppConcat([err], Preorder(inner));
    case Joined(errs) =>
      AsAppOfAnyIsFirst(errs);
      FirstAppConcat([err], PreorderOfAll(errs));
    case _ =>
  }

  lemma {:induction false} AsAppOfAnyIsFirst(errs: seq<Err>)
    ensures AsAppOfAny(errs) == FirstApp(PreorderOfAll(errs))
    decreases errs, 0
  {
    if errs != [] {
      AsAppIsOutermost(errs[0]);
      AsAppOfAnyIsFirst(errs[1..]);
      FirstAppConcat(Preorder(errs[0]), PreorderOfAll(errs[1..]));
    }
  }

  // ---- Errors deep inside others ----

  /** What an error can be enclosed in: a wrapper, or a join with errors before and after it. */
  datatype Layer = Wrapper | Join(before: seq<Err>, after: seq<Err>)

  /** The error inside all of the layers, the first one outermost. */
  function Enclosed(layers: seq<Layer>, err: Err): Err {
    if layers == [] then err
    else
      var inner := Enclosed(layers[1..], err);
      match layers[0]
      case Wrapper => Wrapped(inner)
      case Join(before, after) => Joined(before + [inner] + after)
  }

  predicate WithoutApp(errs: seq<Err>) {
    FirstApp(PreorderOfAll(errs)).None?
  }

  lemma {:induction false} PreorderConcat(a: seq<Err>, b: seq<Err>)
    ensures PreorderOfAll(a + b) == PreorderOfAll(a) + PreorderOfAll(b)
  {
    if a == [] {
      assert a + b == b;
    } else {
      PreorderConcat(a[1..], b);
      assert (a + b)[0] == a[0] && (a + b)[1..] == a[1..] + b;
      Associative(Preorder(a[0]), PreorderOfAll(a[1..]), PreorderOfAll(b));
    }
  }

  lemma Associative(a: seq<Err>, b: seq<Err>, c: seq<Err>)
    ensures a + (b + c) == (a + b) + c
  {
  }

  lemma JoinedApp(before: seq<Err>, inner: Err, after: seq<Err>)
    requires WithoutApp(before)
    ensures var here := FirstApp(Preorder(inner));
            FirstApp(Preorder(Joined(before + [inner] + after))) == if here.Some? then here else FirstApp(PreorderOfAll(after))
  {
    PreorderConcat(before + [inner], after);
    PreorderConcat(before, [inner]);
    assert PreorderOfAll([inner]) == Preorder(inner) + PreorderOfAll([]) == Preorder(inner);
    FirstAppConcat(PreorderOfAll(before) + Preorder(inner), PreorderOfAll(after));
    FirstAppConcat(PreorderOfAll(before), Preorder(inner));
    FirstAppConcat([Joined(before + [inner] + after)], PreorderOfAll(before + [inner] + after));
  }

  /** However deep an error is enclosed, its outermost ApplicationError, or that it has none, is what is
      found from outside, as long as nothing joined before it has one, nor, if it has none, after it. */
  lemma {:induction false} EnclosedKeepsApp(layers: seq<Layer>, err: Err)
    requires forall l <- layers :: l.Join? ==> WithoutApp(l.before) && (WithoutApp(l.after) || AsApp(err).Some?)
    ensures AsApp(Enclosed(layers, err)) == AsApp(err)
  {
    if layers != [] {
      EnclosedKeepsApp(layers[1..], err);
      var inner := Enclosed(layers[1..], err);
      assert layers[0] in layers;
      AsAppIsOutermost(inner);
      if layers[0].Join? {
        JoinedApp(layers[0].before, inner, layers[0].after);
        AsAppIsOutermost(Enclosed(layers, err));
      }
    }
  }
}
