/** The redactor's filters, the three lists they are filed under, and what a lookup in those lists means
    in terms of the filters that were added. */
module Filters {
  import opened Wrappers
  import opened GoValue

  /** What a matched node is replaced by. */
  datatype Mode = Full | Partial | Custom(f: Value -> Out)

  datatype Filter = Filter(ty: Option<GoType>, field: string, mode: Mode)

  /** The `data any` argument of NewFilter: nothing, a sample of a type (or a pointer to one), or a
      reflect.Type value. */
  datatype Data = NoData | Sample(ty: GoType) | TypeValue(ty: GoType)

  /** A filter's type is the type of the data with one pointer removed; a reflect.Type is itself a
      pointer, to a type descriptor. */
  function NewFilter(data: Data, field: string, mode: Mode): Filter {
    match data
    case NoData => Filter(None, field, mode)
    case Sample(ty) => Filter(Some(ty), field, mode)
    case TypeValue(_) => Filter(Some(Descriptor), field, mode)
  }

  /** The spellings filed for a filter. The type is handed to NewFilter as a reflect.Type. */
  function FilterWithFields(e: Env, f: Filter): seq<Filter> {
    if f.field == "" then [f]
    else
      var data := if f.ty.None? then NoData else TypeValue(f.ty.value);
      var camel := e.camel(f.field);
      [NewFilter(data, camel, f.mode), NewFilter(data, e.snake(camel), f.mode)]
  }

  /** The three lists of a Redactor. */
  datatype Index = Index(structs: seq<Filter>, structFields: seq<Filter>, general: seq<Filter>)

  const EMPTY := Index([], [], [])

  function AddFilter(e: Env, r: Index, f: Filter): Index {
    if f.ty.None? then
      r.(general := r.general + FilterWithFields(e, f))
    else if f.field == "" then
      r.(structs := r.structs + [f])
    else
      r.(structFields := r.structFields + [f] + FilterWithFields(e, f))
  }

  function AddFilters(e: Env, r: Index, fs: seq<Filter>): Index {
    if fs == [] then r
    else AddFilter(e, AddFilters(e, r, fs[..|fs| - 1]), fs[|fs| - 1])
  }

  /** Adding filters in two batches is adding them in one. */
  lemma {:induction false} BatchesJoin(e: Env, r: Index, a: seq<Filter>, b: seq<Filter>)
    ensures AddFilters(e, AddFilters(e, r, a), b) == AddFilters(e, r, a + b)
  {
    if b == [] {
      assert a + b == a;
    } else {
      BatchesJoin(e, r, a, b[..|b| - 1]);
      assert (a + b)[..|a + b| - 1] == a + b[..|b| - 1];
    }
  }

  /** Struct-field filters are compared by type and name, general ones (no type given) by name. */
  predicate FieldHit(e: Env, f: Filter, ty: Option<GoType>, key: string) {
    (ty.None? || f.ty == ty) && e.EqualFold(key, f.field)
  }

  /** The mode of the first filter in a list that hits. */
  function FirstHit(e: Env, fs: seq<Filter>, ty: Option<GoType>, key: string): (r: Option<Mode>)
    ensures r.None? <==> forall f <- fs :: !FieldHit(e, f, ty, key)
  {
    if fs == [] then None
    else if FieldHit(e, fs[0], ty, key) then Some(fs[0].mode)
    else FirstHit(e, fs[1..], ty, key)
  }

  lemma {:induction false} FirstHitConcat(e: Env, a: seq<Filter>, b: seq<Filter>, ty: Option<GoType>, key: string)
    ensures FirstHit(e, a + b, ty, key) ==
            if FirstHit(e, a, ty, key).Some? then FirstHit(e, a, ty, key) else FirstHit(e, b, ty, key)
  {
    if a == [] {
      assert a + b == b;
    } else {
      FirstHitConcat(e, a[1..], b, ty, key);
      assert (a + b)[1..] == a[1..] + b;
    }
  }

  /** filterStruct: the first struct filter for exactly this type. */
  function FilterStruct(r: Index, ty: GoType): Option<Mode> {
    FirstOfType(r.structs, ty)
  }

  function FirstOfType(fs: seq<Filter>, ty: GoType): (r: Option<Mode>)
    ensures r.None? <==> forall f <- fs :: f.ty != Some(ty)
  {
    if fs == [] then None
    else if fs[0].ty == Some(ty) then Some(fs[0].mode)
    else FirstOfType(fs[1..], ty)
  }

  /** filterField: a hit among the struct's own field filters wins over every general one. */
  function FilterField(e: Env, r: Index, ty: Option<GoType>, key: string): Option<Mode> {
    var own := if ty.None? then None else FirstHit(e, r.structFields, ty, key);
    if own.Some? then own else FirstHit(e, r.general, None, key)
  }

  // ---- What a lookup means for the filters that were added ----

  /** A struct-field filter answers to its own spelling only, for its own type; its camel and snake
      spellings answer for the descriptor type. */
  predicate AnswersForStruct(e: Env, f: Filter, ty: Option<GoType>, key: string) {
    && f.ty.Some? && f.field != ""
    && (if ty == f.ty && e.EqualFold(key, f.field) then true
        else ty == Some(Descriptor) && (e.EqualFold(key, e.camel(f.field)) || e.EqualFold(key, e.snake(e.camel(f.field)))))
  }

  /** A general filter answers to its camel and snake spellings; an unnamed one to the empty key. */
  predicate AnswersForAny(e: Env, f: Filter, key: string) {
    && f.ty.None?
    && if f.field == "" then e.EqualFold(key, "")
       else e.EqualFold(key, e.camel(f.field)) || e.EqualFold(key, e.snake(e.camel(f.field)))
  }

  ghost predicate FirstForStruct(e: Env, fs: seq<Filter>, ty: Option<GoType>, key: string, i: int) {
    && 0 <= i < |fs| && AnswersForStruct(e, fs[i], ty, key)
    && forall j :: 0 <= j < i ==> !AnswersForStruct(e, fs[j], ty, key)
  }

  ghost predicate FirstForAny(e: Env, fs: seq<Filter>, key: string, i: int) {
    && 0 <= i < |fs| && AnswersForAny(e, fs[i], key)
    && forall j :: 0 <= j < i ==> !AnswersForAny(e, fs[j], key)
  }

  /** After any filters have been added in any batches, a lookup answers with the first added filter
      that answers for the struct, failing that the first general one that answers, failing that not
      at all. */
  lemma {:induction false} LookupMeaning(e: Env, fs: seq<Filter>, ty: Option<GoType>, key: string)
    ensures var r := FilterField(e, AddFilters(e, EMPTY, fs), ty, key);
            || (exists i :: FirstForStruct(e, fs, ty, key, i) && r == Some(fs[i].mode))
            || ((forall f <- fs :: !AnswersForStruct(e, f, ty, key))
                && exists i :: FirstForAny(e, fs, key, i) && r == Some(fs[i].mode))
            || ((forall f <- fs :: !AnswersForStruct(e, f, ty, key) && !AnswersForAny(e, f, key)) && r == None)
  {
    if ty.Some? {
      StructListMeaning(e, fs, ty, key);
    }
    GeneralListMeaning(e, fs, key);
  }

  lemma {:induction false} StructListMeaning(e: Env, fs: seq<Filter>, ty: Option<GoType>, key: string)
    requires ty.Some?
    ensures var r := FirstHit(e, AddFilters(e, EMPTY, fs).structFields, ty, key);
            || (exists i :: FirstForStruct(e, fs, ty, key, i) && r == Some(fs[i].mode))
            || ((forall f <- fs :: !AnswersForStruct(e, f, ty, key)) && r == None)
  {
    if fs != [] {
      var init, f := fs[..|fs| - 1], fs[|fs| - 1];
      StructListMeaning(e, init, ty, key);
      HitAfterAdding(e, AddFilters(e, EMPTY, init), f, ty, key);
      FirstExtends(e, init, f, ty, key);
      assert fs == init + [f];
    }
  }

  /** An added filter changes a lookup only if it answers and nothing hit before. */
  lemma HitAfterAdding(e: Env, r: Index, f: Filter, ty: Option<GoType>, key: string)
    requires ty.Some?
    ensures var before := FirstHit(e, r.structFields, ty, key);
            FirstHit(e, AddFilter(e, r, f).structFields, ty, key)
            == if before.Some? then before else if AnswersForStruct(e, f, ty, key) then Some(f.mode) else None
  {
    if f.ty.Some? && f.field != "" {
      FirstHitConcat(e, r.structFields + [f], FilterWithFields(e, f), ty, key);
      FirstHitConcat(e, r.structFields, [f], ty, key);
      DerivedAnswers(e, f, ty, key);
    }
  }

  lemma DerivedAnswers(e: Env, f: Filter, ty: Option<GoType>, key: string)
    requires f.field != ""
    ensures FirstHit(e, FilterWithFields(e, f), ty, key)
         == if (ty.None? || ty == (if f.ty.None? then None else Some(Descriptor)))
               && (e.EqualFold(key, e.camel(f.field)) || e.EqualFold(key, e.snake(e.camel(f.field))))
            then Some(f.mode) else None
  {
    var derived := FilterWithFields(e, f);
    assert derived == [derived[0]] + [derived[1]];
    FirstHitConcat(e, [derived[0]], [derived[1]], ty, key);
  }

  /** The first answer survives appending, and an appended filter answers first when none did. */
  lemma FirstExtends(e: Env, init: seq<Filter>, f: Filter, ty: Option<GoType>, key: string)
    ensures forall i :: FirstForStruct(e, init, ty, key, i) ==> FirstForStruct(e, init + [f], ty, key, i)
    ensures forall i :: FirstForAny(e, init, key, i) ==> FirstForAny(e, init + [f], key, i)
    ensures (forall g <- init :: !AnswersForStruct(e, g, ty, key)) && AnswersForStruct(e, f, ty, key)
            ==> FirstForStruct(e, init + [f], ty, key, |init|)
    ensures (forall g <- init :: !AnswersForAny(e, g, key)) && AnswersForAny(e, f, key)
            ==> FirstForAny(e, init + [f], key, |init|)
  {
  }

  lemma GeneralHitAfterAdding(e: Env, r: Index, f: Filter, key: string)
    ensures var before := FirstHit(e, r.general, None, key);
            FirstHit(e, AddFilter(e, r, f).general, None, key)
            == if before.Some? then before else if AnswersForAny(e, f, key) then Some(f.mode) else None
  {
    if f.ty.None? {
      FirstHitConcat(e, r.general, FilterWithFields(e, f), None, key);
      if f.field != "" {
        DerivedAnswers(e, f, None, key);
      }
    }
  }

  lemma {:induction false} GeneralListMeaning(e: Env, fs: seq<Filter>, key: string)
    ensures var r := FirstHit(e, AddFilters(e, EMPTY, fs).general, None, key);
            || (exists i :: FirstForAny(e, fs, key, i) && r == Some(fs[i].mode))
            || ((forall f <- fs :: !AnswersForAny(e, f, key)) && r == None)
  {
    if fs != [] {
      var init, f := fs[..|fs| - 1], fs[|fs| - 1];
      GeneralListMeaning(e, init, key);
      GeneralHitAfterAdding(e, AddFilters(e, EMPTY, init), f, key);
      FirstExtends(e, init, f, None, key);
      assert fs == init + [f];
    }
  }

  ghost predicate FirstWhole(fs: seq<Filter>, ty: GoType, i: int) {
    && 0 <= i < |fs| && fs[i].field == "" && fs[i].ty == Some(ty)
    && forall j :: 0 <= j < i ==> !(fs[j].field == "" && fs[j].ty == Some(ty))
  }

  /** Likewise for whole structs: the first added filter of that type without a field. */
  lemma {:induction false} StructLookupMeaning(e: Env, fs: seq<Filter>, ty: GoType)
    ensures var r := FilterStruct(AddFilters(e, EMPTY, fs), ty);
            || (exists i :: FirstWhole(fs, ty, i) && r == Some(fs[i].mode))
            || ((forall f <- fs :: !(f.field == "" && f.ty == Some(ty))) && r == None)
  {
    if fs != [] {
      var init, f := fs[..|fs| - 1], fs[|fs| - 1];
      StructLookupMeaning(e, init, ty);
      StructHitAfterAdding(e, AddFilters(e, EMPTY, init), f, ty);
      FirstWholeExtends(init, f, ty);
      assert fs == init + [f];
    }
  }

  lemma StructHitAfterAdding(e: Env, r: Index, f: Filter, ty: GoType)
    ensures var before := FirstOfType(r.structs, ty);
            FirstOfType(AddFilter(e, r, f).structs, ty)
            == if before.Some? then before else if f.field == "" && f.ty == Some(ty) then Some(f.mode) else None
  {
    FirstOfTypeAppend(r.structs, f, ty);
  }

  lemma FirstWholeExtends(init: seq<Filter>, f: Filter, ty: GoType)
    ensures forall i :: FirstWhole(init, ty, i) ==> FirstWhole(init + [f], ty, i)
    ensures (forall g <- init :: !(g.field == "" && g.ty == Some(ty))) && f.field == "" && f.ty == Some(ty)
            ==> FirstWhole(init + [f], ty, |init|)
  {
  }

  lemma {:induction false} FirstOfTypeAppend(fs: seq<Filter>, f: Filter, ty: GoType)
    ensures FirstOfType(fs + [f], ty)
         == if FirstOfType(fs, ty).Some? then FirstOfType(fs, ty) else if f.ty == Some(ty) then Some(f.mode) else None
  {
    if fs == [] {
      assert fs + [f] == [f];
    } else {
      FirstOfTypeAppend(fs[1..], f, ty);
      assert (fs + [f])[1..] == fs[1..] + [f];
    }
  }

  /** The filter that a lookup answers with. */
  ghost predicate AnsweredBy(e: Env, fs: seq<Filter>, ty: Option<GoType>, key: string, i: int) {
    || FirstForStruct(e, fs, ty, key, i)
    || ((forall f <- fs :: !AnswersForStruct(e, f, ty, key)) && FirstForAny(e, fs, key, i))
  }

  /** What the spellings filed for a struct-field filter are for: every spelling, for its own type. */
  predicate MeantForStruct(e: Env, f: Filter, ty: Option<GoType>, key: string) {
    && f.ty.Some? && f.field != "" && f.ty == ty
    && (e.EqualFold(key, f.field) || e.EqualFold(key, e.camel(f.field)) || e.EqualFold(key, e.snake(e.camel(f.field))))
  }

  ghost predicate FirstMeant(e: Env, fs: seq<Filter>, ty: Option<GoType>, key: string, i: int) {
    && 0 <= i < |fs| && MeantForStruct(e, fs[i], ty, key)
    && forall j :: 0 <= j < i ==> !MeantForStruct(e, fs[j], ty, key)
  }

  /** The filter that a lookup would answer with if they did that. */
  ghost predicate MeantToAnswer(e: Env, fs: seq<Filter>, ty: Option<GoType>, key: string, i: int) {
    || FirstMeant(e, fs, ty, key, i)
    || ((forall f <- fs :: !MeantForStruct(e, f, ty, key)) && FirstForAny(e, fs, key, i))
  }

  /** A lookup answers with the filter that is meant if and only if the key folds to the raw name of
      the first struct-field filter that is meant for it, or there is no such filter. */
  lemma SpellingsExactly(e: Env, fs: seq<Filter>, ty: Option<GoType>, key: string)
    requires ty != Some(Descriptor)
    ensures (forall i :: AnsweredBy(e, fs, ty, key, i) <==> MeantToAnswer(e, fs, ty, key, i))
            <==> forall i :: FirstMeant(e, fs, ty, key, i) ==> e.EqualFold(key, fs[i].field)
  {
    assert forall f <- fs :: AnswersForStruct(e, f, ty, key) ==> MeantForStruct(e, f, ty, key);
    if i :| FirstMeant(e, fs, ty, key, i) {
      assert MeantToAnswer(e, fs, ty, key, i);
      if e.EqualFold(key, fs[i].field) {
        assert FirstForStruct(e, fs, ty, key, i);
      } else {
        assert !AnsweredBy(e, fs, ty, key, i);
      }
    } else {
      NoneMeant(e, fs, ty, key);
    }
  }

  lemma {:induction false} NoneMeant(e: Env, fs: seq<Filter>, ty: Option<GoType>, key: string)
    requires forall i :: !FirstMeant(e, fs, ty, key, i)
    ensures forall f <- fs :: !MeantForStruct(e, f, ty, key)
  {
    if fs != [] {
      var init := fs[..|fs| - 1];
      forall i ensures !FirstMeant(e, init, ty, key, i) {
        assert FirstMeant(e, init, ty, key, i) ==> FirstMeant(e, fs, ty, key, i);
      }
      NoneMeant(e, init, ty, key);
      assert forall j :: 0 <= j < |init| ==> fs[j] == init[j] && fs[j] in init;
      assert !FirstMeant(e, fs, ty, key, |init|);
    }
  }

  /** A struct-field filter alone finds a key of its struct if and only if the key folds to its name as
      it was given. */
  lemma OneStructFilter(e: Env, ty: GoType, name: string, mode: Mode, key: string)
    requires name != "" && ty != Descriptor
    ensures FilterField(e, AddFilters(e, EMPTY, [Filter(Some(ty), name, mode)]), Some(ty), key)
         == if e.fold(key) == e.fold(name) then Some(mode) else None
  {
    var f := Filter(Some(ty), name, mode);
    LookupMeaning(e, [f], Some(ty), key);
    assert f in [f];
  }

  lemma NoStructFilter(e: Env, ty: GoType, name: string, mode: Mode, other: GoType)
    requires name != ""
    ensures FilterStruct(AddFilters(e, EMPTY, [Filter(Some(ty), name, mode)]), other) == None
  {
    var f := Filter(Some(ty), name, mode);
    StructLookupMeaning(e, [f], other);
    assert f in [f];
  }

  const SAMPLE_ENV := Env((v: Value) => "", (k: Scalar) => "",
                          (s: string) => if s == "AccessToken" then "accessToken" else s,
                          (s: string) => if s == "accessToken" then "access_token" else if s == "apiKey" then "api_key" else s,
                          (s: string) => s)

  /** An input on which the promise fails: a filter on the field AccessToken of a struct does not
      find access_token in that struct, while the same general filter does. */
  lemma SnakeSpellingLost(mode: Mode)
    ensures var key := "access_token";
            && FilterField(SAMPLE_ENV, AddFilters(SAMPLE_ENV, EMPTY, [NewFilter(Sample(Declared(0)), "AccessToken", mode)]), Some(Declared(0)), key) == None
            && FilterField(SAMPLE_ENV, AddFilters(SAMPLE_ENV, EMPTY, [NewFilter(NoData, "AccessToken", mode)]), Some(Declared(0)), key) == Some(mode)
  {
    var own := Filter(Some(Declared(0)), "AccessToken", mode);
    LookupMeaning(SAMPLE_ENV, [own], Some(Declared(0)), "access_token");
    assert own in [own];
    var f := Filter(None, "AccessToken", mode);
    LookupMeaning(SAMPLE_ENV, [f], Some(Declared(0)), "access_token");
    assert f in [f];
    assert AnswersForAny(SAMPLE_ENV, f, "access_token");
  }

  /** A redactor with one general filter. */
  const ON_A := AddFilter(SAMPLE_ENV, EMPTY, Filter(None, "a", Full))

  lemma KeyAHits(ty: Option<GoType>)
    ensures FilterField(SAMPLE_ENV, ON_A, ty, "a") == Some(Full)
    ensures FilterField(SAMPLE_ENV, ON_A, None, "") == None
  {
    assert ON_A.general == [Filter(None, "a", Full), Filter(None, "a", Full)];
    assert FieldHit(SAMPLE_ENV, ON_A.general[0], None, "a");
  }

  // ---- The default filters ----

  const DEFAULT_FILTERS := [
    Filter(None, "password", Full), Filter(None, "address", Full), Filter(None, "cipher", Full),
    Filter(None, "email", Partial), Filter(None, "csrf", Partial), Filter(None, "accessToken", Partial),
    Filter(None, "apiKey", Partial), Filter(None, "cvv", Partial)]

  const FULL_KEYS := ["password", "address", "cipher"]
  const PARTIAL_KEYS := ["email", "csrf", "accessToken", "access_token", "apiKey", "api_key", "cvv"]

  /** What the case conversions make of the default names, and that folding keeps them apart. */
  ghost predicate UsualSpelling(e: Env) {
    && (forall f <- DEFAULT_FILTERS :: e.camel(f.field) == f.field)
    && e.snake("accessToken") == "access_token" && e.snake("apiKey") == "api_key"
    && (forall f <- DEFAULT_FILTERS :: f.field != "accessToken" && f.field != "apiKey" ==> e.snake(f.field) == f.field)
    && forall k <- FULL_KEYS, l <- PARTIAL_KEYS :: !e.EqualFold(k, l)
  }

  predicate FoldsToOne(e: Env, key: string, names: seq<string>) {
    exists k <- names :: e.EqualFold(key, k)
  }

  lemma DefaultAnswers(e: Env, key: string, i: nat)
    requires UsualSpelling(e) && i < |DEFAULT_FILTERS| && AnswersForAny(e, DEFAULT_FILTERS[i], key)
    ensures if i < 3 then FoldsToOne(e, key, FULL_KEYS) && DEFAULT_FILTERS[i].mode == Full
            else FoldsToOne(e, key, PARTIAL_KEYS) && DEFAULT_FILTERS[i].mode == Partial
  {
    var f := DEFAULT_FILTERS[i];
    assert f in DEFAULT_FILTERS;
    assert i < 3 ==> FULL_KEYS[i] in FULL_KEYS && FULL_KEYS[i] == f.field;
    assert PARTIAL_KEYS[0] in PARTIAL_KEYS && PARTIAL_KEYS[1] in PARTIAL_KEYS && PARTIAL_KEYS[2] in PARTIAL_KEYS
           && PARTIAL_KEYS[3] in PARTIAL_KEYS && PARTIAL_KEYS[4] in PARTIAL_KEYS && PARTIAL_KEYS[5] in PARTIAL_KEYS
           && PARTIAL_KEYS[6] in PARTIAL_KEYS;
  }

  /** The filter that a default key belongs to. */
  function DefaultIndex(k: string): (i: nat)
    ensures i < |DEFAULT_FILTERS|
  {
    if k == "password" then 0 else if k == "address" then 1 else if k == "cipher" then 2
    else if k == "email" then 3 else if k == "csrf" then 4 else if k in {"accessToken", "access_token"} then 5
    else if k in {"apiKey", "api_key"} then 6 else 7
  }

  lemma DefaultFieldOf(k: string)
    requires k in FULL_KEYS || k in PARTIAL_KEYS
    ensures var field := DEFAULT_FILTERS[DefaultIndex(k)].field;
            field == k || (field == "accessToken" && k == "access_token") || (field == "apiKey" && k == "api_key")
  {
  }

  lemma DefaultKeyAnswered(e: Env, key: string, k: string)
    requires UsualSpelling(e) && (k in FULL_KEYS || k in PARTIAL_KEYS) && e.EqualFold(key, k)
    ensures AnswersForAny(e, DEFAULT_FILTERS[DefaultIndex(k)], key)
  {
    DefaultFieldOf(k);
    DefaultFilterAnswers(e, DEFAULT_FILTERS[DefaultIndex(k)], key, k);
  }

  lemma DefaultFilterAnswers(e: Env, f: Filter, key: string, k: string)
    requires UsualSpelling(e) && f in DEFAULT_FILTERS && e.EqualFold(key, k)
    requires f.field == k || (f.field == "accessToken" && k == "access_token") || (f.field == "apiKey" && k == "api_key")
    ensures AnswersForAny(e, f, key)
  {
  }

  /** General filters only, and every one that answers has the mode. */
  ghost predicate AnswersAgree(e: Env, fs: seq<Filter>, key: string, mode: Option<Mode>) {
    && (forall f <- fs :: f.ty.None?)
    && (forall i :: 0 <= i < |fs| && AnswersForAny(e, fs[i], key) ==> Some(fs[i].mode) == mode)
    && (mode.Some? ==> exists i :: 0 <= i < |fs| && AnswersForAny(e, fs[i], key))
  }

  lemma ModeOfAnswers(e: Env, fs: seq<Filter>, ty: Option<GoType>, key: string, mode: Option<Mode>)
    requires AnswersAgree(e, fs, key, mode)
    ensures FilterField(e, AddFilters(e, EMPTY, fs), ty, key) == mode
  {
    LookupMeaning(e, fs, ty, key);
  }

  /** The mode that the default redactor redacts a key in. */
  function DefaultMode(e: Env, key: string): Option<Mode> {
    if FoldsToOne(e, key, FULL_KEYS) then Some(Full) else if FoldsToOne(e, key, PARTIAL_KEYS) then Some(Partial) else None
  }

  lemma NotBoth(e: Env, key: string)
    requires UsualSpelling(e)
    ensures !(FoldsToOne(e, key, FULL_KEYS) && FoldsToOne(e, key, PARTIAL_KEYS))
  {
    if k, l :| k in FULL_KEYS && l in PARTIAL_KEYS && e.EqualFold(key, k) && e.EqualFold(key, l) {
      assert e.EqualFold(k, l);
    }
  }

  lemma DefaultAnswered(e: Env, key: string) returns (i: nat)
    requires UsualSpelling(e) && DefaultMode(e, key).Some?
    ensures i < |DEFAULT_FILTERS| && AnswersForAny(e, DEFAULT_FILTERS[i], key)
  {
    var names := if FoldsToOne(e, key, FULL_KEYS) then FULL_KEYS else PARTIAL_KEYS;
    var k :| k in names && e.EqualFold(key, k);
    DefaultKeyAnswered(e, key, k);
    i := DefaultIndex(k);
  }

  /** The default redactor redacts fully under password, address and cipher only. Under csrf, the access
      token, the API key and cvv it redacts partially, although they are documented as fully redacted. */
  lemma DefaultModes(e: Env, ty: Option<GoType>, key: string)
    requires UsualSpelling(e)
    ensures FilterField(e, AddFilters(e, EMPTY, DEFAULT_FILTERS), ty, key) == DefaultMode(e, key)
  {
    DefaultsAgree(e, key);
    ModeOfAnswers(e, DEFAULT_FILTERS, ty, key, DefaultMode(e, key));
  }

  lemma DefaultAnswerMode(e: Env, key: string, i: nat)
    requires UsualSpelling(e) && i < |DEFAULT_FILTERS| && AnswersForAny(e, DEFAULT_FILTERS[i], key)
    ensures Some(DEFAULT_FILTERS[i].mode) == DefaultMode(e, key)
  {
    NotBoth(e, key);
    DefaultAnswers(e, key, i);
  }

  lemma DefaultsAgree(e: Env, key: string)
    requires UsualSpelling(e)
    ensures AnswersAgree(e, DEFAULT_FILTERS, key, DefaultMode(e, key))
  {
    DefaultsGeneral();
    DefaultAnswersMode(e, key);
    if DefaultMode(e, key).Some? {
      var i := DefaultAnswered(e, key);
    }
  }

  lemma DefaultsGeneral()
    ensures forall f <- DEFAULT_FILTERS :: f.ty.None?
  {
  }

  lemma DefaultAnswersMode(e: Env, key: string)
    requires UsualSpelling(e)
    ensures forall i :: 0 <= i < |DEFAULT_FILTERS| && AnswersForAny(e, DEFAULT_FILTERS[i], key)
              ==> Some(DEFAULT_FILTERS[i].mode) == DefaultMode(e, key)
  {
    forall i: nat | i < |DEFAULT_FILTERS| && AnswersForAny(e, DEFAULT_FILTERS[i], key)
      ensures Some(DEFAULT_FILTERS[i].mode) == DefaultMode(e, key)
    {
      DefaultAnswerMode(e, key, i);
    }
  }
}
