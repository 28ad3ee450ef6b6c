/**
 Typed operator attributes: declarations with optional defaults, and the
 resolution of the values supplied for one node against those declarations.
 */
module Attrs {
  import opened Results
  import opened CppInt

  /** `UserOpAttrType`, restricted to the kinds the operator declares. */
  datatype AttrType = AtString | AtInt32 | AtInt64 | AtBool

  /** A typed attribute value. */
  datatype AttrValue =
    | StringValue(s: string)
    | Int32Value(i: Int32)
    | Int64Value(l: Int64)
    | BoolValue(b: bool)

  function TypeOf(v: AttrValue): AttrType {
    match v
    case StringValue(_) => AtString
    case Int32Value(_) => AtInt32
    case Int64Value(_) => AtInt64
    case BoolValue(_) => AtBool
  }

  /** `.Attr(name, type)` declares a required attribute; `.Attr<T>(name, type, default)` an optional one. */
  datatype AttrDecl = AttrDecl(name: string, ty: AttrType, default: Option<AttrValue>)

  predicate Required(d: AttrDecl) {
    d.default.None?
  }

  /** No attribute name is declared twice. */
  predicate DistinctNames(decls: seq<AttrDecl>) {
    forall i, j :: 0 <= i < j < |decls| ==> decls[i].name != decls[j].name
  }

  /** Every default has the type its declaration names. */
  predicate DefaultsTyped(decls: seq<AttrDecl>) {
    forall i :: 0 <= i < |decls| && decls[i].default.Some? ==> TypeOf(decls[i].default.value) == decls[i].ty
  }

  predicate WellFormed(decls: seq<AttrDecl>) {
    DistinctNames(decls) && DefaultsTyped(decls)
  }

  function Names(decls: seq<AttrDecl>): set<string> {
    set i | 0 <= i < |decls| :: decls[i].name
  }

  /** Values supplied for one node, by attribute name. */
  type Supplied = map<string, AttrValue>

  datatype AttrError =
    | UnknownAttributes(names: set<string>)
    | TypeMismatch(name: string, expected: AttrType, actual: AttrType)
    | MissingRequired(name: string)

  /** A declaration is satisfied by a well-typed supplied value or, failing that, by its default. */
  predicate Acceptable(d: AttrDecl, supplied: Supplied) {
    if d.name in supplied then TypeOf(supplied[d.name]) == d.ty else !Required(d)
  }

  /** The value a satisfied declaration resolves to. */
  function ValueFor(d: AttrDecl, supplied: Supplied): AttrValue
    requires Acceptable(d, supplied)
  {
    if d.name in supplied then supplied[d.name] else d.default.value
  }

  /** The error an unsatisfied declaration is reported with. */
  function RejectionOf(d: AttrDecl, supplied: Supplied): AttrError
    requires !Acceptable(d, supplied)
  {
    if d.name in supplied then TypeMismatch(d.name, d.ty, TypeOf(supplied[d.name]))
    else MissingRequired(d.name)
  }

  /** Declaration `i` is the first one the supplied values do not satisfy. */
  predicate FirstRejected(decls: seq<AttrDecl>, supplied: Supplied, i: int) {
    && 0 <= i < |decls|
    && !Acceptable(decls[i], supplied)
    && forall j :: 0 <= j < i ==> Acceptable(decls[j], supplied)
  }

  /**
   Walks the declarations in order, taking the supplied value or the default
   for each, and stops at the first declaration whose value has the wrong
   type or that is required and absent.
   */
  function FillIn(decls: seq<AttrDecl>, supplied: Supplied): Result<map<string, AttrValue>, AttrError>
    decreases |decls|
  {
    if |decls| == 0 then Ok(map[])
    else
      var d := decls[0];
      if d.name in supplied && TypeOf(supplied[d.name]) != d.ty then
        Err(TypeMismatch(d.name, d.ty, TypeOf(supplied[d.name])))
      else if d.name !in supplied && d.default.None? then
        Err(MissingRequired(d.name))
      else
        var v := if d.name in supplied then supplied[d.name] else d.default.value;
        match FillIn(decls[1..], supplied)
        case Err(e) => Err(e)
        case Ok(rest) => Ok(rest[d.name := v])
  }

  lemma NamesCons(decls: seq<AttrDecl>)
    requires |decls| > 0
    ensures Names(decls) == {decls[0].name} + Names(decls[1..])
  {
    forall n | n in Names(decls) ensures n in {decls[0].name} + Names(decls[1..]) {
      var i :| 0 <= i < |decls| && decls[i].name == n;
      if i > 0 {
        assert decls[1..][i - 1].name == n;
      }
    }
  }

  /** `FillIn` succeeds exactly when every declaration is satisfied, and then binds exactly the declared names. */
  lemma {:induction false} FillInSucceeds(decls: seq<AttrDecl>, supplied: Supplied)
    ensures FillIn(decls, supplied).Ok? <==> forall i :: 0 <= i < |decls| ==> Acceptable(decls[i], supplied)
    ensures FillIn(decls, supplied).Ok? ==> FillIn(decls, supplied).value.Keys == Names(decls)
    decreases |decls|
  {
    if |decls| > 0 {
      FillInSucceeds(decls[1..], supplied);
      NamesCons(decls);
      assert forall i :: 0 < i < |decls| ==> decls[i] == decls[1..][i - 1];
    }
  }

  /** With distinct names, each declared name is bound to its supplied value or its default. */
  lemma {:induction false} FillInValues(decls: seq<AttrDecl>, supplied: Supplied)
    ensures DistinctNames(decls) && FillIn(decls, supplied).Ok? ==>
            forall i :: 0 <= i < |decls| ==>
              && decls[i].name in FillIn(decls, supplied).value
              && Acceptable(decls[i], supplied)
              && FillIn(decls, supplied).value[decls[i].name] == ValueFor(decls[i], supplied)
    decreases |decls|
  {
    if DistinctNames(decls) && FillIn(decls, supplied).Ok? && |decls| > 0 {
      var tail := decls[1..];
      assert DistinctNames(tail) by {
        assert forall i :: 0 <= i < |tail| ==> tail[i] == decls[i + 1];
      }
      FillInValues(tail, supplied);
      forall i | 0 < i < |decls|
        ensures decls[i].name != decls[0].name && decls[i] == tail[i - 1]
      {
      }
    }
  }

  /** A failing `FillIn` reports the first declaration the supplied values do not satisfy. */
  lemma {:induction false} FillInReportsFirst(decls: seq<AttrDecl>, supplied: Supplied)
    ensures FillIn(decls, supplied).Err? ==>
              exists i :: FirstRejected(decls, supplied, i) && FillIn(decls, supplied).error == RejectionOf(decls[i], supplied)
    decreases |decls|
  {
    if FillIn(decls, supplied).Err? {
      var d := decls[0];
      if !Acceptable(d, supplied) {
        assert FirstRejected(decls, supplied, 0);
      } else {
        var tail := decls[1..];
        FillInReportsFirst(tail, supplied);
        var k :| FirstRejected(tail, supplied, k) && FillIn(tail, supplied).error == RejectionOf(tail[k], supplied);
        assert forall i :: 0 < i < |decls| ==> decls[i] == tail[i - 1];
        assert FirstRejected(decls, supplied, k + 1);
      }
    }
  }

  /**
   Validation of the values supplied for one node: names nobody declared are
   rejected first (all of them together), then each declaration in order must
   find a value of its type, either supplied or by default. On success every
   declared name is bound and nothing else is.
   */
  function Resolve(decls: seq<AttrDecl>, supplied: Supplied): (r: Result<map<string, AttrValue>, AttrError>)
    ensures r.Ok? <==>
              && supplied.Keys <= Names(decls)
              && forall i :: 0 <= i < |decls| ==> Acceptable(decls[i], supplied)
    ensures r.Ok? ==> r.value.Keys == Names(decls)
    ensures r.Ok? && DistinctNames(decls) ==>
              forall i :: 0 <= i < |decls| ==> r.value[decls[i].name] == ValueFor(decls[i], supplied)
    ensures r.Ok? && WellFormed(decls) ==>
              forall i :: 0 <= i < |decls| ==> TypeOf(r.value[decls[i].name]) == decls[i].ty
    ensures r.Err? && r.error.UnknownAttributes? ==>
              r.error.names == supplied.Keys - Names(decls) != {}
    ensures r.Err? && !r.error.UnknownAttributes? ==>
              && supplied.Keys <= Names(decls)
              && exists i :: FirstRejected(decls, supplied, i) && r.error == RejectionOf(decls[i], supplied)
  {
    var unknown := supplied.Keys - Names(decls);
    if unknown != {} then Err(UnknownAttributes(unknown))
    else
      assert supplied.Keys <= Names(decls) by {
        forall n | n in supplied.Keys ensures n in Names(decls) {
          assert n !in unknown;
        }
      }
      FillInSucceeds(decls, supplied);
      FillInValues(decls, supplied);
      FillInReportsFirst(decls, supplied);
      FillIn(decls, supplied)
  }

  /** Any one declaration of a successful resolution: it was satisfied, and its name is bound to its value. */
  lemma ResolvedDecl(decls: seq<AttrDecl>, supplied: Supplied, i: int)
    requires DistinctNames(decls) && 0 <= i < |decls|
    requires Resolve(decls, supplied).Ok?
    ensures Acceptable(decls[i], supplied)
    ensures decls[i].name in Resolve(decls, supplied).value
    ensures Resolve(decls, supplied).value[decls[i].name] == ValueFor(decls[i], supplied)
  {
  }
}
