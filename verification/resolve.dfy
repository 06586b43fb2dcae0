/**
 * `extract_inner_type` (src/lib.rs:107-153): the type a matched string is
 * parsed into. `Option` layers are stripped, references are rebuilt as plain
 * `&`, and unsupported shapes are reported while resolution still yields a type.
 */
module Resolve {
  import opened Syntax
  import opened TypeNames

  /**
   * The arguments of a path's last segment, which is where the source looks
   * for the `Option` type argument; a path without segments has none.
   */
  function LastArgs(segs: seq<Segment>): PathArgs
  {
    if |segs| == 0 then NoArgs else segs[|segs| - 1].args
  }

  /**
   * The types on which resolution does not panic: every path has a segment
   * (`last().unwrap()`), and every `Option<...>` met on the way has at least
   * one generic argument (`first().unwrap()`).
   */
  predicate Resolvable(t: TypeExpr)
  {
    match t
    case Path(segs) =>
      && |segs| > 0
      && (IsOptional(t) ==>
            match segs[|segs| - 1].args
            case AngleBracketed(a) => |a| > 0 && (a[0].TypeArg? ==> Resolvable(a[0].ty))
            case _ => true)
    case Ref(_, _, e) => Resolvable(e)
    case OtherType => true
  }

  /** A path named `Option` whose last segment's first generic argument is a type: the layer resolution strips. */
  predicate StrippableOption(t: TypeExpr)
  {
    && t.Path?
    && IsOptional(t)
    && LastArgs(t.segments).AngleBracketed?
    && |LastArgs(t.segments).args| > 0
    && LastArgs(t.segments).args[0].TypeArg?
  }

  /** The type argument of a strippable `Option` layer. */
  function OptionArg(t: TypeExpr): TypeExpr
    requires StrippableOption(t)
  {
    LastArgs(t.segments).args[0].ty
  }

  /** An `Option` path whose last segment has no angle-bracketed arguments: reported as unsupported. */
  predicate BareOption(t: TypeExpr)
  {
    t.Path? && IsOptional(t) && !LastArgs(t.segments).AngleBracketed?
  }

  /** The result shape of resolution: plain references down to something that is not a strippable `Option`. */
  predicate Resolved(t: TypeExpr)
  {
    match t
    case Ref(m, l, e) => !m && !l && Resolved(e)
    case Path(_) => !StrippableOption(t)
    case OtherType => true
  }

  /**
   * `extract_inner_type`: the resolved type and the diagnostics emitted on the
   * way, in emission order. The result is always in resolved form and can
   * itself be resolved.
   */
  function ExtractInnerType(t: TypeExpr): (r: (TypeExpr, seq<Diagnostic>))
    requires Resolvable(t)
    ensures Resolved(r.0) && Resolvable(r.0)
  {
    match t
    case Path(segs) =>
      if IsOptional(t) then
        match segs[|segs| - 1].args
        case AngleBracketed(a) =>
          (match a[0]
           case TypeArg(u) => ExtractInnerType(u)
           case NonTypeArg => (t, []))
        case _ => (t, [TypeNotSupported])
      else (t, [])
    case Ref(m, l, e) =>
      var inner := ExtractInnerType(e);
      (Ref(false, false, inner.0),
       (if m then [MutableArgument] else []) + (if l then [LifetimeArgument] else []) + inner.1)
    case OtherType => (t, [TypeNotSupported])
  }

  // ---------------------------------------------------------------------------
  // The resolution spine: the nodes resolution walks through, read directly off
  // the declared type. Resolution is characterised by it below.
  // ---------------------------------------------------------------------------

  /** Where resolution stops: under every reference and every strippable `Option` layer. */
  function SpineLeaf(t: TypeExpr): TypeExpr
    requires Resolvable(t)
  {
    if t.Ref? then SpineLeaf(t.elem)
    else if StrippableOption(t) then SpineLeaf(OptionArg(t))
    else t
  }

  /** How many references resolution passes on the way to the leaf. */
  function SpineRefs(t: TypeExpr): nat
    requires Resolvable(t)
  {
    if t.Ref? then 1 + SpineRefs(t.elem)
    else if StrippableOption(t) then SpineRefs(OptionArg(t))
    else 0
  }

  /** How many references on the spine are `&mut`. */
  function MutRefs(t: TypeExpr): nat
    requires Resolvable(t)
  {
    if t.Ref? then (if t.mutable then 1 else 0) + MutRefs(t.elem)
    else if StrippableOption(t) then MutRefs(OptionArg(t))
    else 0
  }

  /** How many references on the spine carry a lifetime. */
  function LifetimeRefs(t: TypeExpr): nat
    requires Resolvable(t)
  {
    if t.Ref? then (if t.lifetime then 1 else 0) + LifetimeRefs(t.elem)
    else if StrippableOption(t) then LifetimeRefs(OptionArg(t))
    else 0
  }

  /** How often `d` occurs in `ds`. */
  function Count(ds: seq<Diagnostic>, d: Diagnostic): (n: nat)
    ensures n <= |ds|
    ensures n == 0 <==> d !in ds
  {
    if |ds| == 0 then 0 else (if ds[0] == d then 1 else 0) + Count(ds[1..], d)
  }

  lemma {:induction false} CountAppend(a: seq<Diagnostic>, b: seq<Diagnostic>, d: Diagnostic)
    ensures Count(a + b, d) == Count(a, d) + Count(b, d)
    decreases |a|
  {
    if |a| > 0 {
      assert (a + b)[1..] == a[1..] + b;
      CountAppend(a[1..], b, d);
    } else {
      assert a + b == b;
    }
  }

  /** A leaf resolution cannot handle: neither a path nor a reference, or an `Option` without `<...>`. */
  predicate UnsupportedLeaf(t: TypeExpr)
  {
    t.OtherType? || BareOption(t)
  }

  /** `n` plain references around `leaf`. */
  function PlainRefs(n: nat, leaf: TypeExpr): TypeExpr
  {
    if n == 0 then leaf else Ref(false, false, PlainRefs(n - 1, leaf))
  }

  lemma StrippableUnfolds(t: TypeExpr)
    requires Resolvable(t) && StrippableOption(t)
    ensures Resolvable(OptionArg(t))
    ensures ExtractInnerType(t) == ExtractInnerType(OptionArg(t))
  {
  }

  lemma NotStrippablePath(t: TypeExpr)
    requires Resolvable(t) && t.Path? && !StrippableOption(t)
    ensures ExtractInnerType(t) == (t, if BareOption(t) then [TypeNotSupported] else [])
  {
  }

  /**
   * Resolution keeps the number of references on the spine, makes each of
   * them a plain `&`, and ends at the spine's leaf: every `Option` layer
   * wherever it sits on the spine is gone.
   */
  lemma {:induction false} ResolveIsPlainRefsToLeaf(t: TypeExpr)
    requires Resolvable(t)
    ensures ExtractInnerType(t).0 == PlainRefs(SpineRefs(t), SpineLeaf(t))
  {
    if t.Ref? {
      ResolveRefStep(t);
      ResolveIsPlainRefsToLeaf(t.elem);
    } else if StrippableOption(t) {
      ResolveStripStep(t);
      ResolveIsPlainRefsToLeaf(OptionArg(t));
    } else {
      ResolveLeafStep(t);
    }
  }

  /** Under a reference, resolution makes the reference plain and goes on with its target. */
  lemma ResolveRefStep(t: TypeExpr)
    requires Resolvable(t) && t.Ref?
    ensures Resolvable(t.elem)
    ensures ExtractInnerType(t).0 == Ref(false, false, ExtractInnerType(t.elem).0)
    ensures SpineRefs(t) == 1 + SpineRefs(t.elem) && SpineLeaf(t) == SpineLeaf(t.elem)
  {
  }

  /** A strippable `Option<T>` resolves as `T`, with the same spine. */
  lemma ResolveStripStep(t: TypeExpr)
    requires Resolvable(t) && StrippableOption(t)
    ensures Resolvable(OptionArg(t))
    ensures ExtractInnerType(t).0 == ExtractInnerType(OptionArg(t)).0
    ensures SpineRefs(t) == SpineRefs(OptionArg(t)) && SpineLeaf(t) == SpineLeaf(OptionArg(t))
  {
    StrippableUnfolds(t);
  }

  /** Any other type is its own leaf and resolves to itself. */
  lemma ResolveLeafStep(t: TypeExpr)
    requires Resolvable(t) && !t.Ref? && !StrippableOption(t)
    ensures SpineRefs(t) == 0 && SpineLeaf(t) == t
    ensures ExtractInnerType(t).0 == t
  {
    if t.Path? {
      NotStrippablePath(t);
    }
  }

  /**
   * One `MutableArgument` per `&mut` and one `LifetimeArgument` per lifetime
   * on the spine (resolution goes on past both), one `TypeNotSupported` for
   * an unsupported leaf, and nothing else.
   */
  lemma {:induction false} ResolveDiagnostics(t: TypeExpr)
    requires Resolvable(t)
    ensures var ds := ExtractInnerType(t).1;
      && Count(ds, MutableArgument) == MutRefs(t)
      && Count(ds, LifetimeArgument) == LifetimeRefs(t)
      && Count(ds, TypeNotSupported) == (if UnsupportedLeaf(SpineLeaf(t)) then 1 else 0)
      && |ds| == MutRefs(t) + LifetimeRefs(t) + (if UnsupportedLeaf(SpineLeaf(t)) then 1 else 0)
  {
    if t.Ref? {
      ResolveDiagnostics(t.elem);
      var m: seq<Diagnostic> := if t.mutable then [MutableArgument] else [];
      var l: seq<Diagnostic> := if t.lifetime then [LifetimeArgument] else [];
      var inner := ExtractInnerType(t.elem).1;
      assert ExtractInnerType(t).1 == m + l + inner;
      forall d | d in {MutableArgument, LifetimeArgument, TypeNotSupported}
        ensures Count(m + l + inner, d) == Count(m, d) + Count(l, d) + Count(inner, d)
      {
        CountAppend(m + l, inner, d);
        CountAppend(m, l, d);
      }
    } else if StrippableOption(t) {
      StrippableUnfolds(t);
      ResolveDiagnostics(OptionArg(t));
    } else if t.Path? {
      NotStrippablePath(t);
    }
  }

  /** A type already in resolved form resolves to itself. */
  lemma {:induction false} ResolveFixesResolved(t: TypeExpr)
    requires Resolvable(t) && Resolved(t)
    ensures ExtractInnerType(t).0 == t
    ensures forall d :: d in ExtractInnerType(t).1 ==> d == TypeNotSupported
  {
    if t.Ref? {
      ResolveFixesResolved(t.elem);
    } else if t.Path? {
      NotStrippablePath(t);
    }
  }

  /**
   * Resolving a resolved type again changes nothing, and the second pass can
   * only repeat the unsupported-type report: no reference it meets is `&mut`
   * or carries a lifetime.
   */
  lemma ResolveIdempotent(t: TypeExpr)
    requires Resolvable(t)
    ensures ExtractInnerType(ExtractInnerType(t).0).0 == ExtractInnerType(t).0
    ensures forall d :: d in ExtractInnerType(ExtractInnerType(t).0).1 ==> d == TypeNotSupported
  {
    ResolveFixesResolved(ExtractInnerType(t).0);
  }

  /** A type resolution reports nothing about: no `&mut`, no lifetime, a supported leaf. */
  predicate CleanType(t: TypeExpr)
    requires Resolvable(t)
  {
    MutRefs(t) == 0 && LifetimeRefs(t) == 0 && !UnsupportedLeaf(SpineLeaf(t))
  }

  /** Resolution emits no diagnostic exactly on clean types. */
  lemma ResolveCleanIff(t: TypeExpr)
    requires Resolvable(t)
    ensures ExtractInnerType(t).1 == [] <==> CleanType(t)
  {
    ResolveDiagnostics(t);
  }
}
