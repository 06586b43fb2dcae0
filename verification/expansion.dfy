/**
 * The `experiment` attribute macro (src/lib.rs:155-383): from the global
 * flag declarations and the annotated `impl` block to the schema, the store
 * layout and the dispatch plan, with the diagnostics it emits. A panic of
 * the macro (`unimplemented!()` in the type-name fold, `unreachable!()` on a
 * destructuring parameter) aborts the expansion.
 */
module Expansion {
  import opened Wrappers
  import opened Text
  import opened Syntax
  import opened TypeNames
  import opened Docs
  import opened Resolve
  import opened Schema

  datatype PanicReason =
    | UnsupportedTypeName   // `name_from_type_path` on neither a path nor a reference
    | UnsupportedPattern    // a parameter bound by a pattern other than a name

  /** A stage of the expansion: its value and the diagnostics emitted so far, or a panic. */
  datatype Stage<T> = Done(value: T, diagnostics: seq<Diagnostic>) | Panicked(reason: PanicReason)

  // ---------------------------------------------------------------------------
  // Global flags (src/lib.rs:177-233)
  // ---------------------------------------------------------------------------

  /** What one flag declaration contributes: its schema argument, its store field, its conversion. */
  datatype FlagParts = FlagParts(arg: FlagArg, field: StoreField, conversion: Conversion)

  /** `&name[..1]` is defined: the name starts with a one-byte (ASCII) character. */
  predicate ShortNameDefined(name: string)
  {
    |name| > 0 && name[0] < '\U{80}'
  }

  /** The flag declarations on which the expansion does not hit an unchecked panic. */
  predicate FlagDefined(f: GlobalFlagDecl)
  {
    Resolvable(f.ty) && (IsOptional(f.ty) ==> ShortNameDefined(f.ident))
  }

  /** The body of the flag loop for one declaration. */
  function LowerFlag(f: GlobalFlagDecl): (r: Stage<FlagParts>)
    requires FlagDefined(f)
    ensures r.Panicked? <==> NameOf(f.ty).None?
    ensures r.Done? ==> r.diagnostics == ExtractInnerType(f.ty).1
  {
    var (target, diagnostics) := ExtractInnerType(f.ty);
    match NameOf(f.ty)
    case None => Panicked(UnsupportedTypeName)
    case Some(tyName) =>
      var optional := tyName == "Option";
      var arg :=
        if optional then
          FlagArg(f.ident, Some("--" + f.ident), Some("-" + f.ident[..1]), true, false, f.desc)
        else
          FlagArg(f.ident, None, None, true, true, f.desc);
      Done(FlagParts(arg, StoreField(f.ident, f.ty), Conversion(f.ident, target, optional)), diagnostics)
  }

  /** A flag's outcome as a loop entry: every declaration that does not panic contributes. */
  function Present<T>(s: Stage<T>): (r: Stage<Option<T>>)
    ensures r.Panicked? <==> s.Panicked?
    ensures r.Done? ==> r.value == Some(s.value) && r.diagnostics == s.diagnostics
  {
    match s
    case Panicked(p) => Panicked(p)
    case Done(v, ds) => Done(Some(v), ds)
  }

  /** The per-declaration outcomes of the flag loop, in declaration order. */
  function LoweredFlags(flags: seq<GlobalFlagDecl>): (r: seq<Stage<Option<FlagParts>>>)
    requires forall i :: 0 <= i < |flags| ==> FlagDefined(flags[i])
    ensures |r| == |flags| && forall i :: 0 <= i < |flags| ==> r[i] == Present(LowerFlag(flags[i]))
  {
    seq(|flags|, i requires 0 <= i < |flags| && FlagDefined(flags[i]) => Present(LowerFlag(flags[i])))
  }

  /** The flag loop: the declarations in order, stopping at the first panic. */
  function LowerFlags(flags: seq<GlobalFlagDecl>): (r: Stage<seq<FlagParts>>)
    requires forall i :: 0 <= i < |flags| ==> FlagDefined(flags[i])
    ensures r.Panicked? <==> exists i :: 0 <= i < |flags| && LowerFlag(flags[i]).Panicked?
  {
    var rs := LoweredFlags(flags);
    assert forall i :: 0 <= i < |flags| ==> (rs[i].Panicked? <==> LowerFlag(flags[i]).Panicked?);
    Collect(rs)
  }

  /** The flag loop yields one part per declaration, in declaration order. */
  lemma LowerFlagsParts(flags: seq<GlobalFlagDecl>)
    requires forall i :: 0 <= i < |flags| ==> FlagDefined(flags[i])
    requires LowerFlags(flags).Done?
    ensures |LowerFlags(flags).value| == |flags|
    ensures forall i :: 0 <= i < |flags| ==>
      LowerFlag(flags[i]).Done? && LowerFlags(flags).value[i] == LowerFlag(flags[i]).value
  {
    var rs := LoweredFlags(flags);
    CollectAllPresent(rs);
  }

  /** The flag loop emits no diagnostic exactly when no declaration emits one. */
  lemma LowerFlagsClean(flags: seq<GlobalFlagDecl>)
    requires forall i :: 0 <= i < |flags| ==> FlagDefined(flags[i])
    requires LowerFlags(flags).Done?
    ensures LowerFlags(flags).diagnostics == [] <==>
      forall i :: 0 <= i < |flags| ==> LowerFlag(flags[i]).diagnostics == []
  {
    var rs := LoweredFlags(flags);
    assert forall i :: 0 <= i < |flags| ==> rs[i].Done? && rs[i].diagnostics == LowerFlag(flags[i]).diagnostics;
  }

  /** The flag loop over one declaration yields that declaration's part and diagnostics. */
  lemma LowerOneFlag(f: GlobalFlagDecl)
    requires FlagDefined(f) && LowerFlag(f).Done?
    ensures forall i :: 0 <= i < |[f]| ==> FlagDefined([f][i])
    ensures LowerFlags([f]) == Done([LowerFlag(f).value], LowerFlag(f).diagnostics)
  {
    var lf := LowerFlag(f);
    var rs := LoweredFlags([f]);
    assert rs[0] == Done(Some(lf.value), lf.diagnostics);
    assert rs[1..] == [];
    assert Collect(rs).Done?;
    CollectStep(rs);
    assert [lf.value] + [] == [lf.value] && lf.diagnostics + [] == lf.diagnostics;
  }

  // ---------------------------------------------------------------------------
  // The shape of the method and parameter loops
  // ---------------------------------------------------------------------------

  /** The elements of `xs` that `keep` accepts, in order. */
  function Kept<A>(xs: seq<A>, keep: A -> bool): (r: seq<A>)
    ensures |r| <= |xs|
    ensures forall k :: 0 <= k < |r| ==> keep(r[k]) && r[k] in xs
  {
    if |xs| == 0 then []
    else (if keep(xs[0]) then [xs[0]] else []) + Kept(xs[1..], keep)
  }

  /**
   * A loop over per-element outcomes, each a panic or a possibly absent
   * value with its diagnostics: the first panic, or the present values in
   * order with every diagnostic.
   */
  function Collect<T>(rs: seq<Stage<Option<T>>>): (r: Stage<seq<T>>)
    ensures r.Panicked? <==> exists i :: 0 <= i < |rs| && rs[i].Panicked?
    ensures r.Done? ==>
      (r.diagnostics == [] <==> forall i :: 0 <= i < |rs| ==> rs[i].Done? && rs[i].diagnostics == [])
  {
    if |rs| == 0 then Done([], [])
    else
      match rs[0]
      case Panicked(p) => Panicked(p)
      case Done(o, ds) =>
        var rest := Collect(rs[1..]);
        assert forall i :: 1 <= i < |rs| ==> rs[i] == rs[1..][i - 1];
        match rest
        case Panicked(p) => Panicked(p)
        case Done(vs, more) => Done((if o.Some? then [o.value] else []) + vs, ds + more)
  }

  /** When every outcome that does not panic has a value, the loop yields all of them, in order. */
  lemma {:induction false} CollectAllPresent<T>(rs: seq<Stage<Option<T>>>)
    requires forall i :: 0 <= i < |rs| ==> rs[i].Done? ==> rs[i].value.Some?
    ensures Collect(rs).Done? ==> |Collect(rs).value| == |rs|
    ensures Collect(rs).Done? ==> forall i :: 0 <= i < |rs| ==> rs[i].Done? && Collect(rs).value[i] == rs[i].value.value
  {
    if |rs| > 0 && Collect(rs).Done? {
      var rt := rs[1..];
      assert forall i :: 1 <= i < |rs| ==> rt[i - 1] == rs[i];
      assert rs[0].Done? && Collect(rt).Done?;
      CollectAllPresent(rt);
      assert Collect(rs).value == [rs[0].value.value] + Collect(rt).value;
    }
  }

  /** Outcomes that have a value exactly for the elements `keep` accepts. */
  predicate PresentWhenKept<A, T>(xs: seq<A>, keep: A -> bool, rs: seq<Stage<Option<T>>>)
  {
    |rs| == |xs| && forall i :: 0 <= i < |xs| ==> rs[i].Done? ==> (rs[i].value.Some? <==> keep(xs[i]))
  }

  /** The loop yields one value per accepted element. */
  lemma {:induction false} CollectKeptLength<A, T>(xs: seq<A>, keep: A -> bool, rs: seq<Stage<Option<T>>>)
    requires PresentWhenKept(xs, keep, rs)
    requires Collect(rs).Done?
    ensures |Collect(rs).value| == |Kept(xs, keep)|
  {
    if |xs| > 0 {
      assert forall i :: 1 <= i < |xs| ==> xs[1..][i - 1] == xs[i] && rs[1..][i - 1] == rs[i];
      assert rs[0].Done? && Collect(rs[1..]).Done?;
      CollectKeptLength(xs[1..], keep, rs[1..]);
    }
  }

  /** The position in `xs` of its `k`-th accepted element. */
  function KeptIndex<A>(xs: seq<A>, keep: A -> bool, k: nat): (i: nat)
    requires k < |Kept(xs, keep)|
    ensures i < |xs| && Kept(xs, keep)[k] == xs[i]
  {
    var head := if keep(xs[0]) then [xs[0]] else [];
    assert Kept(xs, keep) == head + Kept(xs[1..], keep);
    if keep(xs[0]) && k == 0 then 0
    else
      var k' := if keep(xs[0]) then k - 1 else k;
      assert Kept(xs, keep)[k] == Kept(xs[1..], keep)[k'];
      KeptIndex(xs[1..], keep, k') + 1
  }

  /** The `k`-th value of the loop is the value of the `k`-th accepted element's outcome. */
  lemma {:induction false} CollectKept<A, T>(xs: seq<A>, keep: A -> bool, rs: seq<Stage<Option<T>>>, k: nat)
    requires PresentWhenKept(xs, keep, rs)
    requires Collect(rs).Done? && k < |Collect(rs).value|
    ensures k < |Kept(xs, keep)|
    ensures rs[KeptIndex(xs, keep, k)].Done? && rs[KeptIndex(xs, keep, k)].value == Some(Collect(rs).value[k])
  {
    CollectKeptLength(xs, keep, rs);
    CollectStep(rs);
    PresentWhenKeptTail(xs, keep, rs);
    var xt, rt := xs[1..], rs[1..];
    var vals := Collect(rt).value;
    if keep(xs[0]) && k == 0 {
      assert KeptIndex(xs, keep, k) == 0;
    } else {
      var k' := if keep(xs[0]) then k - 1 else k;
      assert Collect(rs).value[k] == vals[k'];
      CollectKept(xt, keep, rt, k');
      assert KeptIndex(xs, keep, k) == KeptIndex(xt, keep, k') + 1;
      assert rs[KeptIndex(xs, keep, k)] == rt[KeptIndex(xt, keep, k')];
    }
  }

  /** One step of the loop: the first outcome, then the loop over the rest. */
  lemma CollectStep<T>(rs: seq<Stage<Option<T>>>)
    requires |rs| > 0 && Collect(rs).Done?
    ensures rs[0].Done? && Collect(rs[1..]).Done?
    ensures Collect(rs).value == (if rs[0].value.Some? then [rs[0].value.value] else []) + Collect(rs[1..]).value
    ensures Collect(rs).diagnostics == rs[0].diagnostics + Collect(rs[1..]).diagnostics
  {
  }

  /** Dropping the first element keeps outcomes and elements paired. */
  lemma PresentWhenKeptTail<A, T>(xs: seq<A>, keep: A -> bool, rs: seq<Stage<Option<T>>>)
    requires PresentWhenKept(xs, keep, rs) && |xs| > 0
    ensures PresentWhenKept(xs[1..], keep, rs[1..])
    ensures rs[0].Done? ==> (rs[0].value.Some? <==> keep(xs[0]))
  {
    assert forall i :: 1 <= i < |xs| ==> xs[1..][i - 1] == xs[i] && rs[1..][i - 1] == rs[i];
  }

  /** Filtering commutes with concatenation: the accepted elements keep their order. */
  lemma {:induction false} KeptAppend<A>(a: seq<A>, b: seq<A>, keep: A -> bool)
    ensures Kept(a + b, keep) == Kept(a, keep) + Kept(b, keep)
    decreases |a|
  {
    if |a| == 0 {
      assert a + b == b;
    } else {
      assert (a + b)[1..] == a[1..] + b;
      KeptAppend(a[1..], b, keep);
    }
  }

  /** One element is kept exactly when it is accepted. */
  lemma KeptSingleton<A>(x: A, keep: A -> bool)
    ensures Kept([x], keep) == if keep(x) then [x] else []
  {
    assert [x][1..] == [];
  }

  /** The kept elements are exactly the accepted elements of `xs`. */
  lemma {:induction false} KeptMembers<A>(xs: seq<A>, keep: A -> bool)
    ensures forall x :: x in Kept(xs, keep) <==> x in xs && keep(x)
  {
    if |xs| > 0 {
      KeptMembers(xs[1..], keep);
      assert xs == [xs[0]] + xs[1..];
    }
  }

  // ---------------------------------------------------------------------------
  // Methods and their parameters (src/lib.rs:235-320)
  // ---------------------------------------------------------------------------

  /** What one parameter contributes: its subcommand argument and its conversion. */
  datatype InputParts = InputParts(arg: SubArg, conversion: Conversion)

  predicate InputDefined(x: FnInput)
  {
    x.Captured? ==> Resolvable(x.ty)
  }

  /** The parameters the expansion panics on: a type it cannot name, or a destructuring pattern. */
  predicate InputPanics(x: FnInput)
  {
    x.Captured? && (NameOf(x.ty).None? || x.pat.OtherPat?)
  }

  /** The body of the parameter loop for one input; `None` for a skipped input. */
  function LowerInput(x: FnInput): (r: Stage<Option<InputParts>>)
    requires InputDefined(x)
    ensures r.Panicked? <==> InputPanics(x)
    ensures r.Done? ==> (r.value.Some? <==> x.Captured?)
    ensures r.Done? && x.Captured? ==> r.diagnostics == ExtractInnerType(x.ty).1
    ensures r.Done? && !x.Captured? ==> r.diagnostics == [UnsupportedFnArg]
  {
    match x
    case NotCaptured => Done(None, [UnsupportedFnArg])
    case Captured(pat, ty) =>
      var (target, diagnostics) := ExtractInnerType(ty);
      match NameOf(ty)
      case None => Panicked(UnsupportedTypeName)
      case Some(tyName) =>
        var optional := tyName == "Option";
        match pat
        case OtherPat => Panicked(UnsupportedPattern)
        case IdentPat(name) =>
          Done(Some(InputParts(SubArg(name, !optional), Conversion(name, target, optional))), diagnostics)
  }

  predicate IsCaptured(x: FnInput)
  {
    x.Captured?
  }

  /** The captured inputs, in order. */
  function CapturedInputs(xs: seq<FnInput>): (r: seq<FnInput>)
    ensures |r| <= |xs|
    ensures forall k :: 0 <= k < |r| ==> r[k].Captured? && r[k] in xs
    ensures forall x :: x in r <==> x in xs && x.Captured?
  {
    KeptMembers(xs, IsCaptured);
    Kept(xs, IsCaptured)
  }

  /** The per-input outcomes of the parameter loop, in input order. */
  function LoweredInputs(xs: seq<FnInput>): (r: seq<Stage<Option<InputParts>>>)
    requires forall i :: 0 <= i < |xs| ==> InputDefined(xs[i])
    ensures |r| == |xs| && forall i :: 0 <= i < |xs| ==> r[i] == LowerInput(xs[i])
  {
    seq(|xs|, i requires 0 <= i < |xs| && InputDefined(xs[i]) => LowerInput(xs[i]))
  }

  /** The parameter loop: one argument per captured input, in order, stopping at the first panic. */
  function LowerInputs(xs: seq<FnInput>): (r: Stage<seq<InputParts>>)
    requires forall i :: 0 <= i < |xs| ==> InputDefined(xs[i])
    ensures r.Panicked? <==> exists i :: 0 <= i < |xs| && InputPanics(xs[i])
  {
    var rs := LoweredInputs(xs);
    assert forall i :: 0 <= i < |xs| ==> (rs[i].Panicked? <==> InputPanics(xs[i]));
    Collect(rs)
  }

  /** The parameter loop yields one argument per captured input. */
  lemma LowerInputsLength(xs: seq<FnInput>)
    requires forall i :: 0 <= i < |xs| ==> InputDefined(xs[i])
    requires LowerInputs(xs).Done?
    ensures |LowerInputs(xs).value| == |CapturedInputs(xs)|
  {
    var rs := LoweredInputs(xs);
    assert PresentWhenKept(xs, IsCaptured, rs);
    CollectKeptLength(xs, IsCaptured, rs);
  }

  /** Argument `k` of the parameter loop is what the `k`-th captured input lowers to. */
  lemma LowerInputsParts(xs: seq<FnInput>, k: nat)
    requires forall i :: 0 <= i < |xs| ==> InputDefined(xs[i])
    requires LowerInputs(xs).Done? && k < |LowerInputs(xs).value|
    ensures k < |CapturedInputs(xs)|
    ensures InputDefined(CapturedInputs(xs)[k])
    ensures LowerInput(CapturedInputs(xs)[k]) == Done(Some(LowerInputs(xs).value[k]), ExtractInnerType(CapturedInputs(xs)[k].ty).1)
  {
    var rs := LoweredInputs(xs);
    assert PresentWhenKept(xs, IsCaptured, rs);
    CollectKept(xs, IsCaptured, rs, k);
    var i := KeptIndex(xs, IsCaptured, k);
    assert LowerInput(xs[i]).Done? && xs[i].Captured?;
  }

  /** The parameter loop emits no diagnostic exactly when no input emits one. */
  lemma LowerInputsClean(xs: seq<FnInput>)
    requires forall i :: 0 <= i < |xs| ==> InputDefined(xs[i])
    requires LowerInputs(xs).Done?
    ensures LowerInputs(xs).diagnostics == [] <==>
      forall i :: 0 <= i < |xs| ==> LowerInput(xs[i]).diagnostics == []
  {
    var rs := LoweredInputs(xs);
    assert forall i :: 0 <= i < |xs| ==> rs[i].Done?;
  }

  /** What one method contributes: its subcommand and its dispatch arm. */
  datatype MethodParts = MethodParts(sub: SubcommandSpec, arm: Arm)

  predicate ItemDefined(it: ImplItem)
  {
    it.Method? ==> forall k :: 0 <= k < |it.inputs| ==> InputDefined(it.inputs[k])
  }

  /** The methods the expansion panics on: one of their inputs makes it panic. */
  predicate ItemPanics(it: ImplItem)
  {
    it.Method? && exists k :: 0 <= k < |it.inputs| && InputPanics(it.inputs[k])
  }

  /** The subcommand arguments of the lowered parameters. */
  function ArgsOf(ps: seq<InputParts>): (r: seq<SubArg>)
    ensures |r| == |ps| && forall k :: 0 <= k < |ps| ==> r[k] == ps[k].arg
  {
    seq(|ps|, k requires 0 <= k < |ps| => ps[k].arg)
  }

  /** The conversions of the lowered parameters. */
  function ConversionsOf(ps: seq<InputParts>): (r: seq<Conversion>)
    ensures |r| == |ps| && forall k :: 0 <= k < |ps| ==> r[k] == ps[k].conversion
  {
    seq(|ps|, k requires 0 <= k < |ps| => ps[k].conversion)
  }

  /** The body of the method loop for one item; `None` for an item that is not a method. */
  function LowerItem(it: ImplItem): (r: Stage<Option<MethodParts>>)
    requires ItemDefined(it)
    ensures r.Panicked? <==> ItemPanics(it)
    ensures r.Done? ==> (r.value.Some? <==> it.Method?)
  {
    match it
    case OtherItem => Done(None, [])
    case Method(ident, attrs, inputs) =>
      var about := ExtractAbout(attrs);
      match LowerInputs(inputs)
      case Panicked(p) => Panicked(p)
      case Done(ps, ds) =>
        Done(Some(MethodParts(SubcommandSpec(ident, about, ArgsOf(ps)), Arm(ident, ConversionsOf(ps)))), ds)
  }

  predicate IsMethod(it: ImplItem)
  {
    it.Method?
  }

  /** The methods of the `impl` block, in order. */
  function Methods(items: seq<ImplItem>): (r: seq<ImplItem>)
    ensures |r| <= |items|
    ensures forall j :: 0 <= j < |r| ==> r[j].Method? && r[j] in items
    ensures forall it :: it in r <==> it in items && it.Method?
  {
    KeptMembers(items, IsMethod);
    Kept(items, IsMethod)
  }

  /** The per-item outcomes of the method loop, in item order. */
  function LoweredItems(items: seq<ImplItem>): (r: seq<Stage<Option<MethodParts>>>)
    requires forall j :: 0 <= j < |items| ==> ItemDefined(items[j])
    ensures |r| == |items| && forall j :: 0 <= j < |items| ==> r[j] == LowerItem(items[j])
  {
    seq(|items|, j requires 0 <= j < |items| && ItemDefined(items[j]) => LowerItem(items[j]))
  }

  /** The method loop: one subcommand and one arm per method, in order, stopping at the first panic. */
  function LowerItems(items: seq<ImplItem>): (r: Stage<seq<MethodParts>>)
    requires forall j :: 0 <= j < |items| ==> ItemDefined(items[j])
    ensures r.Panicked? <==> exists j :: 0 <= j < |items| && ItemPanics(items[j])
  {
    var rs := LoweredItems(items);
    assert forall j :: 0 <= j < |items| ==> (rs[j].Panicked? <==> ItemPanics(items[j]));
    Collect(rs)
  }

  /** The method loop yields one subcommand and arm per method. */
  lemma LowerItemsLength(items: seq<ImplItem>)
    requires forall j :: 0 <= j < |items| ==> ItemDefined(items[j])
    requires LowerItems(items).Done?
    ensures |LowerItems(items).value| == |Methods(items)|
  {
    var rs := LoweredItems(items);
    assert PresentWhenKept(items, IsMethod, rs);
    CollectKeptLength(items, IsMethod, rs);
  }

  /** Entry `j` of the method loop is what the `j`-th method lowers to. */
  lemma LowerItemsParts(items: seq<ImplItem>, j: nat)
    requires forall i :: 0 <= i < |items| ==> ItemDefined(items[i])
    requires LowerItems(items).Done? && j < |LowerItems(items).value|
    ensures j < |Methods(items)|
    ensures ItemDefined(Methods(items)[j])
    ensures LowerItem(Methods(items)[j]).Done? && LowerItem(Methods(items)[j]).value == Some(LowerItems(items).value[j])
  {
    var rs := LoweredItems(items);
    assert PresentWhenKept(items, IsMethod, rs);
    CollectKept(items, IsMethod, rs, j);
  }

  /** The method loop emits no diagnostic exactly when no item emits one. */
  lemma LowerItemsClean(items: seq<ImplItem>)
    requires forall j :: 0 <= j < |items| ==> ItemDefined(items[j])
    requires LowerItems(items).Done?
    ensures LowerItems(items).diagnostics == [] <==>
      forall j :: 0 <= j < |items| ==> LowerItem(items[j]).diagnostics == []
  {
    var rs := LoweredItems(items);
    assert forall j :: 0 <= j < |items| ==> rs[j].Done?;
  }


  // ---------------------------------------------------------------------------
  // The whole expansion (src/lib.rs:156-383)
  // ---------------------------------------------------------------------------

  /** The inputs on which the expansion hits none of the panics it does not check for. */
  predicate ExpandDefined(flags: seq<GlobalFlagDecl>, item: ItemImpl)
  {
    && (forall i :: 0 <= i < |flags| ==> FlagDefined(flags[i]))
    && (forall j :: 0 <= j < |item.items| ==> ItemDefined(item.items[j]))
  }

  function FlagArgsOf(fs: seq<FlagParts>): (r: seq<FlagArg>)
    ensures |r| == |fs| && forall i :: 0 <= i < |fs| ==> r[i] == fs[i].arg
  {
    seq(|fs|, i requires 0 <= i < |fs| => fs[i].arg)
  }

  function FieldsOf(fs: seq<FlagParts>): (r: seq<StoreField>)
    ensures |r| == |fs| && forall i :: 0 <= i < |fs| ==> r[i] == fs[i].field
  {
    seq(|fs|, i requires 0 <= i < |fs| => fs[i].field)
  }

  function FlagConversionsOf(fs: seq<FlagParts>): (r: seq<Conversion>)
    ensures |r| == |fs| && forall i :: 0 <= i < |fs| ==> r[i] == fs[i].conversion
  {
    seq(|fs|, i requires 0 <= i < |fs| => fs[i].conversion)
  }

  function SubcommandsOf(ms: seq<MethodParts>): (r: seq<SubcommandSpec>)
    ensures |r| == |ms| && forall j :: 0 <= j < |ms| ==> r[j] == ms[j].sub
  {
    seq(|ms|, j requires 0 <= j < |ms| => ms[j].sub)
  }

  function ArmsOf(ms: seq<MethodParts>): (r: seq<Arm>)
    ensures |r| == |ms| && forall j :: 0 <= j < |ms| ==> r[j] == ms[j].arm
  {
    seq(|ms|, j requires 0 <= j < |ms| => ms[j].arm)
  }

  /**
   * The macro: name the self type, run the flag loop, run the method loop,
   * and assemble the application, the store layout and the dispatch arms.
   */
  function Expand(flags: seq<GlobalFlagDecl>, item: ItemImpl): (r: Stage<Generated>)
    requires ExpandDefined(flags, item)
    ensures r.Panicked? <==>
      || NameOf(item.selfTy).None?
      || (exists i :: 0 <= i < |flags| && NameOf(flags[i].ty).None?)
      || (exists j :: 0 <= j < |item.items| && ItemPanics(item.items[j]))
    ensures r.Done? ==> r.value.app.name == NameOf(item.selfTy).value && r.value.app.subcommandRequired
  {
    match NameOf(item.selfTy)
    case None => Panicked(UnsupportedTypeName)
    case Some(implName) =>
      var about := RootAbout(item.attrs);
      match LowerFlags(flags)
      case Panicked(p) => Panicked(p)
      case Done(fs, flagDiagnostics) =>
        match LowerItems(item.items)
        case Panicked(p) => Panicked(p)
        case Done(ms, methodDiagnostics) =>
          var app := App(implName, true, about, FlagArgsOf(fs), SubcommandsOf(ms));
          Done(Generated(app, FieldsOf(fs), FlagConversionsOf(fs), ArmsOf(ms)),
               flagDiagnostics + methodDiagnostics)
  }

  /**
   * The expansion panics exactly when the self type, a flag's type or a
   * captured parameter's type is neither a path nor a reference, or a
   * parameter is bound by a destructuring pattern.
   */
  lemma ExpandPanicsIff(flags: seq<GlobalFlagDecl>, item: ItemImpl)
    requires ExpandDefined(flags, item)
    ensures Expand(flags, item).Panicked? <==>
      || NameOf(item.selfTy).None?
      || (exists i :: 0 <= i < |flags| && NameOf(flags[i].ty).None?)
      || (exists j :: 0 <= j < |item.items| && ItemPanics(item.items[j]))
  {
    if NameOf(item.selfTy).Some? && LowerFlags(flags).Done? {
      assert forall i :: 0 <= i < |flags| ==> !LowerFlag(flags[i]).Panicked?;
    }
  }

  /** The root application is named after the self type, requires a subcommand, and carries the trimmed help text. */
  lemma ExpandRoot(flags: seq<GlobalFlagDecl>, item: ItemImpl)
    requires ExpandDefined(flags, item)
    requires Expand(flags, item).Done?
    ensures var app := Expand(flags, item).value.app;
      && NameOf(item.selfTy).Some?
      && app.name == NameOf(item.selfTy).value
      && app.subcommandRequired
      && app.about == Trim(ExtractAbout(item.attrs))
  {
  }

  /**
   * Flag `i` yields schema argument `i`, store field `i` and conversion `i`:
   * an optional flag is `--name`/`-n`, takes a value and is not required; a
   * required flag takes a value, is required and has neither form; the help
   * is the declared description; the store field keeps the declared type
   * and the conversion parses into the resolved one.
   */
  lemma ExpandFlag(flags: seq<GlobalFlagDecl>, item: ItemImpl, i: nat)
    requires ExpandDefined(flags, item)
    requires Expand(flags, item).Done?
    requires i < |flags|
    ensures var g, f := Expand(flags, item).value, flags[i];
      && |g.app.flags| == |flags| && |g.fields| == |flags| && |g.populate| == |flags|
      && g.app.flags[i].name == f.ident
      && g.app.flags[i].help == f.desc
      && g.app.flags[i].takesValue
      && (g.app.flags[i].required <==> !IsOptional(f.ty))
      && (IsOptional(f.ty) ==>
            g.app.flags[i].long == Some("--" + f.ident) && g.app.flags[i].short == Some(['-', f.ident[0]]))
      && (!IsOptional(f.ty) ==> g.app.flags[i].long.None? && g.app.flags[i].short.None?)
      && g.fields[i] == StoreField(f.ident, f.ty)
      && g.populate[i] == Conversion(f.ident, ExtractInnerType(f.ty).0, IsOptional(f.ty))
  {
    var fs := LowerFlags(flags).value;
    LowerFlagsParts(flags);
    var g := Expand(flags, item).value;
    assert fs[i] == LowerFlag(flags[i]).value;
    assert g.app.flags[i] == fs[i].arg && g.fields[i] == fs[i].field && g.populate[i] == fs[i].conversion;
    LowerFlagParts(flags[i]);
  }

  lemma LowerFlagParts(f: GlobalFlagDecl)
    requires FlagDefined(f) && LowerFlag(f).Done?
    ensures var p := LowerFlag(f).value;
      && p.arg.name == f.ident
      && p.arg.help == f.desc
      && p.arg.takesValue
      && (p.arg.required <==> !IsOptional(f.ty))
      && (IsOptional(f.ty) ==> p.arg.long == Some("--" + f.ident) && p.arg.short == Some(['-', f.ident[0]]))
      && (!IsOptional(f.ty) ==> p.arg.long.None? && p.arg.short.None?)
      && p.field == StoreField(f.ident, f.ty)
      && p.conversion == Conversion(f.ident, ExtractInnerType(f.ty).0, IsOptional(f.ty))
  {
    if IsOptional(f.ty) {
      assert "-" + f.ident[..1] == ['-', f.ident[0]];
    }
  }

  /**
   * Method `j` of the block (items that are not methods skipped) yields
   * subcommand `j` and arm `j`, both named after it, with one argument and
   * one conversion per captured parameter; its help text is not trimmed.
   */
  lemma ExpandMethod(flags: seq<GlobalFlagDecl>, item: ItemImpl, j: nat)
    requires ExpandDefined(flags, item)
    requires Expand(flags, item).Done?
    requires j < |Methods(item.items)|
    ensures var g, m := Expand(flags, item).value, Methods(item.items)[j];
      && |g.app.subcommands| == |Methods(item.items)| && |g.arms| == |Methods(item.items)|
      && g.app.subcommands[j].name == m.ident
      && g.app.subcommands[j].about == ExtractAbout(m.attrs)
      && g.arms[j].subcommand == m.ident
      && |g.app.subcommands[j].args| == |CapturedInputs(m.inputs)|
      && |g.arms[j].conversions| == |CapturedInputs(m.inputs)|
  {
    var ms := LowerItems(item.items).value;
    var g := Expand(flags, item).value;
    assert g.app.subcommands == SubcommandsOf(ms) && g.arms == ArmsOf(ms);
    LowerItemsLength(item.items);
    var m := Methods(item.items)[j];
    LowerItemsParts(item.items, j);
    assert LowerItem(m).value == Some(ms[j]);
    var ps := LowerInputs(m.inputs).value;
    LowerInputsLength(m.inputs);
    assert ms[j] == MethodParts(SubcommandSpec(m.ident, ExtractAbout(m.attrs), ArgsOf(ps)), Arm(m.ident, ConversionsOf(ps)));
  }

  /**
   * Captured parameter `k` of method `j` yields an argument named after it,
   * required exactly when its type is not optional, and a conversion into
   * the resolved type.
   */
  lemma ExpandParameter(flags: seq<GlobalFlagDecl>, item: ItemImpl, j: nat, k: nat)
    requires ExpandDefined(flags, item)
    requires Expand(flags, item).Done?
    requires j < |Methods(item.items)|
    requires k < |CapturedInputs(Methods(item.items)[j].inputs)|
    ensures var g, x := Expand(flags, item).value, CapturedInputs(Methods(item.items)[j].inputs)[k];
      && j < |g.app.subcommands| && j < |g.arms|
      && k < |g.app.subcommands[j].args| && k < |g.arms[j].conversions|
      && x.Captured? && x.pat.IdentPat? && Resolvable(x.ty)
      && g.app.subcommands[j].args[k] == SubArg(x.pat.name, !IsOptional(x.ty))
      && g.arms[j].conversions[k] == Conversion(x.pat.name, ExtractInnerType(x.ty).0, IsOptional(x.ty))
  {
    var g := Expand(flags, item).value;
    var ms := LowerItems(item.items).value;
    assert g.app.subcommands == SubcommandsOf(ms) && g.arms == ArmsOf(ms);
    LowerItemsLength(item.items);
    LowerItemsParts(item.items, j);
    var m := Methods(item.items)[j];
    assert g.app.subcommands[j] == ms[j].sub && g.arms[j] == ms[j].arm;
    MethodParameter(m, k);
  }

  /** Captured parameter `k` of one method, as its subcommand and arm see it. */
  lemma MethodParameter(m: ImplItem, k: nat)
    requires m.Method? && ItemDefined(m) && LowerItem(m).Done?
    requires k < |CapturedInputs(m.inputs)|
    ensures var p, x := LowerItem(m).value.value, CapturedInputs(m.inputs)[k];
      && k < |p.sub.args| && k < |p.arm.conversions|
      && x.Captured? && x.pat.IdentPat? && Resolvable(x.ty)
      && p.sub.args[k] == SubArg(x.pat.name, !IsOptional(x.ty))
      && p.arm.conversions[k] == Conversion(x.pat.name, ExtractInnerType(x.ty).0, IsOptional(x.ty))
  {
    var ps := LowerInputs(m.inputs).value;
    LowerInputsLength(m.inputs);
    LowerInputsParts(m.inputs, k);
    var x := CapturedInputs(m.inputs)[k];
    assert LowerInput(x).value == Some(ps[k]);
    assert x.Captured? && x.pat.IdentPat?;
    assert ps[k] == InputParts(SubArg(x.pat.name, !IsOptional(x.ty)), Conversion(x.pat.name, ExtractInnerType(x.ty).0, IsOptional(x.ty)));
  }

  /** A parameter nothing is reported about: captured, with a clean type. */
  predicate CleanInput(x: FnInput)
    requires InputDefined(x)
  {
    x.Captured? && CleanType(x.ty)
  }

  /** An item nothing is reported about: not a method, or a method whose every input is clean. */
  predicate CleanItem(it: ImplItem)
    requires ItemDefined(it)
  {
    it.Method? ==> forall k :: 0 <= k < |it.inputs| ==> CleanInput(it.inputs[k])
  }

  lemma LowerItemCleanIff(it: ImplItem)
    requires ItemDefined(it) && LowerItem(it).Done?
    ensures LowerItem(it).diagnostics == [] <==> CleanItem(it)
  {
    if it.Method? {
      var xs := it.inputs;
      assert LowerInputs(xs).Done?;
      LowerInputsClean(xs);
      forall k | 0 <= k < |xs|
        ensures LowerInput(xs[k]).diagnostics == [] <==> CleanInput(xs[k])
      {
        assert !InputPanics(xs[k]);
        if xs[k].Captured? {
          ResolveCleanIff(xs[k].ty);
        }
      }
    }
  }

  /**
   * The expansion emits no diagnostic exactly when every flag type and every
   * parameter type is clean and every method input is a captured parameter
   * (a `self` receiver is reported).
   */
  lemma ExpandCleanIff(flags: seq<GlobalFlagDecl>, item: ItemImpl)
    requires ExpandDefined(flags, item)
    requires Expand(flags, item).Done?
    ensures Expand(flags, item).diagnostics == [] <==>
      && (forall i :: 0 <= i < |flags| ==> CleanType(flags[i].ty))
      && (forall j :: 0 <= j < |item.items| ==> CleanItem(item.items[j]))
  {
    FlagsCleanIff(flags);
    ItemsCleanIff(item.items);
    var fd, md := LowerFlags(flags).diagnostics, LowerItems(item.items).diagnostics;
    assert Expand(flags, item).diagnostics == fd + md;
    assert fd + md == [] <==> fd == [] && md == [] by {
      if fd + md == [] {
        assert |fd + md| == |fd| + |md|;
      }
    }
  }

  /** The flag loop emits no diagnostic exactly when every flag type is clean. */
  lemma FlagsCleanIff(flags: seq<GlobalFlagDecl>)
    requires forall i :: 0 <= i < |flags| ==> FlagDefined(flags[i])
    requires LowerFlags(flags).Done?
    ensures LowerFlags(flags).diagnostics == [] <==> forall i :: 0 <= i < |flags| ==> CleanType(flags[i].ty)
  {
    LowerFlagsClean(flags);
    forall i | 0 <= i < |flags|
      ensures LowerFlag(flags[i]).diagnostics == [] <==> CleanType(flags[i].ty)
    {
      ResolveCleanIff(flags[i].ty);
    }
  }

  /** The method loop emits no diagnostic exactly when every item is clean. */
  lemma ItemsCleanIff(items: seq<ImplItem>)
    requires forall j :: 0 <= j < |items| ==> ItemDefined(items[j])
    requires LowerItems(items).Done?
    ensures LowerItems(items).diagnostics == [] <==> forall j :: 0 <= j < |items| ==> CleanItem(items[j])
  {
    LowerItemsClean(items);
    forall j | 0 <= j < |items|
      ensures LowerItem(items[j]).diagnostics == [] <==> CleanItem(items[j])
    {
      assert !ItemPanics(items[j]);
      LowerItemCleanIff(items[j]);
    }
  }
}
