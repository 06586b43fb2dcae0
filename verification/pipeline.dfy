/**
 * The expansion and the run of `start` together: what the dispatch arm of a
 * method does with the matches of its subcommand, parameter by parameter.
 */
module Pipeline {
  import opened Wrappers
  import opened Syntax
  import opened TypeNames
  import opened Resolve
  import opened Schema
  import opened Expansion
  import opened Runtime

  /** The conversion the expansion derives for a captured parameter `name: ty`. */
  function ParameterConversion(x: FnInput): Conversion
    requires x.Captured? && x.pat.IdentPat? && Resolvable(x.ty)
  {
    Conversion(x.pat.name, ExtractInnerType(x.ty).0, IsOptional(x.ty))
  }

  /**
   * Selecting the subcommand of method `j` always reaches its arm (method
   * names are distinct). If every parameter converts, the method itself is
   * called with one argument per captured parameter, in order: `None` for an
   * absent optional one, `Some(parsed)` for a present optional one, the
   * parsed value for a required one. Otherwise the run panics before the call.
   */
  lemma DispatchCallsMethod<V>(flags: seq<GlobalFlagDecl>, item: ItemImpl, j: nat,
                               sub: SubMatches, parse: (TypeExpr, string) -> Option<V>)
    requires ExpandDefined(flags, item)
    requires Expand(flags, item).Done?
    requires j < |Methods(item.items)|
    requires forall j' :: 0 <= j' < j ==> Methods(item.items)[j'].ident != Methods(item.items)[j].ident
    requires sub.name == Methods(item.items)[j].ident
    ensures var m, r := Methods(item.items)[j], Dispatch(Expand(flags, item).value.arms, Some(sub), parse);
      && !r.NoArm?
      && (r.Invoke? ==>
            && r.call.handler == m.ident
            && |r.call.args| == |CapturedInputs(m.inputs)|
            && forall k :: 0 <= k < |r.call.args| ==>
                 var x := CapturedInputs(m.inputs)[k];
                 x.Captured? && x.pat.IdentPat? && Resolvable(x.ty)
                 && Some(r.call.args[k]) == Convert(ParameterConversion(x), sub.values, parse))
      && (r.ConversionPanic? <==>
            exists k :: 0 <= k < |CapturedInputs(m.inputs)|
              && var x := CapturedInputs(m.inputs)[k];
                 x.Captured? && x.pat.IdentPat? && Resolvable(x.ty)
                 && Convert(ParameterConversion(x), sub.values, parse).None?)
  {
    var m := Methods(item.items)[j];
    ArmOfMethod(flags, item, j);
    ArmConversions(flags, item, j);
    DispatchArm(Expand(flags, item).value.arms, j, CapturedInputs(m.inputs), sub, parse);
  }

  /**
   * Dispatch through an arm that the `match` selects and whose conversions
   * are those of the captured parameters `cs`, in order.
   */
  lemma DispatchArm<V>(arms: seq<Arm>, j: nat, cs: seq<FnInput>, sub: SubMatches, parse: (TypeExpr, string) -> Option<V>)
    requires FindArm(arms, sub.name) == Some(j) && j < |arms|
    requires |arms[j].conversions| == |cs|
    requires forall k :: 0 <= k < |cs| ==>
      && cs[k].Captured? && cs[k].pat.IdentPat? && Resolvable(cs[k].ty)
      && arms[j].conversions[k] == ParameterConversion(cs[k])
    ensures var r := Dispatch(arms, Some(sub), parse);
      && !r.NoArm?
      && (r.Invoke? ==>
            && r.call.handler == sub.name
            && |r.call.args| == |cs|
            && forall k :: 0 <= k < |r.call.args| ==>
                 Some(r.call.args[k]) == Convert(ParameterConversion(cs[k]), sub.values, parse))
      && (r.ConversionPanic? <==>
            exists k :: 0 <= k < |cs| && Convert(ParameterConversion(cs[k]), sub.values, parse).None?)
  {
    var r := Dispatch(arms, Some(sub), parse);
    if r.Invoke? {
      forall k | 0 <= k < |r.call.args|
        ensures Some(r.call.args[k]) == Convert(ParameterConversion(cs[k]), sub.values, parse)
      {
        assert Convert(arms[j].conversions[k], sub.values, parse) == Some(r.call.args[k]);
      }
    }
    if r.ConversionPanic? {
      var k :| 0 <= k < |arms[j].conversions| && Convert(arms[j].conversions[k], sub.values, parse).None?;
      assert Convert(ParameterConversion(cs[k]), sub.values, parse).None?;
    }
  }

  /** `FindArm` selects arm `j` for the subcommand of method `j`. */
  lemma ArmOfMethod(flags: seq<GlobalFlagDecl>, item: ItemImpl, j: nat)
    requires ExpandDefined(flags, item)
    requires Expand(flags, item).Done?
    requires j < |Methods(item.items)|
    requires forall j' :: 0 <= j' < j ==> Methods(item.items)[j'].ident != Methods(item.items)[j].ident
    ensures FindArm(Expand(flags, item).value.arms, Methods(item.items)[j].ident) == Some(j)
  {
    var arms := Expand(flags, item).value.arms;
    var name := Methods(item.items)[j].ident;
    ExpandMethod(flags, item, j);
    forall j' | 0 <= j' < j
      ensures arms[j'].subcommand != name
    {
      ExpandMethod(flags, item, j');
    }
    FindArmFirst(arms, name, j);
  }

  /** Arm `j` holds the conversions of method `j`'s captured parameters, in order. */
  lemma ArmConversions(flags: seq<GlobalFlagDecl>, item: ItemImpl, j: nat)
    requires ExpandDefined(flags, item)
    requires Expand(flags, item).Done?
    requires j < |Methods(item.items)|
    ensures var cs := CapturedInputs(Methods(item.items)[j].inputs);
      && j < |Expand(flags, item).value.arms|
      && |Expand(flags, item).value.arms[j].conversions| == |cs|
      && forall k :: 0 <= k < |cs| ==>
           && cs[k].Captured? && cs[k].pat.IdentPat? && Resolvable(cs[k].ty)
           && Expand(flags, item).value.arms[j].conversions[k] == ParameterConversion(cs[k])
  {
    var arms := Expand(flags, item).value.arms;
    ExpandMethod(flags, item, j);
    var m := Methods(item.items)[j];
    var cs := CapturedInputs(m.inputs);
    forall k | 0 <= k < |cs|
      ensures cs[k].Captured? && cs[k].pat.IdentPat? && Resolvable(cs[k].ty)
      ensures arms[j].conversions[k] == ParameterConversion(cs[k])
    {
      ExpandParameter(flags, item, j, k);
    }
  }
}
