/**
 * Worked instances: the crate's example program (examples/src/main.rs) and
 * a few single declarations, each evaluated through the model.
 */
module Examples {
  import opened Wrappers
  import opened Text
  import opened Docs
  import opened Syntax
  import opened TypeNames
  import opened Resolve
  import opened Schema
  import opened Expansion
  import opened Runtime

  function Named(name: string): TypeExpr
  {
    Path([Segment(name, NoArgs)])
  }

  function OptionOf(t: TypeExpr): TypeExpr
  {
    Path([Segment("Option", AngleBracketed([TypeArg(t)]))])
  }

  const Flag1 := GlobalFlagDecl("flag1", OptionOf(Named("String")), "Dessa forma")
  /**
   * The doc comment on `impl MyTest`, as the attribute carries it, and the
   * help text it becomes. The help text is written as two literals because
   * the verifier reads the first and last characters of a concatenation
   * off its pieces, while it does not index into one long literal.
   */
  const Help := "A CLI to test" + " refactoring experiments for crate Thunder"
  const Doc := " " + Help

  const MyTest := ItemImpl([Attr("doc", EqLiteral(Doc))], Named("MyTest"), [])

  lemma NamesOfExample()
    ensures NameOf(OptionOf(Named("String"))) == Some("Option")
    ensures NameOf(Named("String")) == Some("String")
    ensures NameOf(Named("MyTest")) == Some("MyTest")
  {
    SingleSegmentName(Segment("Option", AngleBracketed([TypeArg(Named("String"))])));
    SingleSegmentName(Segment("String", NoArgs));
    SingleSegmentName(Segment("MyTest", NoArgs));
  }

  /** The flag `flag1: Option<String>` is optional, `--flag1`/`-f`, and parsed as `String`. */
  lemma ExampleFlag()
    ensures FlagDefined(Flag1)
    ensures LowerFlag(Flag1) == Done(
      FlagParts(FlagArg("flag1", Some("--flag1"), Some("-f"), true, false, "Dessa forma"),
                StoreField("flag1", OptionOf(Named("String"))),
                Conversion("flag1", Named("String"), true)),
      [])
  {
    NamesOfExample();
    assert ExtractInnerType(OptionOf(Named("String"))) == (Named("String"), []);
    assert "flag1"[..1] == "f";
    assert "-" + "flag1"[..1] == "-f";
    assert "--" + "flag1" == "--flag1";
  }

  /** The doc comment becomes the help text without its leading blank. */
  lemma ExampleAbout()
    ensures RootAbout(MyTest.attrs) == Help
  {
    assert DocValues(MyTest.attrs) == [Doc] by {
      assert MyTest.attrs[1..] == [];
    }
    assert ExtractAbout(MyTest.attrs) == Doc by {
      assert FoldFrom("\n", "", [Doc]) == Doc by {
        assert [Doc][1..] == [];
      }
    }
    TrimExample();
  }

  lemma TrimExample()
    ensures Trim(Doc) == Help
  {
    assert Help[0] == 'A' && Help[|Help| - 1] == 'r';
    TrimLeadingBlank(Help);
  }

  /**
   * `#[experiment(flag1: Option<String>: "Dessa forma")]` on a documented,
   * empty `impl MyTest`: one optional flag `--flag1`/`-f` whose conversion
   * parses into `String`, and the trimmed doc comment as the help text.
   */
  lemma ExampleProgram()
    ensures ExpandDefined([Flag1], MyTest)
    ensures Expand([Flag1], MyTest) == Done(
      Generated(
        App("MyTest", true, Help,
            [FlagArg("flag1", Some("--flag1"), Some("-f"), true, false, "Dessa forma")], []),
        [StoreField("flag1", OptionOf(Named("String")))],
        [Conversion("flag1", Named("String"), true)],
        []),
      [])
  {
    ExampleProgramShape();
    ExampleAbout();
  }

  /** The expansion of the example program with its help text left unevaluated. */
  lemma ExampleProgramShape()
    ensures ExpandDefined([Flag1], MyTest)
    ensures Expand([Flag1], MyTest) == Done(
      Generated(
        App("MyTest", true, RootAbout(MyTest.attrs),
            [FlagArg("flag1", Some("--flag1"), Some("-f"), true, false, "Dessa forma")], []),
        [StoreField("flag1", OptionOf(Named("String")))],
        [Conversion("flag1", Named("String"), true)],
        []),
      [])
  {
    SingleSegmentName(Segment("MyTest", NoArgs));
    ExampleFlags();
    ExampleFlag();
    var parts := LowerFlags([Flag1]).value;
    assert parts == [LowerFlag(Flag1).value];
    assert parts[0].arg == FlagArg("flag1", Some("--flag1"), Some("-f"), true, false, "Dessa forma");
    assert FlagArgsOf(parts) == [FlagArg("flag1", Some("--flag1"), Some("-f"), true, false, "Dessa forma")];
    assert FieldsOf(parts) == [StoreField("flag1", OptionOf(Named("String")))];
    assert FlagConversionsOf(parts) == [Conversion("flag1", Named("String"), true)];
    var noItems: seq<ImplItem> := [];
    assert LoweredItems(noItems) == [];
    assert LowerItems(noItems) == Done([], []);
    var ms: seq<MethodParts> := [];
    assert SubcommandsOf(ms) == [];
    assert ArmsOf(ms) == [];
    assert Expand([Flag1], MyTest) == Done(
      Generated(App("MyTest", true, RootAbout(MyTest.attrs), FlagArgsOf(parts), SubcommandsOf(ms)),
                FieldsOf(parts), FlagConversionsOf(parts), ArmsOf(ms)),
      [] + []);
  }

  /** The flag loop over the single declaration `flag1`. */
  lemma ExampleFlags()
    ensures forall i :: 0 <= i < |[Flag1]| ==> FlagDefined([Flag1][i])
    ensures LowerFlags([Flag1]) == Done([LowerFlag(Flag1).value], [])
  {
    ExampleFlag();
    LowerOneFlag(Flag1);
  }

  const Hello := Method("hello", [], [Captured(IdentPat("name"), OptionOf(Named("String")))])
  const HelloArm := Arm("hello", [Conversion("name", Named("String"), true)])

  /** `fn hello(name: Option<String>)` becomes subcommand `hello` with the optional argument `name`. */
  lemma ExampleHello()
    ensures ItemDefined(Hello)
    ensures LowerItem(Hello) == Done(
      Some(MethodParts(SubcommandSpec("hello", "", [SubArg("name", false)]), HelloArm)), [])
  {
    NamesOfExample();
    assert ExtractInnerType(OptionOf(Named("String"))) == (Named("String"), []);
    var inputs := Hello.inputs;
    var none: seq<FnInput> := [];
    assert inputs[1..] == none;
    assert LowerInputs(none) == Done([], []);
    var r := LowerInputs(inputs);
    assert LowerInput(inputs[0]) == Done(Some(InputParts(SubArg("name", false), Conversion("name", Named("String"), true))), []);
    assert r.Done? && r.diagnostics == [];
    assert r.value == [InputParts(SubArg("name", false), Conversion("name", Named("String"), true))];
    assert ExtractAbout([]) == "";
    assert ArgsOf(r.value) == [SubArg("name", false)];
    assert ConversionsOf(r.value) == [Conversion("name", Named("String"), true)];
  }

  /**
   * Dispatching `hello` calls `hello(None)` when `name` was not given and
   * `hello(Some("world"))` when it was given as `world`.
   */
  lemma ExampleHelloDispatch(parse: (TypeExpr, string) -> Option<string>)
    requires forall s :: parse(Named("String"), s) == Some(s)
    ensures Dispatch([HelloArm], Some(SubMatches("hello", map[])), parse)
      == Invoke(Call("hello", [OptionalValue(None)]))
    ensures Dispatch([HelloArm], Some(SubMatches("hello", map["name" := "world"])), parse)
      == Invoke(Call("hello", [OptionalValue(Some("world"))]))
  {
    assert FindArm([HelloArm], "hello") == Some(0);
    var world := map["name" := "world"];
    assert parse(Named("String"), world["name"]) == Some("world");
    var c := HelloArm.conversions;
    assert Convert(c[0], world, parse) == Some(OptionalValue(Some("world")));
    var present := ConvertAll(c, world, parse);
    assert present.Some? && |present.value| == 1 && present.value[0] == OptionalValue(Some("world"));
    assert present.value == [OptionalValue(Some("world"))];
    var absent := ConvertAll(c, map[], parse);
    assert Convert(c[0], map[], parse) == Some(OptionalValue(None));
    assert absent.Some? && |absent.value| == 1 && absent.value[0] == OptionalValue(None);
    assert absent.value == [OptionalValue(None)];
  }

  const Add := Method("add", [], [Captured(IdentPat("x"), Named("i32")), Captured(IdentPat("y"), Named("i32"))])
  const AddArm := Arm("add", [Conversion("x", Named("i32"), false), Conversion("y", Named("i32"), false)])

  /** `fn add(x: i32, y: i32)` becomes an arm that converts two required values. */
  lemma ExampleAdd()
    ensures ItemDefined(Add)
    ensures LowerItem(Add).Done? && LowerItem(Add).value.Some?
    ensures LowerItem(Add).value.value.arm == AddArm
  {
    SingleSegmentName(Segment("i32", NoArgs));
    assert !IsOptional(Named("i32"));
    assert ExtractInnerType(Named("i32")) == (Named("i32"), []);
    var inputs := Add.inputs;
    var px := InputParts(SubArg("x", true), Conversion("x", Named("i32"), false));
    var py := InputParts(SubArg("y", true), Conversion("y", Named("i32"), false));
    assert LowerInput(inputs[0]) == Done(Some(px), []);
    assert LowerInput(inputs[1]) == Done(Some(py), []);
    var rs := LoweredInputs(inputs);
    assert rs == [Done(Some(px), []), Done(Some(py), [])];
    assert rs[1..][1..] == [];
    assert Collect(rs[1..][1..]) == Done([], []);
    assert rs[1..][0] == Done(Some(py), []) && [py] + [] == [py];
    assert Collect(rs[1..]) == Done([py], []);
    assert [px] + [py] == [px, py];
    var r := LowerInputs(inputs);
    assert r == Collect(rs) == Done([px, py], []);
    assert ConversionsOf(r.value) == AddArm.conversions;
  }

  /** `fn add(x: i32, y: i32)` with `y` missing from the matches: the run panics, `add` is not called. */
  lemma ExampleMissingRequired(parse: (TypeExpr, string) -> Option<int>)
    requires parse(Named("i32"), "1") == Some(1)
    ensures ItemDefined(Add) && LowerItem(Add).Done? && LowerItem(Add).value.Some?
    ensures Dispatch([LowerItem(Add).value.value.arm], Some(SubMatches("add", map["x" := "1"])), parse).ConversionPanic?
  {
    ExampleAdd();
    AddArmMissingY(parse);
  }

  /** The arm of `add` panics when `y` is missing. */
  lemma AddArmMissingY(parse: (TypeExpr, string) -> Option<int>)
    ensures Dispatch([AddArm], Some(SubMatches("add", map["x" := "1"])), parse).ConversionPanic?
  {
    var arms := [AddArm];
    assert FindArm(arms, "add") == Some(0);
    assert Convert(arms[0].conversions[1], map["x" := "1"], parse).None?;
  }

  /** A `&mut String` parameter resolves to `&String` and is reported once. */
  lemma ExampleMutableReference()
    ensures ExtractInnerType(Ref(true, false, Named("String"))) == (Ref(false, false, Named("String")), [MutableArgument])
  {
    NamesOfExample();
    assert !IsOptional(Named("String"));
    assert ExtractInnerType(Named("String")) == (Named("String"), []);
    assert [MutableArgument] + [] + [] == [MutableArgument];
  }

  /** `std::option::Option<String>` is not the optional wrapper: it stays as declared. */
  lemma ExampleQualifiedOption()
    ensures var t := Path([Segment("std", NoArgs), Segment("option", NoArgs),
                           Segment("Option", AngleBracketed([TypeArg(Named("String"))]))]);
      !IsOptional(t) && ExtractInnerType(t) == (t, [])
  {
    var t := Path([Segment("std", NoArgs), Segment("option", NoArgs),
                   Segment("Option", AngleBracketed([TypeArg(Named("String"))]))]);
    OptionIffSingleOptionSegment(t);
  }
}
