# thunder `experiment` macro — a Dafny model

This project models the compile-time transformation performed by the
`experiment` attribute macro of the `experiments` crate (the prototype of
*thunder*). The macro takes two inputs: a list of global flag declarations
`name: Type: "help"`, and an `impl` block of handler methods. From them it
derives two things:

- a command-line schema: the root application, one argument per global
  flag, and one subcommand per method with one argument per parameter;
- the generated `start()` routine. It creates an empty global flag store,
  converts the matched text of every flag into its field, publishes the
  store, and then dispatches to the selected subcommand's method with
  converted arguments.

The model is built from pure functions over small datatypes:

- `Syntax`: the Rust syntax the macro inspects. Types are paths, references
  or other shapes. Attributes are `= "literal"` or something else. Method
  inputs are captured `pattern: Type` parameters or receivers.
- `TypeNames`: `name_from_type_path` and the optionality test built on it.
- `Docs`: `extract_about`.
- `Resolve`: `extract_inner_type`, characterised by the *resolution spine*.
  The spine is the chain of references and `Option<…>` layers that
  resolution walks through.
- `Expansion`: the macro itself (`Expand`). It covers the flag loop, the
  method loop, the diagnostics the macro emits, and the panics that abort
  it.
- `Schema`: the generated artifacts, as structured values instead of token
  text.
- `Runtime`: the generated code at run time. This covers conversion of
  matched text, the store and its accessors, `match` dispatch, and the
  `start` sequence together with its ordering invariant.
- `Pipeline`: expansion and dispatch combined.
- `Examples`: the crate's example program and a few single declarations,
  evaluated through the model.

Abstractions. The argument parser's match result is a map from argument
name to text, plus the optional selected subcommand with its own map.
`str::parse::<T>` is a function parameter `(TypeExpr, string) -> Option<V>`
that the model never interprets. The process-wide `static mut` store is a
`Global` value, `Unpublished` until `start` publishes it. A panic of the
macro (`unimplemented!()`, `unreachable!()`) is a `Panicked` stage. A panic
at run time (`unwrap`/`expect`) is a `None` conversion, and it ends the run.

The model follows the code as written, including these behaviours a reader
may not expect:

- An accessor returns the flag's declared type, so an optional flag's
  accessor returns the `Option` itself. Reading an optional flag that was
  not given yields `None`; it does not panic.
- Optionality is not computed by resolution. It is the separate test
  `name_from_type_path(ty) == "Option"`, which looks through references.
  Nested `Option<Option<T>>` is stripped down to `T`.
- A parameter bound by a pattern other than a plain name makes the macro
  panic (`unreachable!()`) rather than only report an error.
- The join used for type names and help text drops empty parts that come
  before the first non-empty one. It also drops their separators. Any
  attribute of the form `#[name = "literal"]` counts as documentation, not
  only `doc`.

## Model

| member | source | states |
|---|---|---|
| Text.FoldJoin | src/lib.rs:78-84 | the accumulator fold equals the plain join of the parts after their leading empty parts are dropped; when all parts are non-empty it is exactly the join; it is empty iff every part is empty |
| Text.FoldIsJoin | src/lib.rs:98-104 | for every part list, folding from the empty string equals `Join(sep, DropLeadingEmpty(parts))` |
| Text.FoldFromNonEmpty | src/lib.rs:79-83 | once the accumulator is non-empty, every later part is appended with the separator |
| Text.Trim | src/lib.rs:170 | `trim` yields the infix of the text between its leading and trailing Unicode whitespace; that infix is empty or starts and ends with non-whitespace |
| Text.TrimIsTrimmedFrom | src/lib.rs:170 | `trim` removes exactly the surrounding whitespace. The result is an infix of the text with only whitespace before and after it, and it neither starts nor ends with whitespace |
| Text.TrimLeadingBlank | src/lib.rs:170 | trimming text that is one blank followed by non-blank-ended, non-blank-started text gives back that text |
| Text.LeadingWhitespace | src/lib.rs:170 | the count of leading whitespace characters is a whitespace prefix followed by a non-whitespace character or the end |
| Text.TrailingWhitespace | src/lib.rs:170 | the count of trailing whitespace characters is a whitespace suffix preceded by a non-whitespace character or the start |
| TypeNames.NameOf | src/lib.rs:74-84 | the name of a path of valid identifiers is those identifiers joined by `::`, generic arguments ignored |
| TypeNames.IsOptional | src/lib.rs:182 | only a path or a reference can be optional. The full test is stated by `OptionIffSingleOptionSegment` |
| TypeNames.NameOfSeesThroughRefs | src/lib.rs:74-89 | a type's name is its referent's name under any number of references; there is no name (the `unimplemented!()` panic) exactly when the referent is neither a path nor a reference; optionality also looks through references |
| TypeNames.PathNameIsJoin | src/lib.rs:76-84 | for a path of valid identifiers, the name is the segment identifiers joined by `::` in order, ignoring generic arguments |
| TypeNames.SingleSegmentName | src/lib.rs:76-84 | a single-segment path is named by its identifier alone, whatever its generic arguments |
| TypeNames.OptionIffSingleOptionSegment | src/lib.rs:113 | a type is optional iff, under its references, it is a path with the single segment `Option`; `std::option::Option<T>` is not optional |
| Docs.DocValues | src/lib.rs:93-97 | there are at most as many literals as attributes, and none exactly when no attribute has the form `= "literal"` |
| Docs.DocValuesSingleton | src/lib.rs:95-97 | one attribute contributes its literal value when its tokens are `= "literal"`, and nothing otherwise. With `DocValuesAppend` this fixes the collected list completely |
| Docs.DocValuesAppend | src/lib.rs:93-97 | collecting literals commutes with concatenating attribute lists, so attribute order is kept |
| Docs.NonLiteralAttrIgnored | src/lib.rs:95-97 | inserting an attribute whose tokens do not parse as `= "literal"` anywhere leaves the extracted text unchanged |
| Docs.ExtractAbout | src/lib.rs:92-105 | the text is the literals joined with newlines, in order, after the leading empty ones are dropped; it is `""` iff every literal is empty, including when there are none |
| Docs.RootAbout | src/lib.rs:168-170 | the application's help text is the extracted text with its surrounding whitespace removed, as `trim` does |
| Resolve.ExtractInnerType | src/lib.rs:107-153 | resolution is defined on every type where `last().unwrap()` and `first().unwrap()` succeed; its result is in resolved form (plain references down to no strippable `Option`) and can be resolved again |
| Resolve.ResolveIsPlainRefsToLeaf | src/lib.rs:110-143 | the resolved type is exactly as many plain `&` as there are references on the spine, around the spine's leaf; every `Option<T>` layer is stripped and every other path is left unchanged |
| Resolve.ResolveRefStep | src/lib.rs:124-143 | a reference resolves to a plain `&` around the resolution of its target, and adds one reference to the spine |
| Resolve.ResolveStripStep | src/lib.rs:110-118 | a strippable `Option<T>` resolves as `T` and has the same spine |
| Resolve.ResolveLeafStep | src/lib.rs:110-149 | any other type ends the spine and resolves to itself |
| Resolve.ResolveDiagnostics | src/lib.rs:119-149 | resolution emits one mutable-argument error per `&mut` on the spine and one lifetime error per lifetime on the spine, and continues past both; it emits one unsupported-type error iff the leaf is neither a path nor a reference, or is an `Option` without `<…>`; it emits nothing else |
| Resolve.ResolveFixesResolved | src/lib.rs:107-153 | a type in resolved form resolves to itself, and the only diagnostic that can repeat is unsupported-type |
| Resolve.ResolveIdempotent | src/lib.rs:107-153 | resolving a resolved type again returns the same type and emits neither a mutable-argument nor a lifetime error |
| Resolve.ResolveCleanIff | src/lib.rs:119-149 | resolution emits no diagnostic iff the spine has no `&mut`, no lifetime and a supported leaf |
| Resolve.Count | src/lib.rs:119-149 | a diagnostic's count is zero iff it is absent |
| Resolve.CountAppend | src/lib.rs:126-142 | counting diagnostics is additive over the concatenation of emitted diagnostics |
| Expansion.LowerFlag | src/lib.rs:180-218 | a flag declaration makes the macro panic iff its type has no name; otherwise its diagnostics are those of resolving its type |
| Expansion.Collect | src/lib.rs:235-320 | the loops of the macro: a loop panics iff some element panics. Otherwise it keeps the present values in element order, and it reports nothing iff no element reports anything |
| Expansion.CollectStep | src/lib.rs:235-320 | one step of a loop: the first outcome's value, if any, comes before the values of the rest, and likewise for its diagnostics |
| Expansion.Kept | src/lib.rs:238-245 | `filter` yields no more elements than it is given, each one accepted and taken from the input |
| Expansion.KeptAppend | src/lib.rs:238-245 | filtering commutes with concatenation, so the accepted elements keep their order |
| Expansion.KeptSingleton | src/lib.rs:238-245 | one element is kept exactly when it is accepted. With `KeptAppend` this fixes the filtered list completely |
| Expansion.KeptMembers | src/lib.rs:238-245 | the kept elements are exactly the accepted elements of the input |
| Expansion.KeptIndex | src/lib.rs:238-245 | the `k`-th accepted element sits at a position of the input |
| Expansion.CollectKept | src/lib.rs:253-308 | when exactly the accepted elements contribute, the `k`-th value of the loop comes from the `k`-th accepted element |
| Expansion.CollectKeptLength | src/lib.rs:253-308 | when exactly the accepted elements contribute, the loop yields one value per accepted element |
| Expansion.CollectAllPresent | src/lib.rs:177-233 | when every element contributes, the loop yields one value per element, in order |
| Expansion.LowerFlags | src/lib.rs:177-233 | the flag loop panics iff some flag panics |
| Expansion.LowerFlagsParts | src/lib.rs:177-233 | a flag loop that does not panic yields one part per declaration, in declaration order |
| Expansion.LowerFlagsClean | src/lib.rs:177-233 | the flag loop reports nothing iff no flag reports anything |
| Expansion.LowerOneFlag | src/lib.rs:177-233 | the flag loop over one declaration yields that declaration's part and diagnostics |
| Expansion.LowerInput | src/lib.rs:257-302 | an input panics iff it is captured with an unnameable type or a destructuring pattern; a non-captured input is skipped with exactly one unsupported-argument error; a captured one reports its type's resolution diagnostics |
| Expansion.CapturedInputs | src/lib.rs:257-269 | the filtered inputs are exactly the captured inputs of the method. Their order is fixed by `KeptAppend` |
| Expansion.LowerInputs | src/lib.rs:253-308 | the parameter loop panics iff some input panics |
| Expansion.LowerInputsLength | src/lib.rs:253-308 | a parameter loop that does not panic yields exactly one part per captured input |
| Expansion.LowerInputsParts | src/lib.rs:257-308 | part `k` of the parameter loop is what the `k`-th captured input lowers to, with that input's resolution diagnostics |
| Expansion.LowerInputsClean | src/lib.rs:253-308 | the parameter loop reports nothing iff no input reports anything |
| Expansion.LowerItem | src/lib.rs:238-320 | an item panics iff it is a method with a panicking input; it contributes a subcommand iff it is a method |
| Expansion.Methods | src/lib.rs:238-245 | the filtered items are exactly the methods of the block. Their order is fixed by `KeptAppend` |
| Expansion.LowerItems | src/lib.rs:235-320 | the method loop panics iff some method panics |
| Expansion.LowerItemsLength | src/lib.rs:235-320 | a method loop that does not panic yields one subcommand-and-arm per method, with non-method items skipped |
| Expansion.LowerItemsParts | src/lib.rs:238-320 | entry `j` of the method loop is what the `j`-th method lowers to |
| Expansion.LowerItemsClean | src/lib.rs:235-320 | the method loop reports nothing iff no item reports anything |
| Expansion.Expand | src/lib.rs:155-335 | the macro panics exactly when the self type, a flag's type or a captured parameter's type has no name, or a parameter is bound by a destructuring pattern. Otherwise the application is named after the self type and requires a subcommand |
| Expansion.ExpandPanicsIff | src/lib.rs:168-283 | the expansion panics iff one of these has no type name (neither path nor reference): the self type, a flag type, or a captured parameter type; or iff a parameter is bound by a destructuring pattern |
| Expansion.ExpandRoot | src/lib.rs:168-175 | the root application is named after the self type, requires a subcommand, and carries the trimmed help text |
| Expansion.ExpandFlag | src/lib.rs:177-232 | flag `i` yields schema argument, store field and conversion `i`. Optional iff its type is named `Option`. An optional flag has `--name` and `-` plus its first character, takes a value, and is not required. A required flag takes a value, is required, and has no long or short form. The help text is the description. The field keeps the declared type; the conversion targets the resolved type |
| Expansion.LowerFlagParts | src/lib.rs:205-232 | the schema argument, store field and conversion derived from one flag, as above |
| Expansion.ExpandMethod | src/lib.rs:246-320 | the `j`-th method yields the `j`-th subcommand and the `j`-th arm. Both are named after the method. The subcommand's help is the untrimmed extracted text. There is one argument and one conversion per captured parameter |
| Expansion.ExpandParameter | src/lib.rs:270-302 | captured parameter `k` yields an argument of its name, required iff its type is not optional, and a conversion of that name into the resolved type |
| Expansion.MethodParameter | src/lib.rs:270-314 | the same for one method on its own: the `k`-th argument of its subcommand and the `k`-th conversion of its arm |
| Expansion.LowerItemCleanIff | src/lib.rs:253-308 | a method reports nothing iff every input is captured with a clean type |
| Expansion.ExpandCleanIff | src/lib.rs:177-308 | the expansion reports nothing iff every flag type and every parameter type is clean and no method has a receiver or other non-captured input |
| Expansion.FlagsCleanIff | src/lib.rs:177-218 | the flag loop reports nothing iff every flag type is clean |
| Expansion.ItemsCleanIff | src/lib.rs:235-308 | the method loop reports nothing iff every method input is captured with a clean type |
| Runtime.Convert | src/lib.rs:211-216 | an absent optional value converts to `None`, and an absent required value panics. Present text is parsed into the target type: `Some(v)` for an optional value, `v` for a required one. A parse failure panics in both cases |
| Runtime.ConvertAll | src/lib.rs:292-307 | the argument list exists iff every conversion succeeds, and then it holds each conversion's value in parameter order |
| Runtime.EmptyStore | src/lib.rs:376-380 | the new store has one field per flag, each `None` |
| Runtime.Access | src/lib.rs:187-191 | an accessor succeeds iff the store is published and the field is set; it then returns the field's value |
| Runtime.FindArm | src/lib.rs:330-334 | the selected arm is the first arm with the subcommand's name; there is none iff no arm has that name |
| Runtime.FindArmFirst | src/lib.rs:330-334 | when arm `j` is the first with the name, the match selects arm `j` |
| Runtime.Dispatch | src/lib.rs:317-335 | an unselected or unmatched subcommand does nothing. A matched one calls the handler of that name with every converted argument in order, or panics iff some conversion fails |
| Runtime.WritesOrdered | src/lib.rs:337-346 | the run's possible step sequences satisfy the ordering invariant: create, write every field in order, publish, then at most one handler call |
| Runtime.Populate | src/lib.rs:338-339 | population writes the flags' conversions in declaration order and stops at the first that panics. Every written field holds its conversion |
| Runtime.Publish | src/lib.rs:341-345 | after all writes the store is published. Only a handler the `match` invokes runs, as the last step, and it sees the published store. The run panics iff a conversion in the arm fails |
| Runtime.Start | src/lib.rs:337-358 | every run is well ordered: create, write the fields in order, publish, then at most one handler call. A failing flag conversion panics with the store unpublished and no handler run; the trace is then exactly the writes of the flags before the first one that fails. When every flag converts, the trace begins with the creation, all the field writes in order and the publication; field `i` holds flag `i`'s conversion. The run then panics iff a conversion in the selected arm fails, and it calls a handler iff dispatch invokes one. A handler sees the published store and receives dispatch's call |
| Runtime.AccessorsAfterPopulation | src/lib.rs:184-192 | after population every accessor succeeds. It returns its flag's conversion: the `Option` itself for an optional flag, the value for a required one |
| Pipeline.DispatchCallsMethod | src/lib.rs:286-319 | selecting method `j`'s subcommand always reaches its arm. If every parameter converts, the method is called with one argument per captured parameter, in order (`None`, `Some(parsed)` or the parsed value); otherwise the run panics before the call |
| Pipeline.DispatchArm | src/lib.rs:286-319 | through an arm the `match` selects, whose conversions are those of the captured parameters in order, the handler gets one converted argument per parameter, or the run panics iff one conversion fails |
| Pipeline.ArmOfMethod | src/lib.rs:317-319 | with distinct method names, the arm the match selects for method `j`'s name is arm `j` |
| Pipeline.ArmConversions | src/lib.rs:286-307 | arm `j` holds exactly the conversions of method `j`'s captured parameters, in order |
| Examples.ExampleProgram | examples/src/main.rs:9-13 | `flag1: Option<String>: "Dessa forma"` on a documented `impl MyTest` expands, with no diagnostics, to application `MyTest` with help `A CLI to test refactoring experiments for crate Thunder`, one optional flag `--flag1`/`-f` described `Dessa forma`, an `Option<String>` store field and a conversion into `String` |
| Examples.ExampleProgramShape | examples/src/main.rs:9-13 | the same expansion with the help text left as the trimmed doc comment |
| Examples.ExampleFlags | examples/src/main.rs:9 | the flag loop over the single declaration `flag1` yields its one part and no diagnostic |
| Examples.ExampleFlag | examples/src/main.rs:9 | the declaration `flag1: Option<String>` is optional, `--flag1`/`-f`, and converts into `String` |
| Examples.ExampleAbout | examples/src/main.rs:10 | the doc comment ` A CLI to test refactoring experiments for crate Thunder` becomes the help text without its leading blank |
| Examples.TrimExample | src/lib.rs:170 | trimming that doc comment drops exactly the leading blank |
| Examples.NamesOfExample | src/lib.rs:74-84 | `Option<String>`, `String` and `MyTest` are named `Option`, `String` and `MyTest` |
| Examples.ExampleHello | src/lib.rs:270-314 | `fn hello(name: Option<String>)` becomes subcommand `hello` with the non-required argument `name` |
| Examples.ExampleHelloDispatch | src/lib.rs:292 | dispatching `hello` calls `hello(None)` without a value and `hello(Some("world"))` with `world` |
| Examples.ExampleAdd | src/lib.rs:270-314 | `fn add(x: i32, y: i32)` lowers to an arm that converts two required `i32` values |
| Examples.ExampleMissingRequired | src/lib.rs:300 | dispatching the arm derived from `add(x: i32, y: i32)` with `y` missing panics before `add` is called |
| Examples.AddArmMissingY | src/lib.rs:300 | the arm of `add` panics when `y` has no value |
| Examples.ExampleMutableReference | src/lib.rs:124-143 | `&mut String` resolves to `&String` with one mutable-argument error |
| Examples.ExampleQualifiedOption | src/lib.rs:113 | `std::option::Option<String>` is not optional and resolves to itself with no error |

## Left out

- The `Synom` parsers for flag declarations and doc attributes (src/lib.rs:34-72) come from a foreign parser-combinator library. The input `expect`s that depend on them (src/lib.rs:157-158) are left out too. Declarations arrive as parsed records.
- `quote!`/`quote_spanned!` token assembly, spans and the diagnostic API. Outputs are structured values, and each diagnostic is only its kind.
- Diagnostics emitted just before a panic are lost in the model. One example is the name-pattern error before `unreachable!()`. A panicking expansion carries only its reason.
- The argument parser's runtime is not modelled. That includes `App`/`Arg`/`SubCommand` semantics, `get_matches`, help output, exit codes, and how it treats the `--name`/`-n` strings it is given. Only its match result is modelled, as maps.
- `str::parse::<T>` is an uninterpreted parameter. The format/parse round trip of `String`, integers and booleans belongs to the standard library and is not stated.
- The memory semantics of the `unsafe static mut` store are not modelled. It is a `Global` value that moves from `Unpublished` to `Published`.
- Handler bodies are not modelled. A call is recorded with the arguments and the store it can see.
- Whether the generated Rust compiles after expansion is not modelled. Examples are a `self` receiver that changes the call's arity, and an `&Option<T>` flag whose store field type does not match.
- Short-flag collisions between flags that share a first letter are not checked by the code, so both flags are passed to the schema.
- `&name[..1]` on a name that starts with a multi-byte character, and `first().unwrap()` on an empty `Option<>`, are unchecked panics. They appear as the preconditions `ShortNameDefined` and `Resolvable`. A path without segments cannot come from the parser and is excluded the same way.
- Pipeline.DispatchCallsMethod: requires that no earlier method has the same name. A Rust `impl` block cannot declare two methods with one name, so this is not a restriction in practice.
