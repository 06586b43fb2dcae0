/**
 * The artifacts the macro generates, as structured values rather than token
 * text: the command-line schema handed to the argument parser, the global
 * flag store's layout, and the dispatch plan of `start()`.
 */
module Schema {
  import opened Wrappers
  import opened Syntax

  /** One `.arg(Arg::with_name(name)...)` of the root application (src/lib.rs:220-232). */
  datatype FlagArg = FlagArg(
    name: string,
    long: Option<string>,
    short: Option<string>,
    takesValue: bool,
    required: bool,
    help: string)

  /** One `.arg(Arg::with_name(name)...)` of a subcommand (src/lib.rs:286-302). */
  datatype SubArg = SubArg(name: string, required: bool)

  /** `SubCommand::with_name(name).about(about)` with its arguments (src/lib.rs:309-314). */
  datatype SubcommandSpec = SubcommandSpec(name: string, about: string, args: seq<SubArg>)

  /** The root `App::new(name).setting(SubcommandRequired).about(about)` with its flags and subcommands. */
  datatype App = App(
    name: string,
    subcommandRequired: bool,
    about: string,
    flags: seq<FlagArg>,
    subcommands: seq<SubcommandSpec>)

  /**
   * How one matched value becomes a typed value: the name it is looked up
   * under, the type its text is parsed into, and whether it may be absent.
   */
  datatype Conversion = Conversion(key: string, target: TypeExpr, optional: bool)

  /** A store field `ident: Option<declared>` together with its accessor `fn ident() -> declared`. */
  datatype StoreField = StoreField(ident: string, declared: TypeExpr)

  /** A dispatch arm `(subcommand, Some(m)) => Self::subcommand(converted values...)`. */
  datatype Arm = Arm(subcommand: string, conversions: seq<Conversion>)

  /**
   * Everything one expansion produces: the schema, the store layout (one
   * field and accessor per flag), the per-flag conversions that populate
   * the store, and the dispatch arms, one per method.
   */
  datatype Generated = Generated(
    app: App,
    fields: seq<StoreField>,
    populate: seq<Conversion>,
    arms: seq<Arm>)
}
