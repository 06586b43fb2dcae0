/**
 * The parts of the Rust syntax tree the attribute macro inspects, reduced to
 * what its logic distinguishes. The parser that produces them is not part of
 * this model: declarations arrive already parsed.
 */
module Syntax {

  /** One generic argument inside `<...>`: a type, or anything else (a lifetime, a binding, a constant). */
  datatype GenericArg = TypeArg(ty: TypeExpr) | NonTypeArg

  /** The arguments a path segment carries: none, `<...>`, or `(...) -> ...`. */
  datatype PathArgs = NoArgs | AngleBracketed(args: seq<GenericArg>) | Parenthesized

  datatype Segment = Segment(ident: string, args: PathArgs)

  /**
   * A declared type: a path such as `std::vec::Vec<T>`, a reference
   * `&'a mut T`, or any other shape (tuple, slice, pointer, function, ...).
   */
  datatype TypeExpr =
    | Path(segments: seq<Segment>)
    | Ref(mutable: bool, lifetime: bool, elem: TypeExpr)
    | OtherType

  /** A Rust identifier as far as names are concerned: non-empty, and never containing `:`. */
  predicate ValidIdent(s: string)
  {
    |s| > 0 && forall i :: 0 <= i < |s| ==> s[i] != ':'
  }

  /**
   * An attribute: its path (`doc`, `inline`, ...) and its token body, which is
   * either `= "literal"` or something else.
   */
  datatype AttrBody = EqLiteral(value: string) | OtherTokens
  datatype Attr = Attr(path: string, body: AttrBody)

  /** One `ident: Type: "description"` entry of the macro's argument list. */
  datatype GlobalFlagDecl = GlobalFlagDecl(ident: string, ty: TypeExpr, desc: string)

  /** The binding pattern of a parameter: a plain name, or a destructuring pattern. */
  datatype Pat = IdentPat(name: string) | OtherPat

  /** A method input: `pattern: Type`, or a receiver / inferred / ignored input. */
  datatype FnInput = Captured(pat: Pat, ty: TypeExpr) | NotCaptured

  /** An item of the annotated `impl` block. */
  datatype ImplItem =
    | Method(ident: string, attrs: seq<Attr>, inputs: seq<FnInput>)
    | OtherItem

  /** The annotated `impl` block: its attributes, its self type and its items. */
  datatype ItemImpl = ItemImpl(attrs: seq<Attr>, selfTy: TypeExpr, items: seq<ImplItem>)

  /** The compile-time errors the macro emits (src/lib.rs:120, 128, 135, 147, 264). */
  datatype Diagnostic =
    | TypeNotSupported
    | MutableArgument
    | LifetimeArgument
    | UnsupportedFnArg
}
