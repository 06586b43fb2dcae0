/**
 * `extract_about` (src/lib.rs:92-105): the help text of the application and
 * of each subcommand, taken from the attributes whose tokens are `= "literal"`.
 */
module Docs {
  import opened Text
  import opened Syntax

  /** The literal of every attribute whose body is `= "literal"`, in attribute order. */
  function DocValues(attrs: seq<Attr>): (r: seq<string>)
    ensures |r| <= |attrs|
    ensures |r| == 0 <==> forall i :: 0 <= i < |attrs| ==> !attrs[i].body.EqLiteral?
  {
    if |attrs| == 0 then []
    else
      (match attrs[0].body
       case EqLiteral(v) => [v]
       case OtherTokens => []) + DocValues(attrs[1..])
  }

  /** Collecting the literals commutes with concatenating attribute lists: order is kept. */
  lemma {:induction false} DocValuesAppend(a: seq<Attr>, b: seq<Attr>)
    ensures DocValues(a + b) == DocValues(a) + DocValues(b)
    decreases |a|
  {
    if |a| > 0 {
      assert (a + b)[1..] == a[1..] + b;
      DocValuesAppend(a[1..], b);
    } else {
      assert a + b == b;
    }
  }

  /** One attribute contributes its literal when its tokens are `= "literal"`, and nothing otherwise. */
  lemma DocValuesSingleton(a: Attr)
    ensures DocValues([a]) == if a.body.EqLiteral? then [a.body.value] else []
  {
    assert [a][1..] == [];
  }

  /** An attribute that is not `= "literal"` (any `#[name(...)]` or `#[name]`) contributes nothing. */
  lemma NonLiteralAttrIgnored(a: seq<Attr>, path: string, b: seq<Attr>)
    ensures ExtractAbout(a + [Attr(path, OtherTokens)] + b) == ExtractAbout(a + b)
  {
    var x := [Attr(path, OtherTokens)];
    assert DocValues(x) == [] by {
      assert x[1..] == [];
    }
    DocValuesAppend(a + x, b);
    DocValuesAppend(a, x);
    DocValuesAppend(a, b);
    assert DocValues(a + x + b) == DocValues(a + b);
  }

  /**
   * The literals joined with newlines, in order; `""` when there are none.
   * Literals that are empty before the first non-empty one disappear with
   * their newlines, because the fold tests the accumulator for emptiness.
   */
  function ExtractAbout(attrs: seq<Attr>): (r: string)
    ensures r == Join("\n", DropLeadingEmpty(DocValues(attrs)))
    ensures var vs := DocValues(attrs); r == "" <==> forall i :: 0 <= i < |vs| ==> vs[i] == ""
  {
    FoldJoin("\n", DocValues(attrs))
  }

  /** The application's help text: the extracted text with surrounding whitespace trimmed (src/lib.rs:169-175). */
  function RootAbout(attrs: seq<Attr>): (r: string)
    ensures TrimmedFrom(r, ExtractAbout(attrs))
  {
    var s := ExtractAbout(attrs);
    TrimIsTrimmedFrom(s);
    Trim(s)
  }
}
