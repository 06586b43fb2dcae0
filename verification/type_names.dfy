/**
 * `name_from_type_path` (src/lib.rs:74-89): the printed name of a declared
 * type, and the optionality test built on it (src/lib.rs:182, 273).
 */
module TypeNames {
  import opened Wrappers
  import opened Text
  import opened Syntax

  /** The identifiers of a path's segments, in order; generic arguments are ignored. */
  function Idents(segs: seq<Segment>): (r: seq<string>)
    ensures |r| == |segs|
    ensures forall i :: 0 <= i < |segs| ==> r[i] == segs[i].ident
  {
    seq(|segs|, i requires 0 <= i < |segs| => segs[i].ident)
  }

  /** Every identifier of the path is a valid Rust identifier. */
  predicate ValidPath(segs: seq<Segment>)
  {
    forall i :: 0 <= i < |segs| ==> ValidIdent(segs[i].ident)
  }

  /**
   * The name `name_from_type_path` computes: the segment identifiers folded
   * with `::`, looking through references. `None` is its `unimplemented!()`
   * panic on any other shape.
   */
  function NameOf(t: TypeExpr): (r: Option<string>)
    ensures t.Path? && ValidPath(t.segments) ==> r == Some(Join("::", Idents(t.segments)))
  {
    match t
    case Path(segs) => Some(FoldJoin("::", Idents(segs)))
    case Ref(_, _, e) => NameOf(e)
    case OtherType => None
  }

  /** The type under all outer references. */
  function Referent(t: TypeExpr): (r: TypeExpr)
    ensures !r.Ref?
  {
    match t
    case Ref(_, _, e) => Referent(e)
    case _ => t
  }

  /** The source's optionality test: `name_from_type_path(ty) == "Option"`. */
  predicate IsOptional(t: TypeExpr)
    ensures IsOptional(t) ==> t.Path? || t.Ref?
  {
    NameOf(t) == Some("Option")
  }

  /** The name is that of the referent: references of any depth are transparent. */
  lemma {:induction false} NameOfSeesThroughRefs(t: TypeExpr)
    ensures NameOf(t) == NameOf(Referent(t))
    ensures NameOf(t).None? <==> Referent(t).OtherType?
    ensures IsOptional(t) <==> IsOptional(Referent(t))
  {
    match t
    case Ref(_, _, e) => NameOfSeesThroughRefs(e);
    case _ =>
  }

  /** With valid identifiers the fold is exactly the `::`-join of the identifiers. */
  lemma PathNameIsJoin(segs: seq<Segment>)
    requires ValidPath(segs)
    ensures NameOf(Path(segs)) == Some(Join("::", Idents(segs)))
  {
    var ids := Idents(segs);
    assert forall i :: 0 <= i < |ids| ==> ids[i] != "" by {
      forall i | 0 <= i < |ids|
        ensures ids[i] != ""
      {
        assert ValidIdent(segs[i].ident);
      }
    }
  }

  /** A single-segment path is named by its identifier, whatever its generic arguments. */
  lemma SingleSegmentName(seg: Segment)
    ensures NameOf(Path([seg])) == Some(seg.ident)
  {
    assert Idents([seg]) == [seg.ident];
    assert FoldFrom("::", "", [seg.ident]) == seg.ident by {
      assert [seg.ident][1..] == [];
    }
  }

  /**
   * A type is optional exactly when, under its references, it is a path of the
   * single segment `Option`: `std::option::Option<T>` is not recognised.
   */
  lemma OptionIffSingleOptionSegment(t: TypeExpr)
    requires Referent(t).Path? ==> ValidPath(Referent(t).segments)
    ensures IsOptional(t) <==>
      (Referent(t).Path? && |Referent(t).segments| == 1 && Referent(t).segments[0].ident == "Option")
  {
    NameOfSeesThroughRefs(t);
    var u := Referent(t);
    if u.Path? {
      var segs := u.segments;
      PathNameIsJoin(segs);
      var ids := Idents(segs);
      var name := Join("::", ids);
      if |ids| >= 2 {
        JoinStartsWithFirst("::", ids);
        assert name[|ids[0]|] == ':';
        assert name != "Option";
      }
    }
  }
}
