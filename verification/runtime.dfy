/**
 * What the generated `start()` does at run time (src/lib.rs:330-358), and
 * the global flag store it fills (src/lib.rs:184-202, 364-381). The argument
 * parser's matching is not modelled: `start` receives the matches it hands
 * back. `str::parse` is an uninterpreted partial function passed in.
 */
module Runtime {
  import opened Wrappers
  import opened Syntax
  import opened Schema

  /** A converted value: `Option<T>` for an optional flag or parameter, `T` for a required one. */
  datatype Converted<V> = OptionalValue(opt: Option<V>) | RequiredValue(value: V)

  /** The matches of the selected subcommand: its name and its values by argument name. */
  datatype SubMatches = SubMatches(name: string, values: map<string, string>)

  /** What the argument parser hands back: the root's values and the selected subcommand, if any. */
  datatype Matches = Matches(values: map<string, string>, subcommand: Option<SubMatches>)

  // ---------------------------------------------------------------------------
  // Converting matched text (src/lib.rs:211, 216, 292, 300)
  // ---------------------------------------------------------------------------

  /**
   * One conversion: look the key up and parse its text into the target type.
   * `None` is a panic: `expect`/`unwrap` on text that does not parse, or
   * `unwrap` on a required value that is absent.
   */
  function Convert<V>(c: Conversion, values: map<string, string>, parse: (TypeExpr, string) -> Option<V>)
    : (r: Option<Converted<V>>)
    ensures c.key !in values ==> r == (if c.optional then Some(OptionalValue(None)) else None)
    ensures c.key in values && parse(c.target, values[c.key]).Some? ==>
      r == Some(if c.optional then OptionalValue(Some(parse(c.target, values[c.key]).value))
                else RequiredValue(parse(c.target, values[c.key]).value))
    ensures c.key in values && parse(c.target, values[c.key]).None? ==> r.None?
  {
    if c.key in values then
      match parse(c.target, values[c.key])
      case None => None
      case Some(v) => if c.optional then Some(OptionalValue(Some(v))) else Some(RequiredValue(v))
    else if c.optional then Some(OptionalValue(None))
    else None
  }

  /** The argument list of a call: every conversion in order, or a panic at the first that fails. */
  function ConvertAll<V>(cs: seq<Conversion>, values: map<string, string>, parse: (TypeExpr, string) -> Option<V>)
    : (r: Option<seq<Converted<V>>>)
    ensures r.Some? <==> forall k :: 0 <= k < |cs| ==> Convert(cs[k], values, parse).Some?
    ensures r.Some? ==> |r.value| == |cs| && forall k :: 0 <= k < |cs| ==> Convert(cs[k], values, parse) == Some(r.value[k])
  {
    if |cs| == 0 then Some([])
    else
      match Convert(cs[0], values, parse)
      case None => None
      case Some(a) =>
        match ConvertAll(cs[1..], values, parse)
        case None => None
        case Some(rest) => Some([a] + rest)
  }

  // ---------------------------------------------------------------------------
  // The global flag store (src/lib.rs:194-202, 364-381) and its accessors (src/lib.rs:184-192)
  // ---------------------------------------------------------------------------

  /** `__ThunderDataStaticStore`: one `Option` field per flag, in declaration order. */
  datatype Store<V> = Store(fields: seq<Option<Converted<V>>>)

  /** `__THUNDER_DATA_STATIC`: `None` until `start` publishes the populated store. */
  datatype Global<V> = Unpublished | Published(store: Store<V>)

  /** `new_empty_store()`: every field starts `None`. */
  function EmptyStore<V>(n: nat): (s: Store<V>)
    ensures |s.fields| == n
    ensures forall i :: 0 <= i < n ==> s.fields[i].None?
  {
    Store(seq(n, i => None))
  }

  /** Every field has been set. */
  predicate Full<V>(s: Store<V>)
  {
    forall i :: 0 <= i < |s.fields| ==> s.fields[i].Some?
  }

  /**
   * The accessor of flag `i`: both `unwrap`s succeed only on a published
   * store whose field is set; `None` is the panic. It returns the declared
   * type, so an optional flag's accessor yields the `Option` itself.
   */
  function Access<V>(g: Global<V>, i: nat): (r: Option<Converted<V>>)
    ensures r.Some? <==> g.Published? && i < |g.store.fields| && g.store.fields[i].Some?
    ensures r.Some? ==> r == g.store.fields[i]
  {
    match g
    case Unpublished => None
    case Published(s) => if i < |s.fields| then s.fields[i] else None
  }

  // ---------------------------------------------------------------------------
  // Dispatch (src/lib.rs:317-335)
  // ---------------------------------------------------------------------------

  /** A call of handler `handler` with the converted arguments. */
  datatype Call<V> = Call(handler: string, args: seq<Converted<V>>)

  datatype DispatchResult<V> = NoArm | Invoke(call: Call<V>) | ConversionPanic

  /** The first arm for subcommand `name`, as a `match` selects it. */
  function FindArm(arms: seq<Arm>, name: string): (r: Option<nat>)
    ensures r.Some? ==> r.value < |arms| && arms[r.value].subcommand == name
    ensures r.Some? ==> forall k :: 0 <= k < r.value ==> arms[k].subcommand != name
    ensures r.None? <==> forall k :: 0 <= k < |arms| ==> arms[k].subcommand != name
  {
    if |arms| == 0 then None
    else if arms[0].subcommand == name then Some(0)
    else match FindArm(arms[1..], name)
      case None => None
      case Some(k) => Some(k + 1)
  }

  /** The arm `match` selects is the first one with the subcommand's name. */
  lemma FindArmFirst(arms: seq<Arm>, name: string, j: nat)
    requires j < |arms| && arms[j].subcommand == name
    requires forall k :: 0 <= k < j ==> arms[k].subcommand != name
    ensures FindArm(arms, name) == Some(j)
  {
  }

  /**
   * The `match args.subcommand()`: the arm of the selected subcommand
   * converts its arguments and calls the handler; anything else is ignored.
   */
  function Dispatch<V>(arms: seq<Arm>, selected: Option<SubMatches>, parse: (TypeExpr, string) -> Option<V>)
    : (r: DispatchResult<V>)
    ensures r.NoArm? <==> selected.None? || FindArm(arms, selected.value.name).None?
    ensures r.Invoke? ==> selected.Some? && r.call.handler == selected.value.name
    ensures r.Invoke? ==>
      && FindArm(arms, selected.value.name).Some?
      && |r.call.args| == |arms[FindArm(arms, selected.value.name).value].conversions|
    ensures r.Invoke? ==> forall k :: 0 <= k < |r.call.args| ==>
      Convert(arms[FindArm(arms, selected.value.name).value].conversions[k], selected.value.values, parse)
        == Some(r.call.args[k])
    ensures r.ConversionPanic? <==>
      && selected.Some?
      && FindArm(arms, selected.value.name).Some?
      && (exists k :: 0 <= k < |arms[FindArm(arms, selected.value.name).value].conversions|
            && Convert(arms[FindArm(arms, selected.value.name).value].conversions[k], selected.value.values, parse).None?)
  {
    match selected
    case None => NoArm
    case Some(sub) =>
      match FindArm(arms, sub.name)
      case None => NoArm
      case Some(k) =>
        match ConvertAll(arms[k].conversions, sub.values, parse)
        case None => ConversionPanic
        case Some(args) => Invoke(Call(arms[k].subcommand, args))
  }

  // ---------------------------------------------------------------------------
  // The start sequence (src/lib.rs:337-358)
  // ---------------------------------------------------------------------------

  /** The observable steps of `start`; a handler call records the store it can read through the accessors. */
  datatype Event<V> =
    | StoreCreated
    | FieldSet(index: nat)
    | StorePublished
    | HandlerCalled(call: Call<V>, visible: Global<V>)

  /** A run of `start`: its steps, the final global store, and whether it panicked. */
  datatype Run<V> = Run(trace: seq<Event<V>>, global: Global<V>, panicked: bool)

  /**
   * The ordering `start` keeps: the store is created first; field `i` is the
   * `i`-th write; nothing but the handler call follows publication; a handler
   * is called at most once, last, right after publication, and sees a
   * published store whose every field is set.
   */
  predicate WellOrdered<V>(t: seq<Event<V>>)
  {
    && |t| > 0 && t[0] == StoreCreated
    && (forall a :: 0 < a < |t| && t[a].FieldSet? ==> t[a].index == a - 1)
    && (forall a :: 0 < a < |t| ==> t[a] != StoreCreated)
    && (forall a, b :: 0 <= a < b < |t| && t[a].StorePublished? ==> t[b].HandlerCalled?)
    && (forall b :: 0 <= b < |t| && t[b].HandlerCalled? ==>
          && b == |t| - 1
          && 0 < b && t[b - 1].StorePublished?
          && t[b].visible.Published? && Full(t[b].visible.store))
  }

  /** The steps up to the `n`-th field write. */
  function Writes<V>(n: nat): (t: seq<Event<V>>)
    ensures |t| == n + 1 && t[0] == StoreCreated
    ensures forall a :: 0 < a < |t| ==> t[a] == FieldSet(a - 1)
  {
    [StoreCreated] + seq(n, k requires 0 <= k < n => FieldSet(k))
  }

  lemma WritesOrdered<V>(n: nat, tail: seq<Event<V>>)
    requires || tail == []
             || tail == [StorePublished]
             || (&& |tail| == 2 && tail[0] == StorePublished && tail[1].HandlerCalled?
                 && tail[1].visible.Published? && Full(tail[1].visible.store))
    ensures WellOrdered(Writes<V>(n) + tail)
  {
  }

  /**
   * The population loop of `start`: write the conversion of every flag into
   * the fresh store, in declaration order, stopping at the first conversion
   * that panics. `written` fields were set; the next one, if any, failed.
   */
  method Populate<V>(populate: seq<Conversion>, values: map<string, string>, parse: (TypeExpr, string) -> Option<V>)
    returns (store: Store<V>, written: nat)
    ensures written <= |populate| && |store.fields| == |populate|
    ensures forall k :: 0 <= k < written ==> store.fields[k] == Convert(populate[k], values, parse)
    ensures forall k :: 0 <= k < written ==> store.fields[k].Some?
    ensures written < |populate| ==> Convert(populate[written], values, parse).None?
  {
    store := EmptyStore(|populate|);
    written := 0;
    while written < |populate|
      invariant written <= |populate| && |store.fields| == |populate|
      invariant forall k :: 0 <= k < written ==> store.fields[k] == Convert(populate[k], values, parse)
      invariant forall k :: 0 <= k < written ==> store.fields[k].Some?
    {
      var value := Convert(populate[written], values, parse);
      if value.None? {
        return;
      }
      store := Store(store.fields[written := value]);
      written := written + 1;
    }
  }

  /**
   * `start`: create the empty store, write every flag's conversion into it,
   * publish it, and only then evaluate the `match` on the selected
   * subcommand. A panic stops the run where it happens.
   */
  method Start<V>(g: Generated, matches: Matches, parse: (TypeExpr, string) -> Option<V>) returns (run: Run<V>)
    ensures WellOrdered(run.trace)
    ensures (exists i :: 0 <= i < |g.populate| && Convert(g.populate[i], matches.values, parse).None?)
      ==> run.panicked && run.global.Unpublished? && forall a :: 0 <= a < |run.trace| ==> !run.trace[a].HandlerCalled?
    ensures (forall i :: 0 <= i < |g.populate| ==> Convert(g.populate[i], matches.values, parse).Some?)
      ==> run.global.Published?
    ensures run.global.Published? ==>
      && |run.global.store.fields| == |g.populate|
      && forall i :: 0 <= i < |g.populate| ==> run.global.store.fields[i] == Convert(g.populate[i], matches.values, parse)
    ensures run.global.Published? ==>
      && (run.panicked <==> Dispatch(g.arms, matches.subcommand, parse).ConversionPanic?)
      && ((exists a :: 0 <= a < |run.trace| && run.trace[a].HandlerCalled?)
            <==> Dispatch(g.arms, matches.subcommand, parse).Invoke?)
    ensures forall a :: 0 <= a < |run.trace| && run.trace[a].HandlerCalled? ==>
      && run.trace[a].visible == run.global
      && run.trace[a].call == Dispatch(g.arms, matches.subcommand, parse).call
    ensures run.global.Published? ==>
      && |g.populate| + 2 <= |run.trace|
      && run.trace[..|g.populate| + 2] == Writes(|g.populate|) + [StorePublished]
    ensures run.global.Unpublished? ==> exists w ::
      && 0 <= w < |g.populate| && run.trace == Writes(w)
      && Convert(g.populate[w], matches.values, parse).None?
      && forall k :: 0 <= k < w ==> Convert(g.populate[k], matches.values, parse).Some?
  {
    var store, written := Populate(g.populate, matches.values, parse);
    var n := |g.populate|;
    var trace: seq<Event<V>> := Writes(written);
    assert forall a :: 0 <= a < |trace| ==> !trace[a].HandlerCalled?;
    if written < n {
      WritesOrdered<V>(written, []);
      return Run(trace, Unpublished, true);
    }
    run := Publish(n, Published(store), Dispatch(g.arms, matches.subcommand, parse));
  }

  /**
   * The end of `start` once all `n` fields are written: publish the store,
   * then act on the outcome of the `match`. Only an invoked handler runs, as
   * the last step, and it sees the published store.
   */
  method Publish<V>(n: nat, global: Global<V>, d: DispatchResult<V>) returns (run: Run<V>)
    requires global.Published? && Full(global.store)
    ensures WellOrdered(run.trace)
    ensures n + 2 <= |run.trace| && run.trace[..n + 2] == Writes(n) + [StorePublished]
    ensures run.global == global
    ensures run.panicked <==> d.ConversionPanic?
    ensures (exists a :: 0 <= a < |run.trace| && run.trace[a].HandlerCalled?) <==> d.Invoke?
    ensures forall a :: 0 <= a < |run.trace| && run.trace[a].HandlerCalled? ==>
      run.trace[a].visible == global && d.Invoke? && run.trace[a].call == d.call
  {
    var trace := Writes(n) + [StorePublished];
    assert forall a :: 0 <= a < |trace| ==> !trace[a].HandlerCalled?;
    if d.Invoke? {
      var last := HandlerCalled(d.call, global);
      run := Run(trace + [last], global, false);
      assert run.trace[..n + 2] == trace;
      assert run.trace[n + 2] == last;
      WritesOrdered<V>(n, [StorePublished, last]);
    } else {
      run := Run(trace, global, d.ConversionPanic?);
      WritesOrdered<V>(n, [StorePublished]);
    }
  }

  /**
   * After a run that got past population, every accessor succeeds and
   * returns what its flag's conversion produced: the declared `Option` for
   * an optional flag, the value for a required one.
   */
  lemma AccessorsAfterPopulation<V>(g: Generated, matches: Matches, parse: (TypeExpr, string) -> Option<V>,
                                    run: Run<V>, i: nat)
    requires run.global.Published?
    requires |run.global.store.fields| == |g.populate|
    requires forall k :: 0 <= k < |g.populate| ==> run.global.store.fields[k] == Convert(g.populate[k], matches.values, parse)
    requires Full(run.global.store)
    requires i < |g.populate|
    ensures Access(run.global, i) == Convert(g.populate[i], matches.values, parse)
    ensures Access(run.global, i).Some?
    ensures Access(run.global, i).value.OptionalValue? <==> g.populate[i].optional
  {
  }
}
