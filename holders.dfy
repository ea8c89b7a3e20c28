/** The configuration holder: declarations carry a counter-assigned index; building
    a holder resolves them in index order into the entry registry and the holder's
    attributes (pass 1), then evaluates the delayed defaults no source value replaced
    (pass 2), then runs the on_load hook. The passes are specified as functions on a
    State value and carried out in place by the Holder class. */
module Holders {
  import opened Values
  import opened Casts
  import opened Templates
  import opened Resolution
  import opened Ordering

  /** A ConfigenceEntry: the lookup key (before prefixing), the default, the cast,
      the declaration index and the resolved value, Undefined until resolved. */
  datatype Entry = Entry(key: string, default: Value, cast: CastKind, index: nat, value: Value)

  /** A declared member of a holder class: an entry, or a delayed value declared as
      an attribute of its own. */
  datatype Item = Declared(entry: Entry) | Deferred(delay: Delay)
  {
    function Index(): nat
    {
      match this
      case Declared(e) => e.index
      case Deferred(d) => d.index
    }
  }

  /** An attribute name with its declared member. */
  type Member = (string, Item)

  /** The `_entries` mapping, in insertion order. */
  type Registry = seq<(string, Entry)>

  /** What a typed constructor returns: an entry in model mode, a resolved value (or
      the error it raised) in immediate mode. */
  datatype Processed = AsEntry(entry: Entry) | AsValue(result: Result<Value>)

  /** The part of a holder construction changes: the registry, the instance
      attributes and the names of the entries with a delayed default. */
  datatype State = State(entries: Registry, attrs: map<string, Value>, delayed: seq<string>)

  /** The user code a holder runs: the callables of delayed values, and on_load,
      given as the attribute assignments it makes when run on the current attributes. */
  datatype Hooks = Hooks(apply: (nat, seq<Value>) -> Value, onLoad: map<string, Value> -> seq<(string, Value)>)

  /** The prefix, the value source and the hooks: fixed for a holder's lifetime. */
  datatype Context = Context(prefix: Option<string>, source: map<string, string>, hooks: Hooks)

  /** An attribute name that does not start with an underscore. */
  predicate Public(name: string)
  {
    |name| == 0 || name[0] != '_'
  }

  // ---------------------------------------------------------------- registry views

  function NamesOf(reg: Registry): (r: seq<string>)
    ensures |r| == |reg|
    ensures forall i :: 0 <= i < |reg| ==> r[i] == reg[i].0
  {
    seq(|reg|, i requires 0 <= i < |reg| => reg[i].0)
  }

  /** Names and declaration indices of the registered entries, in registry order. */
  function Shape(reg: Registry): seq<(string, nat)>
  {
    seq(|reg|, i requires 0 <= i < |reg| => (reg[i].0, reg[i].1.index))
  }

  function MemberShape(ms: seq<Member>): seq<(string, nat)>
  {
    seq(|ms|, i requires 0 <= i < |ms| => (ms[i].0, ms[i].1.Index()))
  }

  /** The names of the entries whose default is a delayed value, in registry order:
      what `_delayed_defaults` holds. */
  function DelayedNames(reg: Registry): seq<string>
  {
    if reg == [] then []
    else (if reg[0].1.default.Delayed? then [reg[0].0] else []) + DelayedNames(reg[1..])
  }

  predicate DistinctNames(reg: Registry)
  {
    forall i, j :: 0 <= i < j < |reg| ==> reg[i].0 != reg[j].0
  }

  predicate NoRepeats(names: seq<string>)
  {
    forall p, q :: 0 <= p < q < |names| ==> names[p] != names[q]
  }

  predicate NondecreasingIndices(reg: Registry)
  {
    forall i, j :: 0 <= i < j < |reg| ==> reg[i].1.index <= reg[j].1.index
  }

  /** Every registered entry's value is the attribute of the same name. */
  predicate Synced(st: State)
  {
    forall i :: 0 <= i < |st.entries| ==>
      st.entries[i].0 in st.attrs && st.entries[i].1.value == st.attrs[st.entries[i].0]
  }

  /** Every registered entry with a public name holds the attribute of that name. */
  predicate PublicSynced(st: State)
  {
    forall i :: 0 <= i < |st.entries| && Public(st.entries[i].0) ==>
      st.entries[i].0 in st.attrs && st.entries[i].1.value == st.attrs[st.entries[i].0]
  }

  /** The attribute `name` is the same in both maps: absent from both, or present in
      both with the same value. */
  predicate SameAttribute(a: map<string, Value>, b: map<string, Value>, name: string)
  {
    (name in a <==> name in b) && (name in a ==> a[name] == b[name])
  }

  /** The registry's first entry under a name. */
  function Lookup(reg: Registry, name: string): (r: Option<Entry>)
    ensures r.None? <==> name !in NamesOf(reg)
    ensures r.Some? ==> exists i :: 0 <= i < |reg| && reg[i] == (name, r.value)
    ensures r.Some? && DistinctNames(reg) ==> forall i :: 0 <= i < |reg| && reg[i].0 == name ==> reg[i].1 == r.value
  {
    if reg == [] then None
    else if reg[0].0 == name then Some(reg[0].1)
    else
      assert NamesOf(reg) == [reg[0].0] + NamesOf(reg[1..]);
      var r := Lookup(reg[1..], name);
      assert r.Some? ==> reg[1..][0..] == reg[1..];
      r
  }

  /** Writes v into the value of every entry registered under name. */
  function WithValue(reg: Registry, name: string, v: Value): (r: Registry)
    ensures |r| == |reg|
    ensures forall i :: 0 <= i < |reg| ==>
              r[i] == (if reg[i].0 == name then (reg[i].0, reg[i].1.(value := v)) else reg[i])
  {
    seq(|reg|, i requires 0 <= i < |reg| =>
      if reg[i].0 == name then (reg[i].0, reg[i].1.(value := v)) else reg[i])
  }

  lemma {:induction false} WithValueKeepsDelayedNames(reg: Registry, name: string, v: Value)
    ensures DelayedNames(WithValue(reg, name, v)) == DelayedNames(reg)
    decreases |reg|
  {
    if reg != [] {
      WithValueKeepsDelayedNames(reg[1..], name, v);
      assert WithValue(reg, name, v)[1..] == WithValue(reg[1..], name, v);
    }
  }

  lemma {:induction false} DelayedNamesAppend(reg: Registry, x: (string, Entry))
    ensures DelayedNames(reg + [x]) == DelayedNames(reg) + (if x.1.default.Delayed? then [x.0] else [])
    decreases |reg|
  {
    if reg == [] {
      assert [x][1..] == [];
    } else {
      assert (reg + [x])[1..] == reg[1..] + [x];
      DelayedNamesAppend(reg[1..], x);
    }
  }

  /** A name is noted as having a delayed default exactly when some entry under that
      name has one. */
  lemma {:induction false} DelayedNamesMembers(reg: Registry, name: string)
    ensures name in DelayedNames(reg) <==>
              exists i :: 0 <= i < |reg| && reg[i].0 == name && reg[i].1.default.Delayed?
    decreases |reg|
  {
    if reg != [] {
      DelayedNamesMembers(reg[1..], name);
      if name in DelayedNames(reg[1..]) {
        var i :| 0 <= i < |reg[1..]| && reg[1..][i].0 == name && reg[1..][i].1.default.Delayed?;
        assert reg[i + 1] == reg[1..][i];
      }
      if exists i :: 0 <= i < |reg| && reg[i].0 == name && reg[i].1.default.Delayed? {
        var i :| 0 <= i < |reg| && reg[i].0 == name && reg[i].1.default.Delayed?;
        if i > 0 {
          assert reg[1..][i - 1] == reg[i];
        }
      }
    }
  }

  /** A registry with no name twice notes no name twice. */
  lemma {:induction false} DelayedNamesNoRepeats(reg: Registry)
    requires DistinctNames(reg)
    ensures NoRepeats(DelayedNames(reg))
    decreases |reg|
  {
    if reg != [] {
      var tail := reg[1..];
      assert DistinctNames(tail) by {
        forall p, q | 0 <= p < q < |tail| ensures tail[p].0 != tail[q].0 {
          assert tail[p] == reg[p + 1] && tail[q] == reg[q + 1];
        }
      }
      DelayedNamesNoRepeats(tail);
      DelayedNamesMembers(tail, reg[0].0);
    }
  }

  // ---------------------------------------------------------------- attribute writes

  /** __setattr__: the attribute is set; a public name that is registered also has
      its entry's value updated. Nothing ever enters the registry this way. */
  function SetAttrState(st: State, name: string, v: Value): State
  {
    State(if Public(name) then WithValue(st.entries, name, v) else st.entries, st.attrs[name := v], st.delayed)
  }

  lemma SetAttrStateProperties(st: State, name: string, v: Value)
    ensures var r := SetAttrState(st, name, v);
            r.attrs == st.attrs[name := v] && r.delayed == st.delayed
    ensures Shape(SetAttrState(st, name, v).entries) == Shape(st.entries)
    ensures DelayedNames(SetAttrState(st, name, v).entries) == DelayedNames(st.entries)
    ensures !Public(name) || name !in NamesOf(st.entries) ==> SetAttrState(st, name, v).entries == st.entries
    ensures var r := SetAttrState(st, name, v);
            Public(name) ==> forall i :: 0 <= i < |r.entries| && r.entries[i].0 == name ==> r.entries[i].1.value == v
    ensures var r := SetAttrState(st, name, v);
            forall i :: 0 <= i < |st.entries| && st.entries[i].0 != name ==> r.entries[i] == st.entries[i]
    ensures PublicSynced(st) ==> PublicSynced(SetAttrState(st, name, v))
    ensures Synced(st) && (Public(name) || name !in NamesOf(st.entries)) ==> Synced(SetAttrState(st, name, v))
  {
    WithValueKeepsDelayedNames(st.entries, name, v);
    if name !in NamesOf(st.entries) {
      assert forall i :: 0 <= i < |st.entries| ==> st.entries[i].0 != name;
    }
  }

  /** `_eval_and_save_entry` followed by `entry.value = value`: the attribute and the
      entry both take the value, whatever the name. */
  function Save(st: State, name: string, v: Value): State
  {
    var s := SetAttrState(st, name, v);
    s.(entries := WithValue(s.entries, name, v))
  }

  lemma SaveProperties(st: State, name: string, v: Value)
    ensures var r := Save(st, name, v);
            r.attrs == st.attrs[name := v] && r.delayed == st.delayed
    ensures Shape(Save(st, name, v).entries) == Shape(st.entries)
    ensures DelayedNames(Save(st, name, v).entries) == DelayedNames(st.entries)
    ensures var r := Save(st, name, v);
            forall i :: 0 <= i < |r.entries| && r.entries[i].0 == name ==> r.entries[i].1.value == v
    ensures var r := Save(st, name, v);
            forall i :: 0 <= i < |r.entries| && r.entries[i].0 != name ==> r.entries[i] == st.entries[i]
    ensures Synced(st) ==> Synced(Save(st, name, v))
  {
    var s := SetAttrState(st, name, v);
    SetAttrStateProperties(st, name, v);
    WithValueKeepsDelayedNames(s.entries, name, v);
  }

  // ---------------------------------------------------------------- pass 1

  /** The resolution of an entry: its key with the holder's prefix, looked up in the
      source under the entry's default and cast. */
  function EvalEntry(e: Entry, ctx: Context): (r: Result<Value>)
    ensures PrefixKey(ctx.prefix, e.key) !in ctx.source ==> r == Fallback(e.default, e.cast)
    ensures PrefixKey(ctx.prefix, e.key) in ctx.source && !e.cast.BoolCast? ==>
              r == Cast(e.cast, Str(ctx.source[PrefixKey(ctx.prefix, e.key)]))
    ensures ctx.prefix.None? ==> r == Evaluate(e.key, e.default, e.cast, ctx.source)
  {
    Evaluate(PrefixKey(ctx.prefix, e.key), e.default, e.cast, ctx.source)
  }

  /** A declared entry as it is; a delayed member evaluated now and wrapped into an
      entry keyed by the attribute name, with the result as its default. */
  function Unwrap(name: string, item: Item, attrs: map<string, Value>, apply: (nat, seq<Value>) -> Value): (e: Entry)
    ensures e.index == item.Index()
    ensures item.Declared? ==> e == item.entry
    ensures item.Deferred? ==> e.key == name && e.default == EvalDelay(item.delay, attrs, apply) && e.cast == NoCast
  {
    match item
    case Declared(e) => e
    case Deferred(d) => Entry(name, EvalDelay(d, attrs, apply), NoCast, d.index, Undefined)
  }

  /** The state right after registration: the entry appended, a delayed default noted. */
  function Registered(st: State, name: string, e: Entry): State
  {
    State(st.entries + [(name, e)], st.attrs, if e.default.Delayed? then st.delayed + [name] else st.delayed)
  }

  /** One iteration of pass 1: register the entry (and note a delayed default), then
      resolve it and save the value; a resolution error aborts construction. */
  function Register(st: State, m: Member, ctx: Context): Result<State>
  {
    var e := Unwrap(m.0, m.1, st.attrs, ctx.hooks.apply);
    match EvalEntry(e, ctx)
    case Err(err) => Err(err)
    case Ok(v) => Ok(Save(Registered(st, m.0, e), m.0, v))
  }

  /** Registration appends exactly this member's name and index, and notes the
      name when the entry's default is a delayed value. */
  lemma RegisterShape(st: State, m: Member, ctx: Context)
    requires Register(st, m, ctx).Ok?
    ensures Shape(Register(st, m, ctx).value.entries) == Shape(st.entries) + [(m.0, m.1.Index())]
    ensures var noted := if Unwrap(m.0, m.1, st.attrs, ctx.hooks.apply).default.Delayed? then [m.0] else [];
            Register(st, m, ctx).value.delayed == st.delayed + noted
  {
    var e := Unwrap(m.0, m.1, st.attrs, ctx.hooks.apply);
    var registered := Registered(st, m.0, e);
    assert Shape(registered.entries) == Shape(st.entries) + [(m.0, e.index)];
    SaveProperties(registered, m.0, EvalEntry(e, ctx).value);
  }

  /** Registration keeps the delayed-default list in step with the registry. */
  lemma RegisterTracksDelayed(st: State, m: Member, ctx: Context)
    requires Register(st, m, ctx).Ok? && st.delayed == DelayedNames(st.entries)
    ensures Register(st, m, ctx).value.delayed == DelayedNames(Register(st, m, ctx).value.entries)
  {
    var e := Unwrap(m.0, m.1, st.attrs, ctx.hooks.apply);
    DelayedNamesAppend(st.entries, (m.0, e));
    SaveProperties(Registered(st, m.0, e), m.0, EvalEntry(e, ctx).value);
  }

  /** Registration leaves every entry, the new one included, holding its attribute. */
  lemma RegisterKeepsSynced(st: State, m: Member, ctx: Context)
    requires Register(st, m, ctx).Ok? && Synced(st)
    ensures Synced(Register(st, m, ctx).value)
  {
    var e := Unwrap(m.0, m.1, st.attrs, ctx.hooks.apply);
    var v := EvalEntry(e, ctx).value;
    var reg := Registered(st, m.0, e);
    var r := Save(reg, m.0, v);
    assert Register(st, m, ctx) == Ok(r);
    SaveProperties(reg, m.0, v);
    assert |Shape(r.entries)| == |r.entries| && |Shape(reg.entries)| == |reg.entries|;
    forall i | 0 <= i < |r.entries|
      ensures r.entries[i].0 in r.attrs && r.entries[i].1.value == r.attrs[r.entries[i].0]
    {
      if r.entries[i].0 != m.0 {
        assert r.entries[i] == reg.entries[i] == st.entries[i];
      }
    }
  }

  /** Registration fails exactly when the entry's resolution fails, with its error. */
  lemma RegisterFailsWithEntry(st: State, m: Member, ctx: Context)
    ensures var e := Unwrap(m.0, m.1, st.attrs, ctx.hooks.apply);
            (Register(st, m, ctx).Err? <==> EvalEntry(e, ctx).Err?)
            && (Register(st, m, ctx).Err? ==> Register(st, m, ctx).error == EvalEntry(e, ctx).error)
  {
  }

  /** Registration stores the entry's resolution twice: as the attribute of the
      member's name and as the value of the entry appended for it, which otherwise is
      the unwrapped entry; entries already registered under other names stay. */
  lemma RegisterStoresResolution(st: State, m: Member, ctx: Context)
    requires Register(st, m, ctx).Ok?
    ensures EvalEntry(Unwrap(m.0, m.1, st.attrs, ctx.hooks.apply), ctx).Ok?
    ensures var e := Unwrap(m.0, m.1, st.attrs, ctx.hooks.apply);
            var r := Register(st, m, ctx).value;
            r.attrs == st.attrs[m.0 := EvalEntry(e, ctx).value]
            && |r.entries| == |st.entries| + 1
            && r.entries[|st.entries|] == (m.0, e.(value := EvalEntry(e, ctx).value))
    ensures var r := Register(st, m, ctx).value;
            forall i :: 0 <= i < |st.entries| && st.entries[i].0 != m.0 ==> r.entries[i] == st.entries[i]
  {
    var e := Unwrap(m.0, m.1, st.attrs, ctx.hooks.apply);
    var v := EvalEntry(e, ctx).value;
    var registered := Registered(st, m.0, e);
    SaveProperties(registered, m.0, v);
    var s := SetAttrState(registered, m.0, v);
    assert s.entries[|st.entries|] == registered.entries[|st.entries|]
        || s.entries[|st.entries|] == (m.0, e.(value := v));
  }

  /** Pass 1 over members already in index order. */
  function Pass1(st: State, ms: seq<Member>, ctx: Context): Result<State>
    decreases |ms|
  {
    if ms == [] then Ok(st)
    else
      match Register(st, ms[0], ctx)
      case Err(err) => Err(err)
      case Ok(next) => Pass1(next, ms[1..], ctx)
  }

  lemma MemberShapeCons(ms: seq<Member>)
    requires ms != []
    ensures MemberShape(ms) == [(ms[0].0, ms[0].1.Index())] + MemberShape(ms[1..])
  {
  }

  lemma AppendAssociates<T>(a: seq<T>, b: seq<T>, c: seq<T>)
    ensures a + (b + c) == (a + b) + c
  {
  }

  /** Pass 1 appends the members' names and indices to the registry, in order. */
  lemma {:induction false} Pass1Shape(st: State, ms: seq<Member>, ctx: Context)
    requires Pass1(st, ms, ctx).Ok?
    ensures Shape(Pass1(st, ms, ctx).value.entries) == Shape(st.entries) + MemberShape(ms)
    decreases |ms|
  {
    if ms == [] {
      assert Shape(st.entries) + MemberShape(ms) == Shape(st.entries);
    } else {
      var next := Register(st, ms[0], ctx).value;
      RegisterShape(st, ms[0], ctx);
      Pass1Shape(next, ms[1..], ctx);
      MemberShapeCons(ms);
      AppendAssociates(Shape(st.entries), [(ms[0].0, ms[0].1.Index())], MemberShape(ms[1..]));
    }
  }

  /** Pass 1 keeps the delayed-default list in step with the registry. */
  lemma {:induction false} Pass1TracksDelayed(st: State, ms: seq<Member>, ctx: Context)
    requires Pass1(st, ms, ctx).Ok? && st.delayed == DelayedNames(st.entries)
    ensures Pass1(st, ms, ctx).value.delayed == DelayedNames(Pass1(st, ms, ctx).value.entries)
    decreases |ms|
  {
    if ms != [] {
      RegisterTracksDelayed(st, ms[0], ctx);
      Pass1TracksDelayed(Register(st, ms[0], ctx).value, ms[1..], ctx);
    }
  }

  /** Pass 1 keeps every entry's value equal to its attribute. */
  lemma {:induction false} Pass1KeepsSynced(st: State, ms: seq<Member>, ctx: Context)
    requires Pass1(st, ms, ctx).Ok? && Synced(st)
    ensures Synced(Pass1(st, ms, ctx).value)
    decreases |ms|
  {
    if ms != [] {
      RegisterKeepsSynced(st, ms[0], ctx);
      Pass1KeepsSynced(Register(st, ms[0], ctx).value, ms[1..], ctx);
    }
  }

  // ---------------------------------------------------------------- pass 2

  /** Pass 1 over a list is pass 1 over a prefix, then over the rest. */
  lemma {:induction false} Pass1Split(st: State, ms: seq<Member>, ctx: Context, k: nat)
    requires Pass1(st, ms, ctx).Ok? && k <= |ms|
    ensures Pass1(st, ms[..k], ctx).Ok?
    ensures Pass1(st, ms, ctx) == Pass1(Pass1(st, ms[..k], ctx).value, ms[k..], ctx)
    decreases |ms|
  {
    if k == 0 {
      assert ms[..0] == [] && ms[0..] == ms;
    } else {
      var next := Register(st, ms[0], ctx).value;
      assert Pass1(st, ms, ctx) == Pass1(next, ms[1..], ctx);
      Pass1Split(next, ms[1..], ctx, k - 1);
      var front := ms[..k];
      assert front[0] == ms[0] && front[1..] == ms[1..][..k - 1];
      assert Pass1(st, front, ctx) == Pass1(next, front[1..], ctx);
      assert ms[1..][k - 1..] == ms[k..];
    }
  }

  /** Pass 1 leaves alone the attribute and the entries of a name that none of its
      members carries, and appends one entry per member. */
  lemma {:induction false} Pass1KeepsOtherName(st: State, ms: seq<Member>, ctx: Context, name: string)
    requires Pass1(st, ms, ctx).Ok?
    requires forall k :: 0 <= k < |ms| ==> ms[k].0 != name
    ensures var r := Pass1(st, ms, ctx).value;
            |r.entries| == |st.entries| + |ms| && SameAttribute(r.attrs, st.attrs, name)
    ensures var r := Pass1(st, ms, ctx).value;
            forall i :: 0 <= i < |st.entries| && st.entries[i].0 == name ==> r.entries[i] == st.entries[i]
    decreases |ms|
  {
    if ms != [] {
      var next := Register(st, ms[0], ctx).value;
      RegisterStoresResolution(st, ms[0], ctx);
      Pass1KeepsOtherName(next, ms[1..], ctx, name);
    }
  }

  /** In pass 1 over members with distinct names, the k-th member's entry (the k-th
      appended) ends up holding the resolution computed at its turn, against the
      attributes the earlier members left, and so does the attribute of its name. */
  lemma {:induction false} Pass1StoresResolutions(st: State, ms: seq<Member>, ctx: Context, k: nat)
    requires Pass1(st, ms, ctx).Ok? && DistinctMemberNames(ms) && k < |ms|
    ensures Pass1(st, ms[..k], ctx).Ok?
    ensures var e := Unwrap(ms[k].0, ms[k].1, Pass1(st, ms[..k], ctx).value.attrs, ctx.hooks.apply);
            EvalEntry(e, ctx).Ok?
    ensures var e := Unwrap(ms[k].0, ms[k].1, Pass1(st, ms[..k], ctx).value.attrs, ctx.hooks.apply);
            var r := Pass1(st, ms, ctx).value;
            |st.entries| + k < |r.entries|
            && r.entries[|st.entries| + k] == (ms[k].0, e.(value := EvalEntry(e, ctx).value))
            && ms[k].0 in r.attrs && r.attrs[ms[k].0] == EvalEntry(e, ctx).value
  {
    Pass1Split(st, ms, ctx, k);
    var pre := Pass1(st, ms[..k], ctx).value;
    Pass1Shape(st, ms[..k], ctx);
    assert |Shape(pre.entries)| == |pre.entries|;
    assert ms[k..][0] == ms[k] && ms[k..][1..] == ms[k + 1..];
    var next := Register(pre, ms[k], ctx).value;
    RegisterStoresResolution(pre, ms[k], ctx);
    var rest := ms[k + 1..];
    assert forall l :: 0 <= l < |rest| ==> rest[l].0 != ms[k].0 by {
      forall l | 0 <= l < |rest| ensures rest[l].0 != ms[k].0 {
        assert rest[l] == ms[k + 1 + l];
      }
    }
    Pass1KeepsOtherName(next, rest, ctx, ms[k].0);
  }

  /** A delayed default still needs evaluating when the entry's value is that delay
      itself or undefined: no source value replaced it. */
  predicate Pending(e: Entry)
  {
    e.default.Delayed? && (e.value == e.default || e.value.Undefined?)
  }

  /** One iteration of pass 2: a pending delayed default is evaluated against the
      current attributes and saved (not cast); any other entry is left alone. */
  function Refresh(st: State, name: string, ctx: Context): State
  {
    match Lookup(st.entries, name)
    case None => st
    case Some(e) =>
      if Pending(e) then Save(st, name, EvalDelay(e.default.delay, st.attrs, ctx.hooks.apply))
      else st
  }

  /** A refresh keeps the registry's names, indices and delayed defaults and the
      syncing of entries, and touches neither a settled entry nor an entry under
      another name. */
  lemma RefreshProperties(st: State, name: string, ctx: Context)
    ensures var r := Refresh(st, name, ctx);
            Shape(r.entries) == Shape(st.entries) && r.delayed == st.delayed
    ensures DelayedNames(Refresh(st, name, ctx).entries) == DelayedNames(st.entries)
    ensures Synced(st) ==> Synced(Refresh(st, name, ctx))
    ensures var r := Refresh(st, name, ctx);
            forall i :: 0 <= i < |st.entries| && DistinctNames(st.entries) && !Pending(st.entries[i].1) ==>
              r.entries[i] == st.entries[i]
    ensures var r := Refresh(st, name, ctx);
            forall i :: 0 <= i < |st.entries| && st.entries[i].0 != name ==> r.entries[i] == st.entries[i]
  {
    var found := Lookup(st.entries, name);
    if found.Some? && Pending(found.value) {
      var v := EvalDelay(found.value.default.delay, st.attrs, ctx.hooks.apply);
      assert Refresh(st, name, ctx) == Save(st, name, v);
      SaveProperties(st, name, v);
      RefreshSettledKept(st, name, found.value, v);
    } else {
      assert Refresh(st, name, ctx) == st;
    }
  }

  /** Saving under the name of a pending entry leaves a settled entry alone when
      names are distinct. */
  lemma RefreshSettledKept(st: State, name: string, e: Entry, v: Value)
    requires Lookup(st.entries, name) == Some(e) && Pending(e)
    ensures var r := Save(st, name, v);
            forall i :: 0 <= i < |st.entries| && DistinctNames(st.entries) && !Pending(st.entries[i].1) ==>
              r.entries[i] == st.entries[i]
  {
    SaveProperties(st, name, v);
  }

  /** A refresh of a name whose first entry is pending evaluates its delayed value on
      the current attributes and stores it uncast, as the attribute of the name (no
      other attribute changes) and as the value of the name's entries; a refresh of
      any other name changes nothing. */
  lemma RefreshStoresEvaluation(st: State, name: string, ctx: Context)
    ensures Lookup(st.entries, name).Some? && Pending(Lookup(st.entries, name).value) ==>
              Refresh(st, name, ctx).attrs ==
                st.attrs[name := EvalDelay(Lookup(st.entries, name).value.default.delay, st.attrs, ctx.hooks.apply)]
    ensures var r := Refresh(st, name, ctx);
            Lookup(st.entries, name).Some? && Pending(Lookup(st.entries, name).value) ==>
              forall i :: 0 <= i < |r.entries| && r.entries[i].0 == name ==>
                r.entries[i].1.value == EvalDelay(Lookup(st.entries, name).value.default.delay, st.attrs, ctx.hooks.apply)
    ensures !(Lookup(st.entries, name).Some? && Pending(Lookup(st.entries, name).value)) ==> Refresh(st, name, ctx) == st
  {
    match Lookup(st.entries, name)
    case None =>
    case Some(e) =>
      if Pending(e) {
        SaveProperties(st, name, EvalDelay(e.default.delay, st.attrs, ctx.hooks.apply));
      }
  }

  function Pass2(st: State, names: seq<string>, ctx: Context): State
    decreases |names|
  {
    if names == [] then st else Pass2(Refresh(st, names[0], ctx), names[1..], ctx)
  }

  /** Pass 2 changes neither the names and indices of the registry nor the
      delayed-default list. */
  lemma {:induction false} Pass2Shape(st: State, names: seq<string>, ctx: Context)
    ensures var r := Pass2(st, names, ctx);
            Shape(r.entries) == Shape(st.entries) && r.delayed == st.delayed
    decreases |names|
  {
    if names != [] {
      RefreshProperties(st, names[0], ctx);
      Pass2Shape(Refresh(st, names[0], ctx), names[1..], ctx);
    }
  }

  /** Pass 2 keeps the delayed defaults of the registry and syncing. */
  lemma {:induction false} Pass2KeepsInvariants(st: State, names: seq<string>, ctx: Context)
    ensures DelayedNames(Pass2(st, names, ctx).entries) == DelayedNames(st.entries)
    ensures Pass2(st, names, ctx).delayed == st.delayed
    ensures Synced(st) ==> Synced(Pass2(st, names, ctx))
    decreases |names|
  {
    if names != [] {
      RefreshProperties(st, names[0], ctx);
      Pass2KeepsInvariants(Refresh(st, names[0], ctx), names[1..], ctx);
    }
  }

  /** Pass 2 over a list is pass 2 over its front, then over its back. */
  lemma {:induction false} Pass2Append(st: State, a: seq<string>, b: seq<string>, ctx: Context)
    ensures Pass2(st, a + b, ctx) == Pass2(Pass2(st, a, ctx), b, ctx)
    decreases |a|
  {
    if a == [] {
      assert a + b == b;
    } else {
      assert (a + b)[0] == a[0] && (a + b)[1..] == a[1..] + b;
      Pass2Append(Refresh(st, a[0], ctx), a[1..], b, ctx);
    }
  }

  /** Pass 2 leaves alone the attribute and the entries of a name it is not given. */
  lemma {:induction false} Pass2KeepsOtherName(st: State, names: seq<string>, ctx: Context, name: string)
    requires name !in names
    ensures var r := Pass2(st, names, ctx);
            |r.entries| == |st.entries| && SameAttribute(r.attrs, st.attrs, name)
    ensures var r := Pass2(st, names, ctx);
            forall i :: 0 <= i < |st.entries| && st.entries[i].0 == name ==> r.entries[i] == st.entries[i]
    decreases |names|
  {
    if names != [] {
      var next := Refresh(st, names[0], ctx);
      RefreshProperties(st, names[0], ctx);
      RefreshStoresEvaluation(st, names[0], ctx);
      assert |Shape(next.entries)| == |next.entries| && |Shape(st.entries)| == |st.entries|;
      Pass2KeepsOtherName(next, names[1..], ctx, name);
    }
  }

  /** A pending delayed default whose name comes up at position j of pass 2's list
      (which names no entry twice, over a registry that has no name twice) is
      evaluated against the attributes the first j refreshes left, and the result
      ends up both as the entry's value and as the attribute of its name. */
  lemma {:induction false} Pass2EvaluatesPending(st: State, names: seq<string>, ctx: Context, i: nat, j: nat)
    requires DistinctNames(st.entries) && i < |st.entries| && Pending(st.entries[i].1)
    requires NoRepeats(names)
    requires j < |names| && names[j] == st.entries[i].0
    ensures var v := EvalDelay(st.entries[i].1.default.delay, Pass2(st, names[..j], ctx).attrs, ctx.hooks.apply);
            var r := Pass2(st, names, ctx);
            i < |r.entries| && r.entries[i].0 == names[j] && r.entries[i].1.value == v
            && names[j] in r.attrs && r.attrs[names[j]] == v
  {
    Pass2EvaluatesPendingAt(st, names[..j], names[j], names[j + 1..], ctx, i);
    assert names == names[..j] + [names[j]] + names[j + 1..];
  }

  /** Pass2EvaluatesPending with the list cut around the entry's name. */
  lemma {:induction false} Pass2EvaluatesPendingAt(st: State, front: seq<string>, name: string, back: seq<string>,
                                                   ctx: Context, i: nat)
    requires DistinctNames(st.entries) && i < |st.entries| && Pending(st.entries[i].1)
    requires st.entries[i].0 == name && name !in front && name !in back
    ensures var v := EvalDelay(st.entries[i].1.default.delay, Pass2(st, front, ctx).attrs, ctx.hooks.apply);
            var r := Pass2(st, front + [name] + back, ctx);
            i < |r.entries| && r.entries[i].0 == name && r.entries[i].1.value == v
            && name in r.attrs && r.attrs[name] == v
  {
    var a := Pass2(st, front, ctx);
    Pass2KeepsOtherName(st, front, ctx, name);
    Pass2Shape(st, front, ctx);
    SameShapeSameDistinctness(st.entries, a.entries);
    var b := Refresh(a, name, ctx);
    RefreshEvaluatesPending(a, name, ctx, i);
    Pass2KeepsOtherName(b, back, ctx, name);
    Pass2Around(st, front, name, back, ctx);
  }

  /** The refresh of a pending entry's name, in a registry with no name twice,
      evaluates that entry's delayed value against the current attributes. */
  lemma RefreshEvaluatesPending(st: State, name: string, ctx: Context, i: nat)
    requires DistinctNames(st.entries) && i < |st.entries| && Pending(st.entries[i].1) && st.entries[i].0 == name
    ensures var v := EvalDelay(st.entries[i].1.default.delay, st.attrs, ctx.hooks.apply);
            var r := Refresh(st, name, ctx);
            i < |r.entries| && r.entries[i].0 == name && r.entries[i].1.value == v
            && r.attrs == st.attrs[name := v]
  {
    assert NamesOf(st.entries)[i] == name;
    RefreshProperties(st, name, ctx);
    RefreshStoresEvaluation(st, name, ctx);
    var r := Refresh(st, name, ctx);
    assert Shape(r.entries)[i] == Shape(st.entries)[i];
  }

  /** Pass 2 over a list cut around one name: the front, that name's refresh, the back. */
  lemma Pass2Around(st: State, front: seq<string>, name: string, back: seq<string>, ctx: Context)
    ensures Pass2(st, front + [name] + back, ctx) == Pass2(Refresh(Pass2(st, front, ctx), name, ctx), back, ctx)
  {
    Pass2Append(st, front, [name] + back, ctx);
    assert front + [name] + back == front + ([name] + back);
    assert ([name] + back)[0] == name && ([name] + back)[1..] == back;
  }

  // ---------------------------------------------------------------- on_load

  /** The attribute assignments on_load makes, each through __setattr__. */
  function Assign(st: State, assigns: seq<(string, Value)>): State
    decreases |assigns|
  {
    if assigns == [] then st else Assign(SetAttrState(st, assigns[0].0, assigns[0].1), assigns[1..])
  }

  /** on_load's assignments never change the names and indices of the registry
      nor the delayed-default list. */
  lemma {:induction false} AssignShape(st: State, assigns: seq<(string, Value)>)
    ensures var r := Assign(st, assigns);
            Shape(r.entries) == Shape(st.entries) && r.delayed == st.delayed
    decreases |assigns|
  {
    if assigns != [] {
      SetAttrStateProperties(st, assigns[0].0, assigns[0].1);
      AssignShape(SetAttrState(st, assigns[0].0, assigns[0].1), assigns[1..]);
    }
  }

  /** on_load's assignments keep the delayed defaults of the registry and keep
      public entries synced. */
  lemma {:induction false} AssignKeepsInvariants(st: State, assigns: seq<(string, Value)>)
    ensures DelayedNames(Assign(st, assigns).entries) == DelayedNames(st.entries)
    ensures Assign(st, assigns).delayed == st.delayed
    ensures PublicSynced(st) ==> PublicSynced(Assign(st, assigns))
    decreases |assigns|
  {
    if assigns != [] {
      SetAttrStateProperties(st, assigns[0].0, assigns[0].1);
      AssignKeepsInvariants(SetAttrState(st, assigns[0].0, assigns[0].1), assigns[1..]);
    }
  }

  /** The value last assigned to a name in a list of assignments, if any. */
  function LastAssigned(assigns: seq<(string, Value)>, name: string): Option<Value>
    decreases |assigns|
  {
    if assigns == [] then None
    else if assigns[|assigns| - 1].0 == name then Some(assigns[|assigns| - 1].1)
    else LastAssigned(assigns[..|assigns| - 1], name)
  }

  /** One more assignment is one more __setattr__ after the others. */
  lemma {:induction false} AssignSnoc(st: State, assigns: seq<(string, Value)>, x: (string, Value))
    ensures Assign(st, assigns + [x]) == SetAttrState(Assign(st, assigns), x.0, x.1)
    decreases |assigns|
  {
    if assigns == [] {
      assert assigns + [x] == [x] && [x][1..] == [];
    } else {
      assert (assigns + [x])[0] == assigns[0] && (assigns + [x])[1..] == assigns[1..] + [x];
      AssignSnoc(SetAttrState(st, assigns[0].0, assigns[0].1), assigns[1..], x);
    }
  }

  /** After on_load's assignments, an assigned name holds the value last assigned
      to it, as attribute and, when public, as the value of its entries; any other
      name keeps its attribute and its entries. */
  lemma {:induction false} AssignSetsAttributes(st: State, assigns: seq<(string, Value)>, name: string)
    ensures var r := Assign(st, assigns);
            LastAssigned(assigns, name).Some? ==>
              name in r.attrs && r.attrs[name] == LastAssigned(assigns, name).value
    ensures var r := Assign(st, assigns);
            LastAssigned(assigns, name).Some? && Public(name) ==>
              forall i :: 0 <= i < |r.entries| && r.entries[i].0 == name ==>
                r.entries[i].1.value == LastAssigned(assigns, name).value
    ensures var r := Assign(st, assigns);
            LastAssigned(assigns, name).None? ==>
              SameAttribute(r.attrs, st.attrs, name)
              && forall i :: 0 <= i < |st.entries| && st.entries[i].0 == name ==>
                   i < |r.entries| && r.entries[i] == st.entries[i]
    decreases |assigns|
  {
    if assigns != [] {
      var front := assigns[..|assigns| - 1];
      var x := assigns[|assigns| - 1];
      assert assigns == front + [x];
      AssignSnoc(st, front, x);
      var mid := Assign(st, front);
      AssignSetsAttributes(st, front, name);
      AssignShape(st, front);
      assert |Shape(mid.entries)| == |mid.entries| && |Shape(st.entries)| == |st.entries|;
      SetAttrStateProperties(mid, x.0, x.1);
    }
  }

  // ---------------------------------------------------------------- construction

  /** Members compare by declaration index. */
  function ByIndex(x: Member, y: Member): bool
  {
    x.1.Index() <= y.1.Index()
  }

  lemma ByIndexIsTotalPreorder()
    ensures IsTotalPreorder(ByIndex)
  {
  }

  /** The members in declaration-index order (`sorted` on the index key). */
  function InIndexOrder(decls: seq<Member>): (r: seq<Member>)
    ensures multiset(r) == multiset(decls) && |r| == |decls|
    ensures forall i, j :: 0 <= i < j < |r| ==> r[i].1.Index() <= r[j].1.Index()
  {
    ByIndexIsTotalPreorder();
    SortBy(decls, ByIndex)
  }

  /** The whole construction: members sorted by index, pass 1, pass 2 over the
      delayed defaults in registration order, then on_load. */
  function Construct(st: State, decls: seq<Member>, ctx: Context): Result<State>
  {
    match Pass1(st, InIndexOrder(decls), ctx)
    case Err(err) => Err(err)
    case Ok(st1) =>
      var st2 := Pass2(st1, st1.delayed, ctx);
      Ok(Assign(st2, ctx.hooks.onLoad(st2.attrs)))
  }

  /** Names alone decide distinctness. */
  lemma SameShapeSameDistinctness(a: Registry, b: Registry)
    requires Shape(a) == Shape(b)
    ensures DistinctNames(a) == DistinctNames(b)
  {
    assert forall i :: 0 <= i < |a| ==> a[i].0 == Shape(a)[i].0 == b[i].0;
  }

  /** Pass 2 leaves an entry alone once its value is settled: a delayed default that a
      source value already replaced is never evaluated. */
  lemma {:induction false} Pass2KeepsSettled(st: State, names: seq<string>, ctx: Context, i: nat)
    requires DistinctNames(st.entries) && i < |st.entries| && !Pending(st.entries[i].1)
    ensures i < |Pass2(st, names, ctx).entries| && Pass2(st, names, ctx).entries[i] == st.entries[i]
    decreases |names|
  {
    if names != [] {
      var next := Refresh(st, names[0], ctx);
      RefreshProperties(st, names[0], ctx);
      SameShapeSameDistinctness(st.entries, next.entries);
      Pass2KeepsSettled(next, names[1..], ctx, i);
    }
  }

  /** A source value for an entry with a delayed default settles it in pass 1 under
      the str, int and list casts, and under the bool cast when the text is a valid
      boolean (rejected boolean text keeps the delay, see DelayedDefaultOutcome). */
  lemma SourceValueSettlesDelayedDefault(st: State, name: string, e: Entry, ctx: Context)
    requires e.default.Delayed? && PrefixKey(ctx.prefix, e.key) in ctx.source
    requires || e.cast.NoCast? || e.cast.IntCast? || e.cast.ListCast?
             || (e.cast.BoolCast? && CastBoolean(Str(ctx.source[PrefixKey(ctx.prefix, e.key)])).Ok?)
    requires Register(st, (name, Declared(e)), ctx).Ok?
    ensures var r := Register(st, (name, Declared(e)), ctx).value;
            |r.entries| == |st.entries| + 1
            && r.entries[|st.entries|].0 == name
            && !Pending(r.entries[|st.entries|].1)
            && Ok(r.entries[|st.entries|].1.value) == Cast(e.cast, Str(ctx.source[PrefixKey(ctx.prefix, e.key)]))
  {
    var k := PrefixKey(ctx.prefix, e.key);
    DelayedDefaultOutcome(k, e.default.delay, e.cast, ctx.source);
    RegisterShape(st, (name, Declared(e)), ctx);
    SaveProperties(Registered(st, name, e), name, Register(st, (name, Declared(e)), ctx).value.attrs[name]);
    var r := Register(st, (name, Declared(e)), ctx).value;
    assert Shape(r.entries)[|st.entries|] == (name, e.index);
  }

  /** A delayed value declared as an attribute of its own is looked up under the
      attribute name: a source value there replaces what the delay computed; without
      one, the computed value is kept. */
  lemma DeferredMemberResolution(st: State, name: string, d: Delay, ctx: Context)
    ensures PrefixKey(ctx.prefix, name) in ctx.source ==>
              Register(st, (name, Deferred(d)), ctx) ==
                Ok(Save(Registered(st, name, Unwrap(name, Deferred(d), st.attrs, ctx.hooks.apply)),
                        name, Str(ctx.source[PrefixKey(ctx.prefix, name)])))
    ensures PrefixKey(ctx.prefix, name) !in ctx.source && !EvalDelay(d, st.attrs, ctx.hooks.apply).Undefined? ==>
              Register(st, (name, Deferred(d)), ctx).Ok? &&
              Register(st, (name, Deferred(d)), ctx).value.attrs[name] == EvalDelay(d, st.attrs, ctx.hooks.apply)
  {
    var e := Unwrap(name, Deferred(d), st.attrs, ctx.hooks.apply);
    if PrefixKey(ctx.prefix, name) !in ctx.source && !EvalDelay(d, st.attrs, ctx.hooks.apply).Undefined? {
      SaveProperties(Registered(st, name, e), name, EvalDelay(d, st.attrs, ctx.hooks.apply));
    }
  }

  /** A registry whose shape is that of index-sorted members appended to an empty
      registry has exactly their shape and nondecreasing indices. */
  lemma {:induction false} SortedShapeHasNondecreasingIndices(reg: Registry, empty: Registry, ms: seq<Member>)
    requires empty == [] && Shape(reg) == Shape(empty) + MemberShape(ms)
    requires forall i, j :: 0 <= i < j < |ms| ==> ms[i].1.Index() <= ms[j].1.Index()
    ensures Shape(reg) == MemberShape(ms)
    ensures NondecreasingIndices(reg) && |reg| == |ms|
  {
    assert Shape(empty) == [];
    assert Shape(reg) == MemberShape(ms);
    forall i, j | 0 <= i < j < |reg|
      ensures reg[i].1.index <= reg[j].1.index
    {
      assert Shape(reg)[i].1 == ms[i].1.Index();
      assert Shape(reg)[j].1 == ms[j].1.Index();
    }
  }

  /** Construction appends the declarations' names and indices, in index order. */
  lemma {:induction false} ConstructShape(st: State, decls: seq<Member>, ctx: Context)
    requires Construct(st, decls, ctx).Ok?
    ensures Shape(Construct(st, decls, ctx).value.entries) == Shape(st.entries) + MemberShape(InIndexOrder(decls))
  {
    var st1 := Pass1(st, InIndexOrder(decls), ctx).value;
    var st2 := Pass2(st1, st1.delayed, ctx);
    Pass1Shape(st, InIndexOrder(decls), ctx);
    Pass2Shape(st1, st1.delayed, ctx);
    AssignShape(st2, ctx.hooks.onLoad(st2.attrs));
  }

  /** After construction from an empty holder the registry holds exactly the
      declarations, sorted by declaration index. */
  lemma {:induction false} ConstructKeepsDeclarationOrder(st: State, decls: seq<Member>, ctx: Context)
    requires st.entries == []
    requires Construct(st, decls, ctx).Ok?
    ensures Shape(Construct(st, decls, ctx).value.entries) == MemberShape(InIndexOrder(decls))
    ensures NondecreasingIndices(Construct(st, decls, ctx).value.entries)
    ensures |Construct(st, decls, ctx).value.entries| == |decls|
  {
    ConstructShape(st, decls, ctx);
    SortedShapeHasNondecreasingIndices(Construct(st, decls, ctx).value.entries, st.entries, InIndexOrder(decls));
  }

  /** No two declarations share an attribute name, as reflection guarantees. */
  predicate DistinctMemberNames(ms: seq<Member>)
  {
    forall i, j :: 0 <= i < j < |ms| ==> ms[i].0 != ms[j].0
  }

  /** With distinct names, no member occurs twice. */
  lemma {:induction false} DistinctMembersOccurOnce(ms: seq<Member>, x: Member)
    requires DistinctMemberNames(ms)
    ensures multiset(ms)[x] <= 1
    decreases |ms|
  {
    if ms != [] {
      assert ms == [ms[0]] + ms[1..];
      DistinctMembersOccurOnce(ms[1..], x);
      if ms[0] == x {
        assert forall k :: 0 <= k < |ms[1..]| ==> ms[1..][k] != x by {
          forall k | 0 <= k < |ms[1..]| ensures ms[1..][k] != x {
            assert ms[1..][k] == ms[k + 1];
          }
        }
        assert x !in multiset(ms[1..]);
      }
    }
  }

  /** A member at two positions occurs at least twice. */
  lemma {:induction false} RepeatedMemberOccursTwice(ms: seq<Member>, i: nat, j: nat)
    requires i < j < |ms| && ms[i] == ms[j]
    ensures multiset(ms)[ms[j]] >= 2
  {
    assert ms == ms[..j] + [ms[j]] + ms[j + 1..];
    assert ms[..j][i] == ms[j];
    assert ms[j] in multiset(ms[..j]);
  }

  /** Reordering declarations keeps their names distinct. */
  lemma {:induction false} PermutationKeepsDistinctNames(a: seq<Member>, b: seq<Member>)
    requires multiset(a) == multiset(b) && DistinctMemberNames(a)
    ensures DistinctMemberNames(b)
  {
    forall i, j | 0 <= i < j < |b|
      ensures b[i].0 != b[j].0
    {
      if b[i] == b[j] {
        RepeatedMemberOccursTwice(b, i, j);
        DistinctMembersOccurOnce(a, b[j]);
      } else {
        assert b[i] in multiset(a) && b[j] in multiset(a);
        var k :| 0 <= k < |a| && a[k] == b[i];
        var l :| 0 <= l < |a| && a[l] == b[j];
        assert k != l;
      }
    }
  }

  /** Built from an empty holder out of declarations with distinct names, the
      registry has distinct names too. */
  lemma {:induction false} Pass1KeepsNamesDistinct(st: State, decls: seq<Member>, ctx: Context)
    requires st.entries == [] && DistinctMemberNames(decls)
    requires Pass1(st, InIndexOrder(decls), ctx).Ok?
    ensures DistinctNames(Pass1(st, InIndexOrder(decls), ctx).value.entries)
  {
    var sorted := InIndexOrder(decls);
    var reg := Pass1(st, sorted, ctx).value.entries;
    Pass1Shape(st, sorted, ctx);
    assert Shape(st.entries) + MemberShape(sorted) == MemberShape(sorted);
    PermutationKeepsDistinctNames(decls, sorted);
    forall i, j | 0 <= i < j < |reg|
      ensures reg[i].0 != reg[j].0
    {
      assert Shape(reg)[i].0 == sorted[i].0;
      assert Shape(reg)[j].0 == sorted[j].0;
    }
  }

  /** During construction, an entry whose value pass 1 settled (a source value
      replaced its delayed default, or its default was not delayed) comes out of
      pass 2 as it went in: its delayed default is never evaluated. */
  lemma {:induction false} ConstructKeepsSettledEntries(st: State, decls: seq<Member>, ctx: Context, i: nat)
    requires st.entries == [] && DistinctMemberNames(decls)
    requires Pass1(st, InIndexOrder(decls), ctx).Ok?
    requires var st1 := Pass1(st, InIndexOrder(decls), ctx).value;
             i < |st1.entries| && !Pending(st1.entries[i].1)
    ensures var st1 := Pass1(st, InIndexOrder(decls), ctx).value;
            i < |Pass2(st1, st1.delayed, ctx).entries|
            && Pass2(st1, st1.delayed, ctx).entries[i] == st1.entries[i]
  {
    var st1 := Pass1(st, InIndexOrder(decls), ctx).value;
    Pass1KeepsNamesDistinct(st, decls, ctx);
    Pass2KeepsSettled(st1, st1.delayed, ctx, i);
  }

  /** Every registered public entry's value is the attribute of its name once
      construction is done; before on_load runs, every entry's is. */
  lemma {:induction false} ConstructSyncsEntries(st: State, decls: seq<Member>, ctx: Context)
    requires Synced(st)
    requires Pass1(st, InIndexOrder(decls), ctx).Ok?
    ensures var st1 := Pass1(st, InIndexOrder(decls), ctx).value;
            Synced(Pass2(st1, st1.delayed, ctx))
    ensures PublicSynced(Construct(st, decls, ctx).value)
  {
    var st1 := Pass1(st, InIndexOrder(decls), ctx).value;
    var st2 := Pass2(st1, st1.delayed, ctx);
    Pass1KeepsSynced(st, InIndexOrder(decls), ctx);
    Pass2KeepsInvariants(st1, st1.delayed, ctx);
    AssignKeepsInvariants(st2, ctx.hooks.onLoad(st2.attrs));
  }

  /** During construction from an empty holder, the k-th member in index order
      resolves against the attributes the earlier members left; when that settles
      its entry, the entry and the attribute of its name still hold the resolution
      when on_load is called. */
  lemma {:induction false} ConstructStoresResolutions(st: State, decls: seq<Member>, ctx: Context, k: nat)
    requires st.entries == [] && DistinctMemberNames(decls)
    requires Pass1(st, InIndexOrder(decls), ctx).Ok? && k < |decls|
    ensures Pass1(st, InIndexOrder(decls)[..k], ctx).Ok?
    ensures var m := InIndexOrder(decls)[k];
            var e := Unwrap(m.0, m.1, Pass1(st, InIndexOrder(decls)[..k], ctx).value.attrs, ctx.hooks.apply);
            EvalEntry(e, ctx).Ok?
    ensures var m := InIndexOrder(decls)[k];
            var e := Unwrap(m.0, m.1, Pass1(st, InIndexOrder(decls)[..k], ctx).value.attrs, ctx.hooks.apply);
            var st1 := Pass1(st, InIndexOrder(decls), ctx).value;
            var st2 := Pass2(st1, st1.delayed, ctx);
            !Pending(e.(value := EvalEntry(e, ctx).value)) ==>
              k < |st2.entries| && st2.entries[k] == (m.0, e.(value := EvalEntry(e, ctx).value))
              && m.0 in st2.attrs && st2.attrs[m.0] == EvalEntry(e, ctx).value
  {
    var sorted := InIndexOrder(decls);
    PermutationKeepsDistinctNames(decls, sorted);
    Pass1StoresResolutions(st, sorted, ctx, k);
    var m := sorted[k];
    var e := Unwrap(m.0, m.1, Pass1(st, sorted[..k], ctx).value.attrs, ctx.hooks.apply);
    var st1 := Pass1(st, sorted, ctx).value;
    if !Pending(e.(value := EvalEntry(e, ctx).value)) {
      ConstructKeepsSettledEntries(st, decls, ctx, k);
      ConstructSyncsEntries(st, decls, ctx);
    }
  }

  /** During construction from an empty holder, an entry that pass 1 left pending
      (a delayed default, no source value) is evaluated in pass 2, at its turn in the
      delayed-default list, against the attributes the earlier refreshes left; the
      result is both its value and the attribute of its name when on_load is called. */
  lemma {:induction false} ConstructEvaluatesPending(st: State, decls: seq<Member>, ctx: Context, i: nat)
    requires st.entries == [] && st.delayed == [] && DistinctMemberNames(decls)
    requires Pass1(st, InIndexOrder(decls), ctx).Ok?
    requires var st1 := Pass1(st, InIndexOrder(decls), ctx).value;
             i < |st1.entries| && Pending(st1.entries[i].1)
    ensures var st1 := Pass1(st, InIndexOrder(decls), ctx).value;
            var st2 := Pass2(st1, st1.delayed, ctx);
            var name := st1.entries[i].0;
            exists j :: 0 <= j < |st1.delayed| && st1.delayed[j] == name
              && i < |st2.entries| && name in st2.attrs
              && st2.entries[i].1.value == st2.attrs[name]
                 == EvalDelay(st1.entries[i].1.default.delay, Pass2(st1, st1.delayed[..j], ctx).attrs, ctx.hooks.apply)
  {
    var st1 := Pass1(st, InIndexOrder(decls), ctx).value;
    var name := st1.entries[i].0;
    Pass1KeepsNamesDistinct(st, decls, ctx);
    Pass1TracksDelayed(st, InIndexOrder(decls), ctx);
    DelayedNamesNoRepeats(st1.entries);
    DelayedNamesMembers(st1.entries, name);
    var j :| 0 <= j < |st1.delayed| && st1.delayed[j] == name;
    Pass2EvaluatesPending(st1, st1.delayed, ctx, i, j);
  }

  /** The delayed-default list names exactly the registered entries whose default is
      a delayed value, in registration order. */
  lemma {:induction false} ConstructTracksDelayedDefaults(st: State, decls: seq<Member>, ctx: Context)
    requires st.delayed == DelayedNames(st.entries)
    requires Construct(st, decls, ctx).Ok?
    ensures Construct(st, decls, ctx).value.delayed == DelayedNames(Construct(st, decls, ctx).value.entries)
  {
    var st1 := Pass1(st, InIndexOrder(decls), ctx).value;
    var st2 := Pass2(st1, st1.delayed, ctx);
    Pass1TracksDelayed(st, InIndexOrder(decls), ctx);
    Pass2KeepsInvariants(st1, st1.delayed, ctx);
    AssignKeepsInvariants(st2, ctx.hooks.onLoad(st2.attrs));
  }

  // ---------------------------------------------------------------- the holder

  /** A line of the debug form. */
  function Line(item: (string, Entry)): string
  {
    "    " + item.0 + ": " + Repr(item.1.value) + "\n"
  }

  /** The lines of the debug form for the given entries, in their order. */
  function Listing(items: Registry): string
  {
    if items == [] then "" else Listing(items[..|items| - 1]) + Line(items[|items| - 1])
  }

  lemma ListingStep(items: Registry, i: nat)
    requires i < |items|
    ensures Listing(items[..i + 1]) == Listing(items[..i]) + Line(items[i])
  {
    assert items[..i + 1][..i] == items[..i];
  }

  function ByName(x: (string, Entry), y: (string, Entry)): bool
  {
    LexLeq(x.0, y.0)
  }

  lemma ByNameIsTotalPreorder()
    ensures IsTotalPreorder(ByName)
  {
    forall x: (string, Entry), y: (string, Entry)
      ensures ByName(x, y) || ByName(y, x)
    {
      LexLeqTotal(x.0, y.0);
    }
    forall x: (string, Entry), y: (string, Entry), z: (string, Entry) | ByName(x, y) && ByName(y, z)
      ensures ByName(x, z)
    {
      LexLeqTransitive(x.0, y.0, z.0);
    }
  }

  /** The registry sorted by attribute name, as debug_repr lists it. */
  function InNameOrder(reg: Registry): (r: Registry)
    ensures multiset(r) == multiset(reg)
    ensures forall i, j :: 0 <= i < j < |r| ==> LexLeq(r[i].0, r[j].0)
  {
    ByNameIsTotalPreorder();
    SortBy(reg, ByName)
  }

  class Holder {
    const prefix: Option<string>
    const source: map<string, string>
    const hooks: Hooks
    /** The mode the holder was created in, restored once construction ends. */
    const requestedModel: bool
    /** `_is_model`: typed constructors return entries (true) or values (false). */
    var isModel: bool
    /** `_counter`: the index the next declaration takes. */
    var counter: nat
    var entries: Registry
    var attrs: map<string, Value>
    var delayed: seq<string>

    function Ctx(): Context
    {
      Context(prefix, source, hooks)
    }

    function Current(): State
      reads this
    {
      State(entries, attrs, delayed)
    }

    /** The field initialisation of `__init__`; the rest of it is Load. */
    constructor(prefix: Option<string>, isModel: bool, source: map<string, string>, hooks: Hooks)
      ensures this.prefix == prefix && this.source == source && this.hooks == hooks
      ensures this.isModel == isModel && requestedModel == isModel
      ensures counter == 0 && entries == [] && attrs == map[] && delayed == []
    {
      this.prefix := prefix;
      this.source := source;
      this.hooks := hooks;
      this.requestedModel := isModel;
      this.isModel := isModel;
      counter := 0;
      entries := [];
      attrs := map[];
      delayed := [];
    }

    /** _process: in model mode a new entry taking the counter as its index, the
        counter moving on by one; in immediate mode the value resolved at once. */
    method Process(key: string, default: Value, cast: CastKind) returns (r: Processed)
      modifies this`counter
      ensures old(isModel) ==> r == AsEntry(Entry(key, default, cast, old(counter), Undefined))
                               && counter == old(counter) + 1
      ensures !old(isModel) ==> r == AsValue(Evaluate(PrefixKey(prefix, key), default, cast, source))
                                && counter == old(counter)
    {
      if isModel {
        r := AsEntry(Entry(key, default, cast, counter, Undefined));
        counter := counter + 1;
      } else {
        r := AsValue(Evaluate(PrefixKey(prefix, key), default, cast, source));
      }
    }

    /** delay: a delayed value taking the counter as its index. */
    method Defer(payload: Payload) returns (d: Delay)
      modifies this`counter
      ensures d == Delay(payload, old(counter)) && counter == old(counter) + 1
    {
      d := Delay(payload, counter);
      counter := counter + 1;
    }

    /** __setattr__. */
    method SetAttr(name: string, v: Value)
      modifies this`entries, this`attrs
      ensures Current() == SetAttrState(old(Current()), name, v)
    {
      attrs := attrs[name := v];
      if Public(name) {
        entries := WithValue(entries, name, v);
      }
    }

    /** _eval_and_save_entry: resolves the entry and sets the attribute. */
    method EvalAndSaveEntry(name: string, e: Entry) returns (r: Result<Value>)
      modifies this`entries, this`attrs
      ensures r == EvalEntry(e, Ctx())
      ensures r.Ok? ==> Current() == SetAttrState(old(Current()), name, r.value)
      ensures r.Err? ==> Current() == old(Current())
    {
      r := Evaluate(PrefixKey(prefix, e.key), e.default, e.cast, source);
      if r.Ok? {
        SetAttr(name, r.value);
      }
    }

    /** One iteration of the first loop of `__init__`. */
    method RegisterMember(m: Member) returns (outcome: Outcome)
      modifies this`entries, this`attrs, this`delayed
      ensures Register(old(Current()), m, Ctx()).Ok? ==>
                outcome == Pass && Current() == Register(old(Current()), m, Ctx()).value
      ensures Register(old(Current()), m, Ctx()).Err? ==>
                outcome == Fail(Register(old(Current()), m, Ctx()).error)
    {
      var (name, item) := m;
      var e := Unwrap(name, item, attrs, hooks.apply);
      entries := entries + [(name, e)];
      if e.default.Delayed? {
        delayed := delayed + [name];
      }
      var r := EvalAndSaveEntry(name, e);
      if r.Err? {
        return Fail(r.error);
      }
      entries := WithValue(entries, name, r.value);
      outcome := Pass;
    }

    /** One iteration of the second loop of `__init__`. */
    method RefreshDelayed(name: string)
      modifies this`entries, this`attrs
      ensures Current() == Refresh(old(Current()), name, Ctx())
    {
      var found := Lookup(entries, name);
      if found.Some? && Pending(found.value) {
        var v := EvalDelay(found.value.default.delay, attrs, hooks.apply);
        SetAttr(name, v);
        entries := WithValue(entries, name, v);
      }
    }

    /** The first loop of `__init__`: each member, in the given order, is registered
        and resolved; the first resolution error stops the loop. */
    method RunPass1(members: seq<Member>) returns (outcome: Outcome)
      modifies this`entries, this`attrs, this`delayed
      ensures Pass1(old(Current()), members, Ctx()).Ok? ==>
                outcome == Pass && Current() == Pass1(old(Current()), members, Ctx()).value
      ensures Pass1(old(Current()), members, Ctx()).Err? ==>
                outcome == Fail(Pass1(old(Current()), members, Ctx()).error)
    {
      ghost var st0 := Current();
      var i := 0;
      while i < |members|
        invariant 0 <= i <= |members|
        invariant Pass1(st0, members, Ctx()) == Pass1(Current(), members[i..], Ctx())
      {
        assert members[i..] == [members[i]] + members[i + 1..];
        outcome := RegisterMember(members[i]);
        if outcome.Fail? {
          return;
        }
        i := i + 1;
      }
      assert members[i..] == [];
      outcome := Pass;
    }

    /** The second loop of `__init__`, over the delayed defaults in registration order. */
    method RunPass2()
      modifies this`entries, this`attrs
      ensures Current() == Pass2(old(Current()), old(delayed), Ctx())
    {
      ghost var st1 := Current();
      var j := 0;
      while j < |delayed|
        invariant 0 <= j <= |delayed| && delayed == st1.delayed
        invariant Pass2(st1, st1.delayed, Ctx()) == Pass2(Current(), st1.delayed[j..], Ctx())
      {
        assert st1.delayed[j..] == [st1.delayed[j]] + st1.delayed[j + 1..];
        RefreshDelayed(delayed[j]);
        j := j + 1;
      }
      assert st1.delayed[j..] == [];
    }

    /** on_load, run on the current attributes, its assignments going through __setattr__. */
    method RunOnLoad()
      modifies this`entries, this`attrs
      ensures Current() == Assign(old(Current()), hooks.onLoad(old(attrs)))
    {
      ghost var st2 := Current();
      var assigns := hooks.onLoad(attrs);
      var k := 0;
      while k < |assigns|
        invariant 0 <= k <= |assigns|
        invariant delayed == st2.delayed
        invariant Assign(st2, assigns) == Assign(Current(), assigns[k..])
      {
        assert assigns[k..] == [assigns[k]] + assigns[k + 1..];
        SetAttr(assigns[k].0, assigns[k].1);
        k := k + 1;
      }
      assert assigns[k..] == [];
    }

    /** The two passes of `__init__` and the on_load call. On success the holder
        holds exactly what Construct describes and is back in its requested mode; a
        resolution error aborts with the mode untouched. */
    method Load(decls: seq<Member>) returns (outcome: Outcome)
      modifies this`entries, this`attrs, this`delayed, this`isModel
      ensures Construct(old(Current()), decls, Ctx()).Err? ==>
                outcome == Fail(Construct(old(Current()), decls, Ctx()).error) && isModel == old(isModel)
      ensures Construct(old(Current()), decls, Ctx()).Ok? ==>
                outcome == Pass && Current() == Construct(old(Current()), decls, Ctx()).value
                && isModel == requestedModel
    {
      outcome := RunPass1(InIndexOrder(decls));
      if outcome.Fail? {
        return;
      }
      isModel := false;
      RunPass2();
      RunOnLoad();
      isModel := requestedModel;
    }

    /** debug_repr: a header naming the class, then one `name: repr(value)` line per
        entry, entries in name order. */
    method DebugRepr(className: string) returns (text: string)
      ensures text == className + "(Configence):\n" + Listing(InNameOrder(entries))
    {
      var items := InNameOrder(entries);
      var header := className + "(Configence):\n";
      var lines := "";
      var i := 0;
      while i < |items|
        invariant 0 <= i <= |items|
        invariant lines == Listing(items[..i])
      {
        ListingStep(items, i);
        lines := lines + Line(items[i]);
        i := i + 1;
      }
      assert items[..i] == items;
      text := header + lines;
    }
  }
}
