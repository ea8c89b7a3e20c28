# configence entry resolution, modelled in Dafny

This project models the entry-resolution engine of configence
(`configence/configence.py`). A configuration holder class declares typed entries
(`str`, `int`, `bool`, `list`, `model`, `enum`) and delayed values. Each declaration
takes a counter-assigned index. Building a holder then does four things:

1. It sorts the declarations by index.
2. Pass 1 resolves each declaration against the value source. The lookup key is
   prefixed, the source value is cast, and the default is the fallback. The value
   is written both to the holder's attribute and to the entry registry.
3. Pass 2 evaluates the delayed defaults that no source value replaced.
4. It runs `on_load`, then restores the requested mode.

The modules follow that structure:

- `values.dfy` (module `Values`): the values the engine handles and the two error
  kinds it tells apart. NotFound is decouple's `UndefinedValueError`; Invalid is
  every other exception. It also holds Python's `str()`/`repr()` text of values.
- `casts.dfy` (module `Casts`): `cast_boolean`, `int()` on decimal text, the
  delimiter list cast, the schema/enum casts as lookup tables, `ignore_confi_delay_cast`
  and `load_conf_if_none`.
- `templates.dfy` (module `Templates`): evaluation of delayed values. A string
  template substitutes `{name}` with the attribute's `str()` and leaves an unknown
  name as literal text. A callable is called with keyword arguments taken from the
  attributes, or from its own parameter defaults.
- `resolution.dfy` (module `Resolution`): `_prefix_key`, decouple's lookup as a
  map from keys to raw strings, and `_evaluate`'s fallback policy.
- `ordering.dfy` (module `Ordering`): an insertion sort standing for `sorted`, and
  Python's code-point order on strings.
- `holders.dfy` (module `Holders`): the entry registry and the two passes. These
  are specified as functions on a `State` value. The `Holder` class carries them
  out in place, and its methods are proved equal to those functions.

Notes on how the model reads the code:

- Python's `__init__` is split into two members. `Holder.constructor` holds the
  field setup of lines 105-114. `Holder.Load` holds the two loops and the
  `on_load` call of lines 116-155. A Dafny constructor cannot fail, while
  construction can raise.
- An invalid boolean in the source falls back to the default. `cast_boolean`
  raises the same `UndefinedValueError` that `_evaluate` catches. The model keeps
  this behaviour.
- Lines 132-140 resolve every entry in pass 1, including entries whose default is
  a delayed value. A missing source key leaves the delay itself as the value, and
  pass 2 replaces it.
- Pass 2 stores the evaluated delayed default as it is, without running the
  entry's cast again (lines 150-152). This differs from what the docstring of
  `ignore_confi_delay_cast` (lines 70-71) says should happen. The model follows
  the code.
- `decouple.config` consults the environment and then `.env` files. It is
  modelled as one map from keys to raw strings, passed to the holder.

## Model

| member | source | states |
|---|---|---|
| Casts.CastBoolean | configence/configence.py:28-45 | a bool passes through; text gives True exactly when it lower-cases to "true" or "1", False exactly when it lower-cases to "false" or "0", and fails exactly when it lower-cases to anything else; every failure has the not-found kind, and a non-string non-bool always fails |
| Casts.CastBooleanIgnoresCase | configence/configence.py:37-41 | two texts that lower-case alike cast to the same result |
| Casts.CastBooleanReadsStr | configence/configence.py:34-41 | Python's own spelling of a bool, "True"/"False", reads back as that bool |
| Casts.CastBooleanSpellings | tests/test_edge_cases.py:90-110 | TRUE, True, 1 give True; FALSE, False, 0 give False; "yes" fails with the not-found kind |
| Casts.ParseInt | configence/configence.py:316-324 | `int()` on text succeeds exactly on an optionally signed, non-empty run of decimal digits; failure has the invalid kind; the sign fixes the sign of the result |
| Casts.ParseIntInvertsIntToString | configence/configence.py:316-324 | `int(str(i)) == i` for every integer i |
| Casts.SplitFields | configence/configence.py:345-362 | every field of the list cast is non-empty and free of the delimiter |
| Casts.SplitInvertsJoin | configence/configence.py:345-362 | splitting the delimiter-joined text of non-empty, delimiter-free fields gives the fields back |
| Casts.SplitExamples | tests/test_edge_cases.py:112-124 | empty source text gives the empty list and "item1" gives ["item1"] |
| Casts.SplitCustomDelimiter | tests/test_edge_cases.py:126-129 | "a;b;c" split on ";" gives ["a", "b", "c"] |
| Casts.Cast | configence/configence.py:311-396 | only the boolean cast reports not-found; no cast is the identity; the bool cast is `cast_boolean`; the int cast accepts text exactly when it is an integer literal and then gives `int()` of it; the list cast always succeeds on text and gives the split fields as strings, in order |
| Casts.SafeCast | configence/configence.py:66-80 | a delayed value comes back unchanged without the cast; any other value goes through the cast |
| Casts.CastOfTextIsNotDelayed | configence/configence.py:66-80 | outside the schema and enum tables, a cast of source text never yields a delayed value |
| Casts.LoadConfIfNone | configence/configence.py:83-87 | the result is the variable or conf; a non-None variable is kept; a None result means conf was None |
| Templates.NameLengthIsMaximal | configence/configence.py:125 | the name run of a text consists of name characters and stops at the first other character |
| Templates.PlaceholderAtShape | configence/configence.py:125 | a recognised placeholder is "{", a non-empty name and "}"; such a shape at the head of a text is recognised with that name |
| Templates.SubstituteUnboundIsIdentity | tests/test_edge_cases.py:157-172 | a template none of whose placeholder names is an attribute comes back verbatim |
| Templates.SubstituteReadsOnlyNames | configence/configence.py:125 | substitution depends only on the attributes the template names |
| Templates.Substitute | configence/configence.py:125 | no contract; a bound placeholder becomes the attribute's text and an unbound one stays literal, as SubstitutePlaceholder, SubstituteLiteral and SubstituteUnboundIsIdentity state |
| Templates.SubstituteLiteral | tests/test_config_models.py:34-42 | text without an opening brace is copied unchanged in front of the rest's substitution |
| Templates.SubstitutePlaceholder | tests/test_config_models.py:34-42 | `{name}` becomes the attribute's text when the name is bound and stays literal when it is not |
| Templates.SubstituteTwoPlaceholders | tests/test_config_models.py:34-49 | "{a}" + literal + "{b}" with both bound gives str(a) + literal + str(b), the shape of "{MY_HERO} is over {POWER_LEVEL}" |
| Templates.BindArgs | tests/test_config_models.py:55-66 | each keyword parameter is bound to the attribute of its name when there is one and to its own default otherwise |
| Templates.EvalDelay | configence/configence.py:150 | no contract; a template substitutes the attributes and a callable is applied to BindArgs of them, and the result reads only the names the delay mentions (EvalDelayReadsOnlyItsNames) |
| Templates.EvalDelayReadsOnlyItsNames | configence/configence.py:125 | a delayed value's result depends only on the attributes it names |
| Resolution.PrefixKey | configence/configence.py:169-171 | no prefix gives the key; a prefix gives prefix followed by key, exactly |
| Resolution.EmptyPrefixIsIdentity | tests/test_edge_cases.py:174-188 | an empty prefix and no prefix give the same key |
| Resolution.SourceGet | configence/configence.py:219-220 | a key in the source is cast; a missing key with a text default casts the default; a missing key without one is not-found |
| Resolution.Fallback | configence/configence.py:221-233 | no default re-raises not-found; a text default, or a mapping default under the schema cast, is cast; any other default is returned verbatim |
| Resolution.Evaluate | configence/configence.py:215-240 | a source value is cast and, unless the cast reports not-found, is the result; otherwise the fallback decides; not-found escapes only under the boolean cast or with no default |
| Resolution.SourceOverridesDefault | tests/test_edge_cases.py:22-36 | with the key in the source and any non-boolean cast, the default does not matter, even for empty source text |
| Resolution.EvaluateBasicExamples | tests/test_basic_config.py:9-39 | with the key missing the default Son Goku comes back; Vegeta in the source overrides it; the int default 9001 comes back verbatim |
| Resolution.EvaluateEdgeExamples | tests/test_edge_cases.py:10-52 | "" from the source is kept over the default; a None default comes back verbatim; no default fails with not-found |
| Resolution.EvaluateReadsIntText | tests/test_basic_config.py:25-36 | an int entry whose source text is str(i) resolves to i whatever the default, as "8000" gives 8000 |
| Resolution.EvaluateReadsJoinedFields | tests/test_basic_config.py:82-93 | a list entry whose source text is non-empty, delimiter-free fields joined by the delimiter resolves to those fields whatever the default, as "event3,event4,event5" gives three items |
| Resolution.InvalidBooleanFallsBack | configence/configence.py:221-233 | an invalid boolean in the source gives what a missing key gives: a bool default, or not-found without a default |
| Resolution.ValidBooleanWins | tests/test_basic_config.py:41-64 | a valid boolean in the source wins over the default |
| Resolution.PrefixedKeyOnly | tests/test_basic_config.py:98-113 | with a prefix, the unprefixed key in the source has no effect |
| Resolution.DelayedDefaultOutcome | configence/configence.py:215-233 | a delayed default is returned untouched when the key is missing and replaced by the cast source text when it is present (a rejected boolean keeps the delay) |
| Ordering.SortBy | configence/configence.py:117-119 | the result is sorted by the given order and is a permutation of the input |
| Ordering.LexLeqTotal | configence/configence.py:254 | any two names are ordered one way or the other |
| Ordering.LexLeqTransitive | configence/configence.py:254 | name order is transitive |
| Ordering.LexLeqAntisymmetric | configence/configence.py:254 | two names ordered both ways are equal |
| Holders.Lookup | configence/configence.py:146-147 | a name is found exactly when it is registered; what is found is registered under it, and is the only entry under it when names are distinct |
| Holders.SetAttrState | configence/configence.py:297-302 | no contract; its properties are in SetAttrStateProperties |
| Holders.SetAttrStateProperties | configence/configence.py:297-302 | the attribute takes the value and no other attribute changes; a registered public name's entries take it too; entries under other names are untouched; private or unregistered names leave the registry alone; names, indices and delayed defaults never change; syncing is preserved |
| Holders.Save | configence/configence.py:138-140 | no contract; its properties are in SaveProperties |
| Holders.SaveProperties | configence/configence.py:138-140 | the attribute and every entry of the name take the value, other entries are unchanged, syncing is preserved |
| Holders.EvalEntry | configence/configence.py:178-181 | the entry's key is prefixed; a missing key gives the fallback on the default; a present key gives the cast source text under every cast but the boolean one; without a prefix it is `_evaluate` on the bare key |
| Holders.Unwrap | configence/configence.py:122-130 | a declared entry is kept; a delayed member becomes an entry keyed by the attribute name, whose default is the delay evaluated now, with the delay's index |
| Holders.Register | configence/configence.py:121-140 | no contract; its properties are in RegisterShape, RegisterTracksDelayed, RegisterKeepsSynced, RegisterFailsWithEntry and RegisterStoresResolution |
| Holders.RegisterShape | configence/configence.py:121-136 | the registry grows by exactly this member's name and index; the name is added to the delayed-default list exactly when the entry's default is a delayed value |
| Holders.RegisterTracksDelayed | configence/configence.py:133-136 | registering keeps the delayed-default list equal to the registry's delayed-default names |
| Holders.RegisterKeepsSynced | configence/configence.py:138-140 | after registering, every entry's value, the new one included, is the attribute of its name |
| Holders.RegisterFailsWithEntry | configence/configence.py:138-140 | registering fails exactly when resolving the entry fails, with the same error |
| Holders.RegisterStoresResolution | configence/configence.py:121-140 | on success the entry's resolution becomes the attribute of the member's name (no other attribute changes) and the value of the appended entry, which is otherwise the unwrapped member; older entries under other names stay as they were |
| Holders.Pass1 | configence/configence.py:121-140 | no contract; its properties are in Pass1Shape, Pass1TracksDelayed, Pass1KeepsSynced and Pass1StoresResolutions |
| Holders.Pass1Shape | configence/configence.py:121-140 | the registry grows by the members' names and indices, in the order given |
| Holders.Pass1TracksDelayed | configence/configence.py:133-136 | the delayed-default list stays equal to the registry's delayed-default names |
| Holders.Pass1KeepsSynced | configence/configence.py:138-140 | every entry's value stays equal to the attribute of its name |
| Holders.Pass1Split | configence/configence.py:121-140 | pass 1 over a list is pass 1 over any prefix, which then succeeds, followed by pass 1 over the rest |
| Holders.Pass1KeepsOtherName | configence/configence.py:121-140 | pass 1 appends one entry per member and leaves alone the attribute and the entries of a name no member carries |
| Holders.Pass1StoresResolutions | configence/configence.py:121-140 | with distinct member names, the k-th appended entry is the k-th member unwrapped against the attributes the earlier members left, holding its resolution, and the attribute of its name holds that resolution too |
| Holders.Refresh | configence/configence.py:146-152 | no contract; its properties are in RefreshProperties, RefreshStoresEvaluation and RefreshEvaluatesPending |
| Holders.RefreshProperties | configence/configence.py:146-152 | a refresh keeps the registry's names, indices and delayed defaults and keeps entries synced; settled entries and entries under other names are untouched |
| Holders.RefreshStoresEvaluation | configence/configence.py:146-152 | a pending delayed default is evaluated on the current attributes and stored uncast in the attribute (no other attribute changes) and in the name's entries; a name that is unregistered or not pending leaves the state unchanged |
| Holders.RefreshEvaluatesPending | configence/configence.py:146-152 | with distinct names, refreshing a pending entry's name stores the evaluation of its delayed value on the current attributes as the entry's value and as the attribute of its name, and changes no other attribute |
| Holders.Pass2 | configence/configence.py:145-152 | no contract; its properties are in Pass2Shape, Pass2KeepsInvariants, Pass2KeepsSettled and Pass2EvaluatesPending |
| Holders.Pass2Shape | configence/configence.py:145-152 | the registry's names and indices and the delayed-default list are unchanged |
| Holders.Pass2KeepsInvariants | configence/configence.py:145-152 | the registry's delayed defaults are unchanged and every entry stays synced with its attribute |
| Holders.Pass2Append | configence/configence.py:146-152 | pass 2 over a concatenated list is pass 2 over the front, then over the back |
| Holders.Pass2Around | configence/configence.py:146-152 | pass 2 over a list cut around one name is pass 2 over the front, that name's refresh, then pass 2 over the back |
| Holders.Pass2KeepsOtherName | configence/configence.py:146-152 | pass 2 leaves alone the attribute and the entries of a name it is not given |
| Holders.Pass2EvaluatesPending | configence/configence.py:146-152 | with distinct registry names and a list without repeats, a pending entry whose name is at position j ends pass 2 holding its delayed value evaluated against the attributes after the first j refreshes, and so does the attribute of its name |
| Holders.Pass2EvaluatesPendingAt | configence/configence.py:146-152 | the same, for a list cut around the entry's name |
| Holders.Assign | configence/configence.py:154 | no contract; its properties are in AssignShape, AssignKeepsInvariants and AssignSetsAttributes |
| Holders.AssignShape | configence/configence.py:154 | on_load's assignments change neither the registry's names and indices nor the delayed-default list |
| Holders.AssignKeepsInvariants | configence/configence.py:154 | on_load's assignments keep the registry's delayed defaults and keep public entries synced |
| Holders.AssignSnoc | configence/configence.py:297-302 | one more assignment is one more `__setattr__` applied after the others |
| Holders.AssignSetsAttributes | tests/test_edge_cases.py:229-240 | after on_load's assignments a name holds the value last assigned to it, and its entries do too when it is public; a name never assigned keeps its attribute and its entries |
| Holders.InIndexOrder | configence/configence.py:117-119 | the members are permuted into nondecreasing index order |
| Holders.ByIndexIsTotalPreorder | configence/configence.py:161-163 | the index key orders all members |
| Holders.Construct | configence/configence.py:116-155 | no contract; its properties are in ConstructShape, ConstructKeepsDeclarationOrder, ConstructStoresResolutions, ConstructKeepsSettledEntries, ConstructEvaluatesPending, ConstructSyncsEntries and ConstructTracksDelayedDefaults |
| Holders.Pass2KeepsSettled | configence/configence.py:146-152 | with distinct names, an entry whose value is neither its delay nor undefined leaves pass 2 unchanged |
| Holders.SourceValueSettlesDelayedDefault | configence/configence.py:132-140 | under the str, int and list casts, and under the bool cast when the text is a valid boolean, a source value for an entry with a delayed default is cast and stored in pass 1, which settles the entry (rejected boolean text keeps the delay, as DelayedDefaultOutcome states) |
| Holders.DeferredMemberResolution | configence/configence.py:123-140 | a delayed member is looked up under its attribute name: a source value there replaces the computed value, otherwise the computed value is kept |
| Holders.ConstructShape | configence/configence.py:116-155 | construction appends the declarations' names and indices, sorted by index, to the registry |
| Holders.ConstructKeepsDeclarationOrder | configence/configence.py:116-140 | from an empty holder, the registry is exactly the declarations sorted by index |
| Holders.PermutationKeepsDistinctNames | configence/configence.py:117-119 | reordering declarations with distinct names keeps the names distinct |
| Holders.Pass1KeepsNamesDistinct | configence/configence.py:117-133 | declarations with distinct names give a registry with distinct names |
| Holders.ConstructKeepsSettledEntries | configence/configence.py:121-152 | with distinct declaration names, an entry that pass 1 settled (a source value replaced its delayed default, or the default was not delayed) leaves pass 2 unchanged, so its delayed default is never evaluated |
| Holders.ConstructStoresResolutions | configence/configence.py:116-152 | from an empty holder with distinct declaration names, the k-th member in index order resolves against the attributes the earlier members left; when that settles its entry, the entry and its attribute still hold the resolution when on_load is called |
| Holders.ConstructEvaluatesPending | configence/configence.py:121-152 | from an empty holder with distinct declaration names, an entry left pending by pass 1 is evaluated at its turn in the delayed-default list against the attributes the earlier refreshes left, and both it and its attribute hold the result when on_load is called |
| Holders.DelayedNamesMembers | configence/configence.py:133-136 | a name is in the delayed-default names exactly when some entry under it has a delayed default |
| Holders.DelayedNamesNoRepeats | configence/configence.py:133-136 | a registry without repeated names notes no name twice as a delayed default |
| Holders.ConstructSyncsEntries | configence/configence.py:138-155 | before on_load every entry's value is its attribute; after construction every public entry's is |
| Holders.ConstructTracksDelayedDefaults | configence/configence.py:133-136 | the delayed-default list names exactly the entries whose default is a delayed value |
| Holders.ByNameIsTotalPreorder | configence/configence.py:254 | the name key orders all entries |
| Holders.InNameOrder | configence/configence.py:253-254 | the entries are permuted into name order |
| Holders.Holder.constructor | configence/configence.py:105-114 | the mode is the requested one, the counter is 0, the registry and attributes are empty |
| Holders.Holder.Process | configence/configence.py:183-213 | model mode returns an entry with the old counter as index and increments the counter; immediate mode returns the resolved value and leaves the counter |
| Holders.Holder.Defer | configence/configence.py:304-307 | the delay takes the old counter as index; the counter goes up by one |
| Holders.Holder.SetAttr | configence/configence.py:297-302 | the holder's new state is SetAttrState of the old one |
| Holders.Holder.EvalAndSaveEntry | configence/configence.py:173-181 | the result is the entry's resolution; on success the attribute is set through SetAttrState, on failure nothing changes |
| Holders.Holder.RegisterMember | configence/configence.py:121-140 | the new state is Register of the old one, or the error it reports |
| Holders.Holder.RefreshDelayed | configence/configence.py:146-152 | the new state is Refresh of the old one: a pending delayed default is evaluated and stored uncast, anything else is left alone |
| Holders.Holder.RunPass1 | configence/configence.py:121-140 | the new state is Pass1 of the old one, or its error |
| Holders.Holder.RunPass2 | configence/configence.py:145-152 | the new state is Pass2 of the old one over the delayed defaults |
| Holders.Holder.RunOnLoad | configence/configence.py:154 | the new state is the old one with on_load's assignments applied through SetAttrState |
| Holders.Holder.Load | configence/configence.py:116-155 | on success the state is Construct of the old one and the mode is the requested one; on failure the error is Construct's and the mode is unchanged |
| Holders.Holder.DebugRepr | configence/configence.py:249-258 | the header "<class>(Configence):" and then one "    name: repr(value)" line per entry, in name order |

## Left out

- The command-line interface (`get_cli_object`, `cli`) and its adapter module are not part of this model. They are Typer/Click plumbing.
- The float cast: floating-point parsing is not modelled.
- `cast_pydantic` and the enum constructor: schema validation and enum coercion belong to foreign libraries. They are modelled as lookup tables (`ModelCast`, `EnumCast`), where a value missing from the table fails with the invalid kind. The JSON-then-object retry inside `cast_pydantic` is not modelled.
- Casts.ParseInt: Python's `int()` also accepts surrounding whitespace, digit-group underscores and non-ASCII decimal digits (any Unicode digit of category Nd); the model accepts only an optional sign and the ASCII digits 0-9. CPython 3.11 and later also refuse, with a ValueError, to convert text of more than 4300 digits; the model's integers are unbounded and it converts any length.
- Casts.SplitFields: decouple's `Csv` uses shlex quoting and comment rules, strips whitespace from each element and applies a sub-cast; the model splits on the delimiter and drops empty fields, which is what the list tests fix. `Csv`'s delimiter is a string, each of whose characters separates fields; the model takes a single delimiter character.
- Casts.CastBoolean: lower-casing covers ASCII letters only. No other character lower-cases to a letter of "true" or "false", so the accepted set is the same.
- Logging of validation failures (lines 234-237): there is no output channel in the model.
- `__repr__`'s JSON document is not modelled. Only the name-ordered debug form is.
- Values.Show: `repr()` of strings does not escape quotes. Delayed values and the undefined sentinel print a fixed text in place of Python's object address. An `Opaque` value (a pydantic model instance or an enum member) shows the same text for `str` and `repr`, so the debug listing's line for such an entry is not Python's `repr` of it (an enum member's repr is `<Color.RED: 'red'>`, its str `Color.RED`).
- `configence/types.py` is not part of this model. `ConfigenceDelay.eval` is modelled as `{name}` template substitution or a call through the `apply` hook. `ConfigenceEntry` is a datatype whose cast is taken to be the identity when no cast is given, and whose `value` starts undefined.
- Templates.Substitute: a delayed value reads only the holder's attributes map, which holds what the holder itself set (entries, resolved delays, on_load's assignments). Python's `getattr` also finds plain class attributes that are not entries, such as `MY_CONST = "Bulma!"` in tests/test_config_models.py:14, so a `{MY_CONST}` placeholder that Python would fill stays literal in the model, and a callable parameter of that name takes its default.
- Templates.Substitute: only `{identifier}` placeholders are recognised. `str.format` field syntax beyond that (attributes, indexing, format specs) is not modelled.
- The callables of delayed values and the `on_load` override are user code. They are parameters of the holder (`Hooks`). `on_load` is given as the list of attribute assignments it makes. A callable that calls back into the holder is not modelled.
- Templates.BindArgs: a callable parameter without a default is given a default value; Python would fail the call when such a parameter is not bound.
- Reflection (`inspect.getmembers`) becomes an explicit list of (name, member) declarations given to `Holder.Load`.
- `_entries` and `_delayed_defaults` are dicts, where a repeated name would overwrite the earlier entry. The model keeps them as sequences in registration order. `inspect.getmembers` never yields a name twice, so the lemmas that need unique names take them as a hypothesis (`DistinctNames`).
- Entries are values in the registry. Several instances of one holder class share their class-level entry objects in Python; that aliasing is not modelled.
- `_delayed_entries` is created but never used by the code; it is left out.
- The `_is_entry` and `_get_entry_index` helpers are folded into `Item` and `Holders.ByIndex`.
- The typed constructors (`str`, `int`, `bool`, `float`, `list`, `model`, `enum`) are the choice of `CastKind` passed to `Holder.Process`. The `description`, `flags`, `cast_from_json` and `type` arguments only feed the CLI and are not modelled.
- Ordering.SortBy: Python's `sorted` is stable. The model's insertion sort is stable too, but the contract states only sortedness and permutation.
- The module-level default holder (`configence = Configence()`) is not modelled; declarations carry whatever index they were given.
