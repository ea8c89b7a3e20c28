/** Resolution of one entry: the prefixed lookup key, the value source (decouple's
    `config`, reduced to a map from keys to raw strings) and the fallback policy of
    `_evaluate`, which decides when the default is used, when it is cast and when the
    not-found error is re-raised. */
module Resolution {
  import opened Values
  import opened Casts

  /** _prefix_key: the prefix is glued in front of the key verbatim; without a prefix
      the key is used as it is. */
  function PrefixKey(prefix: Option<string>, key: string): (r: string)
    ensures prefix.None? ==> r == key
    ensures prefix.Some? ==> |r| == |prefix.value| + |key|
                             && r[..|prefix.value|] == prefix.value
                             && r[|prefix.value|..] == key
  {
    match prefix
    case None => key
    case Some(p) => p + key
  }

  /** An empty prefix behaves like no prefix at all. */
  lemma EmptyPrefixIsIdentity(key: string)
    ensures PrefixKey(Some(""), key) == PrefixKey(None, key) == key
  {
    assert "" + key == key;
  }

  /** decouple's Config.get as `_evaluate` calls it: a key in the source is cast; a
      missing key falls back to the passed default, which is cast too; with no passed
      default the lookup reports not-found. */
  function SourceGet(source: map<string, string>, key: string, passed: Value, cast: CastKind): (r: Result<Value>)
    requires passed.Str? || passed.Undefined?
    ensures key in source ==> r == SafeCast(cast, Str(source[key]))
    ensures key !in source && passed.Undefined? ==> r == Err(NotFound)
    ensures key !in source && passed.Str? ==> r == SafeCast(cast, passed)
  {
    if key in source then SafeCast(cast, Str(source[key]))
    else if passed.Undefined? then Err(NotFound)
    else SafeCast(cast, passed)
  }

  /** The except-branch of `_evaluate`: no default re-raises not-found; a string
      default, or a mapping default under a schema cast, goes through the cast;
      every other default is returned as it is. */
  function Fallback(default: Value, cast: CastKind): (r: Result<Value>)
    ensures default.Undefined? ==> r == Err(NotFound)
    ensures !default.Undefined? && !default.Str? && !(default.Dict? && cast.ModelCast?) ==> r == Ok(default)
    ensures default.Str? ==> r == Cast(cast, default)
    ensures default.Dict? && cast.ModelCast? ==> r == Cast(cast, default)
  {
    if default.Undefined? then Err(NotFound)
    else if default.Str? || (default.Dict? && cast.ModelCast?) then SafeCast(cast, default)
    else Ok(default)
  }

  /** _evaluate: only a string default is handed to the source (anything else is
      passed as undefined); a not-found from the lookup, which includes a rejected
      boolean, is answered by the fallback; every other error propagates. */
  function Evaluate(key: string, default: Value, cast: CastKind, source: map<string, string>): (r: Result<Value>)
    ensures key in source && Cast(cast, Str(source[key])) != Err(NotFound) ==> r == Cast(cast, Str(source[key]))
    ensures key in source && Cast(cast, Str(source[key])) == Err(NotFound) ==> r == Fallback(default, cast)
    ensures key !in source ==> r == Fallback(default, cast)
    ensures r.Err? && r.error == NotFound ==> cast.BoolCast? || default.Undefined?
  {
    var passed := if default.Str? then default else Undefined;
    var first := SourceGet(source, key, passed, cast);
    if first == Err(NotFound) then Fallback(default, cast) else first
  }

  /** A key present in the source decides the result under every cast but the
      boolean one: the default is not consulted, not even when the source text is empty. */
  lemma SourceOverridesDefault(key: string, d1: Value, d2: Value, cast: CastKind, source: map<string, string>)
    requires key in source && !cast.BoolCast?
    ensures Evaluate(key, d1, cast, source) == Evaluate(key, d2, cast, source) == Cast(cast, Str(source[key]))
  {
  }

  /** The immediate-mode scenarios of the repository's basic tests: a source value
      wins, and a missing key takes the default. */
  lemma EvaluateBasicExamples(source: map<string, string>)
    requires source == map["MY_HERO" := "Vegeta"]
    ensures Evaluate("MY_HERO", Str("Son Goku"), NoCast, map[]) == Ok(Str("Son Goku"))
    ensures Evaluate("MY_HERO", Str("Son Goku"), NoCast, source) == Ok(Str("Vegeta"))
    ensures Evaluate("POWER_LEVEL", Int(9001), IntCast, source) == Ok(Int(9001))
  {
  }

  /** The immediate-mode edge cases: an empty source string is a value, a None
      default comes back as None, and no default fails with not-found. */
  lemma EvaluateEdgeExamples(source: map<string, string>)
    requires source == map["EMPTY_KEY" := ""]
    ensures Evaluate("EMPTY_KEY", Str("default"), NoCast, source) == Ok(Str(""))
    ensures Evaluate("NONE_KEY", NoneValue, NoCast, source) == Ok(NoneValue)
    ensures Evaluate("NONEXISTENT_KEY", Undefined, NoCast, source) == Err(NotFound)
  {
  }

  /** An int entry whose source text is str(i) resolves to i, whatever the default:
      the shape of the tests' "8000" read as 8000. */
  lemma EvaluateReadsIntText(key: string, default: Value, i: int, source: map<string, string>)
    requires key in source && source[key] == IntToString(i)
    ensures Evaluate(key, default, IntCast, source) == Ok(Int(i))
  {
    ParseIntInvertsIntToString(i);
  }

  /** A list entry whose source text is non-empty, delimiter-free fields joined by
      the delimiter resolves to those fields as strings, whatever the default: the
      shape of the tests' "event3,event4,event5" read as three items. */
  lemma EvaluateReadsJoinedFields(key: string, default: Value, xs: seq<string>, d: char,
                                  source: map<string, string>)
    requires forall k :: 0 <= k < |xs| ==> |xs[k]| > 0 && d !in xs[k]
    requires key in source && source[key] == JoinWith(xs, [d])
    ensures Evaluate(key, default, ListCast(d), source) == Ok(List(seq(|xs|, k requires 0 <= k < |xs| => Str(xs[k]))))
  {
    SplitInvertsJoin(xs, d);
    var r := Cast(ListCast(d), Str(source[key]));
    assert r.value.items == seq(|xs|, k requires 0 <= k < |xs| => Str(xs[k]));
  }

  /** An invalid boolean in the source is treated as if the key were missing: the
      result is exactly what the same lookup gives without the key, so a default
      rescues it and only a missing default fails. */
  lemma InvalidBooleanFallsBack(key: string, default: Value, source: map<string, string>)
    requires key in source && CastBoolean(Str(source[key])).Err?
    ensures Evaluate(key, default, BoolCast, source) == Evaluate(key, default, BoolCast, source - {key})
    ensures default.Bool? ==> Evaluate(key, default, BoolCast, source) == Ok(default)
    ensures default.Undefined? ==> Evaluate(key, default, BoolCast, source) == Err(NotFound)
  {
  }

  /** A valid boolean in the source wins over the default. */
  lemma ValidBooleanWins(key: string, default: Value, source: map<string, string>, b: bool)
    requires key in source && CastBoolean(Str(source[key])) == Ok(Bool(b))
    ensures Evaluate(key, default, BoolCast, source) == Ok(Bool(b))
  {
  }

  /** With prefix "NEW_" only the prefixed key is consulted: the unprefixed key may
      hold anything without changing the result. */
  lemma PrefixedKeyOnly(prefix: string, key: string, default: Value, cast: CastKind,
                        source: map<string, string>, raw: string)
    requires key != PrefixKey(Some(prefix), key)
    ensures Evaluate(PrefixKey(Some(prefix), key), default, cast, source[key := raw])
         == Evaluate(PrefixKey(Some(prefix), key), default, cast, source - {key})
  {
    var k := PrefixKey(Some(prefix), key);
    assert k in source[key := raw] <==> k in source - {key};
    if k in source {
      assert source[key := raw][k] == (source - {key})[k];
    }
  }

  /** A delayed default survives resolution untouched when the source lacks the key,
      and is replaced by the cast source text otherwise (except under the boolean cast,
      where a rejected text keeps the delayed default). */
  lemma DelayedDefaultOutcome(key: string, d: Delay, cast: CastKind, source: map<string, string>)
    ensures key !in source ==> Evaluate(key, Delayed(d), cast, source) == Ok(Delayed(d))
    ensures key in source && !cast.BoolCast? ==>
              Evaluate(key, Delayed(d), cast, source) == Cast(cast, Str(source[key]))
    ensures key in source && cast.BoolCast? ==>
              Evaluate(key, Delayed(d), cast, source) ==
                (if CastBoolean(Str(source[key])).Ok? then CastBoolean(Str(source[key])) else Ok(Delayed(d)))
  {
  }
}
