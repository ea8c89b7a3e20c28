/** Evaluation of delayed values against a holder's current attributes: the
    string-template form substitutes `{name}` placeholders and leaves a placeholder
    whose name is not (yet) an attribute as literal text; the callable form binds
    each keyword parameter to the attribute of that name or to its own default. */
module Templates {
  import opened Values

  predicate IsNameChar(c: char)
  {
    'a' <= c <= 'z' || 'A' <= c <= 'Z' || '0' <= c <= '9' || c == '_'
  }

  predicate IsName(s: string)
  {
    |s| > 0 && forall k :: 0 <= k < |s| ==> IsNameChar(s[k])
  }

  /** The length of the run of name characters s starts with. */
  function NameLength(s: string): (n: nat)
    ensures n <= |s|
  {
    if s == [] || !IsNameChar(s[0]) then 0 else 1 + NameLength(s[1..])
  }

  /** The length of the name when t starts with a placeholder `{name}`, else 0. */
  function PlaceholderAt(t: string): (n: nat)
    ensures n > 0 ==> n + 2 <= |t|
  {
    if |t| > 0 && t[0] == '{' then
      var n := NameLength(t[1..]);
      if n > 0 && n + 1 < |t| && t[n + 1] == '}' then n else 0
    else 0
  }

  lemma {:induction false} NameLengthIsMaximal(s: string)
    ensures forall k :: 0 <= k < NameLength(s) ==> IsNameChar(s[k])
    ensures NameLength(s) < |s| ==> !IsNameChar(s[NameLength(s)])
    decreases |s|
  {
    if s != [] && IsNameChar(s[0]) {
      NameLengthIsMaximal(s[1..]);
    }
  }

  /** A placeholder is an opening brace, a non-empty name and a closing brace, and a
      text not starting with an opening brace has none at its head. */
  lemma PlaceholderAtShape(t: string)
    ensures PlaceholderAt(t) > 0 ==>
              t[0] == '{' && t[PlaceholderAt(t) + 1] == '}' && IsName(t[1..PlaceholderAt(t) + 1])
    ensures (|t| > 1 && t[0] == '{' && IsNameChar(t[1]) && NameLength(t[1..]) + 1 < |t|
             && t[NameLength(t[1..]) + 1] == '}') ==> PlaceholderAt(t) == NameLength(t[1..])
  {
    if |t| > 0 {
      NameLengthIsMaximal(t[1..]);
    }
  }

  /** The names of all placeholders in a template. */
  function Names(t: string): set<string>
    decreases |t|
  {
    if t == [] then {}
    else
      var n := PlaceholderAt(t);
      if n > 0 then {t[1..n + 1]} + Names(t[n + 2..]) else Names(t[1..])
  }

  /** Replaces each placeholder whose name is an attribute by that attribute's
      str() text; every other character, unresolved placeholders included, is kept. */
  function Substitute(t: string, attrs: map<string, Value>): string
    decreases |t|
  {
    if t == [] then []
    else
      var n := PlaceholderAt(t);
      if n > 0 then
        var name := t[1..n + 1];
        (if name in attrs then Render(attrs[name]) else t[..n + 2]) + Substitute(t[n + 2..], attrs)
      else [t[0]] + Substitute(t[1..], attrs)
  }

  /** A template none of whose placeholders names an attribute comes back verbatim:
      unresolved references degrade to literal text instead of failing. */
  lemma {:induction false} SubstituteUnboundIsIdentity(t: string, attrs: map<string, Value>)
    requires forall name :: name in Names(t) ==> name !in attrs
    ensures Substitute(t, attrs) == t
    decreases |t|
  {
    if t != [] {
      var n := PlaceholderAt(t);
      var rest := if n > 0 then t[n + 2..] else t[1..];
      assert Names(rest) <= Names(t);
      SubstituteUnboundIsIdentity(rest, attrs);
      if n > 0 {
        assert t[1..n + 1] in Names(t);
        assert t[..n + 2] + rest == t;
      } else {
        assert [t[0]] + rest == t;
      }
    }
  }

  /** Substitution reads only the attributes the template names. */
  lemma {:induction false} SubstituteReadsOnlyNames(t: string, a: map<string, Value>, b: map<string, Value>)
    requires forall name :: name in Names(t) ==> (name in a <==> name in b)
    requires forall name :: name in Names(t) && name in a ==> a[name] == b[name]
    ensures Substitute(t, a) == Substitute(t, b)
    decreases |t|
  {
    if t != [] {
      var n := PlaceholderAt(t);
      if n > 0 {
        assert t[1..n + 1] in Names(t);
        SubstituteReadsOnlyNames(t[n + 2..], a, b);
      } else {
        SubstituteReadsOnlyNames(t[1..], a, b);
      }
    }
  }

  /** Text without an opening brace is copied as it is. */
  lemma {:induction false} SubstituteLiteral(lit: string, rest: string, attrs: map<string, Value>)
    requires '{' !in lit
    ensures Substitute(lit + rest, attrs) == lit + Substitute(rest, attrs)
    decreases |lit|
  {
    if lit == [] {
      assert lit + rest == rest;
    } else {
      var t := lit + rest;
      assert PlaceholderAt(t) == 0;
      assert t[1..] == lit[1..] + rest;
      SubstituteLiteral(lit[1..], rest, attrs);
      assert lit == [lit[0]] + lit[1..];
    }
  }

  lemma {:induction false} NameLengthOf(name: string, tail: string)
    requires forall k :: 0 <= k < |name| ==> IsNameChar(name[k])
    requires tail == [] || !IsNameChar(tail[0])
    ensures NameLength(name + tail) == |name|
    decreases |name|
  {
    if name != [] {
      assert (name + tail)[1..] == name[1..] + tail;
      NameLengthOf(name[1..], tail);
    }
  }

  /** A placeholder is replaced by the attribute's text when the name is bound and
      kept literally when it is not. */
  lemma SubstitutePlaceholder(name: string, rest: string, attrs: map<string, Value>)
    requires IsName(name)
    ensures Substitute("{" + name + "}" + rest, attrs)
         == (if name in attrs then Render(attrs[name]) else "{" + name + "}") + Substitute(rest, attrs)
  {
    var t := "{" + name + "}" + rest;
    assert t[1..] == name + ("}" + rest);
    NameLengthOf(name, "}" + rest);
    assert PlaceholderAt(t) == |name|;
    assert t[1..|name| + 1] == name;
    assert t[..|name| + 2] == "{" + name + "}";
    assert t[|name| + 2..] == rest;
  }

  /** Literal text followed by one bound placeholder. */
  lemma SubstituteLiteralThenPlaceholder(middle: string, b: string, attrs: map<string, Value>)
    requires IsName(b) && '{' !in middle && b in attrs
    ensures Substitute(middle + "{" + b + "}", attrs) == middle + Render(attrs[b])
  {
    var tail := "{" + b + "}";
    SubstitutePlaceholder(b, [], attrs);
    assert tail + [] == tail;
    SubstituteLiteral(middle, tail, attrs);
    assert middle + "{" + b + "}" == middle + tail;
  }

  /** Two placeholders around literal text, both bound: the shape of the repository's
      "{MY_HERO} is over {POWER_LEVEL}" example. */
  lemma SubstituteTwoPlaceholders(a: string, middle: string, b: string, attrs: map<string, Value>)
    requires IsName(a) && IsName(b) && '{' !in middle
    requires a in attrs && b in attrs
    ensures Substitute("{" + a + "}" + middle + "{" + b + "}", attrs)
         == Render(attrs[a]) + middle + Render(attrs[b])
  {
    var rest := middle + "{" + b + "}";
    SubstituteLiteralThenPlaceholder(middle, b, attrs);
    SubstitutePlaceholder(a, rest, attrs);
    assert "{" + a + "}" + middle + "{" + b + "}" == "{" + a + "}" + rest;
  }

  /** The keyword arguments a callable payload is called with. */
  function BindArgs(params: seq<Param>, attrs: map<string, Value>): (args: seq<Value>)
    ensures |args| == |params|
    ensures forall k :: 0 <= k < |params| && params[k].name in attrs ==> args[k] == attrs[params[k].name]
    ensures forall k :: 0 <= k < |params| && params[k].name !in attrs ==> args[k] == params[k].default
  {
    seq(|params|, k requires 0 <= k < |params| =>
      if params[k].name in attrs then attrs[params[k].name] else params[k].default)
  }

  /** The names a delayed value reads. */
  function Reads(p: Payload): set<string>
  {
    match p
    case Template(text) => Names(text)
    case Callable(_, params) => set k | 0 <= k < |params| :: params[k].name
  }

  /** ConfigenceDelay.eval against the holder's attributes; `apply` stands for the
      user's callables, which the model does not see. */
  function EvalDelay(d: Delay, attrs: map<string, Value>, apply: (nat, seq<Value>) -> Value): Value
  {
    match d.payload
    case Template(text) => Str(Substitute(text, attrs))
    case Callable(fn, params) => apply(fn, BindArgs(params, attrs))
  }

  /** A delayed value depends only on the attributes it names: changing any other
      attribute, or adding one, leaves its result alone. */
  lemma EvalDelayReadsOnlyItsNames(d: Delay, a: map<string, Value>, b: map<string, Value>,
                                   apply: (nat, seq<Value>) -> Value)
    requires forall name :: name in Reads(d.payload) ==> (name in a <==> name in b)
    requires forall name :: name in Reads(d.payload) && name in a ==> a[name] == b[name]
    ensures EvalDelay(d, a, apply) == EvalDelay(d, b, apply)
  {
    match d.payload
    case Template(text) =>
      SubstituteReadsOnlyNames(text, a, b);
    case Callable(fn, params) =>
      var x, y := BindArgs(params, a), BindArgs(params, b);
      forall k | 0 <= k < |params| ensures x[k] == y[k] {
        assert params[k].name in Reads(d.payload);
      }
      assert x == y;
  }
}
