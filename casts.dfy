/** The cast functions an entry applies to a raw value: the boolean recogniser,
    Python's int() on decimal text, the delimiter-separated list, and the
    schema/enum casts whose validation belongs to foreign libraries. */
module Casts {
  import opened Values

  /** The cast selected by each typed constructor: `str` -> NoCast, `int` -> IntCast,
      `bool` -> BoolCast, `list` -> ListCast, `model` -> ModelCast, `enum` -> EnumCast.
      A schema or enum table maps each accepted raw value to the object it parses to;
      a raw value outside the table fails validation. */
  datatype CastKind =
    | NoCast
    | IntCast
    | BoolCast
    | ListCast(delimiter: char)
    | ModelCast(schema: map<Value, Value>)
    | EnumCast(members: map<Value, Value>)

  // ---------------------------------------------------------------- booleans

  function LowerChar(c: char): char
  {
    if 'A' <= c <= 'Z' then (c as int + 32) as char else c
  }

  /** Lower-casing letter by letter. Only ASCII letters are folded: no other
      character lower-cases to one of the letters of "true" or "false", so the
      recogniser below accepts exactly what Python's str.lower() lets through. */
  function Lower(s: string): (r: string)
    ensures |r| == |s|
    ensures forall k :: 0 <= k < |s| ==> r[k] == LowerChar(s[k])
  {
    seq(|s|, k requires 0 <= k < |s| => LowerChar(s[k]))
  }

  /** cast_boolean: a bool passes through; "true"/"1" and "false"/"0" in any case
      give a bool; anything else is reported with the not-found error kind. */
  function CastBoolean(v: Value): (r: Result<Value>)
    ensures v.Bool? ==> r == Ok(v)
    ensures r.Ok? ==> r.value.Bool?
    ensures r.Err? ==> r.error == NotFound
    ensures !v.Bool? && !v.Str? ==> r == Err(NotFound)
    ensures v.Str? ==> (r == Ok(Bool(true)) <==> Lower(v.s) == "true" || Lower(v.s) == "1")
    ensures v.Str? ==> (r == Ok(Bool(false)) <==> Lower(v.s) == "false" || Lower(v.s) == "0")
    ensures v.Str? ==> (r.Err? <==> Lower(v.s) !in {"true", "1", "false", "0"})
  {
    match v
    case Bool(_) => Ok(v)
    case Str(s) =>
      var lowered := Lower(s);
      if lowered == "true" || lowered == "1" then Ok(Bool(true))
      else if lowered == "false" || lowered == "0" then Ok(Bool(false))
      else Err(NotFound)
    case _ => Err(NotFound)
  }

  /** Case does not matter: two spellings that lower-case alike cast alike. */
  lemma CastBooleanIgnoresCase(s: string, t: string)
    requires Lower(s) == Lower(t)
    ensures CastBoolean(Str(s)) == CastBoolean(Str(t))
  {
  }

  /** Python's own spelling of a bool, str(b), reads back as that bool. */
  lemma CastBooleanReadsStr(b: bool)
    ensures CastBoolean(Str(Render(Bool(b)))) == Ok(Bool(b))
  {
    if b {
      assert Lower("True") == "true";
    } else {
      assert Lower("False") == "false";
    }
  }

  /** The spellings pinned down by the repository's boolean tests. */
  lemma CastBooleanSpellings()
    ensures CastBoolean(Str("TRUE")) == Ok(Bool(true))
    ensures CastBoolean(Str("True")) == Ok(Bool(true))
    ensures CastBoolean(Str("1")) == Ok(Bool(true))
    ensures CastBoolean(Str("FALSE")) == Ok(Bool(false))
    ensures CastBoolean(Str("False")) == Ok(Bool(false))
    ensures CastBoolean(Str("0")) == Ok(Bool(false))
    ensures CastBoolean(Str("yes")) == Err(NotFound)
  {
    assert Lower("TRUE") == "true";
    assert Lower("True") == "true";
    assert Lower("1") == "1";
    assert Lower("FALSE") == "false";
    assert Lower("False") == "false";
    assert Lower("0") == "0";
    assert Lower("yes") == "yes";
  }

  // ---------------------------------------------------------------- integers

  predicate IsDigit(c: char) { '0' <= c <= '9' }

  predicate AllDigits(s: string) { forall k :: 0 <= k < |s| ==> IsDigit(s[k]) }

  /** The number a string of decimal digits denotes. */
  function DigitsValue(s: string): nat
    requires AllDigits(s)
  {
    if s == [] then 0
    else DigitsValue(s[..|s| - 1]) * 10 + (s[|s| - 1] as int - '0' as int)
  }

  predicate IsSign(c: char) { c == '-' || c == '+' }

  /** An optional sign followed by at least one decimal digit. */
  predicate IsIntLiteral(s: string)
  {
    && |s| > 0
    && (IsSign(s[0]) ==> |s| > 1 && AllDigits(s[1..]))
    && (!IsSign(s[0]) ==> AllDigits(s))
  }

  /** Python's int() on text; failure is a ValueError, never the not-found kind. */
  function ParseInt(s: string): (r: Result<int>)
    ensures r.Ok? <==> IsIntLiteral(s)
    ensures r.Err? ==> r.error == Invalid
    ensures r.Ok? && s[0] == '-' ==> r.value <= 0
    ensures r.Ok? && s[0] != '-' ==> r.value >= 0
  {
    if |s| == 0 then Err(Invalid)
    else if IsSign(s[0]) then
      if |s| > 1 && AllDigits(s[1..]) then
        var magnitude: int := DigitsValue(s[1..]);
        Ok(if s[0] == '-' then -magnitude else magnitude)
      else Err(Invalid)
    else if AllDigits(s) then Ok(DigitsValue(s))
    else Err(Invalid)
  }

  lemma {:induction false} DigitsValueOfNatToString(n: nat)
    ensures AllDigits(NatToString(n))
    ensures DigitsValue(NatToString(n)) == n
    decreases n
  {
    var s := NatToString(n);
    if n >= 10 {
      DigitsValueOfNatToString(n / 10);
      assert s[..|s| - 1] == NatToString(n / 10);
    }
  }

  /** int(str(i)) == i for every integer. */
  lemma {:induction false} ParseIntInvertsIntToString(i: int)
    ensures ParseInt(IntToString(i)) == Ok(i)
  {
    var s := IntToString(i);
    if i < 0 {
      assert s == "-" + NatToString(-i);
      ParseIntReadsNegative(-i, s);
    } else {
      assert s == NatToString(i);
      ParseIntReadsNatural(i, s);
    }
  }

  lemma {:induction false} ParseIntReadsNatural(n: nat, s: string)
    requires s == NatToString(n)
    ensures ParseInt(s) == Ok(n as int)
  {
    DigitsValueOfNatToString(n);
    assert !IsSign(s[0]);
  }

  lemma {:induction false} ParseIntReadsNegative(n: nat, s: string)
    requires n > 0 && s == "-" + NatToString(n)
    ensures ParseInt(s) == Ok(-(n as int))
  {
    DigitsValueOfNatToString(n);
    assert s[0] == '-' && s[1..] == NatToString(n);
  }

  // ---------------------------------------------------------------- lists

  /** Length of the text before the first delimiter (or of all of it). */
  function FieldLength(s: string, d: char): (n: nat)
    ensures n <= |s|
    ensures forall k :: 0 <= k < n ==> s[k] != d
    ensures n < |s| ==> s[n] == d
  {
    if s == [] || s[0] == d then 0 else 1 + FieldLength(s[1..], d)
  }

  /** The list cast on text: the fields between delimiters, empty fields dropped,
      so that the empty text gives the empty list. */
  function SplitFields(s: string, d: char): (r: seq<string>)
    ensures forall k :: 0 <= k < |r| ==> |r[k]| > 0 && d !in r[k]
    decreases |s|
  {
    if s == [] then []
    else
      var n := FieldLength(s, d);
      var rest := if n < |s| then s[n + 1..] else [];
      if n == 0 then SplitFields(rest, d) else [s[..n]] + SplitFields(rest, d)
  }

  lemma {:induction false} FieldLengthOf(x: string, d: char, tail: string)
    requires d !in x
    requires tail == [] || tail[0] == d
    ensures FieldLength(x + tail, d) == |x|
    decreases |x|
  {
    if x != [] {
      assert (x + tail)[1..] == x[1..] + tail;
      FieldLengthOf(x[1..], d, tail);
    }
  }

  /** One field followed by the delimiter splits off as the first field. */
  lemma SplitFirstField(x: string, d: char, tail: string)
    requires |x| > 0 && d !in x
    requires tail == [] || tail[0] == d
    ensures SplitFields(x + tail, d) == [x] + SplitFields(if tail == [] then [] else tail[1..], d)
  {
    var s := x + tail;
    FieldLengthOf(x, d, tail);
    assert s[..|x|] == x;
    if tail != [] {
      assert s[|x| + 1..] == tail[1..];
    }
  }

  /** Splitting undoes joining, for fields that are non-empty and free of the delimiter. */
  lemma {:induction false} SplitInvertsJoin(xs: seq<string>, d: char)
    requires forall k :: 0 <= k < |xs| ==> |xs[k]| > 0 && d !in xs[k]
    ensures SplitFields(JoinWith(xs, [d]), d) == xs
    decreases |xs|
  {
    if |xs| == 1 {
      SplitFirstField(xs[0], d, []);
      assert xs[0] + [] == xs[0];
    } else if |xs| > 1 {
      var tail := JoinWith(xs[1..], [d]);
      assert JoinWith(xs, [d]) == xs[0] + ([d] + tail);
      SplitFirstField(xs[0], d, [d] + tail);
      assert ([d] + tail)[1..] == tail;
      SplitInvertsJoin(xs[1..], d);
      assert [xs[0]] + xs[1..] == xs;
    }
  }

  /** The list examples the repository's tests pin down: empty text is the empty
      list, and a single item is a one-element list. */
  lemma SplitExamples()
    ensures SplitFields("", ',') == []
    ensures SplitFields("item1", ',') == ["item1"]
  {
    SplitFirstField("item1", ',', []);
    assert "item1" + [] == "item1";
  }

  /** The custom-delimiter example: "a;b;c" split on ';'. */
  lemma SplitCustomDelimiter()
    ensures SplitFields("a;b;c", ';') == ["a", "b", "c"]
  {
    SplitFirstField("c", ';', []);
    assert "c" + [] == "c";
    SplitFirstField("b", ';', ";c");
    assert "b" + ";c" == "b;c";
    SplitFirstField("a", ';', ";b;c");
    assert "a" + ";b;c" == "a;b;c";
  }

  // ---------------------------------------------------------------- casts

  /** Applies a cast to a value. Only the boolean cast reports the not-found kind;
      text goes through int(), the boolean recogniser or the field splitter. */
  function Cast(c: CastKind, v: Value): (r: Result<Value>)
    ensures r.Err? && r.error == NotFound ==> c.BoolCast?
    ensures c.NoCast? ==> r == Ok(v)
    ensures c.BoolCast? ==> r == CastBoolean(v)
    ensures c.IntCast? && v.Str? ==> (r.Ok? <==> IsIntLiteral(v.s))
    ensures c.IntCast? && v.Str? && IsIntLiteral(v.s) ==> r == Ok(Int(ParseInt(v.s).value))
    ensures c.ListCast? && v.Str? ==>
              r.Ok? && r.value.List? && |r.value.items| == |SplitFields(v.s, c.delimiter)|
              && forall k :: 0 <= k < |r.value.items| ==> r.value.items[k] == Str(SplitFields(v.s, c.delimiter)[k])
  {
    match c
    case NoCast => Ok(v)
    case IntCast =>
      (match v
       case Str(s) => (match ParseInt(s) case Ok(i) => Ok(Int(i)) case Err(e) => Err(e))
       case Int(_) => Ok(v)
       case Bool(b) => Ok(Int(if b then 1 else 0))
       case _ => Err(Invalid))
    case BoolCast => CastBoolean(v)
    case ListCast(d) =>
      (match v
       case Str(s) => var fields := SplitFields(s, d);
                      Ok(List(seq(|fields|, k requires 0 <= k < |fields| => Str(fields[k]))))
       case NoneValue => Ok(List([]))
       case _ => Err(Invalid))
    case ModelCast(schema) => if v in schema then Ok(schema[v]) else Err(Invalid)
    case EnumCast(members) => if v in members then Ok(members[v]) else Err(Invalid)
  }

  /** ignore_confi_delay_cast: a delayed value is handed back untouched, without
      calling the cast; any other value goes through the cast. */
  function SafeCast(c: CastKind, v: Value): (r: Result<Value>)
    ensures v.Delayed? ==> r == Ok(v)
    ensures !v.Delayed? ==> r == Cast(c, v)
  {
    if v.Delayed? then Ok(v) else Cast(c, v)
  }

  /** A cast never produces a delayed value from text unless a schema or enum table
      maps that text to one; so a source string never looks like a pending delay. */
  lemma CastOfTextIsNotDelayed(c: CastKind, s: string)
    requires !c.ModelCast? && !c.EnumCast?
    ensures Cast(c, Str(s)).Ok? ==> !Cast(c, Str(s)).value.Delayed?
  {
  }

  /** load_conf_if_none: a value that is not None is kept, None is replaced. */
  function LoadConfIfNone(variable: Value, conf: Value): (r: Value)
    ensures r == variable || r == conf
    ensures !variable.NoneValue? ==> r == variable
    ensures r.NoneValue? ==> conf.NoneValue?
  {
    if variable.NoneValue? then conf else variable
  }
}
