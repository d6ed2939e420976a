/**
 * The values a loaded table holds, and the coercion that turns each CSV field into one:
 * a blank or missing field is null, then an int if `int()` reads it, then a float if
 * `float()` reads it, and otherwise the stripped text.
 */
module Values {
  import opened Wrappers
  import opened Text
  import opened Numbers

  datatype Value = VNull | VInt(i: int) | VFloat(f: Decimal) | VText(s: string)

  /** A row: upper-cased column name to value. */
  type Row = map<string, Value>

  /** The coercion of one field; `None` is the value `csv.DictReader` gives a missing trailing field. */
  function Coerce(raw: Option<string>): Value {
    var stripped := if raw.Some? then Strip(raw.value) else "";
    if stripped == "" then VNull
    else
      match ParseInt(stripped)
      case Some(i) => VInt(i)
      case None =>
        match ParseFloat(stripped)
        case Some(f) => VFloat(f)
        case None => VText(stripped)
  }

  /**
   * What a coerced value can be: text is never blank, never padded, and never
   * something `int()` or `float()` would have read.
   */
  predicate Canonical(v: Value) {
    v.VText? ==> v.s != [] && Trimmed(v.s) && ParseInt(v.s).None? && ParseFloat(v.s).None?
  }

  /** The four outcomes of the coercion, by precedence: exactly one holds for every field. */
  lemma CoerceOutcomes(raw: Option<string>)
    ensures var t := if raw.Some? then Strip(raw.value) else "";
      && (Coerce(raw) == VNull <==> t == [])
      && (Coerce(raw).VInt? <==> t != [] && ParseInt(t).Some?)
      && (Coerce(raw).VFloat? <==> t != [] && ParseInt(t).None? && ParseFloat(t).Some?)
      && (Coerce(raw).VText? <==> t != [] && ParseInt(t).None? && ParseFloat(t).None?)
      && (Coerce(raw).VInt? ==> Coerce(raw) == VInt(ParseInt(t).value))
      && (Coerce(raw).VFloat? ==> Coerce(raw) == VFloat(ParseFloat(t).value))
      && (Coerce(raw).VText? ==> Coerce(raw) == VText(t))
  {
  }

  /** Every coerced value is canonical. */
  lemma CoerceCanonical(raw: Option<string>)
    ensures Canonical(Coerce(raw))
  {
    if raw.Some? {
      StripIdempotent(raw.value);
    }
  }

  /** Surrounding white space never changes what a field coerces to. */
  lemma CoerceIgnoresPadding(x: string)
    ensures Coerce(Some(x)) == Coerce(Some(Strip(x)))
  {
    StripIdempotent(x);
  }

  /** A field holding `str(i)` of an int loads as that int. */
  lemma CoerceIntText(i: int)
    ensures Coerce(Some(IntToStr(i))) == VInt(i)
  {
    IntRoundTrip(i);
    var s := IntToStr(i);
    assert Trimmed(s);
    StripTrimmed(s);
  }

  /** A field holding `str(x)` of a float loads as a float equal to `x`. */
  lemma CoerceFloatText(d: Decimal)
    ensures Coerce(Some(FloatToStr(d))).VFloat?
    ensures RealOf(Coerce(Some(FloatToStr(d))).f) == RealOf(d)
  {
    var s := FloatToStr(d);
    FloatToStrRoundTrip(d);
    FloatToStrShape(d);
    StripTrimmed(s);
    PointNotInt(s);
  }

  /** Text outside the `int()` grammar: a point is not a digit, a sign or white space. */
  lemma PointNotInt(s: string)
    requires Trimmed(s) && '.' in s
    ensures ParseInt(s).None?
  {
    StripTrimmed(s);
  }
}
