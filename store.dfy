/**
 * The document store as the handlers see it: documents carry an internal
 * identity, and a value assigned to a typed path is first cast to the path's
 * type. A cast either leaves the path empty (null or undefined), produces a
 * value of the type, or fails; a failed cast surfaces as a validation error
 * when the document is saved.
 */
module Store {
  import opened Wrappers
  import Js

  /** The internal document identity (`_id`). */
  type ObjectId = nat

  /** The outcome of casting a request value to a path's type. */
  datatype Cast<T> = Unset | Val(v: T) | CastFailed

  /**
   * Casting to a String path: null and undefined leave the path empty,
   * objects and arrays fail, every other value becomes its `String(...)` text.
   */
  function CastString(v: Js.Value): (c: Cast<string>)
    ensures c.Unset? <==> v.Undefined? || v.Null?
    ensures c.CastFailed? <==> v.Obj?
    ensures c.Val? ==> c.v == Js.ToJsString(v)
    ensures Js.Truthy(v) && !v.Obj? ==> c.Val? && c.v != ""
    ensures v.Str? ==> c == Val(v.s)
  {
    match v
    case Undefined => Unset
    case Null => Unset
    case Obj => CastFailed
    case _ => Val(Js.ToJsString(v))
  }

  /**
   * Casting to a Number path: null, undefined and the empty string leave the
   * path empty, booleans become 0 or 1, strings are read as by `Number(...)`,
   * and a string that is not a number, or an object, fails.
   */
  function CastNumber(v: Js.Value): (c: Cast<int>)
    ensures c.Unset? <==> v.Undefined? || v.Null? || v == Js.Str("")
    ensures v.Num? ==> c == Val(v.n)
    ensures v.Str? && v.s != "" ==> (c.Val? <==> Js.StringToNumber(v.s).Some?)
    ensures v.Str? && c.Val? ==> Js.StringToNumber(v.s) == Some(c.v)
    ensures v.Obj? ==> c.CastFailed?
    ensures Js.Truthy(v) ==> !c.Unset?
  {
    match v
    case Undefined => Unset
    case Null => Unset
    case Bool(b) => Val(if b then 1 else 0)
    case Num(n) => Val(n)
    case Str(s) =>
      if s == "" then Unset
      else (match Js.StringToNumber(s)
        case None => CastFailed
        case Some(n) => Val(n))
    case Obj => CastFailed
  }

  /** The text `toString()` gives an identity: the one spelling of it without leading zeros. */
  function IdText(id: ObjectId): string {
    Js.DecimalString(id)
  }

  /** A non-empty run of decimal digits. */
  predicate Numeral(key: string) {
    key != [] && forall i :: 0 <= i < |key| ==> Js.IsDigit(key[i], 10)
  }

  /**
   * Casting a route parameter to an identity: a numeral denotes the identity
   * it spells, so several texts (`"7"`, `"07"`, `"007"`) denote one identity,
   * as several spellings of a hexadecimal text denote one ObjectId; any other
   * text makes the query fail.
   */
  function CastId(key: string): (r: Option<ObjectId>)
    ensures r.Some? <==> Numeral(key)
  {
    if Numeral(key) then Some(Js.DigitsValue(key, 10)) else None
  }

  /** The identity a key denotes is the number `Number` reads from it. */
  lemma CastIdReadsNumber(key: string)
    requires CastId(key).Some?
    ensures Js.StringToNumber(key) == Some(CastId(key).value)
  {
    NumberOfNumeral(key);
  }

  /** `Number` of a numeral is the value of its digits. */
  lemma NumberOfNumeral(key: string)
    requires Numeral(key)
    ensures Js.StringToNumber(key) == Some(Js.DigitsValue(key, 10))
  {
    var first, last := key[0], key[|key| - 1];
    DecimalDigit(first);
    DecimalDigit(last);
    Js.TrimUntrimmed(key);
    assert Js.Trim(key) == key;
    if |key| >= 2 {
      DecimalDigit(key[1]);
    }
    assert Js.NumberOfTrimmed(key) == Js.DecimalNumeral(key);
    Js.DecimalNumeralOfDigits(key);
  }

  /** A decimal digit is one of `0`-`9`: neither white space, a sign nor the `x` of a hexadecimal prefix. */
  lemma DecimalDigit(c: char)
    requires Js.IsDigit(c, 10)
    ensures '0' <= c <= '9' && !Js.IsWhiteSpace(c)
  {
  }

  /** The text of an identity casts back to that identity. */
  lemma CastIdOfIdText(id: ObjectId)
    ensures CastId(IdText(id)) == Some(id)
  {
  }

  /** A leading zero does not change the identity a key denotes. */
  lemma {:induction false} LeadingZero(key: string)
    requires Numeral(key)
    ensures CastId("0" + key) == CastId(key)
  {
    var z := "0" + key;
    assert Numeral(z) by {
      assert forall i :: 1 <= i < |z| ==> z[i] == key[i - 1];
    }
    ZeroDigitsValue(key);
  }

  lemma {:induction false} ZeroDigitsValue(d: string)
    requires forall i :: 0 <= i < |d| ==> Js.IsDigit(d[i], 10)
    ensures forall i :: 0 <= i < |"0" + d| ==> Js.IsDigit(("0" + d)[i], 10)
    ensures Js.DigitsValue("0" + d, 10) == Js.DigitsValue(d, 10)
  {
    var z := "0" + d;
    assert forall i :: 1 <= i < |z| ==> z[i] == d[i - 1];
    if d != [] {
      var init := d[..|d| - 1];
      ZeroDigitsValue(init);
      assert z[..|z| - 1] == "0" + init;
      assert z[|z| - 1] == d[|d| - 1];
    } else {
      assert z[..0] == [];
    }
  }

  /** Every identity has a text other than its own that denotes it: its own text is not the only key. */
  lemma OtherSpelling(id: ObjectId)
    ensures var key := "0" + IdText(id); key != IdText(id) && CastId(key) == Some(id)
  {
    var t := IdText(id);
    assert |"0" + t| != |t|;
    LeadingZero(t);
  }

  /** Distinct identities have distinct texts. */
  lemma IdTextInjective(a: ObjectId, b: ObjectId)
    ensures IdText(a) == IdText(b) ==> a == b
  {
    if IdText(a) == IdText(b) {
      Js.DecimalStringInjective(a, b);
    }
  }
}
