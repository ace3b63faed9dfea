/** Converting the big integers inside a JSON-like tree to decimal strings
    and back (src/utils_native.js, stringifyBigInts and unstringifyBigInts). */
module JsonBigInts {
  import opened Wrappers

  /** A JavaScript value as the two walks see it.  Prim stands for the
      numbers and booleans, which both walks hand back unchanged. */
  datatype JsValue =
    | BigInt(i: int)
    | Str(s: string)
    | Arr(items: seq<JsValue>)
    | Obj(fields: map<string, JsValue>)
    | Null
    | Undefined
    | Prim(tag: nat)

  // ---------------------------------------------------------------------
  // Decimal text

  function DigitChar(d: nat): char
    requires d < 10
  {
    "0123456789"[d]
  }

  predicate IsDigit(c: char)
  {
    '0' <= c <= '9'
  }

  /** The test /^[0-9]+$/: one or more decimal digits and nothing else. */
  predicate IsDigits(s: string)
  {
    |s| > 0 && forall i :: 0 <= i < |s| ==> IsDigit(s[i])
  }

  /** The digits of n in base 10, without leading zeros. */
  function NatString(n: nat): (s: string)
    ensures IsDigits(s)
    ensures |s| > 1 ==> s[0] != '0'
  {
    if n < 10 then [DigitChar(n)] else NatString(n / 10) + [DigitChar(n % 10)]
  }

  /** toString(10) of a BigInt: a minus sign before the digits of a
      negative value. */
  function DecimalString(i: int): (s: string)
    ensures IsDigits(s) <==> i >= 0
  {
    if i < 0 then
      var s := "-" + NatString(-i);
      assert !IsDigit(s[0]);
      s
    else
      NatString(i)
  }

  /** BigInt(s) of a digit string, leading zeros allowed. */
  function ParseDecimal(s: string): nat
    requires forall i :: 0 <= i < |s| ==> IsDigit(s[i])
  {
    if |s| == 0 then 0
    else
      assert IsDigit(s[|s| - 1]);
      10 * ParseDecimal(s[..|s| - 1]) + (s[|s| - 1] as int - '0' as int)
  }

  lemma {:induction false} ParseNatString(n: nat)
    ensures ParseDecimal(NatString(n)) == n
  {
    if n >= 10 {
      var s := NatString(n);
      assert s[..|s| - 1] == NatString(n / 10);
      ParseNatString(n / 10);
    }
  }

  // ---------------------------------------------------------------------
  // Shapes of trees

  /** No null or undefined anywhere: reading .eq of those throws. */
  predicate NullFree(v: JsValue)
  {
    match v
    case Null => false
    case Undefined => false
    case Arr(items) => forall i :: 0 <= i < |items| ==> NullFree(items[i])
    case Obj(fields) => forall k :: k in fields ==> NullFree(fields[k])
    case _ => true
  }

  predicate NoBigInts(v: JsValue)
  {
    match v
    case BigInt(_) => false
    case Arr(items) => forall i :: 0 <= i < |items| ==> NoBigInts(items[i])
    case Obj(fields) => forall k :: k in fields ==> NoBigInts(fields[k])
    case _ => true
  }

  /** No string that unstringifyBigInts would turn into a BigInt, and no
      null, which it turns into an empty object. */
  predicate Unstringified(v: JsValue)
  {
    match v
    case Str(s) => !IsDigits(s)
    case Null => false
    case Arr(items) => forall i :: 0 <= i < |items| ==> Unstringified(items[i])
    case Obj(fields) => forall k :: k in fields ==> Unstringified(fields[k])
    case _ => true
  }

  /** The trees the two walks restore: no null or undefined, every BigInt
      non-negative, no digit-only string. */
  predicate Restorable(v: JsValue)
  {
    match v
    case BigInt(i) => i >= 0
    case Str(s) => !IsDigits(s)
    case Null => false
    case Undefined => false
    case Arr(items) => forall i :: 0 <= i < |items| ==> Restorable(items[i])
    case Obj(fields) => forall k :: k in fields ==> Restorable(fields[k])
    case _ => true
  }

  // ---------------------------------------------------------------------
  // The two walks

  /** stringifyBigInts: every BigInt becomes its decimal string, arrays and
      objects are copied element by element, everything else is kept.  The
      first test reads o.eq, which throws a TypeError on null and undefined:
      the result is None exactly then. */
  function Stringify(v: JsValue): (r: Option<JsValue>)
    ensures r.Some? <==> NullFree(v)
    ensures r.Some? ==> NoBigInts(r.value)
  {
    match v
    case BigInt(i) => Some(Str(DecimalString(i)))
    case Null => None
    case Undefined => None
    case Arr(items) =>
      var rs := seq(|items|, i requires 0 <= i < |items| => Stringify(items[i]));
      assert forall i :: 0 <= i < |items| ==> rs[i] == Stringify(items[i]);
      if forall i :: 0 <= i < |rs| ==> rs[i].Some? then
        Some(Arr(seq(|rs|, i requires 0 <= i < |rs| && rs[i].Some? => rs[i].value)))
      else
        None
    case Obj(fields) =>
      var rs := map k | k in fields :: Stringify(fields[k]);
      assert forall k :: k in fields ==> rs[k] == Stringify(fields[k]);
      if forall k :: k in rs ==> rs[k].Some? then
        Some(Obj(map k | k in rs :: rs[k].value))
      else
        None
    case _ => Some(v)
  }

  /** unstringifyBigInts: every digit-only string becomes a BigInt, null
      (typeof "object", no keys) becomes an empty object, arrays and objects
      are copied element by element, everything else is kept. */
  function Unstringify(v: JsValue): (r: JsValue)
    ensures Unstringified(r)
  {
    match v
    case Str(s) => if IsDigits(s) then BigInt(ParseDecimal(s)) else v
    case Null => Obj(map[])
    case Arr(items) => Arr(seq(|items|, i requires 0 <= i < |items| => Unstringify(items[i])))
    case Obj(fields) => Obj(map k | k in fields :: Unstringify(fields[k]))
    case _ => v
  }

  // ---------------------------------------------------------------------
  // Properties

  /** Unstringifying restores what stringifying produced, for trees without
      null, negative BigInts or digit-only strings. */
  lemma {:induction false} RoundTrip(v: JsValue)
    requires Restorable(v)
    ensures Stringify(v).Some? && Unstringify(Stringify(v).value) == v
  {
    RestorableIsNullFree(v);
    match v
    case BigInt(i) =>
      ParseNatString(i);
    case Arr(items) =>
      forall i | 0 <= i < |items| {
        RoundTrip(items[i]);
      }
      var out := Unstringify(Stringify(v).value);
      assert out.items == items;
    case Obj(fields) =>
      forall k | k in fields {
        RoundTrip(fields[k]);
      }
      var out := Unstringify(Stringify(v).value);
      assert out.fields == fields;
    case _ =>
  }

  lemma {:induction false} RestorableIsNullFree(v: JsValue)
    requires Restorable(v)
    ensures NullFree(v)
  {
    match v
    case Arr(items) =>
      forall i | 0 <= i < |items| {
        RestorableIsNullFree(items[i]);
      }
    case Obj(fields) =>
      forall k | k in fields {
        RestorableIsNullFree(fields[k]);
      }
    case _ =>
  }

  /** A negative BigInt comes back as a string: its text starts with '-'. */
  lemma NegativeStaysString(i: int)
    requires i < 0
    ensures Unstringify(Stringify(BigInt(i)).value) == Str(DecimalString(i))
  {
  }

  /** Unstringifying a second time changes nothing. */
  lemma {:induction false} UnstringifyIdempotent(v: JsValue)
    ensures Unstringify(Unstringify(v)) == Unstringify(v)
  {
    UnstringifiedFixed(Unstringify(v));
  }

  /** A tree with nothing left to convert is its own unstringification. */
  lemma {:induction false} UnstringifiedFixed(v: JsValue)
    requires Unstringified(v)
    ensures Unstringify(v) == v
  {
    match v
    case Arr(items) =>
      forall i | 0 <= i < |items| {
        UnstringifiedFixed(items[i]);
      }
      assert Unstringify(v).items == items;
    case Obj(fields) =>
      forall k | k in fields {
        UnstringifiedFixed(fields[k]);
      }
      assert Unstringify(v).fields == fields;
    case _ =>
  }

  /** A tree without BigInts or null is its own stringification; in
      particular stringifying a second time changes nothing. */
  lemma {:induction false} StringifyFixed(v: JsValue)
    requires NoBigInts(v) && NullFree(v)
    ensures Stringify(v) == Some(v)
  {
    match v
    case Arr(items) =>
      forall i | 0 <= i < |items| {
        StringifyFixed(items[i]);
      }
      assert Stringify(v).value.items == items;
    case Obj(fields) =>
      forall k | k in fields {
        StringifyFixed(fields[k]);
      }
      assert Stringify(v).value.fields == fields;
    case _ =>
  }

  lemma StringifyIdempotent(v: JsValue)
    requires NullFree(v)
    ensures Stringify(Stringify(v).value) == Stringify(v)
  {
    NoBigIntsNullFree(Stringify(v).value, v);
    StringifyFixed(Stringify(v).value);
  }

  /** What stringifying a null-free tree returns is null-free. */
  lemma {:induction false} NoBigIntsNullFree(w: JsValue, v: JsValue)
    requires NullFree(v) && Stringify(v) == Some(w)
    ensures NullFree(w)
  {
    match v
    case Arr(items) =>
      forall i | 0 <= i < |w.items| {
        NoBigIntsNullFree(w.items[i], items[i]);
      }
    case Obj(fields) =>
      forall k | k in w.fields {
        NoBigIntsNullFree(w.fields[k], fields[k]);
      }
    case _ =>
  }
}
