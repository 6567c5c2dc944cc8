/** The constructor's configuration check: `options.include ^ options.exclude` must be
    truthy, after which only `include` is kept, as a boolean. The option values are
    JavaScript values; `^` converts both operands to 32-bit integers before combining them. */
module Mode {
  /** The option values the check can meet, numbers restricted to integers. */
  datatype JsValue = Undefined | Null | Bool(b: bool) | Number(n: int)

  /** JavaScript truthiness (`!!v`). */
  predicate Truthy(v: JsValue)
  {
    match v
    case Undefined => false
    case Null => false
    case Bool(b) => b
    case Number(n) => n != 0
  }

  /** ECMAScript ToUint32: ToNumber, then reduction modulo 2^32 (undefined becomes NaN,
      which converts to 0). The signed ToInt32 has the same bit pattern, which is all `^`
      looks at. */
  function ToUint32(v: JsValue): (r: nat)
    ensures r < 0x1_0000_0000
    ensures v.Number? && 0 <= v.n < 0x1_0000_0000 ==> r == v.n
    ensures !v.Number? ==> r == if Truthy(v) then 1 else 0
  {
    match v
    case Undefined => 0
    case Null => 0
    case Bool(b) => if b then 1 else 0
    case Number(n) => n % 0x1_0000_0000
  }

  /** The check as written: construction goes ahead when the bitwise XOR is non-zero. */
  predicate ModeCheckAsWritten(inc: JsValue, exc: JsValue)
  {
    ((ToUint32(inc) as bv32) ^ (ToUint32(exc) as bv32)) != 0
  }

  /** The check as documented: exactly one of the two options is truthy. */
  predicate ModeCheck(inc: JsValue, exc: JsValue)
  {
    Truthy(inc) != Truthy(exc)
  }

  /** On booleans, `undefined` and `null`, the written check and the documented one agree. */
  lemma ModeChecksAgreeOnFlags(inc: JsValue, exc: JsValue)
    requires !inc.Number? && !exc.Number?
    ensures ModeCheckAsWritten(inc, exc) <==> ModeCheck(inc, exc)
  {
    var a := ToUint32(inc) as bv32;
    var b := ToUint32(exc) as bv32;
    assert a == 0 || a == 1;
    assert b == 0 || b == 1;
    assert (a ^ b != 0) <==> (a != b) by {
      if a == 0 && b == 0 { assert a ^ b == 0; }
      if a == 0 && b == 1 { assert a ^ b == 1; }
      if a == 1 && b == 0 { assert a ^ b == 1; }
      if a == 1 && b == 1 { assert a ^ b == 0; }
    }
  }

  /** `include: 2, exclude: 1` passes the written check although both are truthy. */
  lemma BothTruthyAccepted()
    ensures Truthy(Number(2)) && Truthy(Number(1))
    ensures ModeCheckAsWritten(Number(2), Number(1))
    ensures !ModeCheck(Number(2), Number(1))
  {
    assert (2 as bv32) ^ (1 as bv32) == 3;
  }

  /** `include: 4294967296` alone fails the written check although it is truthy. */
  lemma WrappedTruthyRejected()
    ensures Truthy(Number(0x1_0000_0000)) && !Truthy(Undefined)
    ensures !ModeCheckAsWritten(Number(0x1_0000_0000), Undefined)
    ensures ModeCheck(Number(0x1_0000_0000), Undefined)
  {
    assert ToUint32(Number(0x1_0000_0000)) == 0;
  }
}
