/**
 * The JavaScript value conventions the analytics layer relies on: optional
 * values, object properties that may be missing or hold `undefined`, and the
 * truthiness tests (`if (x)`, `x || y`) the services apply to them.
 */
module JsValues {

  datatype Option<+T> = None | Some(value: T)

  /**
   * One optional property of a JavaScript object. A property can be missing
   * altogether, be present holding `undefined` (the normalizers write
   * `rec.p = maybeUndefined`), or hold a value. Reading `obj.p` cannot tell the
   * first two apart; the object spread `{...older, ...newer}` can: a missing
   * property of `newer` keeps the older value, an `undefined` one erases it.
   */
  datatype Prop<+T> = Absent | Undefined | Defined(value: T) {

    /** The value `obj.p` reads. */
    function Get(): (r: Option<T>)
      ensures r.Some? <==> Defined?
    {
      if Defined? then Some(value) else None
    }

    /** The property of `{...older, ...this}`. */
    function Over(older: Prop<T>): Prop<T>
    {
      if Absent? then older else this
    }
  }

  /**
   * The laws of one property under spreads: a missing property leaves the
   * other side alone on either side, spreading the same object twice is
   * spreading it once, and nested spreads can be regrouped.
   */
  lemma OverLaws<T>(a: Prop<T>, b: Prop<T>, c: Prop<T>)
    ensures Absent.Over(a) == a && a.Over(Absent) == a
    ensures a.Over(a.Over(b)) == a.Over(b)
    ensures a.Over(b.Over(c)) == a.Over(b).Over(c)
  {
  }

  /** Writing `rec.p = v` where `v` may be `undefined`. */
  function Assigned<T>(v: Option<T>): (p: Prop<T>)
    ensures p != Absent
    ensures p.Get() == v
  {
    match v
    case Some(x) => Defined(x)
    case None => Undefined
  }

  /** `if (s)` on an optional string: `undefined` and `""` are falsy. */
  predicate TruthyString(s: Option<string>) {
    s.Some? && s.value != ""
  }

  /** `if (x)` on an optional number: `undefined` and `0` are falsy. */
  predicate TruthyNumber(x: Option<real>) {
    x.Some? && x.value != 0.0
  }

  /** `if (b)` on an optional boolean. */
  predicate TruthyBool(b: Option<bool>) {
    b.Some? && b.value
  }

  /** `s || fallback` for an optional string. */
  function OrElse(s: Option<string>, fallback: string): (r: string)
    ensures TruthyString(s) ==> r == s.value
    ensures !TruthyString(s) ==> r == fallback
    ensures fallback != "" ==> r != ""
    ensures r == fallback || (s.Some? && r == s.value)
  {
    if TruthyString(s) then s.value else fallback
  }
}
