/** Lifting an auth-state listener over a wrapping function.

    A listener (`NextOrObserver`) is either a bare callback or an observer
    record of three callbacks. A callback is modelled by what it does with the
    value it is handed: a total function into an arbitrary effect type `E`, so
    two listeners agree when every value delivered to them has the same effect.
    `null` and `undefined` are `None`; whether a non-null value is truthy in
    JavaScript is the caller-supplied `truthy` (see `JsValue` for a concrete
    instance).
 */
module Observers {

  datatype Option<T> = None | Some(value: T)

  /** The JavaScript `Error` handed to an observer's `error` callback. */
  datatype Error = Error(name: string, message: string)

  /** `NextOrObserver<X>`: a `next` function, or an observer record. */
  datatype NextOrObserver<!X, E> =
    | Fn(f: Option<X> -> E)
    | Obs(next: Option<X> -> E, error: Error -> E, complete: () -> E)

  /** The effect of handing `v` to the listener: the callback itself, or the
      observer's `next`. */
  function Deliver<X, E>(listener: NextOrObserver<X, E>, v: Option<X>): E {
    match listener
    case Fn(f) => f(v)
    case Obs(next, _, _) => next(v)
  }

  /** What the function form hands on: `null` as it is, any other `u` as `wrapper(u)`. */
  function MapOption<T, W>(v: Option<T>, wrapper: T -> W): (r: Option<W>)
    ensures r.None? <==> v.None?
  {
    match v
    case None => None
    case Some(u) => Some(wrapper(u))
  }

  /** What the observer form hands on: `wrapper(u)` only for a truthy `u`, `null` otherwise. */
  function MapTruthy<T, W>(v: Option<T>, wrapper: T -> W, truthy: T -> bool): (r: Option<W>)
    ensures r.Some? <==> v.Some? && truthy(v.value)
  {
    if v.Some? && truthy(v.value) then Some(wrapper(v.value)) else None
  }

  /** `wrapNextOrObserver(current, wrapper)`: a listener for `T` values that
      hands wrapped values on to `current`. The form is kept, and an
      observer's `error` and `complete` are forwarded unchanged. */
  function Wrap<T, W, E>(current: NextOrObserver<W, E>, wrapper: T -> W, truthy: T -> bool)
    : (r: NextOrObserver<T, E>)
    ensures r.Fn? <==> current.Fn?
    ensures r.Obs? ==> r.error == current.error && r.complete == current.complete
  {
    match current
    case Fn(f) => Fn((user: Option<T>) => f(MapOption(user, wrapper)))
    case Obs(next, error, complete) =>
      Obs((user: Option<T>) => next(MapTruthy(user, wrapper, truthy)), error, complete)
  }

  // ---------------------------------------------------------------------------
  // What the wrapped listener delivers

  /** Function form: `null` reaches `current` as `null` without `wrapper`
      being applied; any other value `u` reaches it as `wrapper(u)`. */
  lemma WrapFnDelivers<T, W, E>(f: Option<W> -> E, wrapper: T -> W, truthy: T -> bool, v: Option<T>)
    ensures Deliver(Wrap(Fn(f), wrapper, truthy), None) == f(None)
    ensures v.Some? ==> Deliver(Wrap(Fn(f), wrapper, truthy), v) == f(Some(wrapper(v.value)))
  {
    var w := Wrap(Fn(f), wrapper, truthy);
    assert w.f(None) == f(MapOption(None, wrapper));
    assert w.f(v) == f(MapOption(v, wrapper));
  }

  /** Observer form: `next` receives `wrapper(u)` when `u` is truthy, and
      `null` for `null` and for every falsy value. */
  lemma WrapObsDelivers<T, W, E>(current: NextOrObserver<W, E>, wrapper: T -> W, truthy: T -> bool, v: Option<T>)
    requires current.Obs?
    ensures Deliver(Wrap(current, wrapper, truthy), v)
         == if v.Some? && truthy(v.value) then current.next(Some(wrapper(v.value))) else current.next(None)
  {
    var w := Wrap(current, wrapper, truthy);
    assert w.next(v) == current.next(MapTruthy(v, wrapper, truthy));
  }

  /** Wrapping with the identity changes nothing in the function form; in the
      observer form it is the identity exactly on `null` and truthy values. */
  lemma WrapIdentity<T, E>(current: NextOrObserver<T, E>, truthy: T -> bool, v: Option<T>)
    ensures current.Fn? ==> Deliver(Wrap(current, x => x, truthy), v) == Deliver(current, v)
    ensures current.Obs? ==>
      (Deliver(Wrap(current, x => x, truthy), v) == Deliver(current, v)
        <== v.None? || truthy(v.value))
  {
    var w := Wrap(current, x => x, truthy);
    match current
    case Fn(f) =>
      assert w.f(v) == f(MapOption(v, x => x));
    case Obs(next, _, _) =>
      assert w.next(v) == next(MapTruthy(v, x => x, truthy));
  }

  /** Wrapping twice is wrapping once with the composed function, provided in
      the observer form that the outer wrapper only produces truthy values
      (the adapters wrap a user into a fresh object, which always is). */
  lemma WrapCompose<T, U, W, E>(
    current: NextOrObserver<W, E>,
    inner: U -> W, innerTruthy: U -> bool,
    outer: T -> U, outerTruthy: T -> bool,
    v: Option<T>)
    requires current.Obs? ==> forall t :: innerTruthy(outer(t))
    ensures Deliver(Wrap(Wrap(current, inner, innerTruthy), outer, outerTruthy), v)
         == Deliver(Wrap(current, (t: T) => inner(outer(t)), outerTruthy), v)
  {
    var once := Wrap(current, inner, innerTruthy);
    var twice := Wrap(once, outer, outerTruthy);
    var composed := Wrap(current, (t: T) => inner(outer(t)), outerTruthy);
    match current
    case Fn(f) =>
      assert twice.f(v) == once.f(MapOption(v, outer));
      assert once.f(MapOption(v, outer)) == f(MapOption(MapOption(v, outer), inner));
      assert composed.f(v) == f(MapOption(v, (t: T) => inner(outer(t))));
    case Obs(next, _, _) =>
      var u := MapTruthy(v, outer, outerTruthy);
      assert twice.next(v) == once.next(u);
      assert once.next(u) == next(MapTruthy(u, inner, innerTruthy));
      assert composed.next(v) == next(MapTruthy(v, (t: T) => inner(outer(t)), outerTruthy));
      if v.Some? && outerTruthy(v.value) {
        assert innerTruthy(outer(v.value));
      }
  }

  // ---------------------------------------------------------------------------
  // Truthiness of concrete JavaScript values

  /** A JavaScript value other than `null` and `undefined`. Numbers are
      integers here; `NaN`, `-0` and `bigint` are not modelled. */
  datatype JsValue = Bool(b: bool) | Number(n: int) | Str(s: string) | Object(id: nat)

  /** JavaScript's `ToBoolean` on those values. */
  predicate Truthy(v: JsValue) {
    match v
    case Bool(b) => b
    case Number(n) => n != 0
    case Str(s) => s != ""
    case Object(_) => true
  }

  /** The two forms disagree on falsy non-null values: the function form tests
      `== null` and wraps `false`, `0` and `""`; the observer form tests
      truthiness and turns them into `null`. */
  lemma FalsyAsymmetry<W, E>(f: Option<W> -> E, next: Option<W> -> E, error: Error -> E,
                             complete: () -> E, wrapper: JsValue -> W, v: JsValue)
    requires !Truthy(v)
    ensures Deliver(Wrap(Fn(f), wrapper, Truthy), Some(v)) == f(Some(wrapper(v)))
    ensures Deliver(Wrap(Obs(next, error, complete), wrapper, Truthy), Some(v)) == next(None)
    ensures v == Bool(false) || v == Number(0) || v == Str("")
  {
    WrapFnDelivers(f, wrapper, Truthy, Some(v));
    WrapObsDelivers(Obs(next, error, complete), wrapper, Truthy, Some(v));
  }

  // ---------------------------------------------------------------------------
  // The unit test: upper-casing strings

  function AsciiUpperChar(c: char): char {
    if 'a' <= c <= 'z' then (c as int - 'a' as int + 'A' as int) as char else c
  }

  /** Upper-casing ASCII letters only; JavaScript's `toUpperCase` agrees with
      it on ASCII strings such as the test's. */
  function AsciiUpper(s: string): (r: string)
    ensures |r| == |s|
    ensures forall i :: 0 <= i < |s| ==> r[i] == AsciiUpperChar(s[i])
  {
    if s == [] then [] else [AsciiUpperChar(s[0])] + AsciiUpper(s[1..])
  }

  /** Both forms hand `"HELLO"` on for `"hello"` and `null` on for `null`. */
  lemma WrapUpperExample<E>(f: Option<string> -> E, next: Option<string> -> E,
                            error: Error -> E, complete: () -> E)
    ensures Deliver(Wrap(Fn(f), AsciiUpper, s => s != ""), Some("hello")) == f(Some("HELLO"))
    ensures Deliver(Wrap(Fn(f), AsciiUpper, s => s != ""), None) == f(None)
    ensures Deliver(Wrap(Obs(next, error, complete), AsciiUpper, s => s != ""), Some("hello")) == next(Some("HELLO"))
    ensures Deliver(Wrap(Obs(next, error, complete), AsciiUpper, s => s != ""), None) == next(None)
  {
    assert AsciiUpper("hello") == "HELLO";
    var nonEmpty := (s: string) => s != "";
    WrapFnDelivers(f, AsciiUpper, nonEmpty, Some("hello"));
    WrapObsDelivers(Obs(next, error, complete), AsciiUpper, nonEmpty, Some("hello"));
    WrapObsDelivers(Obs(next, error, complete), AsciiUpper, nonEmpty, None);
  }
}
