/**
 * Package errorc: errors decorated with key/value fields.
 *
 * An error value is either nil, a plain error (an immutable value with its own
 * message, possibly wrapping another error), or a pointer to a heap object of
 * class ErrorWithFields. Every annotating call walks the unwrap chain for the
 * first decorated error and mutates that one, so annotating the returned
 * error, or an error whose chain contains it, again reaches the same object.
 * Annotating the original undecorated error again builds a second, separate
 * wrapper. Wrap, mustBase and the
 * annotating functions never add a second decorated error to a chain that
 * already holds one. Newf can: the error fmt.Errorf builds may wrap (%w) a
 * decorated error, and later annotations then reach only the outer one.
 */
module Errorc {

  datatype Option<T> = None | Some(value: T)

  /** A Go `error` value. A plain error is compared by its identity `id` and
      renders as `msg`; `next` is what errors.Unwrap returns for it (Nil when
      it wraps nothing). `Dec` is a *ErrorWithFields, compared by reference.
      `NilRef` is a non-nil `error` holding a nil *ErrorWithFields: what the
      package's AddField, AddFieldf and AddFields return for nil, once the
      result is used as an `error`. */
  datatype Error<V> =
    | Nil
    | Plain(id: nat, msg: string, next: Error<V>)
    | Dec(ref: ErrorWithFields<V>)
    | NilRef

  /** A *ErrorWithFields stored in an `error`: a nil pointer gives NilRef,
      which is not the nil interface. */
  function AsError<V>(p: ErrorWithFields?<V>): (r: Error<V>)
    ensures r != Nil
    ensures p != null <==> r.Dec?
    ensures r.Dec? ==> r.ref == p
  {
    if p == null then NilRef else Dec(p)
  }

  /** The decorated error. The wrapped cause and the captured stack are set
      once, when the object is created, and never reassigned; only the field
      table changes. `fields == None` is Go's nil map. */
  class ErrorWithFields<V> {
    const cause: Error<V>
    const stack: seq<nat>
    var fields: Option<map<string, V>>

    /** Every creation site wraps either a chain without a decorated error, a
        freshly formatted plain error, or nothing: the cause itself is never a
        decorated error. */
    predicate Valid() {
      !cause.Dec?
    }

    /** The struct literal used by Wrap, mustBase and Newf: empty, non-nil map. */
    constructor (cause: Error<V>, stack: seq<nat>)
      requires !cause.Dec?
      ensures this.cause == cause && this.stack == stack
      ensures fields == Some(map[])
      ensures Valid()
    {
      this.cause := cause;
      this.stack := stack;
      fields := Some(map[]);
    }

    /** Go's zero value `&ErrorWithFields{}`: nil cause, nil map, no stack. */
    constructor Zero()
      ensures cause == Nil && stack == [] && fields == None
      ensures Valid()
    {
      cause := Nil;
      stack := [];
      fields := None;
    }

    /** The table as reads see it: a nil map reads as the empty map. */
    function Entries(): map<string, V>
      reads this
    {
      if fields.Some? then fields.value else map[]
    }

    /** The immediate cause: the step errors.Unwrap takes from this link. */
    function Unwrap(): (r: Error<V>)
      ensures r == Unwrapped(Dec(this)) && r == Link(Dec(this), 1)
    {
      cause
    }

    /** errors.Is delegated to the cause: for a non-nil target, it matches
        exactly the links strictly below this one. */
    ghost predicate Is(target: Error<V>): (b: bool)
      ensures target != Nil ==> (b <==> exists n: nat :: 0 < n && Link(Dec(this), n) == target)
    {
      LinksBelow(this, target);
      IsInChain(cause, target)
    }

    /** The field table (nil when never initialised). */
    function LogFields(): (r: Option<map<string, V>>)
      reads this
      ensures r == fields
      ensures r.None? ==> Entries() == map[]
      ensures r.Some? ==> r.value == Entries()
    {
      fields
    }

    /** Sets `key` to `value`, initialising a nil map first; returns the receiver. */
    method AddField(key: string, value: V) returns (r: ErrorWithFields<V>)
      modifies this
      ensures r == this
      ensures fields == Some(old(Entries())[key := value])
      ensures key in Entries() && Entries()[key] == value
      ensures Entries().Keys == old(Entries()).Keys + {key}
      ensures forall k :: k in old(Entries()) && k != key ==> Entries()[k] == old(Entries())[k]
    {
      if fields.None? {
        fields := Some(map[key := value]);
      } else {
        fields := Some(fields.value[key := value]);
      }
      r := this;
    }

    /** AddField with the value produced by `sprintf(valueFormat, args)`. */
    method AddFieldf(key: string, valueFormat: string, args: seq<V>, sprintf: (string, seq<V>) -> V)
      returns (r: ErrorWithFields<V>)
      modifies this
      ensures r == this
      ensures fields == Some(old(Entries())[key := sprintf(valueFormat, args)])
    {
      r := AddField(key, sprintf(valueFormat, args));
    }
  }

  /** errors.Unwrap: one step down the chain (nil stays nil). */
  function Unwrapped<V>(e: Error<V>): Error<V> {
    match e
    case Nil => Nil
    case Plain(_, _, next) => next
    case Dec(f) => f.cause
    case NilRef => Nil
  }

  /** The n-th link of the chain that starts at `e`. */
  function Link<V>(e: Error<V>, n: nat): Error<V>
    decreases n
  {
    if n == 0 then e else Link(Unwrapped(e), n - 1)
  }

  /** errors.Is: nil matches only nil; otherwise `target` is some link of the
      chain (a decorated link's Is method looks further down the same chain). */
  ghost predicate IsInChain<V>(err: Error<V>, target: Error<V>) {
    if err == Nil || target == Nil then err == target
    else exists n: nat :: Link(err, n) == target
  }

  /** Error(): the message of a plain error; a decorated error promotes its
      cause's. None is a call on a nil interface or through a nil pointer,
      which panics in Go. */
  function Message<V>(e: Error<V>): (r: Option<string>)
    requires e.Dec? ==> e.ref.Valid()
    ensures r.Some? <==> Link(e, if e.Dec? then 1 else 0).Plain?
    ensures r.Some? ==> r.value == Link(e, if e.Dec? then 1 else 0).msg
    decreases if e.Dec? then 1 else 0
  {
    match e
    case Nil => None
    case Plain(_, msg, _) => Some(msg)
    case Dec(f) => Message(f.cause)
    case NilRef => None
  }

  /** Whether `target` is matched by errors.Is on the cause of `f` is whether it
      is one of the links below `f`. */
  lemma {:induction false} LinksBelow<V>(f: ErrorWithFields<V>, target: Error<V>)
    ensures target != Nil ==>
      (IsInChain(f.cause, target) <==> exists n: nat :: 0 < n && Link(Dec(f), n) == target)
  {
    if target != Nil {
      if IsInChain(f.cause, target) {
        var m: nat :| Link(f.cause, m) == target;
        assert Link(Dec(f), m + 1) == target;
      }
      if exists n: nat :: 0 < n && Link(Dec(f), n) == target {
        var n: nat :| 0 < n && Link(Dec(f), n) == target;
        assert Link(f.cause, n - 1) == target;
        if f.cause == Nil {
          LinkOfNil<V>(n - 1);
        }
      }
    }
  }

  /** The first decorated error met walking the chain from `err`, or null. */
  function FirstDecorated<V>(err: Error<V>): ErrorWithFields?<V> {
    match err
    case Nil => null
    case Plain(_, _, next) => FirstDecorated(next)
    case Dec(f) => f
    case NilRef => null
  }

  /** The objects a package-level annotating call on `err` may mutate. */
  function Footprint<V>(err: Error<V>): set<object> {
    var fe := FirstDecorated(err);
    if fe == null then {} else {fe}
  }

  lemma {:induction false} LinkOfNil<V>(n: nat)
    ensures Link<V>(Nil, n) == Nil
  {
    if n > 0 {
      LinkOfNil<V>(n - 1);
    }
  }

  /** The first n links of the chain from `e` are all plain errors. */
  ghost predicate PlainBefore<V>(e: Error<V>, n: nat) {
    forall m: nat :: m < n ==> Link(e, m).Plain?
  }

  lemma LinkOfPlain<V>(err: Error<V>, n: nat)
    requires err.Plain?
    ensures Link(err, n + 1) == Link(err.next, n)
  {
  }

  /** Prepending a plain link to a chain shifts its links by one. */
  lemma PlainBeforeOfPlain<V>(err: Error<V>, k: nat)
    requires err.Plain? && PlainBefore(err.next, k)
    ensures PlainBefore(err, k + 1)
  {
  }

  lemma DecoratedHead<V>(err: Error<V>)
    requires err.Dec?
    ensures FirstDecorated(err) != null && !(forall n: nat :: !Link(err, n).Dec?)
  {
    assert Link(err, 0).Dec?;
  }

  /** FirstDecorated is the first decorated link of the chain: every link
      before it is plain; and it is null exactly when no link is decorated. */
  lemma {:induction false} FirstDecoratedIsFirstInChain<V>(err: Error<V>)
    ensures FirstDecorated(err) == null <==> forall n: nat :: !Link(err, n).Dec?
    ensures FirstDecorated(err) != null ==>
      exists n: nat :: Link(err, n) == Dec(FirstDecorated(err)) && PlainBefore(err, n)
  {
    match err
    case Nil =>
      forall n: nat ensures !Link(err, n).Dec? {
        LinkOfNil<V>(n);
      }
    case Dec(f) =>
      assert Link(err, 0) == Dec(f) && PlainBefore(err, 0);
      DecoratedHead(err);
    case NilRef =>
      forall n: nat ensures !Link(err, n).Dec? {
        if n > 0 {
          LinkOfNil<V>(n - 1);
        }
      }
    case Plain(_, _, next) =>
      FirstDecoratedIsFirstInChain(next);
      if FirstDecorated(next) == null {
        forall n: nat ensures !Link(err, n).Dec? {
          if n > 0 {
            LinkOfPlain(err, n - 1);
          }
        }
      } else {
        var fe := FirstDecorated(next);
        var k: nat :| Link(next, k) == Dec(fe) && PlainBefore(next, k);
        LinkOfPlain(err, k);
        PlainBeforeOfPlain(err, k);
        assert Link(err, k + 1) == Dec(fe) && PlainBefore(err, k + 1);
        assert !(forall n: nat :: !Link(err, n).Dec?);
      }
  }

  /** base: walks the chain until a decorated error is found or the chain ends. */
  method Base<V>(err: Error<V>) returns (r: ErrorWithFields?<V>)
    ensures r == FirstDecorated(err)
  {
    if err == Nil {
      return null;
    }
    var unwrapErr := err;
    while unwrapErr != Nil
      invariant FirstDecorated(unwrapErr) == FirstDecorated(err)
      decreases unwrapErr
    {
      if unwrapErr.Dec? {
        return unwrapErr.ref;
      }
      if unwrapErr.NilRef? {
        // the type assertion succeeds with a nil pointer, which is returned
        return null;
      }
      // errors.Unwrap of a plain error
      unwrapErr := unwrapErr.next;
    }
    return null;
  }

  /** mustBase / MustBase: the decorated error already in the chain, or a new
      one wrapping `err` with an empty table. `pcs` is the captured stack. */
  method MustBase<V>(err: Error<V>, pcs: seq<nat>) returns (f: ErrorWithFields<V>)
    ensures FirstDecorated(err) != null ==> f == FirstDecorated(err)
    ensures FirstDecorated(err) == null ==>
      fresh(f) && f.cause == err && f.stack == pcs && f.fields == Some(map[]) && f.Valid()
  {
    var fe := Base(err);
    if fe == null {
      f := new ErrorWithFields(err, pcs);
    } else {
      f := fe;
    }
  }

  /** Wrap: `err` itself when its chain is already decorated, otherwise a new
      decorated error around it. There is no nil check: Wrap(nil) decorates nil. */
  method Wrap<V>(err: Error<V>, pcs: seq<nat>) returns (r: Error<V>)
    ensures FirstDecorated(err) != null ==> r == err
    ensures FirstDecorated(err) == null ==>
      r.Dec? && fresh(r.ref) && r.ref.cause == err && r.ref.stack == pcs &&
      r.ref.fields == Some(map[]) && r.ref.Valid()
    ensures FirstDecorated(r) != null
  {
    var fe := Base(err);
    if fe == null {
      var f := new ErrorWithFields(err, pcs);
      return Dec(f);
    }
    return err;
  }

  /** Newf: a decorated error around the plain error fmt.Errorf builds; the
      formatted text `msg`, its identity `id` and what it wraps via %w are
      given. */
  method Newf<V>(id: nat, msg: string, wrapped: Error<V>, pcs: seq<nat>) returns (r: Error<V>)
    ensures r.Dec? && fresh(r.ref) && r.ref.cause == Plain(id, msg, wrapped)
    ensures r.ref.stack == pcs && r.ref.fields == Some(map[]) && r.ref.Valid()
  {
    var f := new ErrorWithFields(Plain(id, msg, wrapped), pcs);
    r := Dec(f);
  }

  /** Cause: nil for nil; otherwise the immediate cause of the chain's
      decorated error, or `err` itself when the chain has none. */
  method Cause<V>(err: Error<V>, pcs: seq<nat>) returns (r: Error<V>)
    ensures err == Nil ==> r == Nil
    ensures err != Nil && FirstDecorated(err) != null ==> r == FirstDecorated(err).cause
    ensures err != Nil && FirstDecorated(err) == null ==> r == err
  {
    if err == Nil {
      return Nil;
    }
    var f := MustBase(err, pcs);
    r := f.Unwrap();
  }

  /** Package AddField: nil for nil (nothing allocated or changed); otherwise
      the field is set on the chain's decorated error, or on a new one. */
  method AddField<V>(err: Error<V>, key: string, value: V, pcs: seq<nat>)
    returns (r: ErrorWithFields?<V>)
    modifies Footprint(err)
    ensures err == Nil ==> r == null
    ensures err != Nil && FirstDecorated(err) != null ==>
      r == FirstDecorated(err) && r.fields == Some(old(FirstDecorated(err).Entries())[key := value])
    ensures err != Nil && FirstDecorated(err) == null ==>
      r != null && fresh(r) && r.cause == err && r.stack == pcs &&
      r.fields == Some(map[key := value]) && r.Valid()
  {
    if err == Nil {
      return null;
    }
    ghost var found := FirstDecorated(err);
    var f := MustBase(err, pcs);
    assert found != null ==> found.Entries() == old(found.Entries());
    r := f.AddField(key, value);
  }

  /** Package AddFieldf: AddField of `sprintf(valueFormat, args)`, nil for nil. */
  method AddFieldf<V>(err: Error<V>, key: string, valueFormat: string, args: seq<V>,
                      sprintf: (string, seq<V>) -> V, pcs: seq<nat>)
    returns (r: ErrorWithFields?<V>)
    modifies Footprint(err)
    ensures err == Nil ==> r == null
    ensures err != Nil && FirstDecorated(err) != null ==>
      r == FirstDecorated(err) &&
      r.fields == Some(old(FirstDecorated(err).Entries())[key := sprintf(valueFormat, args)])
    ensures err != Nil && FirstDecorated(err) == null ==>
      r != null && fresh(r) && r.cause == err && r.stack == pcs &&
      r.fields == Some(map[key := sprintf(valueFormat, args)]) && r.Valid()
  {
    if err == Nil {
      return null;
    }
    r := AddField(err, key, sprintf(valueFormat, args), pcs);
  }

  /** The entries of `m` whose keys are not in `rest`. */
  function Without<V>(m: map<string, V>, rest: set<string>): map<string, V> {
    map k | k in m && k !in rest :: m[k]
  }

  lemma WithoutStep<V>(start: map<string, V>, m: map<string, V>, rest: set<string>, key: string)
    requires key in rest && rest <= m.Keys
    ensures (start + Without(m, rest))[key := m[key]] == start + Without(m, rest - {key})
  {
  }

  /** With no keys left out, Without is the whole map. */
  lemma WithoutNothing<V>(start: map<string, V>, m: map<string, V>)
    ensures start + Without(m, {}) == start + m
  {
  }

  /** Package AddFields: resolves once, then sets every entry of `m` in some
      order; whatever the order, the table ends as the old one overridden by `m`. */
  method AddFields<V>(err: Error<V>, m: map<string, V>, pcs: seq<nat>)
    returns (r: ErrorWithFields?<V>)
    modifies Footprint(err)
    ensures err == Nil ==> r == null
    ensures err != Nil && FirstDecorated(err) != null ==>
      r == FirstDecorated(err) &&
      r.fields == if m == map[] then old(FirstDecorated(err).fields)
                  else Some(old(FirstDecorated(err).Entries()) + m)
    ensures err != Nil && FirstDecorated(err) == null ==>
      r != null && fresh(r) && r.cause == err && r.stack == pcs &&
      r.fields == Some(m) && r.Valid()
  {
    if err == Nil {
      return null;
    }
    ghost var found := FirstDecorated(err);
    var f := MustBase(err, pcs);
    assert found != null ==> found.fields == old(found.fields);
    ghost var startFields := f.fields;
    ghost var start := f.Entries();
    var rest := m.Keys;
    while rest != {}
      invariant rest <= m.Keys
      invariant f.Entries() == start + Without(m, rest)
      invariant rest == m.Keys ==> f.fields == startFields
      invariant rest != m.Keys ==> f.fields == Some(f.Entries())
      decreases rest
    {
      var key :| key in rest;
      var self := f.AddField(key, m[key]);
      WithoutStep(start, m, rest, key);
      rest := rest - {key};
    }
    WithoutNothing(start, m);
    assert m == map[] <==> m.Keys == {};
    assert found == null ==> start + m == m;
    r := f;
  }

  /** errors.Is on a decorated error, for a non-nil target: it matches itself,
      or whatever its Is method (the cause's chain) matches. */
  lemma {:induction false} IsThroughDecorated<V>(f: ErrorWithFields<V>, target: Error<V>)
    requires target != Nil
    ensures IsInChain(Dec(f), target) <==> Dec(f) == target || f.Is(target)
  {
    if IsInChain(Dec(f), target) && Dec(f) != target {
      var n: nat :| Link(Dec(f), n) == target;
      assert n > 0;
      assert Link(f.cause, n - 1) == target;
      if f.cause == Nil {
        LinkOfNil<V>(n - 1);
      }
      assert f.Is(target);
    }
    if Dec(f) == target {
      assert Link(Dec(f), 0) == target;
    } else if f.Is(target) {
      var n: nat :| Link(f.cause, n) == target;
      assert Link(Dec(f), n + 1) == Link(f.cause, n);
    }
  }

  /** A decorated error still matches, under errors.Is, the error it wraps. */
  lemma {:induction false} DecoratedIsItsCause<V>(f: ErrorWithFields<V>)
    requires f.cause != Nil
    ensures IsInChain(Dec(f), f.cause)
  {
    assert Link(Dec(f), 1) == f.cause;
  }

  /** Annotating a plain error: the result carries the field and errors.Is
      still matches the original error. */
  method AnnotatePlain<V>(err: Error<V>, key: string, value: V, pcs: seq<nat>)
    returns (w: ErrorWithFields?<V>)
    requires err.Plain? && FirstDecorated(err) == null
    ensures w != null && w.Entries() == map[key := value]
    ensures IsInChain(Dec(w), err)
  {
    w := AddField(err, key, value, pcs);
    DecoratedIsItsCause(w);
  }

  /** Link n + 1 is one errors.Unwrap step below link n. */
  lemma {:induction false} LinkStep<V>(e: Error<V>, n: nat)
    ensures Link(e, n + 1) == Unwrapped(Link(e, n))
    decreases n
  {
    if n > 0 {
      LinkStep(Unwrapped(e), n - 1);
    }
  }

  /** Annotating a plain error that wraps a decorated one hands back that
      decorated error, and errors.Is on it no longer matches the wrapper: the
      plain layer above the decorated link is not part of the result's chain.
      The one thing needed is that `f` is not below itself in its own chain. */
  lemma {:induction false} AnnotateDropsWrapper<V>(f: ErrorWithFields<V>, id: nat, msg: string)
    requires forall n: nat :: Link(f.cause, n) != Dec(f)
    ensures FirstDecorated(Plain(id, msg, Dec(f))) == f
    ensures !IsInChain(Dec(f), Plain(id, msg, Dec(f)))
  {
    var err := Plain(id, msg, Dec(f));
    if IsInChain(Dec(f), err) {
      var n: nat :| Link(Dec(f), n) == err;
      assert n > 0;
      assert Link(f.cause, n - 1) == err;
      LinkStep(f.cause, n - 1);
      assert false;
    }
  }

  /** Wrap(Wrap(e)) is Wrap(e): the second call finds the decorated error of
      the first result and hands its argument back unchanged. */
  method WrapTwice<V>(err: Error<V>, pcs1: seq<nat>, pcs2: seq<nat>)
    returns (once: Error<V>, twice: Error<V>)
    ensures twice == once
    ensures FirstDecorated(err) != null ==> once == err
    ensures FirstDecorated(err) == null ==> once.Dec? && once.ref.cause == err
  {
    once := Wrap(err, pcs1);
    twice := Wrap(once, pcs2);
  }

  /** Cause undoes a first Wrap, nil included: it is exactly one layer. */
  method CauseOfWrap<V>(err: Error<V>, pcs1: seq<nat>, pcs2: seq<nat>)
    returns (wrapped: Error<V>, cause: Error<V>)
    requires FirstDecorated(err) == null
    ensures wrapped != Nil && cause == err
  {
    wrapped := Wrap(err, pcs1);
    cause := Cause(wrapped, pcs2);
  }

  /** Annotating the result again reuses the same object: fields accumulate,
      and a repeated key keeps the later value. */
  method AddTwoFields<V>(err: Error<V>, k1: string, v1: V, k2: string, v2: V, pcs: seq<nat>)
    returns (r1: ErrorWithFields?<V>, r2: ErrorWithFields?<V>)
    requires err != Nil
    modifies Footprint(err)
    ensures r1 != null && r2 == r1
    ensures k2 in r2.Entries() && r2.Entries()[k2] == v2
    ensures k1 != k2 ==> k1 in r2.Entries() && r2.Entries()[k1] == v1
  {
    r1 := AddField(err, k1, v1, pcs);
    r2 := AddField(Dec(r1), k2, v2, pcs);
  }

  /** Annotating the original undecorated error twice builds two separate
      wrappers: the second does not see the first one's field. */
  method AnnotateOriginalTwice<V>(err: Error<V>, k1: string, v1: V, k2: string, v2: V,
                                  pcs: seq<nat>)
    returns (r1: ErrorWithFields?<V>, r2: ErrorWithFields?<V>)
    requires err.Plain? && FirstDecorated(err) == null
    ensures r1 != null && r2 != null && r1 != r2
    ensures r1.Entries() == map[k1 := v1] && r2.Entries() == map[k2 := v2]
    ensures k1 != k2 ==> k1 !in r2.Entries()
  {
    r1 := AddField(err, k1, v1, pcs);
    r2 := AddField(err, k2, v2, pcs);
  }

  /** As written, Wrap(nil) is not nil: it is a decorated error around nil,
      whose Error() calls a method on a nil interface. */
  method WrapOfNil<V>(pcs: seq<nat>) returns (r: Error<V>)
    ensures r != Nil && r.Dec? && r.ref.cause == Nil
    ensures Message(r) == None
  {
    r := Wrap(Nil, pcs);
  }

  /** Wrap with the nil propagation the package's other entry points have. */
  method WrapOrNil<V>(err: Error<V>, pcs: seq<nat>) returns (r: Error<V>)
    ensures r == Nil <==> err == Nil
    ensures err != Nil && FirstDecorated(err) != null ==> r == err
    ensures err != Nil && FirstDecorated(err) == null ==>
      r.Dec? && fresh(r.ref) && r.ref.cause == err && r.ref.stack == pcs &&
      r.ref.fields == Some(map[]) && r.ref.Valid()
    ensures r != Nil ==> FirstDecorated(r) != null
  {
    if err == Nil {
      return Nil;
    }
    r := Wrap(err, pcs);
  }

  /** As written, package AddField returns a nil *ErrorWithFields for nil;
      used as an `error` that is not nil, and Wrap decorates it again with a
      decorated error whose Error() dereferences the nil pointer. */
  method AddFieldOfNilAsError<V>(key: string, value: V, pcs: seq<nat>)
    returns (e: Error<V>, w: Error<V>)
    ensures e == NilRef && e != Nil
    ensures w.Dec? && w.ref.cause == NilRef && w.ref.Valid() && Message(w) == None
  {
    var p := AddField(Nil, key, value, pcs);
    e := AsError(p);
    w := Wrap(e, pcs);
  }

  /** Package AddField with its result as an `error`: nil exactly for nil,
      otherwise the decorated error that received the field. */
  method AddFieldAsError<V>(err: Error<V>, key: string, value: V, pcs: seq<nat>)
    returns (r: Error<V>)
    modifies Footprint(err)
    ensures r == Nil <==> err == Nil
    ensures err != Nil && FirstDecorated(err) != null ==>
      r == Dec(FirstDecorated(err)) &&
      r.ref.fields == Some(old(FirstDecorated(err).Entries())[key := value])
    ensures err != Nil && FirstDecorated(err) == null ==>
      r.Dec? && fresh(r.ref) && r.ref.cause == err && r.ref.stack == pcs &&
      r.ref.fields == Some(map[key := value]) && r.ref.Valid()
  {
    if err == Nil {
      return Nil;
    }
    var p := AddField(err, key, value, pcs);
    r := AsError(p);
  }
}
