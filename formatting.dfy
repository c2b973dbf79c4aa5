/**
 * The plain renderings of a decorated error (verb 's', and verb 'v' without
 * the '+' flag): the error's message followed by ". key: value" per field.
 * Go does not fix the order in which a map is iterated, so the rendering is
 * taken over an explicit iteration order, and what is proved holds for every
 * order.
 */
module Formatting {
  import opened Errorc

  /** What a plain verb appends for one field. */
  function FieldText(key: string, value: string): string {
    ". " + key + ": " + value
  }

  /** `order` is one iteration order of `m`: every key exactly once. */
  ghost predicate Enumerates<V>(order: seq<string>, m: map<string, V>) {
    && (forall i, j :: 0 <= i < j < |order| ==> order[i] != order[j])
    && (forall i :: 0 <= i < |order| ==> order[i] in m)
    && (forall k :: k in m ==> k in order)
  }

  /** The fields written in the given order; `show` is the %v form of a value. */
  function FieldsText<V>(order: seq<string>, m: map<string, V>, show: V -> string): string
    requires forall i :: 0 <= i < |order| ==> order[i] in m
  {
    if order == [] then ""
    else FieldText(order[0], show(m[order[0]])) + FieldsText(order[1..], m, show)
  }

  ghost predicate OccursAt(s: string, t: string, p: int) {
    0 <= p && p + |t| <= |s| && s[p..p + |t|] == t
  }

  ghost predicate Contains(s: string, t: string) {
    exists p :: OccursAt(s, t, p)
  }

  /** An occurrence in `s` is one in `a + s`, |a| further on. */
  lemma OccursAfter(a: string, s: string, t: string, p: int)
    requires OccursAt(s, t, p)
    ensures OccursAt(a + s, t, |a| + p)
  {
  }

  /** Format for `verb` (with the '+' flag `plus`). For 's' and for 'v'
      without '+': Error(), then every field; a verb it does not handle writes
      nothing. None: Error() was called on a nil cause, or through a nil
      pointer, which panics. */
  function Format<V>(f: ErrorWithFields<V>, verb: char, plus: bool, order: seq<string>,
                     show: V -> string): (r: Option<string>)
    reads f
    requires f.Valid()
    requires verb != 'q' && !(verb == 'v' && plus)
    requires Enumerates(order, f.Entries())
    ensures verb != 's' && verb != 'v' ==> r == Some("")
    ensures (verb == 's' || verb == 'v') ==> (r.None? <==> f.cause == Nil || f.cause == NilRef)
    ensures (verb == 's' || verb == 'v') && f.cause.Plain? ==>
      r.Some? && f.cause.msg <= r.value
  {
    if verb == 's' || verb == 'v' then
      match Message(f.cause)
      case None => None
      case Some(text) => Some(text + FieldsText(order, f.Entries(), show))
    else
      Some("")
  }

  lemma {:induction false} FieldsTextShowsField<V>(order: seq<string>, m: map<string, V>,
                                                   show: V -> string, i: int)
    requires forall j :: 0 <= j < |order| ==> order[j] in m
    requires 0 <= i < |order|
    ensures Contains(FieldsText(order, m, show), FieldText(order[i], show(m[order[i]])))
  {
    var head := FieldText(order[0], show(m[order[0]]));
    var s := FieldsText(order, m, show);
    assert s == head + FieldsText(order[1..], m, show);
    if i == 0 {
      assert OccursAt(s, head, 0);
    } else {
      var t := FieldText(order[i], show(m[order[i]]));
      assert order[1..][i - 1] == order[i];
      FieldsTextShowsField(order[1..], m, show, i - 1);
      var p :| OccursAt(FieldsText(order[1..], m, show), t, p);
      OccursAfter(head, FieldsText(order[1..], m, show), t, p);
    }
  }

  /** Whatever the iteration order, the plain rendering starts with the
      error's message and shows every field as ". key: value". */
  lemma FormatShowsEveryField<V>(f: ErrorWithFields<V>, verb: char, order: seq<string>,
                                 show: V -> string, key: string)
    requires f.Valid() && f.cause.Plain?
    requires verb == 's' || verb == 'v'
    requires Enumerates(order, f.Entries())
    requires key in f.Entries()
    ensures Format(f, verb, false, order, show).Some?
    ensures Contains(Format(f, verb, false, order, show).value,
                     FieldText(key, show(f.Entries()[key])))
  {
    var msg := f.cause.msg;
    var fields := FieldsText(order, f.Entries(), show);
    var t := FieldText(key, show(f.Entries()[key]));
    var i :| 0 <= i < |order| && order[i] == key;
    FieldsTextShowsField(order, f.Entries(), show, i);
    var p :| OccursAt(fields, t, p);
    var r := Format(f, verb, false, order, show).value;
    assert r == msg + fields;
    OccursAfter(msg, fields, t, p);
  }

  lemma {:induction false} DistinctKeysCount(order: seq<string>)
    requires forall i, j :: 0 <= i < j < |order| ==> order[i] != order[j]
    ensures |set k | k in order| == |order|
  {
    if order != [] {
      DistinctKeysCount(order[1..]);
      assert (set k | k in order) == {order[0]} + (set k | k in order[1..]);
      assert order[0] !in (set k | k in order[1..]);
    }
  }

  /** Every iteration order of a map visits exactly as many keys as it has. */
  lemma EnumerationSize<V>(order: seq<string>, m: map<string, V>)
    requires Enumerates(order, m)
    ensures |order| == |m|
  {
    DistinctKeysCount(order);
    assert (set k | k in order) == m.Keys;
  }

  /** A map with one key has a single iteration order. */
  lemma OnlyOrderOfOneKey<V>(order: seq<string>, key: string, value: V)
    requires Enumerates(order, map[key := value])
    ensures order == [key]
  {
    EnumerationSize(order, map[key := value]);
    assert order[0] in map[key := value];
  }

  /** With a single field the rendering is fully determined:
      message + ". key: value". */
  lemma {:induction false} FormatOneField<V>(f: ErrorWithFields<V>, verb: char, order: seq<string>,
                                             show: V -> string, key: string, value: V)
    requires f.Valid() && f.cause.Plain?
    requires verb == 's' || verb == 'v'
    requires f.Entries() == map[key := value]
    requires Enumerates(order, f.Entries())
    ensures Format(f, verb, false, order, show) == Some(f.cause.msg + ". " + key + ": " + show(value))
  {
    OnlyOrderOfOneKey(order, key, value);
    assert order[1..] == [];
    assert FieldsText(order, f.Entries(), show) == FieldText(key, show(value)) + "";
    assert Message(f.cause) == Some(f.cause.msg);
    assert Format(f, verb, false, order, show)
        == Some(f.cause.msg + FieldsText(order, f.Entries(), show));
    assert f.cause.msg + (". " + key + ": " + show(value) + "")
        == f.cause.msg + ". " + key + ": " + show(value);
  }

  /** %v of a string value is the string itself. */
  function ShowString(s: string): string {
    s
  }

  /** The package test's error, message "ss-1", annotated with BB = CC,
      renders as "ss-1. BB: CC" under 's'. */
  lemma TestErrorRendering(f: ErrorWithFields<string>, order: seq<string>)
    requires f.Valid() && f.cause.Plain? && f.cause.msg == "ss-1"
    requires f.Entries() == map["BB" := "CC"]
    requires Enumerates(order, f.Entries())
    ensures Format(f, 's', false, order, ShowString) == Some("ss-1. BB: CC")
  {
    FormatOneField(f, 's', order, ShowString, "BB", "CC");
    assert "ss-1" + ". " + "BB" + ": " + "CC" == "ss-1. BB: CC";
  }
}
