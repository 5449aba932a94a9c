/** Registries that give equal values equal integer handles. */
module Handles {
  import opened Options
  import opened Text

  /** The fields of a registry. `issued` is history: the key each handle was made for since
      the last `clear`. */
  datatype Registry<K, T> =
    Registry(keyToHandle: map<K, nat>, handleToObj: map<nat, T>, counter: nat, issued: map<nat, K>)

  datatype Op<T> = Add(obj: T) | Release(handle: nat) | Clear

  // ----- The registry as a state machine -----

  function Empty<K, T>(): Registry<K, T> {
    Registry(map[], map[], 0, map[])
  }

  function HandleAfterAdd<K, T>(r: Registry<K, T>, key: K): nat {
    if key in r.keyToHandle then r.keyToHandle[key] else r.counter + 1
  }

  function AfterAdd<K, T>(r: Registry<K, T>, obj: T, key: K): Registry<K, T> {
    if key in r.keyToHandle then r
    else
      var h := r.counter + 1;
      Registry(r.keyToHandle[key := h], r.handleToObj[h := obj], h, r.issued[h := key])
  }

  /** `release` looks at the truth value of the object, so a falsy one is never released. */
  predicate Releases<K, T>(r: Registry<K, T>, handle: nat, truthy: T -> bool) {
    handle in r.handleToObj && truthy(r.handleToObj[handle])
  }

  function AfterRelease<K, T>(r: Registry<K, T>, handle: nat, key: T -> K, truthy: T -> bool): Registry<K, T> {
    if !Releases(r, handle, truthy) then r
    else r.(keyToHandle := r.keyToHandle - {key(r.handleToObj[handle])}, handleToObj := r.handleToObj - {handle})
  }

  function Step<K, T>(r: Registry<K, T>, op: Op<T>, key: T -> K, truthy: T -> bool): Registry<K, T> {
    match op
    case Add(obj) => AfterAdd(r, obj, key(obj))
    case Release(handle) => AfterRelease(r, handle, key, truthy)
    case Clear => Empty()
  }

  /** The two maps are inverse to each other, and every live handle carries the key it was
      issued for. */
  ghost predicate Inv<K, T>(r: Registry<K, T>, key: T -> K) {
    && (forall k :: k in r.keyToHandle ==>
          r.keyToHandle[k] in r.handleToObj && key(r.handleToObj[r.keyToHandle[k]]) == k)
    && (forall h :: h in r.handleToObj ==>
          key(r.handleToObj[h]) in r.keyToHandle && r.keyToHandle[key(r.handleToObj[h])] == h)
    && (forall h :: h in r.handleToObj ==> h in r.issued && r.issued[h] == key(r.handleToObj[h]))
    && (forall h :: h in r.issued <==> 1 <= h <= r.counter)
  }

  lemma StepKeepsInv<K, T>(r: Registry<K, T>, op: Op<T>, key: T -> K, truthy: T -> bool)
    requires Inv(r, key)
    ensures Inv(Step(r, op, key, truthy), key)
  {}

  function Run<K, T>(ops: seq<Op<T>>, key: T -> K, truthy: T -> bool): Registry<K, T>
    decreases |ops|
  {
    if ops == [] then Empty() else Step(Run(ops[..|ops| - 1], key, truthy), ops[|ops| - 1], key, truthy)
  }

  lemma {:induction false} RunKeepsInv<K, T>(ops: seq<Op<T>>, key: T -> K, truthy: T -> bool)
    ensures Inv(Run(ops, key, truthy), key)
    decreases |ops|
  {
    if ops != [] {
      RunKeepsInv(ops[..|ops| - 1], key, truthy);
      StepKeepsInv(Run(ops[..|ops| - 1], key, truthy), ops[|ops| - 1], key, truthy);
    }
  }

  lemma RunOneMore<K, T>(ops: seq<Op<T>>, j: nat, key: T -> K, truthy: T -> bool)
    requires 0 < j <= |ops|
    ensures Run(ops[..j], key, truthy) == Step(Run(ops[..j - 1], key, truthy), ops[j - 1], key, truthy)
  {
    assert ops[..j][..j - 1] == ops[..j - 1];
  }

  /** What was issued by step `i` is still on record at step `j` if nothing was cleared. */
  lemma {:induction false} IssuedStays<K, T>(ops: seq<Op<T>>, i: nat, j: nat, key: T -> K, truthy: T -> bool)
    requires i <= j <= |ops| && forall k :: i <= k < j ==> !ops[k].Clear?
    ensures forall h :: h in Run(ops[..i], key, truthy).issued ==>
      h in Run(ops[..j], key, truthy).issued &&
      Run(ops[..j], key, truthy).issued[h] == Run(ops[..i], key, truthy).issued[h]
    decreases j - i
  {
    if i < j {
      hide Run;
      IssuedStays(ops, i, j - 1, key, truthy);
      RunKeepsInv(ops[..j - 1], key, truthy);
      RunOneMore(ops, j, key, truthy);
    }
  }

  /** Over every run, two additions with no `clear` between them that give the same handle
      were made for the same key, even if the handle was released in between. */
  lemma HandlesAreNotReused<K, T>(ops: seq<Op<T>>, i: nat, j: nat, key: T -> K, truthy: T -> bool)
    requires i < j < |ops| && ops[i].Add? && ops[j].Add? && forall k :: i <= k < j ==> !ops[k].Clear?
    requires HandleAfterAdd(Run(ops[..i], key, truthy), key(ops[i].obj))
             == HandleAfterAdd(Run(ops[..j], key, truthy), key(ops[j].obj))
    ensures key(ops[i].obj) == key(ops[j].obj)
  {
    RunKeepsInv(ops[..i], key, truthy);
    RunKeepsInv(ops[..j], key, truthy);
    var before, after := Run(ops[..i], key, truthy), Run(ops[..i + 1], key, truthy);
    assert ops[..i + 1][..i] == ops[..i] && ops[..i + 1][i] == ops[i];
    assert after == Step(before, ops[i], key, truthy);
    var h := HandleAfterAdd(before, key(ops[i].obj));
    assert h in after.issued && after.issued[h] == key(ops[i].obj);
    IssuedStays(ops, i + 1, j, key, truthy);
  }

  lemma StepKeepsKey<K, T>(r: Registry<K, T>, op: Op<T>, k: K, key: T -> K, truthy: T -> bool)
    requires Inv(r, key) && k in r.keyToHandle && !op.Clear? && op != Release(r.keyToHandle[k])
    ensures var u := Step(r, op, key, truthy); k in u.keyToHandle && u.keyToHandle[k] == r.keyToHandle[k]
  {}

  /** A key keeps its handle until that handle is released or everything is cleared. */
  lemma {:induction false} KeyStays<K, T>(ops: seq<Op<T>>, i: nat, j: nat, k: K, h: nat, key: T -> K, truthy: T -> bool)
    requires i <= j <= |ops|
    requires forall m :: i <= m < j ==> !ops[m].Clear? && ops[m] != Release(h)
    requires k in Run(ops[..i], key, truthy).keyToHandle && Run(ops[..i], key, truthy).keyToHandle[k] == h
    ensures k in Run(ops[..j], key, truthy).keyToHandle && Run(ops[..j], key, truthy).keyToHandle[k] == h
    decreases j - i
  {
    if i < j {
      hide Step, Inv, Run;
      KeyStays(ops, i, j - 1, k, h, key, truthy);
      RunKeepsInv(ops[..j - 1], key, truthy);
      StepKeepsKey(Run(ops[..j - 1], key, truthy), ops[j - 1], k, key, truthy);
      RunOneMore(ops, j, key, truthy);
    }
  }

  lemma StepKeepsObject<K, T>(r: Registry<K, T>, op: Op<T>, h: nat, key: T -> K, truthy: T -> bool)
    requires Inv(r, key) && h in r.handleToObj && !op.Clear? && op != Release(h)
    ensures h in Step(r, op, key, truthy).handleToObj && Step(r, op, key, truthy).handleToObj[h] == r.handleToObj[h]
  {}

  /** A handle keeps the object it was made for until it is released or everything is cleared:
      an equal object that is added later does not take its place. */
  lemma {:induction false} ObjectStays<K, T>(ops: seq<Op<T>>, i: nat, j: nat, key: T -> K, truthy: T -> bool)
    requires i < j <= |ops| && ops[i].Add? && key(ops[i].obj) !in Run(ops[..i], key, truthy).keyToHandle
    requires forall m :: i <= m < j ==>
      !ops[m].Clear? && ops[m] != Release(HandleAfterAdd(Run(ops[..i], key, truthy), key(ops[i].obj)))
    ensures var h, r := HandleAfterAdd(Run(ops[..i], key, truthy), key(ops[i].obj)), Run(ops[..j], key, truthy);
      h in r.handleToObj && r.handleToObj[h] == ops[i].obj
    decreases j - i
  {
    RunOneMore(ops, j, key, truthy);
    if i + 1 < j {
      hide Step, Inv, Run;
      ObjectStays(ops, i, j - 1, key, truthy);
      RunKeepsInv(ops[..j - 1], key, truthy);
      var h := HandleAfterAdd(Run(ops[..i], key, truthy), key(ops[i].obj));
      StepKeepsObject(Run(ops[..j - 1], key, truthy), ops[j - 1], h, key, truthy);
    }
  }

  /** Over every run, two additions with neither a `clear` nor a release of the first handle
      between them give the same handle exactly when they were made for the same key. */
  lemma SameHandleExactlyWhen<K, T>(ops: seq<Op<T>>, i: nat, j: nat, h: nat, key: T -> K, truthy: T -> bool)
    requires i < j < |ops| && ops[i].Add? && ops[j].Add?
    requires h == HandleAfterAdd(Run(ops[..i], key, truthy), key(ops[i].obj))
    requires forall m :: i <= m < j ==> !ops[m].Clear? && ops[m] != Release(h)
    ensures h == HandleAfterAdd(Run(ops[..j], key, truthy), key(ops[j].obj)) <==> key(ops[i].obj) == key(ops[j].obj)
  {
    if h == HandleAfterAdd(Run(ops[..j], key, truthy), key(ops[j].obj)) {
      HandlesAreNotReused(ops, i, j, key, truthy);
    }
    RunKeepsInv(ops[..i], key, truthy);
    RunOneMore(ops, i + 1, key, truthy);
    KeyStays(ops, i + 1, j, key(ops[i].obj), h, key, truthy);
  }

  /** After a release the key gets a new handle; an object that counts as false keeps its
      handle however often it is released. */
  lemma ReleaseForgetsUnlessFalsy<K, T>(r: Registry<K, T>, obj: T, key: T -> K, truthy: T -> bool)
    requires Inv(r, key)
    ensures var r1, h := AfterAdd(r, obj, key(obj)), HandleAfterAdd(r, key(obj));
      && h in r1.handleToObj
      && (HandleAfterAdd(AfterRelease(r1, h, key, truthy), key(obj)) == h <==> !truthy(r1.handleToObj[h]))
  {}

  /** The number 0 in a registry of numbers: releasing its handle does nothing. */
  lemma ZeroIsNotReleased()
    ensures var key, truthy, r := (x: int) => x, (x: int) => x != 0, AfterAdd(Empty<int, int>(), 0, 0);
      HandleAfterAdd(Empty<int, int>(), 0) == 1 && AfterRelease(r, 1, key, truthy) == r && 1 in r.handleToObj
  {}

  // ----- ValueHandleRegistry and ValueHandleRegistryPrimitive -----

  /** Both registries: the second has the items themselves for keys. */
  class HandleRegistry<K(==), T> {
    const getKey: T -> K
    const truthy: T -> bool
    var keyToHandle: map<K, nat>
    var handleToObj: map<nat, T>
    var counter: nat
    ghost var issued: map<nat, K>

    ghost function State(): Registry<K, T>
      reads this
    {
      Registry(keyToHandle, handleToObj, counter, issued)
    }

    ghost predicate Valid()
      reads this
    {
      Inv(State(), getKey)
    }

    constructor (getKey: T -> K, truthy: T -> bool)
      ensures Valid() && State() == Empty() && this.getKey == getKey && this.truthy == truthy
    {
      this.getKey, this.truthy := getKey, truthy;
      keyToHandle, handleToObj, counter, issued := map[], map[], 0, map[];
    }

    method AddObject(obj: T) returns (handle: nat)
      requires Valid()
      modifies this
      ensures Valid() && State() == Step(old(State()), Add(obj), getKey, truthy)
      ensures handle == HandleAfterAdd(old(State()), getKey(obj))
      ensures handle in handleToObj && getKey(handleToObj[handle]) == getKey(obj)
    {
      StepKeepsInv(State(), Add(obj), getKey, truthy);
      var key := getKey(obj);
      if key in keyToHandle {
        return keyToHandle[key];
      }
      counter := counter + 1;
      handle := counter;
      keyToHandle := keyToHandle[key := handle];
      handleToObj := handleToObj[handle := obj];
      issued := issued[handle := key];
    }

    method GetHandle(obj: T) returns (handle: Option<nat>)
      requires Valid()
      ensures handle.Some? <==> exists h :: h in handleToObj && getKey(handleToObj[h]) == getKey(obj)
      ensures handle.Some? ==> handle.value in handleToObj && getKey(handleToObj[handle.value]) == getKey(obj)
    {
      var key := getKey(obj);
      handle := if key in keyToHandle then Some(keyToHandle[key]) else None;
    }

    method GetObject(handle: nat) returns (obj: Option<T>)
      requires Valid()
      ensures obj.Some? <==> handle in handleToObj
      ensures obj.Some? ==> obj.value == handleToObj[handle] && keyToHandle.Items >= {(getKey(obj.value), handle)}
    {
      obj := if handle in handleToObj then Some(handleToObj[handle]) else None;
    }

    method GetObjectByKey(key: T) returns (obj: Option<T>)
      requires Valid()
      ensures obj.Some? <==> getKey(key) in keyToHandle
      ensures obj.Some? ==> getKey(obj.value) == getKey(key)
    {
      var k := getKey(key);
      if k in keyToHandle && keyToHandle[k] in handleToObj {
        return Some(handleToObj[keyToHandle[k]]);
      }
      return None;
    }

    method ReleaseHandle(handle: nat) returns (released: bool)
      requires Valid()
      modifies this
      ensures Valid() && State() == Step(old(State()), Release(handle), getKey, truthy)
      ensures released <==> Releases(old(State()), handle, truthy)
    {
      StepKeepsInv(State(), Release(handle), getKey, truthy);
      if handle !in handleToObj || !truthy(handleToObj[handle]) {
        return false;
      }
      var key := getKey(handleToObj[handle]);
      keyToHandle := keyToHandle - {key};
      handleToObj := handleToObj - {handle};
      return true;
    }

    method ClearAll()
      modifies this
      ensures Valid() && State() == Empty()
    {
      keyToHandle, handleToObj, counter, issued := map[], map[], 0, map[];
    }
  }

  // ----- VariableKeys -----

  const BAR := 124

  /** The fields that identify a variable. */
  datatype VariableKey = VariableKey(parent: int, name: Str, frameRef: int)

  function ToValueKey(v: VariableKey): Str {
    DecInt(v.parent) + [BAR] + v.name + [BAR] + DecInt(v.frameRef)
  }

  lemma DecIntHasNoBar(i: int)
    ensures BAR !in DecInt(i)
  {}

  lemma FirstBar(a: Str, x: Str, b: Str, y: Str)
    requires a + [BAR] + x == b + [BAR] + y && BAR !in a && BAR !in b
    ensures a == b && x == y
  {
    var s := a + [BAR] + x;
    assert s[..|a|] == a && (b + [BAR] + y)[..|b|] == b;
    IndexOfIs(s, BAR, |a|);
    IndexOfIs(s, BAR, |b|);
    assert s[|a| + 1..] == x && (b + [BAR] + y)[|b| + 1..] == y;
  }

  lemma LastBar(x: Str, a: Str, y: Str, b: Str)
    requires x + [BAR] + a == y + [BAR] + b && BAR !in a && BAR !in b
    ensures x == y && a == b
  {
    var s, t := x + [BAR] + a, y + [BAR] + b;
    assert s[|x|] == BAR && t[|y|] == BAR;
    assert forall i :: |x| < i < |s| ==> s[i] == a[i - |x| - 1];
    assert forall i :: |y| < i < |t| ==> t[i] == b[i - |y| - 1];
    assert |x| == |y|;
    assert x == s[..|x|] == t[..|y|] == y;
    assert a == s[|x| + 1..] == t[|y| + 1..] == b;
  }

  /** The key tells variables apart whatever their names, even names with bars in them. */
  lemma ToValueKeyInjective(v: VariableKey, w: VariableKey)
    ensures ToValueKey(v) == ToValueKey(w) <==> v == w
  {
    if ToValueKey(v) == ToValueKey(w) {
      DecIntHasNoBar(v.parent);
      DecIntHasNoBar(w.parent);
      DecIntHasNoBar(v.frameRef);
      DecIntHasNoBar(w.frameRef);
      var vt, wt := v.name + [BAR] + DecInt(v.frameRef), w.name + [BAR] + DecInt(w.frameRef);
      assert ToValueKey(v) == DecInt(v.parent) + [BAR] + vt;
      assert ToValueKey(w) == DecInt(w.parent) + [BAR] + wt;
      FirstBar(DecInt(v.parent), vt, DecInt(w.parent), wt);
      LastBar(v.name, DecInt(v.frameRef), w.name, DecInt(w.frameRef));
      DecIntInjective(v.parent, w.parent);
      DecIntInjective(v.frameRef, w.frameRef);
    }
  }
}
