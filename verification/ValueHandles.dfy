/** `ValueHandleRegistry` over plain JSON data: the registry with canonical keys. */
module ValueHandles {
  import opened CanonicalKey
  import opened Handles
  import opened JsonText
  import opened Text

  type JsonData = v: Json | Valid(v) witness Null

  /** `getKey` for values that bring no key of their own. */
  function Key(v: JsonData): Str {
    StableStringify(v)
  }

  /** JavaScript's truth value of JSON data. */
  predicate Truthy(v: JsonData) {
    match v
    case Null => false
    case Bool(b) => b
    case Num(n) => n != Zero
    case Text(s) => s != []
    case _ => true
  }

  /** Over every run of additions and releases, two values get the same handle exactly when
      they are structurally equal, whatever the order of their properties. */
  lemma EqualValuesShareHandles(ops: seq<Op<JsonData>>, i: nat, j: nat, h: nat)
    requires i < j < |ops| && ops[i].Add? && ops[j].Add?
    requires h == HandleAfterAdd(Run(ops[..i], Key, Truthy), Key(ops[i].obj))
    requires forall m :: i <= m < j ==> !ops[m].Clear? && ops[m] != Release(h)
    ensures h == HandleAfterAdd(Run(ops[..j], Key, Truthy), Key(ops[j].obj))
            <==> StructurallyEqual(ops[i].obj, ops[j].obj)
  {
    SameHandleExactlyWhen(ops, i, j, h, Key, Truthy);
    CanonicalKeyDecidesEquality(ops[i].obj, ops[j].obj);
  }

  /** Releasing a value's handle forgets the value unless it is null, false, zero or empty text. */
  lemma ReleaseForgetsExactlyWhen(r: Registry<Str, JsonData>, v: JsonData)
    requires Inv(r, Key)
    ensures var r1, h := AfterAdd(r, v, Key(v)), HandleAfterAdd(r, Key(v));
      && h in r1.handleToObj
      && (HandleAfterAdd(AfterRelease(r1, h, Key, Truthy), Key(v)) != h
          <==> r1.handleToObj[h] !in [Null, Bool(false), Num(Zero), Text([])])
  {
    hide Key;
    ReleaseForgetsUnlessFalsy(r, v, Key, Truthy);
  }

  /** Even after a release no handle returns for a different value. */
  lemma HandlesKeepTheirValue(ops: seq<Op<JsonData>>, i: nat, j: nat)
    requires i < j < |ops| && ops[i].Add? && ops[j].Add? && forall k :: i <= k < j ==> !ops[k].Clear?
    requires HandleAfterAdd(Run(ops[..i], Key, Truthy), Key(ops[i].obj))
             == HandleAfterAdd(Run(ops[..j], Key, Truthy), Key(ops[j].obj))
    ensures StructurallyEqual(ops[i].obj, ops[j].obj)
  {
    HandlesAreNotReused(ops, i, j, Key, Truthy);
    CanonicalKeyDecidesEquality(ops[i].obj, ops[j].obj);
  }
}
