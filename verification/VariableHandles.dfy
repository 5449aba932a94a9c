/** The handles of variables: their keys as `createVariable` makes them. */
module VariableHandles {
  import opened Handles
  import opened References
  import opened Text

  /** The constructor of `VariableKeys`. */
  function MakeKey(parent: int, name: Str, frameRef: int): VariableKey {
    VariableKey(parent, name, Or(frameRef, VARIABLE_TYPE_MASK))
  }

  /** What `createVariable` is asked for. */
  datatype Variable = Variable(scope: int, parent: int, name: Str, threadId: int, frameId: int)

  /** The key of the variable that `createVariable` files. */
  function KeyOf(v: Variable): VariableKey {
    MakeKey(v.parent, v.name, EncodeScopeReference(Reference(v.threadId, v.frameId, And(v.scope, ACTUAL_SCOPE_MASK))))
  }

  lemma OrEightAdds(u: nat)
    requires u % 16 < 8
    ensures OrBits(u, 8) == u + 8
  {
    hide OrBits;
    var u2, u4, u8 := u / 2, u / 2 / 2, u / 2 / 2 / 2;
    OrStep(u, 4);
    OrStep(u2, 2);
    OrStep(u4, 1);
    OrOneAdds(u8);
  }

  lemma OrOneAdds(u: nat)
    requires u % 2 == 0
    ensures OrBits(u, 1) == u + 1
  {
    assert u > 0 ==> OrBits(u / 2, 0) == u / 2;
  }

  /** A frame reference with its type bit, read as unsigned: the fields side by side. */
  lemma FrameRefFields(v: Variable)
    ensures ToUint32(KeyOf(v).frameRef) ==
      v.threadId % 16 * 0x1000_0000 + v.frameId % 0x100_0000 * 16 + v.scope % 8 + 8
  {
    hide EncodeReference, Power2, And, OrBits, ToInt32;
    Powers();
    MaskIsMod(v.scope, 3, 8, 0x2000_0000);
    var scope := And(v.scope, ACTUAL_SCOPE_MASK);
    MaskIsMod(scope, 3, 8, 0x2000_0000);
    var r := Reference(v.threadId, v.frameId, And(scope, ACTUAL_SCOPE_MASK));
    EncodedFields(r);
    var u := ToUint32(EncodeReference(r));
    OrEightAdds(u);
    SignedAndUnsigned(u + 8);
  }

  lemma SameUnsigned(a: int, b: int, c: int, d: int)
    ensures ToUint32(Or(a, b)) == ToUint32(Or(c, d)) <==> Or(a, b) == Or(c, d)
  {
    OrIsInt32(a, b);
    OrIsInt32(c, d);
    hide OrBits;
  }

  lemma SameFields(t: nat, f: nat, s: nat, t2: nat, f2: nat, s2: nat)
    requires t < 16 && f < 0x100_0000 && s < 8 && t2 < 16 && f2 < 0x100_0000 && s2 < 8
    ensures t * 0x1000_0000 + f * 16 + s + 8 == t2 * 0x1000_0000 + f2 * 16 + s2 + 8 <==> t == t2 && f == f2 && s == s2
  {}

  /** Which variables the packed frame reference tells apart. */
  predicate Indistinguishable(v: Variable, w: Variable) {
    && v.parent == w.parent && v.name == w.name
    && v.threadId % 16 == w.threadId % 16 && v.frameId % 0x100_0000 == w.frameId % 0x100_0000
    && v.scope % 8 == w.scope % 8
  }

  lemma SameKeyExactlyWhen(v: Variable, w: Variable)
    ensures KeyOf(v) == KeyOf(w) <==> Indistinguishable(v, w)
  {
    hide ToUint32, Or, And, EncodeScopeReference;
    FrameRefFields(v);
    FrameRefFields(w);
    SameUnsigned(FrameRefOf(v), VARIABLE_TYPE_MASK, FrameRefOf(w), VARIABLE_TYPE_MASK);
    SameFields(v.threadId % 16, v.frameId % 0x100_0000, v.scope % 8,
               w.threadId % 16, w.frameId % 0x100_0000, w.scope % 8);
  }

  function FrameRefOf(v: Variable): int {
    EncodeScopeReference(Reference(v.threadId, v.frameId, And(v.scope, ACTUAL_SCOPE_MASK)))
  }

  /** Over every run of a container, two created variables get the same handle, as long as the
      first one is not released, exactly when parent and name agree, thread ids agree modulo
      16, frame ids modulo 2^24 and scopes modulo 8. */
  lemma VariablesShareHandleExactlyWhen(ops: seq<Op<VariableKey>>, i: nat, j: nat, h: nat, v: Variable, w: Variable)
    requires i < j < |ops| && ops[i] == Add(KeyOf(v)) && ops[j] == Add(KeyOf(w))
    requires h == HandleAfterAdd(Run(ops[..i], ToValueKey, _ => true), ToValueKey(KeyOf(v)))
    requires forall m :: i <= m < j ==> !ops[m].Clear? && ops[m] != Release(h)
    ensures h == HandleAfterAdd(Run(ops[..j], ToValueKey, _ => true), ToValueKey(KeyOf(w))) <==> Indistinguishable(v, w)
  {
    hide KeyOf, Indistinguishable;
    SameHandleExactlyWhen(ops, i, j, h, ToValueKey, _ => true);
    ToValueKeyInjective(KeyOf(v), KeyOf(w));
    SameKeyExactlyWhen(v, w);
  }

  /** The same variable in threads 1 and 17, or the same static name in the files with ids 1
      and 17, which take the place of the thread. */
  lemma SeventeenIsOne(scope: int, parent: int, name: Str, frameId: int)
    ensures KeyOf(Variable(scope, parent, name, 1, frameId)) == KeyOf(Variable(scope, parent, name, 17, frameId))
  {
    hide KeyOf;
    SameKeyExactlyWhen(Variable(scope, parent, name, 1, frameId), Variable(scope, parent, name, 17, frameId));
  }
}
