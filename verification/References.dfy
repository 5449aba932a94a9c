/** Variable and scope references: three numbers packed into one JavaScript number with
    32-bit operators. */
module References {
  import opened Arithmetic

  // ----- 32-bit operators: sections 7.1.6 and 7.1.7 of ECMA-262 -----

  const TWO_32 := 0x1_0000_0000

  function Power2(k: nat): (p: nat)
    ensures p >= 1
  {
    if k == 0 then 1 else 2 * Power2(k - 1)
  }

  function ToUint32(x: int): nat {
    x % TWO_32
  }

  function ToInt32(x: int): int {
    var u := x % TWO_32;
    if u >= 0x8000_0000 then u - TWO_32 else u
  }

  /** Bit by bit, lowest first. */
  function AndBits(a: nat, b: nat): nat {
    if a == 0 || b == 0 then 0
    else (if a % 2 == 1 && b % 2 == 1 then 1 else 0) + 2 * AndBits(a / 2, b / 2)
  }

  function OrBits(a: nat, b: nat): nat {
    if a == 0 then b else if b == 0 then a
    else (if a % 2 == 1 || b % 2 == 1 then 1 else 0) + 2 * OrBits(a / 2, b / 2)
  }

  function And(a: int, b: int): int {
    ToInt32(AndBits(ToUint32(a), ToUint32(b)))
  }

  function Or(a: int, b: int): int {
    ToInt32(OrBits(ToUint32(a), ToUint32(b)))
  }

  /** `a << n` */
  function ShiftLeft(a: int, n: nat): int {
    ToInt32(ToUint32(a) * Power2(n))
  }

  /** `a >>> n` */
  function ShiftRight(a: int, n: nat): int {
    ToUint32(a) / Power2(n)
  }

  // ----- What the operators do on fields -----

  lemma AndStep(x: nat, p: nat)
    requires p >= 1
    ensures AndBits(x, 2 * p - 1) == x % 2 + 2 * AndBits(x / 2, p - 1)
  {}

  /** A mask of `k` ones keeps the lowest `k` bits. */
  lemma {:induction false} AndMask(x: nat, k: nat)
    ensures AndBits(x, Power2(k) - 1) == x % Power2(k)
    decreases k
  {
    if k == 0 {
      assert Power2(0) == 1 && x % 1 == 0;
    } else {
      AndMask(x / 2, k - 1);
      MaskStep(x, Power2(k - 1));
    }
  }

  lemma MaskStep(x: nat, p: nat)
    requires p >= 1 && AndBits(x / 2, p - 1) == x / 2 % p
    ensures AndBits(x, 2 * p - 1) == x % (2 * p)
  {
    hide AndBits;
    AndStep(x, p);
    DoubleMod(x, p);
  }

  lemma DoubleMod(x: nat, p: nat)
    requires p >= 1
    ensures x % (2 * p) == x % 2 + 2 * (x / 2 % p)
  {
    var q, r := x / 2 / p, x / 2 % p;
    assert x / 2 == q * p + r;
    assert x == q * (2 * p) + (x % 2 + 2 * r);
    ModIs(x, q, 2 * p, x % 2 + 2 * r);
  }

  /** Fields that do not share bits are put side by side. */
  lemma {:induction false} OrSideBySide(high: nat, low: nat, k: nat)
    requires low < Power2(k)
    ensures OrBits(high * Power2(k), low) == high * Power2(k) + low
  {
    if k > 0 && high > 0 && low > 0 {
      var p := Power2(k - 1);
      assert high * (2 * p) == 2 * (high * p);
      assert high * p > 0;
      OrSideBySide(high, low / 2, k - 1);
    }
  }

  // ----- encodeReference and decodeReference -----

  const VARIABLE_TYPE_MASK := 8
  const ACTUAL_SCOPE_MASK := 7
  const FRAME_ID_MASK := 0xff_ffff
  const THREAD_ID_MASK := 0x1ff_ffff
  const SCOPE_MASK := 15

  datatype Reference = Reference(threadId: int, frameId: int, scope: int)

  function EncodeReference(r: Reference): int {
    Or(Or(ShiftLeft(And(r.threadId, THREAD_ID_MASK), 28), ShiftLeft(And(r.frameId, FRAME_ID_MASK), 4)),
       And(r.scope, SCOPE_MASK))
  }

  function DecodeReference(ref: int): Reference {
    Reference(ShiftRight(ref, 28), And(ShiftRight(ref, 4), FRAME_ID_MASK), And(ref, SCOPE_MASK))
  }

  function EncodeVarReference(r: Reference): int {
    EncodeReference(r.(scope := Or(r.scope, VARIABLE_TYPE_MASK)))
  }

  function EncodeScopeReference(r: Reference): int {
    EncodeReference(r.(scope := And(r.scope, ACTUAL_SCOPE_MASK)))
  }

  lemma Powers()
    ensures Power2(3) == 8 && Power2(4) == 16 && Power2(20) == 0x10_0000
    ensures Power2(24) == 0x100_0000 && Power2(25) == 0x200_0000 && Power2(28) == 0x1000_0000
  {
    assert Power2(4) == 16;
    assert Power2(8) == 256;
    assert Power2(12) == 4096;
    assert Power2(16) == 65536;
    assert Power2(20) == 0x10_0000;
    assert Power2(24) == 0x100_0000;
  }

  lemma ModOfMod(x: int, p: nat, n: nat)
    requires p >= 1 && n >= 1 && p * n == TWO_32
    ensures x % TWO_32 % p == x % p
  {
    var a, b := x / TWO_32, x % TWO_32;
    var c, d := b / p, b % p;
    assert b == c * p + d;
    assert x == a * (p * n) + (c * p + d) == (a * n + c) * p + d;
    ModIs(x, a * n + c, p, d);
  }

  /** Masking with `k` ones is the remainder, also for negative numbers. */
  lemma MaskIsMod(x: int, k: nat, p: nat, n: nat)
    requires p == Power2(k) && p * n == TWO_32 && n >= 1 && p <= 0x200_0000
    ensures And(x, p - 1) == x % p
  {
    hide AndBits, Power2;
    var u := ToUint32(x);
    ModOfMod(x, p, n);
    AndMask(u, k);
    assert ToUint32(p - 1) == p - 1;
    hide ToUint32;
    assert u % p < p;
  }

  lemma SignedAndUnsigned(x: int)
    ensures ToUint32(ToInt32(x)) == x % TWO_32
    ensures 0 <= x < 0x8000_0000 ==> ToInt32(x) == x
  {}

  /** What a left shift pushes out at the top is lost. */
  lemma ShiftedOut(u: nat, c: nat, n: nat)
    requires c >= 1 && n >= 1 && c * n == TWO_32
    ensures u * c % TWO_32 == u % n * c
  {
    var q, r := u / n, u % n;
    assert u == q * n + r;
    assert u * c == (q * n + r) * c == q * (c * n) + r * c;
    assert r <= n - 1;
    assert r * c <= (n - 1) * c == TWO_32 - c;
    ModIs(u * c, q, TWO_32, r * c);
  }

  lemma ShiftLeftField(h: nat, k: nat, c: nat, n: nat)
    requires c == Power2(k) && n >= 1 && c * n == TWO_32
    ensures ToUint32(ShiftLeft(h, k)) == h % n * c
  {
    hide Power2;
    var u := ToUint32(h);
    ShiftedOut(u, c, n);
    ModOfMod(h, n, c);
    SignedAndUnsigned(u * c);
    hide ToInt32;
  }

  lemma FrameField(f: nat)
    requires f < 0x100_0000
    ensures ShiftLeft(f, 4) == f * 16
  {}

  lemma FieldsFit(high: nat, p: nat, b: nat, n: nat)
    requires high * p < TWO_32 && b < p && p * n == TWO_32
    ensures high * p + b < TWO_32
  {
    assert (n - high) * p > 0;
    assert n - high >= 1;
    assert (n - high) * p >= p;
  }

  /** `Or` of an operand whose low `k` bits are clear with one that has only those. */
  lemma OrOfFields(a: int, b: int, high: nat, k: nat, p: nat, n: nat)
    requires p == Power2(k) && p * n == TWO_32 && p <= 0x8000_0000
    requires ToUint32(a) == high * p && 0 <= b < p
    ensures ToUint32(Or(a, b)) == ToUint32(a) + b
  {
    hide Power2, OrBits, ToInt32;
    assert ToUint32(b) == b;
    OrSideBySide(high, b, k);
    var sum := ToUint32(a) + b;
    assert OrBits(ToUint32(a), ToUint32(b)) == sum;
    FieldsFit(high, p, b, n);
    SignedAndUnsigned(sum);
  }

  lemma PackFields(t: nat, f: nat, s: nat)
    requires f < 0x100_0000 && s < 16
    ensures ToUint32(Or(Or(ShiftLeft(t, 28), ShiftLeft(f, 4)), s)) == t % 16 * 0x1000_0000 + f * 16 + s
  {
    hide Or, ShiftLeft, Power2;
    Powers();
    ShiftLeftField(t, 28, 0x1000_0000, 16);
    FrameField(f);
    OrOfFields(ShiftLeft(t, 28), f * 16, t % 16, 28, 0x1000_0000, 16);
    OrOfFields(Or(ShiftLeft(t, 28), f * 16), s, t % 16 * 0x100_0000 + f, 4, 16, 0x1000_0000);
  }

  /** The packed number, read as unsigned, has the three fields side by side; only four of
      the 25 bits of the thread id have room. */
  lemma EncodedFields(r: Reference)
    ensures ToUint32(EncodeReference(r)) == r.threadId % 16 * 0x1000_0000 + r.frameId % 0x100_0000 * 16 + r.scope % 16
  {
    hide And, Or, ShiftLeft, Power2, ToUint32;
    Powers();
    MaskIsMod(r.threadId, 25, 0x200_0000, 128);
    MaskIsMod(r.frameId, 24, 0x100_0000, 256);
    MaskIsMod(r.scope, 4, 16, 0x1000_0000);
    LowBitsOfThread(r.threadId);
    var t, f, s := And(r.threadId, THREAD_ID_MASK), And(r.frameId, FRAME_ID_MASK), And(r.scope, SCOPE_MASK);
    assert f < 0x100_0000 && s < 16 && t >= 0;
    PackFields(t, f, s);
  }

  lemma LowBitsOfThread(x: int)
    ensures x % 0x200_0000 % 16 == x % 16
  {}

  /** Decoding what was encoded, for all numbers. */
  lemma DecodeOfEncode(r: Reference)
    ensures DecodeReference(EncodeReference(r)) == Reference(r.threadId % 16, r.frameId % 0x100_0000, r.scope % 16)
  {
    hide EncodeReference, Power2, And;
    EncodedFields(r);
    Powers();
    var ref := EncodeReference(r);
    MaskIsMod(ShiftRight(ref, 4), 24, 0x100_0000, 256);
    MaskIsMod(ref, 4, 16, 0x1000_0000);
    ModOfMod(ref, 16, 0x1000_0000);
  }

  /** A reference survives the round trip exactly when its thread id is below 16, its frame
      id below 2^24 and its scope below 16. */
  lemma ReferenceRoundTripExactlyWhen(r: Reference)
    ensures DecodeReference(EncodeReference(r)) == r
            <==> 0 <= r.threadId < 16 && 0 <= r.frameId < 0x100_0000 && 0 <= r.scope < 16
  {
    hide DecodeReference, EncodeReference;
    DecodeOfEncode(r);
  }

  /** Thread 17 comes back as thread 1. */
  lemma ThreadSeventeenIsOne(frameId: int, scope: int)
    ensures DecodeReference(EncodeReference(Reference(17, frameId, scope))).threadId == 1
  {
    hide DecodeReference, EncodeReference;
    DecodeOfEncode(Reference(17, frameId, scope));
  }

  /** A variable reference gives back thread, frame and the variable's class, with the bit that
      marks variables; a scope reference the same without that bit. */
  lemma DecodeOfVarAndScope(r: Reference)
    ensures DecodeReference(EncodeVarReference(r))
            == Reference(r.threadId % 16, r.frameId % 0x100_0000, 8 + r.scope % 8)
    ensures DecodeReference(EncodeScopeReference(r))
            == Reference(r.threadId % 16, r.frameId % 0x100_0000, r.scope % 8)
  {
    hide DecodeReference, EncodeReference, Or, And;
    DecodeOfEncode(r.(scope := Or(r.scope, VARIABLE_TYPE_MASK)));
    DecodeOfEncode(r.(scope := And(r.scope, ACTUAL_SCOPE_MASK)));
    Powers();
    MaskIsMod(r.scope, 3, 8, 0x2000_0000);
    OrSetsBit3(r.scope);
  }

  /** Bit 3 of a decoded scope tells variable references from scope references. */
  lemma VarAndScopeReferencesDiffer(r: Reference, q: Reference)
    ensures DecodeReference(EncodeVarReference(r)).scope >= 8
    ensures DecodeReference(EncodeScopeReference(q)).scope < 8
    ensures EncodeVarReference(r) != EncodeScopeReference(q)
  {
    hide DecodeReference, EncodeVarReference, EncodeScopeReference;
    DecodeOfVarAndScope(r);
    DecodeOfVarAndScope(q);
  }

  lemma OrStep(u: nat, q: nat)
    ensures OrBits(u, 2 * q) == u % 2 + 2 * OrBits(u / 2, q)
  {
    var b := 2 * q;
    assert b / 2 == q && b % 2 == 0;
  }

  lemma OrOne(u: nat)
    ensures OrBits(u, 1) % 2 == 1
  {}

  lemma OrEight(u: nat)
    ensures OrBits(u, 8) % 16 == 8 + u % 8
  {
    hide OrBits;
    var u2, u4, u8 := u / 2, u / 2 / 2, u / 2 / 2 / 2;
    OrStep(u, 4);
    OrStep(u2, 2);
    OrStep(u4, 1);
    OrOne(u8);
  }

  lemma OrSetsBit3(x: int)
    ensures Or(x, VARIABLE_TYPE_MASK) % 16 == 8 + x % 8
  {
    hide OrBits, ToInt32;
    OrEight(ToUint32(x));
    ModOfMod(x, 8, 0x2000_0000);
    LowBitsOfInt32(OrBits(ToUint32(x), 8));
  }

  lemma LowBitsOfInt32(y: int)
    ensures ToInt32(y) % 16 == y % 16
  {}

  // ----- Container handles and console references -----

  const SCOPE_BITS := 4

  /** `createVariable`: the handle of the registry, shifted left to make room for the scope. */
  function EncodeHandle(handle: int, scope: int): int {
    Or(ShiftLeft(handle, SCOPE_BITS), And(scope, SCOPE_MASK))
  }

  /** `getVariableByRef` and `releaseVariable` */
  function DecodeHandle(ref: int): int {
    ShiftRight(ref, SCOPE_BITS)
  }

  lemma PackHandle(h: nat, s: nat)
    requires s < 16
    ensures ToUint32(Or(ShiftLeft(h, 4), s)) == h % 0x1000_0000 * 16 + s
  {
    hide Or, ShiftLeft, Power2;
    Powers();
    ShiftLeftField(h, 4, 16, 0x1000_0000);
    OrOfFields(ShiftLeft(h, 4), s, h % 0x1000_0000, 4, 16, 0x1000_0000);
  }

  lemma UnpackHandle(ref: int, h: nat, s: nat)
    requires ToUint32(ref) == h * 16 + s && s < 16
    ensures ShiftRight(ref, 4) == h
  {}

  /** A container finds a variable again exactly when its handle is below 2^28. */
  lemma HandleRoundTripExactlyWhen(handle: nat, scope: int)
    ensures DecodeHandle(EncodeHandle(handle, scope)) == handle <==> handle < 0x1000_0000
  {
    hide Or, And, ShiftLeft, ShiftRight, Power2;
    Powers();
    MaskIsMod(scope, 4, 16, 0x1000_0000);
    PackHandle(handle, And(scope, SCOPE_MASK));
    UnpackHandle(EncodeHandle(handle, scope), handle % 0x1000_0000, And(scope, SCOPE_MASK));
  }

  /** The low four bits of a variable's handle are its scope, also the bit that marks variables. */
  lemma ScopeOfHandle(handle: nat, scope: int)
    ensures And(EncodeHandle(handle, scope), SCOPE_MASK) == scope % 16
  {
    hide Or, And, ShiftLeft, Power2;
    Powers();
    MaskIsMod(scope, 4, 16, 0x1000_0000);
    PackHandle(handle, And(scope, SCOPE_MASK));
    var ref := EncodeHandle(handle, scope);
    MaskIsMod(ref, 4, 16, 0x1000_0000);
    ModOfMod(ref, 16, 0x1000_0000);
  }

  const SPLIT_MASK := 0xf_ffff
  const CONSOLE_MSG := 6

  /** `encodeRef` of the console message container. */
  function EncodeRef(ix: int): int {
    var lower := And(ix, SPLIT_MASK);
    var upper := And(ShiftRight(ix, 20), SPLIT_MASK);
    Or(ShiftLeft(Or(ShiftLeft(upper, 20), lower), SCOPE_BITS), CONSOLE_MSG)
  }

  function DecodeRef(ref: int): int {
    var ix := ShiftRight(ref, SCOPE_BITS);
    var lower := And(ix, SPLIT_MASK);
    var upper := And(ShiftRight(ix, 20), SPLIT_MASK);
    Or(ShiftLeft(upper, 20), lower)
  }

  lemma UpperPart(ix: nat)
    ensures And(ShiftRight(ix, 20), SPLIT_MASK) == ix % TWO_32 / 0x10_0000
  {
    hide Power2, And;
    Powers();
    var upper := ix % TWO_32 / 0x10_0000;
    MaskIsMod(upper, 20, 0x10_0000, 0x1000);
    assert upper < 0x1000;
  }

  /** Splitting an index in two and putting it together again leaves its 32 bits. */
  lemma Reassembled(ix: nat)
    ensures ToUint32(Or(ShiftLeft(And(ShiftRight(ix, 20), SPLIT_MASK), 20), And(ix, SPLIT_MASK))) == ix % TWO_32
  {
    hide Power2, And, Or, ShiftLeft, ShiftRight;
    Powers();
    UpperPart(ix);
    MaskIsMod(ix, 20, 0x10_0000, 0x1000);
    var upper, lower := ix % TWO_32 / 0x10_0000, ix % 0x10_0000;
    ShiftLeftField(upper, 20, 0x10_0000, 0x1000);
    OrOfFields(ShiftLeft(upper, 20), lower, upper, 20, 0x10_0000, 0x1000);
    ModOfMod(ix, 0x10_0000, 0x1000);
  }

  /** A console reference finds its message again exactly when the index is below 2^28. */
  lemma ConsoleRoundTripExactlyWhen(ix: nat)
    ensures DecodeRef(EncodeRef(ix)) == ix <==> ix < 0x1000_0000
  {
    hide Or, And, ShiftLeft, ShiftRight, Power2;
    var whole := Or(ShiftLeft(And(ShiftRight(ix, 20), SPLIT_MASK), 20), And(ix, SPLIT_MASK));
    Reassembled(ix);
    SameShift(whole, ix);
    PackHandle(ix, CONSOLE_MSG);
    UnpackHandle(EncodeRef(ix), ix % 0x1000_0000, CONSOLE_MSG);
    var back := ix % 0x1000_0000;
    Reassembled(back);
    OrIsInt32(ShiftLeft(And(ShiftRight(back, 20), SPLIT_MASK), 20), And(back, SPLIT_MASK));
  }

  /** A console reference carries the scope of console messages, by which it is told from the
      handles of variables of all other scopes. */
  lemma ConsoleReferencesAreMarked(ix: nat, handle: nat, scope: int)
    ensures And(EncodeRef(ix), SCOPE_MASK) == 6
    ensures scope % 16 != 6 ==> EncodeRef(ix) != EncodeHandle(handle, scope)
  {
    hide Or, And, ShiftLeft, ShiftRight, Power2, EncodeHandle;
    var whole := Or(ShiftLeft(And(ShiftRight(ix, 20), SPLIT_MASK), 20), And(ix, SPLIT_MASK));
    Reassembled(ix);
    SameShift(whole, ix);
    PackHandle(ix, CONSOLE_MSG);
    Powers();
    MaskIsMod(EncodeRef(ix), 4, 16, 0x1000_0000);
    ModOfMod(EncodeRef(ix), 16, 0x1000_0000);
    ScopeOfHandle(handle, scope);
  }

  lemma SameShift(a: int, b: int)
    requires ToUint32(a) == b % TWO_32
    ensures ShiftLeft(a, 4) == ShiftLeft(b, 4)
  {}

  lemma OrIsInt32(a: int, b: int)
    ensures -0x8000_0000 <= Or(a, b) < 0x8000_0000
  {}
}
