/** The canonical key of `ValueHandleRegistry`: `stableStringify` as a model, and the proof
    that comparing keys is comparing values, whatever order the properties come in. */
module CanonicalKey {
  import opened Text
  import opened JsonText

  const LBRACKET := 91
  const RBRACKET := 93
  const LBRACE := 123
  const RBRACE := 125
  const COLON := 58

  /** A property of an object, or any other value filed under a property name. */
  datatype Entry<T> = Entry(key: Str, val: T)

  /** JSON data. An object lists its own properties in insertion order. */
  datatype Json =
    | Null
    | Bool(b: bool)
    | Num(n: Number)
    | Text(s: Str)
    | Arr(items: seq<Json>)
    | Obj(props: seq<Entry<Json>>)

  ghost predicate DistinctKeys<T>(es: seq<Entry<T>>) {
    forall i, j :: 0 <= i < j < |es| ==> es[i].key != es[j].key
  }

  /** Strings are UTF-16, numbers are finite, and an object has each property once. */
  ghost predicate Valid(v: Json) {
    match v
    case Null => true
    case Bool(_) => true
    case Num(n) => ValidNumber(n)
    case Text(s) => IsString(s)
    case Arr(items) => forall i :: 0 <= i < |items| ==> Valid(items[i])
    case Obj(props) =>
      && DistinctKeys(props)
      && forall i :: 0 <= i < |props| ==> IsString(props[i].key) && Valid(props[i].val)
  }

  /** The intended meaning of "equal by value": property order does not matter. */
  ghost predicate StructurallyEqual(a: Json, b: Json) {
    match a
    case Arr(items) =>
      && b.Arr?
      && |items| == |b.items|
      && forall i :: 0 <= i < |items| ==> StructurallyEqual(items[i], b.items[i])
    case Obj(props) =>
      && b.Obj?
      && Keys(props) == Keys(b.props)
      && forall i, j :: 0 <= i < |props| && 0 <= j < |b.props| && props[i].key == b.props[j].key
           ==> StructurallyEqual(props[i].val, b.props[j].val)
    case _ => a == b
  }

  ghost function Keys<T>(es: seq<Entry<T>>): set<Str> {
    set i | 0 <= i < |es| :: es[i].key
  }

  // ----- stableStringify -----

  /** `parts.join(",")` */
  function Join(parts: seq<Str>): Str {
    if parts == [] then []
    else if |parts| == 1 then parts[0]
    else parts[0] + [COMMA] + Join(parts[1..])
  }

  /** The order of `Array.prototype.sort` on strings: by code unit, a prefix first. */
  predicate Less(a: Str, b: Str) {
    b != [] && (a == [] || a[0] < b[0] || (a[0] == b[0] && Less(a[1..], b[1..])))
  }

  function Insert<T>(e: Entry<T>, es: seq<Entry<T>>): seq<Entry<T>> {
    if es == [] || !Less(es[0].key, e.key) then [e] + es else [es[0]] + Insert(e, es[1..])
  }

  function SortByKey<T>(es: seq<Entry<T>>): seq<Entry<T>> {
    if es == [] then [] else Insert(es[0], SortByKey(es[1..]))
  }

  function BoolText(b: bool): Str {
    if b then [116, 114, 117, 101] else [102, 97, 108, 115, 101]
  }

  function Members(es: seq<Entry<Str>>): seq<Str> {
    if es == [] then [] else [Quote(es[0].key) + [COLON] + es[0].val] + Members(es[1..])
  }

  function StableStringify(v: Json): Str
    requires Valid(v)
  {
    match v
    case Null => [110, 117, 108, 108]
    case Bool(b) => BoolText(b)
    case Num(n) => NumText(n)
    case Text(s) => Quote(s)
    case Arr(items) => [LBRACKET] + Join(StringifyItems(items)) + [RBRACKET]
    case Obj(props) => [LBRACE] + Join(Members(SortByKey(StringifyProps(props)))) + [RBRACE]
  }

  function StringifyItems(items: seq<Json>): seq<Str>
    requires forall i :: 0 <= i < |items| ==> Valid(items[i])
  {
    if items == [] then [] else [StableStringify(items[0])] + StringifyItems(items[1..])
  }

  function StringifyProps(props: seq<Entry<Json>>): seq<Entry<Str>>
    requires forall i :: 0 <= i < |props| ==> Valid(props[i].val)
  {
    if props == [] then []
    else [Entry(props[0].key, StableStringify(props[0].val))] + StringifyProps(props[1..])
  }

  lemma TwoJoined(a: Str, b: Str)
    ensures Join([a, b]) == a + [COMMA] + b
  {
    assert [a, b][1..] == [b];
  }

  lemma TwoItems(a: Json, b: Json)
    requires Valid(a) && Valid(b)
    ensures StringifyItems([a, b]) == [StableStringify(a), StableStringify(b)]
  {
    hide StableStringify;
    assert [a, b][1..] == [b] && [b][1..] == [];
    assert StringifyItems([b]) == [StableStringify(b)];
  }

  lemma TwoProps(p: Entry<Json>, q: Entry<Json>)
    requires Valid(p.val) && Valid(q.val)
    ensures StringifyProps([p, q]) == [Entry(p.key, StableStringify(p.val)), Entry(q.key, StableStringify(q.val))]
  {
    hide StableStringify;
    assert [p, q][1..] == [q] && [q][1..] == [];
    assert StringifyProps([q]) == [Entry(q.key, StableStringify(q.val))];
  }

  lemma TwoSorted(e: Entry<Str>, f: Entry<Str>)
    requires Less(f.key, e.key) && !Less(e.key, f.key)
    ensures SortByKey([e, f]) == [f, e]
  {
    hide Less;
    assert [e, f][1..] == [f] && [f][1..] == [];
    assert SortByKey([f]) == [f];
    assert Insert(e, []) == [e];
  }

  lemma TwoMembers(e: Entry<Str>, f: Entry<Str>)
    ensures Members([e, f]) == [Quote(e.key) + [COLON] + e.val, Quote(f.key) + [COLON] + f.val]
  {
    hide Quote;
    assert [e, f][1..] == [f] && [f][1..] == [];
    assert Members([f]) == [Quote(f.key) + [COLON] + f.val];
  }

  /** Objects and arrays of two, with the properties of the object given in the wrong order. */
  lemma KeysOfTwo(p: Entry<Json>, q: Entry<Json>)
    requires IsString(p.key) && IsString(q.key) && p.key != q.key && Valid(p.val) && Valid(q.val)
    requires Less(q.key, p.key) && !Less(p.key, q.key)
    ensures Valid(Arr([p.val, q.val])) && Valid(Obj([p, q]))
    ensures StableStringify(Arr([p.val, q.val]))
            == [91] + (StableStringify(p.val) + [44] + StableStringify(q.val)) + [93]
    ensures var first, second := Quote(q.key) + [58] + StableStringify(q.val),
                                 Quote(p.key) + [58] + StableStringify(p.val);
      StableStringify(Obj([p, q])) == [123] + (first + [44] + second) + [125]
  {
    hide Quote, Less, SortByKey, Members, StringifyProps, StringifyItems, Join;
    var e, f := Entry(p.key, StableStringify(p.val)), Entry(q.key, StableStringify(q.val));
    TwoItems(p.val, q.val);
    TwoJoined(e.val, f.val);
    TwoProps(p, q);
    TwoSorted(e, f);
    TwoMembers(f, e);
    TwoJoined(Quote(f.key) + [COLON] + f.val, Quote(e.key) + [COLON] + e.val);
  }

  // ----- Normal forms: the properties of every object sorted, at every depth -----

  ghost function Normal(v: Json): Json {
    match v
    case Arr(items) => Arr(NormalItems(items))
    case Obj(props) => Obj(SortByKey(NormalProps(props)))
    case _ => v
  }

  ghost function NormalItems(items: seq<Json>): (r: seq<Json>)
    ensures |r| == |items|
    ensures forall i :: 0 <= i < |items| ==> r[i] == Normal(items[i])
  {
    if items == [] then [] else [Normal(items[0])] + NormalItems(items[1..])
  }

  ghost function NormalProps(props: seq<Entry<Json>>): (r: seq<Entry<Json>>)
    ensures |r| == |props|
    ensures forall i :: 0 <= i < |props| ==> r[i] == Entry(props[i].key, Normal(props[i].val))
  {
    if props == [] then [] else [Entry(props[0].key, Normal(props[0].val))] + NormalProps(props[1..])
  }

  // ----- Sorting -----

  lemma {:induction false} LessTotal(a: Str, b: Str)
    ensures Less(a, b) || a == b || Less(b, a)
    ensures !(Less(a, b) && Less(b, a))
    ensures !Less(a, a)
    decreases |a|
  {
    if a != [] {
      LessTotal(a[1..], a[1..]);
      if b != [] {
        LessTotal(a[1..], b[1..]);
        assert a == [a[0]] + a[1..] && b == [b[0]] + b[1..];
      }
    }
  }

  /** The order is decided by the first unit that differs; a prefix comes first. */
  lemma {:induction false} LessExactlyWhen(a: Str, b: Str)
    ensures Less(a, b) <==> exists k :: DiffersFirstAt(a, b, k)
  {
    if a != [] && b != [] && a[0] == b[0] {
      LessExactlyWhen(a[1..], b[1..]);
      if k :| DiffersFirstAt(a[1..], b[1..], k) {
        assert a[..k + 1] == [a[0]] + a[1..][..k] && b[..k + 1] == [b[0]] + b[1..][..k];
        assert DiffersFirstAt(a, b, k + 1);
      }
      if k :| DiffersFirstAt(a, b, k) {
        assert k > 0 && a[1..][..k - 1] == a[..k][1..] && b[1..][..k - 1] == b[..k][1..];
        assert DiffersFirstAt(a[1..], b[1..], k - 1);
      }
    } else {
      assert Less(a, b) ==> DiffersFirstAt(a, b, 0);
    }
  }

  ghost predicate DiffersFirstAt(a: Str, b: Str, k: int) {
    && 0 <= k <= |a| && k < |b| && a[..k] == b[..k]
    && (k < |a| ==> a[k] < b[k])
  }

  lemma {:induction false} LessTransitive(a: Str, b: Str, c: Str)
    requires Less(a, b) && Less(b, c)
    ensures Less(a, c)
  {
    if a != [] && a[0] == b[0] == c[0] {
      LessTransitive(a[1..], b[1..], c[1..]);
    }
  }

  ghost predicate Sorted<T>(es: seq<Entry<T>>) {
    forall i, j :: 0 <= i < j < |es| ==> Less(es[i].key, es[j].key)
  }

  ghost predicate SameElements<T(!new)>(xs: seq<T>, ys: seq<T>) {
    forall e :: e in xs <==> e in ys
  }

  lemma {:induction false} InsertSorts<T(!new)>(e: Entry<T>, es: seq<Entry<T>>)
    requires Sorted(es) && forall i :: 0 <= i < |es| ==> es[i].key != e.key
    ensures Sorted(Insert(e, es)) && SameElements(Insert(e, es), [e] + es)
  {
    if es == [] {
    } else if !Less(es[0].key, e.key) {
      LessTotal(es[0].key, e.key);
      forall i | 0 <= i < |es| ensures Less(e.key, es[i].key) {
        if i > 0 { LessTransitive(e.key, es[0].key, es[i].key); }
      }
    } else {
      InsertSorts(e, es[1..]);
      var r := Insert(e, es[1..]);
      forall i | 0 <= i < |r| ensures Less(es[0].key, r[i].key) {
        assert r[i] in [e] + es[1..];
      }
      assert es == [es[0]] + es[1..];
    }
  }

  lemma {:induction false} SortSorts<T(!new)>(es: seq<Entry<T>>)
    requires DistinctKeys(es)
    ensures Sorted(SortByKey(es)) && SameElements(SortByKey(es), es)
  {
    if es != [] {
      SortSorts(es[1..]);
      var r := SortByKey(es[1..]);
      forall i | 0 <= i < |r| ensures r[i].key != es[0].key {
        assert r[i] in es[1..];
      }
      InsertSorts(es[0], r);
      assert es == [es[0]] + es[1..];
    }
  }

  /** A strictly sorted list is determined by its elements. */
  lemma {:induction false} SortedUnique<T(!new)>(xs: seq<Entry<T>>, ys: seq<Entry<T>>)
    requires Sorted(xs) && Sorted(ys) && SameElements(xs, ys)
    ensures xs == ys
  {
    if xs == [] {
      assert forall i :: 0 <= i < |ys| ==> ys[i] in xs;
    } else {
      assert xs[0] in xs;
      assert ys != [] && ys[0] in ys;
      var i :| 0 <= i < |ys| && ys[i] == xs[0];
      var j :| 0 <= j < |xs| && xs[j] == ys[0];
      LessTotal(xs[0].key, ys[0].key);
      assert xs[0] == ys[0];
      TailElements(xs, ys);
      SortedUnique(xs[1..], ys[1..]);
      assert xs == [xs[0]] + xs[1..] && ys == [ys[0]] + ys[1..];
    }
  }

  lemma TailElements<T(!new)>(xs: seq<Entry<T>>, ys: seq<Entry<T>>)
    requires xs != [] && ys != [] && xs[0] == ys[0]
    requires Sorted(xs) && Sorted(ys) && SameElements(xs, ys)
    ensures SameElements(xs[1..], ys[1..])
  {
    LessTotal(xs[0].key, xs[0].key);
    forall e ensures e in xs[1..] <==> e in xs && e != xs[0] {
      assert xs == [xs[0]] + xs[1..];
    }
    forall e ensures e in ys[1..] <==> e in ys && e != ys[0] {
      assert ys == [ys[0]] + ys[1..];
    }
  }

  lemma MemberAt<T>(es: seq<Entry<T>>, e: Entry<T>) returns (i: nat)
    requires e in es
    ensures i < |es| && es[i] == e
  {
    i :| 0 <= i < |es| && es[i] == e;
  }

  // ----- Structural equality is equality of normal forms -----

  ghost predicate AgreeByName(ps: seq<Entry<Json>>, qs: seq<Entry<Json>>) {
    Keys(ps) == Keys(qs) &&
    forall i, j :: 0 <= i < |ps| && 0 <= j < |qs| && ps[i].key == qs[j].key
      ==> Normal(ps[i].val) == Normal(qs[j].val)
  }

  /** Objects that agree by name have the same normalised properties, up to order. */
  lemma AgreeingElements(ps: seq<Entry<Json>>, qs: seq<Entry<Json>>, e: Entry<Json>)
    requires AgreeByName(ps, qs) && e in NormalProps(ps)
    ensures e in NormalProps(qs)
  {
    var i := MemberAt(NormalProps(ps), e);
    assert ps[i].key in Keys(qs);
    var j :| 0 <= j < |qs| && qs[j].key == ps[i].key;
    assert NormalProps(qs)[j] == e;
  }

  lemma NormalPropsElements(ps: seq<Entry<Json>>, qs: seq<Entry<Json>>)
    requires DistinctKeys(ps) && DistinctKeys(qs)
    ensures SameElements(NormalProps(ps), NormalProps(qs)) <==> AgreeByName(ps, qs)
  {
    var np, nq := NormalProps(ps), NormalProps(qs);
    if SameElements(np, nq) {
      SameElementsKeys(ps, qs);
      SameElementsKeys(qs, ps);
      forall i, j | 0 <= i < |ps| && 0 <= j < |qs| && ps[i].key == qs[j].key
        ensures Normal(ps[i].val) == Normal(qs[j].val)
      {
        assert np[i] in nq;
        var k := MemberAt(nq, np[i]);
        assert qs[k].key == qs[j].key;
      }
    }
    if AgreeByName(ps, qs) {
      forall e ensures e in np <==> e in nq {
        if e in np { AgreeingElements(ps, qs, e); }
        if e in nq { AgreeingElements(qs, ps, e); }
      }
    }
  }

  lemma SameElementsKeys(ps: seq<Entry<Json>>, qs: seq<Entry<Json>>)
    requires SameElements(NormalProps(ps), NormalProps(qs))
    ensures Keys(ps) <= Keys(qs)
  {
    forall k | k in Keys(ps) ensures k in Keys(qs) {
      var i :| 0 <= i < |ps| && ps[i].key == k;
      assert NormalProps(ps)[i] in NormalProps(qs);
      var j := MemberAt(NormalProps(qs), NormalProps(ps)[i]);
      assert qs[j].key == k;
    }
  }

  lemma NormalPropsSorted(ps: seq<Entry<Json>>, qs: seq<Entry<Json>>)
    requires DistinctKeys(ps) && DistinctKeys(qs)
    ensures SortByKey(NormalProps(ps)) == SortByKey(NormalProps(qs))
            <==> SameElements(NormalProps(ps), NormalProps(qs))
  {
    var np, nq := NormalProps(ps), NormalProps(qs);
    SortSorts(np);
    SortSorts(nq);
    if SameElements(np, nq) {
      SortedUnique(SortByKey(np), SortByKey(nq));
    }
  }

  lemma {:induction false} NormalDecidesEquality(a: Json, b: Json)
    requires Valid(a) && Valid(b)
    ensures StructurallyEqual(a, b) <==> Normal(a) == Normal(b)
  {
    match a
    case Arr(items) =>
      if b.Arr? && |items| == |b.items| {
        forall i | 0 <= i < |items|
          ensures StructurallyEqual(items[i], b.items[i]) <==> Normal(items[i]) == Normal(b.items[i])
        {
          NormalDecidesEquality(items[i], b.items[i]);
        }
        var na, nb := NormalItems(items), NormalItems(b.items);
        assert na == nb <==> forall i :: 0 <= i < |items| ==> na[i] == nb[i];
      }
    case Obj(props) =>
      if b.Obj? {
        forall i, j | 0 <= i < |props| && 0 <= j < |b.props|
          ensures StructurallyEqual(props[i].val, b.props[j].val)
                  <==> Normal(props[i].val) == Normal(b.props[j].val)
        {
          NormalDecidesEquality(props[i].val, b.props[j].val);
        }
        NormalPropsElements(props, b.props);
        NormalPropsSorted(props, b.props);
      }
    case _ =>
  }

  // ----- The printer sorts, then prints -----

  /** Prints a value with the properties in the order they stand. */
  ghost function Print(v: Json): Str
    requires Valid(v)
  {
    match v
    case Arr(items) => [LBRACKET] + Join(PrintItems(items)) + [RBRACKET]
    case Obj(props) => [LBRACE] + Join(Members(PrintProps(props))) + [RBRACE]
    case _ => StableStringify(v)
  }

  ghost predicate ValidItems(items: seq<Json>) {
    forall i :: 0 <= i < |items| ==> Valid(items[i])
  }

  ghost predicate ValidProps(props: seq<Entry<Json>>) {
    forall i :: 0 <= i < |props| ==> IsString(props[i].key) && Valid(props[i].val)
  }

  ghost function PrintItems(items: seq<Json>): (r: seq<Str>)
    requires ValidItems(items)
    ensures |r| == |items|
  {
    if items == [] then [] else [Print(items[0])] + PrintItems(items[1..])
  }

  ghost function PrintProps(props: seq<Entry<Json>>): (r: seq<Entry<Str>>)
    requires ValidProps(props)
    ensures |r| == |props|
  {
    if props == [] then [] else [Entry(props[0].key, Print(props[0].val))] + PrintProps(props[1..])
  }

  lemma {:induction false} NormalValid(v: Json)
    requires Valid(v)
    ensures Valid(Normal(v))
  {
    match v
    case Arr(items) =>
      forall i | 0 <= i < |items| ensures Valid(Normal(items[i])) { NormalValid(items[i]); }
    case Obj(props) =>
      var np := NormalProps(props);
      forall i | 0 <= i < |props| ensures Valid(np[i].val) { NormalValid(props[i].val); }
      SortValid(np);
    case _ =>
  }

  lemma SortValid(es: seq<Entry<Json>>)
    requires DistinctKeys(es) && ValidProps(es)
    ensures DistinctKeys(SortByKey(es)) && ValidProps(SortByKey(es))
  {
    SortSorts(es);
    var r := SortByKey(es);
    forall i | 0 <= i < |r| ensures IsString(r[i].key) && Valid(r[i].val) {
      assert r[i] in es;
      var j := MemberAt(es, r[i]);
    }
    forall i, j | 0 <= i < j < |r| ensures r[i].key != r[j].key {
      LessTotal(r[i].key, r[i].key);
      assert Less(r[i].key, r[j].key);
    }
  }

  lemma {:induction false} InsertPrints(e: Entry<Json>, es: seq<Entry<Json>>)
    requires IsString(e.key) && Valid(e.val) && ValidProps(es)
    ensures ValidProps(Insert(e, es))
    ensures PrintProps(Insert(e, es)) == Insert(Entry(e.key, Print(e.val)), PrintProps(es))
  {
    if es != [] && Less(es[0].key, e.key) {
      InsertPrints(e, es[1..]);
      assert PrintProps(es)[1..] == PrintProps(es[1..]);
      assert Insert(e, es)[1..] == Insert(e, es[1..]);
    } else {
      assert ([e] + es)[1..] == es;
    }
  }

  lemma {:induction false} SortPrints(es: seq<Entry<Json>>)
    requires ValidProps(es)
    ensures ValidProps(SortByKey(es))
    ensures PrintProps(SortByKey(es)) == SortByKey(PrintProps(es))
  {
    if es != [] {
      SortPrints(es[1..]);
      InsertPrints(es[0], SortByKey(es[1..]));
      assert PrintProps(es)[1..] == PrintProps(es[1..]);
    }
  }

  /** `stableStringify` prints the normal form. */
  lemma {:induction false} StringifyPrintsNormal(v: Json)
    requires Valid(v)
    ensures Valid(Normal(v)) && StableStringify(v) == Print(Normal(v))
    decreases v
  {
    NormalValid(v);
    match v
    case Arr(items) =>
      StringifyPrintsItems(items);
    case Obj(props) =>
      StringifyPrintsProps(props);
      SortPrints(NormalProps(props));
    case _ =>
  }

  lemma {:induction false} StringifyPrintsItems(items: seq<Json>)
    requires ValidItems(items)
    ensures ValidItems(NormalItems(items))
    ensures StringifyItems(items) == PrintItems(NormalItems(items))
    decreases items
  {
    if items != [] {
      StringifyPrintsNormal(items[0]);
      StringifyPrintsItems(items[1..]);
      assert NormalItems(items)[1..] == NormalItems(items[1..]);
    }
  }

  lemma {:induction false} StringifyPrintsProps(props: seq<Entry<Json>>)
    requires ValidProps(props)
    ensures ValidProps(NormalProps(props))
    ensures StringifyProps(props) == PrintProps(NormalProps(props))
    decreases props
  {
    if props != [] {
      StringifyPrintsNormal(props[0].val);
      StringifyPrintsProps(props[1..]);
      assert NormalProps(props)[1..] == NormalProps(props[1..]);
    }
  }

  // ----- The printed grammar is unambiguous -----

  /** What may follow a value in a canonical text. */
  predicate Follows(x: Str) {
    x == [] || x[0] == COMMA || x[0] == RBRACKET || x[0] == RBRACE
  }

  /** The first unit of a printed value tells which kind of value it is. */
  predicate StartsLike(v: Json, u: int) {
    match v
    case Null => u == 110
    case Bool(b) => u == if b then 116 else 102
    case Num(_) => IsDigit(u) || u == 45
    case Text(_) => u == QUOTE
    case Arr(_) => u == LBRACKET
    case Obj(_) => u == LBRACE
  }

  lemma PrintStart(v: Json)
    requires Valid(v)
    ensures |Print(v)| > 0 && StartsLike(v, Print(v)[0])
  {}

  lemma SameKind(a: Json, b: Json, x: Str, y: Str)
    requires Valid(a) && Valid(b) && Print(a) + x == Print(b) + y
    ensures a.Null? == b.Null? && a.Bool? == b.Bool? && a.Num? == b.Num?
    ensures a.Text? == b.Text? && a.Arr? == b.Arr? && a.Obj? == b.Obj?
    ensures a.Bool? ==> a == b
  {
    PrintStart(a);
    PrintStart(b);
    assert (Print(a) + x)[0] == Print(a)[0] && (Print(b) + y)[0] == Print(b)[0];
  }

  lemma Unwrap(open: int, s: Str, close: int, x: Str)
    ensures [open] + s + [close] + x == [open] + (s + [close] + x)
  {}

  /** Two printed values that start two equal texts are the same value. */
  lemma {:induction false} PrintSelfDelimiting(a: Json, b: Json, x: Str, y: Str)
    requires Valid(a) && Valid(b) && Follows(x) && Follows(y)
    requires Print(a) + x == Print(b) + y
    ensures a == b && x == y
    decreases a
  {
    SameKind(a, b, x, y);
    match a
    case Num(n) => NumTextSelfDelimiting(n, b.n, x, y);
    case Text(s) => QuoteSelfDelimiting(s, b.s, x, y);
    case Arr(items) =>
      Unwrap(LBRACKET, Join(PrintItems(items)), RBRACKET, x);
      Unwrap(LBRACKET, Join(PrintItems(b.items)), RBRACKET, y);
      SplitAt([LBRACKET], Join(PrintItems(items)) + [RBRACKET] + x,
              [LBRACKET], Join(PrintItems(b.items)) + [RBRACKET] + y);
      ItemsSelfDelimiting(items, b.items, x, y);
    case Obj(props) =>
      Unwrap(LBRACE, Join(Members(PrintProps(props))), RBRACE, x);
      Unwrap(LBRACE, Join(Members(PrintProps(b.props))), RBRACE, y);
      SplitAt([LBRACE], Join(Members(PrintProps(props))) + [RBRACE] + x,
              [LBRACE], Join(Members(PrintProps(b.props))) + [RBRACE] + y);
      PropsSelfDelimiting(props, b.props, x, y);
    case _ =>
      SplitAt(Print(a), x, Print(b), y);
  }

  /** What follows the first of `count` comma-separated parts, the others making up `others`. */
  function Remainder(count: nat, others: Str, close: int, x: Str): Str {
    if count <= 1 then [close] + x else [COMMA] + (others + [close] + x)
  }

  lemma JoinUnfold(parts: seq<Str>, close: int, x: Str)
    requires parts != []
    ensures Join(parts) + [close] + x == parts[0] + Remainder(|parts|, Join(parts[1..]), close, x)
  {
    var others := Join(parts[1..]);
    Assoc(Join(parts), [close], x);
    if |parts| > 1 {
      Assoc(parts[0] + [COMMA], others, [close] + x);
      Assoc(parts[0], [COMMA], others + ([close] + x));
      Assoc(others, [close], x);
    }
  }

  lemma ItemsUnfold(items: seq<Json>, x: Str)
    requires ValidItems(items) && items != []
    ensures Join(PrintItems(items)) + [RBRACKET] + x ==
      Print(items[0]) + Remainder(|items|, Join(PrintItems(items[1..])), RBRACKET, x)
    ensures (Join(PrintItems(items)) + [RBRACKET] + x)[0] == Print(items[0])[0]
  {
    assert PrintItems(items)[1..] == PrintItems(items[1..]);
    JoinUnfold(PrintItems(items), RBRACKET, x);
    PrintStart(items[0]);
  }

  lemma NoItems(x: Str)
    ensures Join(PrintItems([])) + [RBRACKET] + x == [RBRACKET] + x
  {}

  lemma {:induction false} ItemsSelfDelimiting(items: seq<Json>, jtems: seq<Json>, x: Str, y: Str)
    requires ValidItems(items) && ValidItems(jtems)
    requires Join(PrintItems(items)) + [RBRACKET] + x == Join(PrintItems(jtems)) + [RBRACKET] + y
    ensures items == jtems && x == y
    decreases items
  {
    NoItems(x);
    NoItems(y);
    if items != [] { PrintStart(items[0]); ItemsUnfold(items, x); }
    if jtems != [] { PrintStart(jtems[0]); ItemsUnfold(jtems, y); }
    var text := Join(PrintItems(items)) + [RBRACKET] + x;
    if items == [] || jtems == [] {
      assert items == [] && jtems == [];
      assert x == text[1..] == y;
    } else {
      var p := Remainder(|items|, Join(PrintItems(items[1..])), RBRACKET, x);
      var q := Remainder(|jtems|, Join(PrintItems(jtems[1..])), RBRACKET, y);
      PrintSelfDelimiting(items[0], jtems[0], p, q);
      assert p[0] == q[0] && p[1..] == q[1..];
      if |items| > 1 {
        ItemsSelfDelimiting(items[1..], jtems[1..], x, y);
      }
      assert items == [items[0]] + items[1..] && jtems == [jtems[0]] + jtems[1..];
    }
  }

  lemma MembersUnfold(es: seq<Entry<Str>>, x: Str)
    requires es != []
    ensures Join(Members(es)) + [RBRACE] + x ==
      Quote(es[0].key) + ([COLON] + (es[0].val + Remainder(|es|, Join(Members(es[1..])), RBRACE, x)))
  {
    MembersLength(es);
    assert Members(es)[1..] == Members(es[1..]);
    JoinUnfold(Members(es), RBRACE, x);
    Regroup(Quote(es[0].key), [COLON], es[0].val, Remainder(|es|, Join(Members(es[1..])), RBRACE, x));
  }

  lemma PrintPropsUnfold(props: seq<Entry<Json>>)
    requires ValidProps(props) && props != []
    ensures PrintProps(props)[0] == Entry(props[0].key, Print(props[0].val))
    ensures PrintProps(props)[1..] == PrintProps(props[1..])
  {}

  lemma PropsUnfold(props: seq<Entry<Json>>, x: Str)
    requires ValidProps(props) && props != []
    ensures Join(Members(PrintProps(props))) + [RBRACE] + x ==
      Quote(props[0].key) + ([COLON] +
        (Print(props[0].val) + Remainder(|props|, Join(Members(PrintProps(props[1..]))), RBRACE, x)))
  {
    PrintPropsUnfold(props);
    MembersUnfold(PrintProps(props), x);
  }

  lemma NoProps(x: Str)
    ensures Join(Members(PrintProps([]))) + [RBRACE] + x == [RBRACE] + x
  {}

  lemma QuoteStart(s: Str, x: Str)
    ensures (Quote(s) + x)[0] == QUOTE
  {}

  lemma Regroup(a: Str, b: Str, c: Str, d: Str)
    ensures (a + b + c) + d == a + (b + (c + d))
  {}

  lemma MembersLength(es: seq<Entry<Str>>)
    ensures |Members(es)| == |es|
  {}

  lemma {:induction false} PropsSelfDelimiting(ps: seq<Entry<Json>>, qs: seq<Entry<Json>>, x: Str, y: Str)
    requires ValidProps(ps) && ValidProps(qs)
    requires Join(Members(PrintProps(ps))) + [RBRACE] + x == Join(Members(PrintProps(qs))) + [RBRACE] + y
    ensures ps == qs && x == y
    decreases ps
  {
    NoProps(x);
    NoProps(y);
    if ps != [] { PropsUnfold(ps, x); }
    if qs != [] { PropsUnfold(qs, y); }
    var text := Join(Members(PrintProps(ps))) + [RBRACE] + x;
    if ps == [] || qs == [] {
      if ps != [] { QuoteStart(ps[0].key, text[|Quote(ps[0].key)|..]); }
      if qs != [] { QuoteStart(qs[0].key, text[|Quote(qs[0].key)|..]); }
      assert ps == [] && qs == [];
      assert x == text[1..] == y;
    } else {
      var p := Remainder(|ps|, Join(Members(PrintProps(ps[1..]))), RBRACE, x);
      var q := Remainder(|qs|, Join(Members(PrintProps(qs[1..]))), RBRACE, y);
      var v, w := Print(ps[0].val) + p, Print(qs[0].val) + q;
      QuoteSelfDelimiting(ps[0].key, qs[0].key, [COLON] + v, [COLON] + w);
      assert v == ([COLON] + v)[1..] == ([COLON] + w)[1..] == w;
      PrintSelfDelimiting(ps[0].val, qs[0].val, p, q);
      assert p[0] == q[0] && p[1..] == q[1..];
      if |ps| > 1 {
        PropsSelfDelimiting(ps[1..], qs[1..], x, y);
      }
      assert ps == [ps[0]] + ps[1..] && qs == [qs[0]] + qs[1..];
    }
  }

  /** Two JSON values have the same canonical key exactly when they are structurally equal. */
  lemma CanonicalKeyDecidesEquality(a: Json, b: Json)
    requires Valid(a) && Valid(b)
    ensures StableStringify(a) == StableStringify(b) <==> StructurallyEqual(a, b)
  {
    StringifyPrintsNormal(a);
    StringifyPrintsNormal(b);
    if StableStringify(a) == StableStringify(b) {
      assert Print(Normal(a)) + [] == Print(Normal(b)) + [];
      PrintSelfDelimiting(Normal(a), Normal(b), [], []);
    }
    NormalDecidesEquality(a, b);
  }
}
