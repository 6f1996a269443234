/** Python's ordering of sort keys and its stable `sorted(items, key=..., reverse=...)`.
    A key is a tuple of booleans, integers and strings, compared the way Python compares tuples. */
module Ordering {
  import opened Common

  datatype Atom = B(b: bool) | I(i: int) | S(s: string)

  /** A Python tuple used as a sort key. */
  type Key = seq<Atom>

  /** Python's `<` on strings: lexicographic by code point, a proper prefix comes first. */
  predicate StrLt(a: string, b: string)
    decreases |a|
  {
    if a == [] then b != []
    else if b == [] then false
    else if a[0] != b[0] then a[0] < b[0]
    else StrLt(a[1..], b[1..])
  }

  /** Atoms of different kinds never meet in one of the toolkit's sorts; they are ordered by kind
      only so that the order on keys is total. */
  function Rank(x: Atom): nat {
    match x
    case B(_) => 0
    case I(_) => 1
    case S(_) => 2
  }

  /** Python's `<` on one tuple component (`False < True` for booleans). */
  predicate AtomLt(x: Atom, y: Atom) {
    if Rank(x) != Rank(y) then Rank(x) < Rank(y)
    else match x
      case B(p) => !p && y.b
      case I(m) => m < y.i
      case S(a) => StrLt(a, y.s)
  }

  /** Python's `<` on tuples: the first differing component decides, a proper prefix comes first. */
  predicate KeyLt(a: Key, b: Key)
    decreases |a|
  {
    if a == [] then b != []
    else if b == [] then false
    else if a[0] != b[0] then AtomLt(a[0], b[0])
    else KeyLt(a[1..], b[1..])
  }

  lemma {:induction false} StrLtIrreflexive(a: string)
    ensures !StrLt(a, a)
    decreases |a|
  {
    if a != [] {
      StrLtIrreflexive(a[1..]);
    }
  }

  lemma {:induction false} StrLtTransitive(a: string, b: string, c: string)
    requires StrLt(a, b) && StrLt(b, c)
    ensures StrLt(a, c)
    decreases |a|
  {
    if a != [] && b != [] && c != [] && a[0] == b[0] && b[0] == c[0] {
      StrLtTransitive(a[1..], b[1..], c[1..]);
    }
  }

  lemma {:induction false} StrLtTotal(a: string, b: string)
    requires a != b
    ensures StrLt(a, b) || StrLt(b, a)
    decreases |a|
  {
    if a != [] && b != [] && a[0] == b[0] {
      assert a == [a[0]] + a[1..] && b == [b[0]] + b[1..];
      StrLtTotal(a[1..], b[1..]);
    }
  }

  lemma AtomLtIrreflexive(x: Atom)
    ensures !AtomLt(x, x)
  {
    if x.S? {
      StrLtIrreflexive(x.s);
    }
  }

  lemma AtomLtTransitive(x: Atom, y: Atom, z: Atom)
    requires AtomLt(x, y) && AtomLt(y, z)
    ensures AtomLt(x, z)
  {
    if x.S? && y.S? && z.S? {
      StrLtTransitive(x.s, y.s, z.s);
    }
  }

  lemma AtomLtTotal(x: Atom, y: Atom)
    requires x != y
    ensures AtomLt(x, y) || AtomLt(y, x)
  {
    if x.S? && y.S? {
      StrLtTotal(x.s, y.s);
    }
  }

  lemma {:induction false} KeyLtIrreflexive(a: Key)
    ensures !KeyLt(a, a)
    decreases |a|
  {
    if a != [] {
      KeyLtIrreflexive(a[1..]);
    }
  }

  lemma {:induction false} KeyLtTransitive(a: Key, b: Key, c: Key)
    requires KeyLt(a, b) && KeyLt(b, c)
    ensures KeyLt(a, c)
    decreases |a|
  {
    if a != [] && b != [] && c != [] {
      if a[0] == b[0] && b[0] == c[0] {
        KeyLtTransitive(a[1..], b[1..], c[1..]);
      } else if a[0] != b[0] && b[0] != c[0] {
        AtomLtTransitive(a[0], b[0], c[0]);
        if a[0] == c[0] {
          AtomLtIrreflexive(a[0]);
        }
      }
    }
  }

  lemma {:induction false} KeyLtTotal(a: Key, b: Key)
    requires a != b
    ensures KeyLt(a, b) || KeyLt(b, a)
    decreases |a|
  {
    if a != [] && b != [] {
      if a[0] == b[0] {
        assert a == [a[0]] + a[1..] && b == [b[0]] + b[1..];
        KeyLtTotal(a[1..], b[1..]);
      } else {
        AtomLtTotal(a[0], b[0]);
      }
    }
  }

  /** The strict order a sort uses: ascending keys, or descending with `reverse=True`. */
  predicate Before(a: Key, b: Key, desc: bool) {
    if desc then KeyLt(b, a) else KeyLt(a, b)
  }

  lemma BeforeIrreflexive(a: Key, desc: bool)
    ensures !Before(a, a, desc)
  {
    KeyLtIrreflexive(a);
  }

  lemma BeforeTransitive(a: Key, b: Key, c: Key, desc: bool)
    requires Before(a, b, desc) && Before(b, c, desc)
    ensures Before(a, c, desc)
  {
    if desc {
      KeyLtTransitive(c, b, a);
    } else {
      KeyLtTransitive(a, b, c);
    }
  }

  lemma BeforeTotal(a: Key, b: Key, desc: bool)
    requires a != b
    ensures Before(a, b, desc) || Before(b, a, desc)
  {
    KeyLtTotal(a, b);
  }

  /** Python's key order, packaged as a comparison on the elements being sorted. */
  function ByKey<T>(key: T -> Key, desc: bool): (T, T) -> bool {
    (a, b) => Before(key(a), key(b), desc)
  }

  /** What a stable sort needs of its comparison: a strict weak order (irreflexive and transitive,
      with "neither is before the other" transitive too). */
  ghost predicate StrictWeakOrder<T(!new)>(lt: (T, T) -> bool) {
    && (forall a :: !lt(a, a))
    && (forall a, b, c :: lt(a, b) && lt(b, c) ==> lt(a, c))
    && (forall a, b, c :: Tie(lt, a, b) && Tie(lt, b, c) ==> Tie(lt, a, c))
  }

  lemma ByKeyIsStrictWeakOrder<T(!new)>(key: T -> Key, desc: bool)
    ensures StrictWeakOrder(ByKey(key, desc))
  {
    var lt := ByKey(key, desc);
    forall a ensures !lt(a, a) {
      BeforeIrreflexive(key(a), desc);
    }
    forall a, b, c | lt(a, b) && lt(b, c) ensures lt(a, c) {
      BeforeTransitive(key(a), key(b), key(c), desc);
    }
    forall a, b, c | Tie(lt, a, b) && Tie(lt, b, c) ensures Tie(lt, a, c) {
      ByKeyTie(key, desc, a, b);
      ByKeyTie(key, desc, b, c);
      ByKeyTie(key, desc, a, c);
    }
  }

  /** Under Python's key order, two elements tie exactly when their keys are equal. */
  lemma ByKeyTie<T>(key: T -> Key, desc: bool, a: T, b: T)
    ensures !ByKey(key, desc)(a, b) && !ByKey(key, desc)(b, a) <==> key(a) == key(b)
  {
    if key(a) != key(b) {
      BeforeTotal(key(a), key(b), desc);
    } else {
      BeforeIrreflexive(key(a), desc);
    }
  }

  /** No element is strictly before one that precedes it. */
  ghost predicate Sorted<T>(s: seq<T>, lt: (T, T) -> bool) {
    forall i, j :: 0 <= i < j < |s| ==> !lt(s[j], s[i])
  }

  /** Where a stable insertion puts `x` into `s`: after every element `x` is not strictly before. */
  function InsertPos<T>(x: T, s: seq<T>, lt: (T, T) -> bool): (p: nat)
    ensures p <= |s|
    ensures forall i :: 0 <= i < p ==> !lt(x, s[i])
    ensures p < |s| ==> lt(x, s[p])
  {
    if s == [] || lt(x, s[0]) then 0
    else 1 + InsertPos(x, s[1..], lt)
  }

  function Insert<T>(x: T, s: seq<T>, lt: (T, T) -> bool): (r: seq<T>)
    ensures |r| == |s| + 1
  {
    var p := InsertPos(x, s, lt);
    s[..p] + [x] + s[p..]
  }

  /** Python's stable `sorted(s, key=...)`, as an insertion sort that inserts the elements in
      their input order. */
  function SortBy<T>(s: seq<T>, lt: (T, T) -> bool): (r: seq<T>)
    ensures |r| == |s|
  {
    if s == [] then []
    else Insert(s[|s| - 1], SortBy(s[..|s| - 1], lt), lt)
  }

  lemma InsertPermutes<T>(x: T, s: seq<T>, lt: (T, T) -> bool)
    ensures multiset(Insert(x, s, lt)) == multiset(s) + multiset{x}
  {
    var p := InsertPos(x, s, lt);
    assert s == s[..p] + s[p..];
  }

  lemma {:induction false} SortByPermutes<T>(s: seq<T>, lt: (T, T) -> bool)
    ensures multiset(SortBy(s, lt)) == multiset(s)
  {
    if s != [] {
      SortByPermutes(s[..|s| - 1], lt);
      InsertPermutes(s[|s| - 1], SortBy(s[..|s| - 1], lt), lt);
      assert s == s[..|s| - 1] + [s[|s| - 1]];
    }
  }

  lemma {:induction false} InsertSorted<T(!new)>(x: T, s: seq<T>, lt: (T, T) -> bool)
    requires StrictWeakOrder(lt)
    requires Sorted(s, lt)
    ensures Sorted(Insert(x, s, lt), lt)
  {
    var p := InsertPos(x, s, lt);
    var r := Insert(x, s, lt);
    assert r == s[..p] + [x] + s[p..];
    forall i, j | 0 <= i < j < |r|
      ensures !lt(r[j], r[i])
    {
      if j < p || i > p {
        var i' := if i < p then i else i - 1;
        var j' := if j < p then j else j - 1;
        assert r[i] == s[i'] && r[j] == s[j'];
      } else if j == p {
        assert r[j] == x && r[i] == s[i];
      } else if i == p {
        assert r[i] == x && r[j] == s[j - 1];
        assert lt(x, s[p]);
        assert j - 1 > p ==> !lt(s[j - 1], s[p]);
      } else {
        assert r[i] == s[i] && r[j] == s[j - 1];
      }
    }
  }

  lemma {:induction false} SortBySorted<T(!new)>(s: seq<T>, lt: (T, T) -> bool)
    requires StrictWeakOrder(lt)
    ensures Sorted(SortBy(s, lt), lt)
  {
    if s != [] {
      SortBySorted(s[..|s| - 1], lt);
      InsertSorted(s[|s| - 1], SortBy(s[..|s| - 1], lt), lt);
    }
  }

  /** Neither of `a`, `b` is strictly before the other. */
  predicate Tie<T>(lt: (T, T) -> bool, a: T, b: T) {
    !lt(a, b) && !lt(b, a)
  }

  /** The elements of `s` that tie with `c`, in order. */
  function Ties<T>(s: seq<T>, lt: (T, T) -> bool, c: T): (r: seq<T>)
    ensures |r| <= |s|
  {
    if s == [] then []
    else if Tie(lt, s[0], c) then [s[0]] + Ties(s[1..], lt, c)
    else Ties(s[1..], lt, c)
  }

  lemma {:induction false} TiesAppend<T>(a: seq<T>, b: seq<T>, lt: (T, T) -> bool, c: T)
    ensures Ties(a + b, lt, c) == Ties(a, lt, c) + Ties(b, lt, c)
  {
    if a == [] {
      assert a + b == b;
    } else {
      assert (a + b)[0] == a[0] && (a + b)[1..] == a[1..] + b;
      TiesAppend(a[1..], b, lt, c);
    }
  }

  lemma {:induction false} TiesNone<T>(s: seq<T>, lt: (T, T) -> bool, c: T)
    requires forall i :: 0 <= i < |s| ==> !Tie(lt, s[i], c)
    ensures Ties(s, lt, c) == []
  {
    if s != [] {
      TiesNone(s[1..], lt, c);
    }
  }

  /** Elements that tie with the same `c` are interchangeable on the left of `lt`. */
  lemma TieSubstitutes<T(!new)>(lt: (T, T) -> bool, x: T, y: T, c: T, z: T)
    requires StrictWeakOrder(lt)
    requires Tie(lt, x, c) && Tie(lt, y, c) && lt(x, z)
    ensures lt(y, z)
  {
    assert Tie(lt, c, x);
    assert Tie(lt, y, x);
    if !lt(y, z) && !lt(z, y) {
      assert Tie(lt, x, y) && Tie(lt, y, z);
    }
  }

  /** Once `x` is strictly before `s[p]`, nothing from `p` on ties with anything `x` ties with. */
  lemma {:induction false} TiesAfter<T(!new)>(x: T, s: seq<T>, lt: (T, T) -> bool, p: nat, c: T)
    requires StrictWeakOrder(lt)
    requires Sorted(s, lt)
    requires p < |s| && lt(x, s[p]) && Tie(lt, x, c)
    ensures Ties(s[p..], lt, c) == []
  {
    forall i | 0 <= i < |s[p..]|
      ensures !Tie(lt, s[p..][i], c)
    {
      var y := s[p + i];
      assert s[p..][i] == y;
      if Tie(lt, y, c) {
        // y is interchangeable with x, so it would be strictly before s[p] as well
        TieSubstitutes(lt, x, y, c, s[p]);
      }
    }
    TiesNone(s[p..], lt, c);
  }

  lemma {:induction false} InsertTies<T>(x: T, s: seq<T>, lt: (T, T) -> bool, c: T)
    requires Tie(lt, x, c) && InsertPos(x, s, lt) < |s| ==> Ties(s[InsertPos(x, s, lt)..], lt, c) == []
    ensures Ties(Insert(x, s, lt), lt, c) == Ties(s, lt, c) + (if Tie(lt, x, c) then [x] else [])
  {
    var p := InsertPos(x, s, lt);
    var front, back := s[..p], s[p..];
    assert s == front + back;
    assert Insert(x, s, lt) == (front + [x]) + back;
    TiesAppend(front, back, lt, c);
    TiesAppend(front + [x], back, lt, c);
    TiesAppend(front, [x], lt, c);
  }

  /** Stability: the elements that tie with any `c` come out in their input order. */
  lemma {:induction false} SortByStable<T(!new)>(s: seq<T>, lt: (T, T) -> bool, c: T)
    requires StrictWeakOrder(lt)
    ensures Ties(SortBy(s, lt), lt, c) == Ties(s, lt, c)
  {
    if s != [] {
      var init, last := s[..|s| - 1], s[|s| - 1];
      var sorted := SortBy(init, lt);
      SortByStable(init, lt, c);
      var p := InsertPos(last, sorted, lt);
      if Tie(lt, last, c) && p < |sorted| {
        SortBySorted(init, lt);
        TiesAfter(last, sorted, lt, p, c);
      }
      InsertTies(last, sorted, lt, c);
      assert s == init + [last];
      TiesAppend(init, [last], lt, c);
    }
  }

  lemma SortedTail<T>(s: seq<T>, lt: (T, T) -> bool)
    requires s != [] && Sorted(s, lt)
    ensures Sorted(s[1..], lt)
  {
    forall i, j | 0 <= i < j < |s[1..]| ensures !lt(s[1..][j], s[1..][i]) {
      assert s[1..][i] == s[i + 1] && s[1..][j] == s[j + 1];
    }
  }

  /** Two sorted arrangements of the same elements start alike, when only equal elements tie. */
  lemma SortedHeads<T(!new)>(a: seq<T>, b: seq<T>, lt: (T, T) -> bool)
    requires StrictWeakOrder(lt)
    requires a != [] && Sorted(a, lt) && Sorted(b, lt)
    requires multiset(a) == multiset(b)
    requires forall x, y :: Tie(lt, x, y) ==> x == y
    ensures b != [] && a[0] == b[0]
  {
    assert a[0] in multiset(b) && b[0] in multiset(a);
    var i :| 0 <= i < |a| && a[i] == b[0];
    var j :| 0 <= j < |b| && b[j] == a[0];
    assert i > 0 ==> !lt(a[i], a[0]);
    assert j > 0 ==> !lt(b[j], b[0]);
    assert Tie(lt, a[0], b[0]);
  }

  lemma SameTails<T>(a: seq<T>, b: seq<T>)
    requires a != [] && b != [] && a[0] == b[0] && multiset(a) == multiset(b)
    ensures multiset(a[1..]) == multiset(b[1..])
  {
    assert a == [a[0]] + a[1..] && b == [b[0]] + b[1..];
    assert multiset(a[1..]) == multiset(a) - multiset([a[0]]);
    assert multiset(b[1..]) == multiset(b) - multiset([b[0]]);
  }

  /** Two sorted arrangements of the same elements are equal, when only equal elements tie. */
  lemma {:induction false} SortedUnique<T(!new)>(a: seq<T>, b: seq<T>, lt: (T, T) -> bool)
    requires StrictWeakOrder(lt)
    requires Sorted(a, lt) && Sorted(b, lt)
    requires multiset(a) == multiset(b)
    requires forall x, y :: Tie(lt, x, y) ==> x == y
    ensures a == b
  {
    if a != [] {
      SortedHeads(a, b, lt);
      SameTails(a, b);
      SortedTail(a, lt);
      SortedTail(b, lt);
      SortedUnique(a[1..], b[1..], lt);
      assert a == [a[0]] + a[1..] && b == [b[0]] + b[1..];
    } else {
      assert |b| == |multiset(b)| == 0;
    }
  }

  /**
   * Python's `sorted(s, key=key, reverse=desc)`: ordered by the key, a rearrangement of `s`, and stable,
   * so elements whose keys tie keep their input order (with `reverse=True` too).
   */
  function SortByKey<T(!new)>(s: seq<T>, key: T -> Key, desc: bool): (r: seq<T>)
    ensures Sorted(r, ByKey(key, desc))
    ensures multiset(r) == multiset(s)
    ensures forall c :: Ties(r, ByKey(key, desc), c) == Ties(s, ByKey(key, desc), c)
  {
    var lt := ByKey(key, desc);
    ByKeyIsStrictWeakOrder(key, desc);
    SortBySorted(s, lt);
    SortByPermutes(s, lt);
    assert forall c :: Ties(SortBy(s, lt), lt, c) == Ties(s, lt, c) by {
      forall c ensures Ties(SortBy(s, lt), lt, c) == Ties(s, lt, c) {
        SortByStable(s, lt, c);
      }
    }
    SortBy(s, lt)
  }
}
