/** Python `==` on runtime values. Object equality compares the two
    dicts; an Array inherits that comparison but has no dict, so it raises
    AttributeError; a StringObject equals a str or StringObject with the
    same text. Where the left operand gives no answer, Python asks the right
    one, and a right operand whose class derives from the left one's is
    asked first. */
module Equality {

  import opened PyBuiltins
  import PyDict
  import opened Js

  /** The number a float or a bool stands for: `True == 1.0` holds. */
  function Numeric(v: Value): (r: Option<int>)
    ensures r.Some? <==> v.Num? || v.Bool?
  {
    match v
    case Num(n) => Some(n)
    case Bool(b) => Some(if b then 1 else 0)
    case _ => None
  }

  /** `a == b`. `fuel` is the comparison depth left before Python's
      recursion limit. */
  function Eq(a: Value, b: Value, fuel: nat): (r: Result<bool>)
    reads *
    ensures fuel == 0 ==> r == Err(RecursionError)
    ensures r.Err? ==> r.error in {RecursionError, AttributeError}
    decreases fuel, 0
  {
    if fuel == 0 then Err(RecursionError)
    else if a.ObjectRef? then ObjectEq(a.obj, b, fuel - 1)
    else if a.ArrayRef? then Err(AttributeError)
    else if a.StringRef? then Ok(a.text.Equals(b))
    else if b.ObjectRef? || b.ArrayRef? then Err(AttributeError)
    else if b.StringRef? then Ok(b.text.Equals(a))
    else PlainEq(a, b, fuel - 1)
  }

  /** `Object.__eq__`, with `other.d` read from the right operand. */
  function ObjectEq(o: JsObject, b: Value, fuel: nat): (r: Result<bool>)
    reads *
    ensures r.Err? ==> r.error in {RecursionError, AttributeError}
    ensures b.ObjectRef? && |o.d| != |b.obj.d| ==> r == Ok(false)
    ensures b.StringRef? ==> r == Ok(false)
    ensures !b.ObjectRef? && !b.StringRef? ==> r == Err(AttributeError)
    decreases fuel, 4
  {
    match b
    case ObjectRef(p) => DictEq(o.d, p.d, fuel)
    // StringObject derives from Object: its `__eq__` answers first, False.
    case StringRef(_) => Ok(false)
    // `other.d` on anything else, an Array included.
    case _ => Err(AttributeError)
  }

  /** `==` between values none of which is an Object, Array or StringObject:
      numbers and booleans by value, texts by content, lists member by
      member, everything else by identity. */
  function PlainEq(a: Value, b: Value, fuel: nat): (r: Result<bool>)
    reads *
    ensures r.Err? ==> r.error in {RecursionError, AttributeError}
    decreases fuel, 4
  {
    if Numeric(a).Some? && Numeric(b).Some? then Ok(Numeric(a) == Numeric(b))
    else if a.List? && b.List? then ListEq(a.elems, b.elems, fuel)
    else Ok(a == b)
  }

  /** The comparison containers use on their members: identical operands
      are equal without calling `__eq__`. */
  function SameOrEq(a: Value, b: Value, fuel: nat): (r: Result<bool>)
    reads *
    ensures a == b ==> r == Ok(true)
    ensures r.Err? ==> r.error in {RecursionError, AttributeError}
    decreases fuel, 1
  {
    if a == b then Ok(true) else Eq(a, b, fuel)
  }

  /** Dict `==`: equal sizes, then every key of the left dict, in its order,
      present on the right with an equal value. */
  function DictEq(ad: PyDict.Entries<Value>, bd: PyDict.Entries<Value>, fuel: nat): (r: Result<bool>)
    reads *
    ensures |ad| != |bd| ==> r == Ok(false)
    ensures r.Err? ==> r.error in {RecursionError, AttributeError}
    decreases fuel, 3
  {
    if |ad| != |bd| then Ok(false) else EntriesIn(ad, bd, fuel)
  }

  /** Every entry of `ad` is matched in `bd`; the first failing comparison
      decides. */
  function EntriesIn(ad: PyDict.Entries<Value>, bd: PyDict.Entries<Value>, fuel: nat): (r: Result<bool>)
    reads *
    ensures r.Err? ==> r.error in {RecursionError, AttributeError}
    decreases fuel, 2, |ad|
  {
    if ad == [] then Ok(true)
    else match PyDict.Lookup(bd, ad[0].0)
      case None => Ok(false)
      case Some(w) =>
        match SameOrEq(ad[0].1, w, fuel)
        case Err(x) => Err(x)
        case Ok(false) => Ok(false)
        case Ok(true) => EntriesIn(ad[1..], bd, fuel)
  }

  /** List `==`: equal lengths, then the members pairwise in order. */
  function ListEq(xs: seq<Value>, ys: seq<Value>, fuel: nat): (r: Result<bool>)
    reads *
    ensures |xs| != |ys| ==> r == Ok(false)
    ensures r.Err? ==> r.error in {RecursionError, AttributeError}
    decreases fuel, 3
  {
    if |xs| != |ys| then Ok(false) else Pairwise(xs, ys, fuel)
  }

  function Pairwise(xs: seq<Value>, ys: seq<Value>, fuel: nat): (r: Result<bool>)
    requires |xs| == |ys|
    reads *
    ensures r.Err? ==> r.error in {RecursionError, AttributeError}
    decreases fuel, 2, |xs|
  {
    if xs == [] then Ok(true)
    else match SameOrEq(xs[0], ys[0], fuel)
      case Err(x) => Err(x)
      case Ok(false) => Ok(false)
      case Ok(true) => Pairwise(xs[1..], ys[1..], fuel)
  }

  /** A str and a StringObject compare by text, in either order. */
  lemma TextEquality(a: Value, b: Value, fuel: nat)
    requires TextOf(a).Some? && TextOf(b).Some? && fuel > 0
    ensures Eq(a, b, fuel) == Eq(b, a, fuel) == Ok(TextOf(a) == TextOf(b))
  {
  }

  /** An Object and a StringObject are unequal in either order, where an
      Object against any other non-Object raises. */
  lemma ObjectAgainstString(o: JsObject, s: StringObject, v: Value, fuel: nat)
    requires fuel > 0 && !v.ObjectRef? && !v.StringRef?
    ensures Eq(ObjectRef(o), StringRef(s), fuel) == Eq(StringRef(s), ObjectRef(o), fuel) == Ok(false)
    ensures Eq(ObjectRef(o), v, fuel) == Eq(v, ObjectRef(o), fuel) == Err(AttributeError)
  {
  }

  /** An Array compared with anything but a StringObject raises, even
      compared with itself. */
  lemma ArrayComparisonRaises(arr: JsArray, v: Value, fuel: nat)
    requires fuel > 0 && !v.StringRef?
    ensures Eq(ArrayRef(arr), v, fuel) == Eq(v, ArrayRef(arr), fuel) == Err(AttributeError)
  {
  }

  /** Dict equality ignores order: a dict whose every entry the other dict
      holds, with the same number of keys, is equal to it. */
  lemma {:induction false} EntriesInHeld(ad: PyDict.Entries<Value>, bd: PyDict.Entries<Value>, fuel: nat)
    requires forall i :: 0 <= i < |ad| ==> PyDict.Lookup(bd, ad[i].0) == Some(ad[i].1)
    ensures EntriesIn(ad, bd, fuel) == Ok(true)
    decreases |ad|
  {
    if ad != [] {
      assert PyDict.Lookup(bd, ad[0].0) == Some(ad[0].1);
      forall i | 0 <= i < |ad[1..]|
        ensures PyDict.Lookup(bd, ad[1..][i].0) == Some(ad[1..][i].1)
      {
        assert ad[1..][i] == ad[i + 1];
      }
      EntriesInHeld(ad[1..], bd, fuel);
    }
  }

  /** Two Objects holding the same entries, in any order, are equal. */
  lemma SameEntriesEqual(o: JsObject, p: JsObject, fuel: nat)
    requires fuel > 0 && |o.d| == |p.d|
    requires forall i :: 0 <= i < |o.d| ==> PyDict.Lookup(p.d, o.d[i].0) == Some(o.d[i].1)
    ensures Eq(ObjectRef(o), ObjectRef(p), fuel) == Ok(true)
  {
    EntriesInHeld(o.d, p.d, fuel - 1);
    assert ObjectEq(o, ObjectRef(p), fuel - 1) == DictEq(o.d, p.d, fuel - 1);
  }

  /** In particular an Object equals itself and any Object sharing its dict. */
  lemma {:induction false} SharedDictEqual(o: JsObject, p: JsObject, fuel: nat)
    requires o.Valid() && o.d == p.d && fuel > 0
    ensures Eq(ObjectRef(o), ObjectRef(p), fuel) == Ok(true)
  {
    forall i | 0 <= i < |o.d|
      ensures PyDict.Lookup(p.d, o.d[i].0) == Some(o.d[i].1)
    {
      PyDict.LookupEntry(o.d, i);
    }
    SameEntriesEqual(o, p, fuel);
  }

  /** Dicts whose comparison reaches a key of the left one that the right
      one lacks are unequal. */
  lemma {:induction false} MissingKeyUnequal(ad: PyDict.Entries<Value>, bd: PyDict.Entries<Value>, fuel: nat, i: nat)
    requires i < |ad| && ad[i].0 !in PyDict.Keys(bd)
    requires forall j :: 0 <= j < i ==> PyDict.Lookup(bd, ad[j].0) == Some(ad[j].1)
    ensures EntriesIn(ad, bd, fuel) == Ok(false)
    decreases |ad|
  {
    if i > 0 {
      assert PyDict.Lookup(bd, ad[0].0) == Some(ad[0].1);
      forall j | 0 <= j < i - 1
        ensures PyDict.Lookup(bd, ad[1..][j].0) == Some(ad[1..][j].1)
      {
        assert ad[1..][j] == ad[j + 1];
      }
      assert ad[1..][i - 1] == ad[i];
      MissingKeyUnequal(ad[1..], bd, fuel, i - 1);
    }
  }

  /** A dict comparison that answers True found every left key on the right,
      each with a value that compares equal (or is the very same value). */
  lemma {:induction false} EntriesInMatched(ad: PyDict.Entries<Value>, bd: PyDict.Entries<Value>, fuel: nat)
    requires EntriesIn(ad, bd, fuel) == Ok(true)
    ensures forall i :: 0 <= i < |ad| ==>
      PyDict.Lookup(bd, ad[i].0).Some? && SameOrEq(ad[i].1, PyDict.Lookup(bd, ad[i].0).value, fuel) == Ok(true)
    decreases |ad|
  {
    if ad != [] {
      EntriesInMatched(ad[1..], bd, fuel);
      forall i | 1 <= i < |ad|
        ensures PyDict.Lookup(bd, ad[i].0).Some? && SameOrEq(ad[i].1, PyDict.Lookup(bd, ad[i].0).value, fuel) == Ok(true)
      {
        assert ad[1..][i - 1] == ad[i];
      }
    }
  }

  /** Two Objects compare equal only when their dicts have the same size and
      every key of the left one is a key of the right one, holding a value
      that compares equal. */
  lemma EqualObjectsMatch(o: JsObject, p: JsObject, fuel: nat)
    requires Eq(ObjectRef(o), ObjectRef(p), fuel) == Ok(true)
    ensures |o.d| == |p.d|
    ensures forall i :: 0 <= i < |o.d| ==>
      o.d[i].0 in PyDict.Keys(p.d) && SameOrEq(o.d[i].1, PyDict.Lookup(p.d, o.d[i].0).value, fuel - 1) == Ok(true)
  {
    assert ObjectEq(o, ObjectRef(p), fuel - 1) == DictEq(o.d, p.d, fuel - 1);
    EntriesInMatched(o.d, p.d, fuel - 1);
  }

  /** More comparison depth changes nothing once a comparison has not hit
      the recursion limit. */
  lemma {:induction false} EqFuelStable(a: Value, b: Value, f: nat, g: nat)
    requires f <= g && Eq(a, b, f) != Err(RecursionError)
    ensures Eq(a, b, g) == Eq(a, b, f)
    decreases f, 0
  {
    if a.ObjectRef? && b.ObjectRef? {
      DictEqFuelStable(a.obj.d, b.obj.d, f - 1, g - 1);
    } else if !a.ObjectRef? && !a.ArrayRef? && !a.StringRef? && !b.ObjectRef? && !b.ArrayRef? && !b.StringRef? && a.List? && b.List? {
      ListEqFuelStable(a.elems, b.elems, f - 1, g - 1);
    }
  }

  lemma {:induction false} SameOrEqFuelStable(a: Value, b: Value, f: nat, g: nat)
    requires f <= g && SameOrEq(a, b, f) != Err(RecursionError)
    ensures SameOrEq(a, b, g) == SameOrEq(a, b, f)
    decreases f, 1
  {
    if a != b {
      EqFuelStable(a, b, f, g);
    }
  }

  lemma {:induction false} DictEqFuelStable(ad: PyDict.Entries<Value>, bd: PyDict.Entries<Value>, f: nat, g: nat)
    requires f <= g && DictEq(ad, bd, f) != Err(RecursionError)
    ensures DictEq(ad, bd, g) == DictEq(ad, bd, f)
    decreases f, 3
  {
    if |ad| == |bd| {
      EntriesInFuelStable(ad, bd, f, g);
    }
  }

  lemma {:induction false} EntriesInFuelStable(ad: PyDict.Entries<Value>, bd: PyDict.Entries<Value>, f: nat, g: nat)
    requires f <= g && EntriesIn(ad, bd, f) != Err(RecursionError)
    ensures EntriesIn(ad, bd, g) == EntriesIn(ad, bd, f)
    decreases f, 2, |ad|
  {
    if ad != [] && PyDict.Lookup(bd, ad[0].0).Some? {
      var w := PyDict.Lookup(bd, ad[0].0).value;
      SameOrEqFuelStable(ad[0].1, w, f, g);
      if SameOrEq(ad[0].1, w, f) == Ok(true) {
        EntriesInFuelStable(ad[1..], bd, f, g);
      }
    }
  }

  lemma {:induction false} ListEqFuelStable(xs: seq<Value>, ys: seq<Value>, f: nat, g: nat)
    requires f <= g && ListEq(xs, ys, f) != Err(RecursionError)
    ensures ListEq(xs, ys, g) == ListEq(xs, ys, f)
    decreases f, 3
  {
    if |xs| == |ys| {
      PairwiseFuelStable(xs, ys, f, g);
    }
  }

  lemma {:induction false} PairwiseFuelStable(xs: seq<Value>, ys: seq<Value>, f: nat, g: nat)
    requires |xs| == |ys| && f <= g && Pairwise(xs, ys, f) != Err(RecursionError)
    ensures Pairwise(xs, ys, g) == Pairwise(xs, ys, f)
    decreases f, 2, |xs|
  {
    if xs != [] {
      SameOrEqFuelStable(xs[0], ys[0], f, g);
      if SameOrEq(xs[0], ys[0], f) == Ok(true) {
        PairwiseFuelStable(xs[1..], ys[1..], f, g);
      }
    }
  }
}
