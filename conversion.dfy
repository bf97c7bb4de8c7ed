/** `to_python`: the conversion of a runtime value into the host value the
    embedding program receives. Objects become dicts member by member, a
    string object its text, a native function its host callable; an
    interpreted function cannot be converted. */
module Conversion {

  import opened PyBuiltins
  import PyDict
  import opened Js

  /** A host value: a runtime value passed through unchanged, a dict built
      from an Object, a list built from an Array, or a host callable. */
  datatype Host =
    | Plain(v: Value)
    | Dict(entries: PyDict.Entries<Host>)
    | HostList(elems: seq<Host>)
    | Callable(f: HostCallable)

  /** The conversion as a function of the heap. `fuel` is the call depth
      still available before Python's recursion limit: a cyclic object graph
      ends in a RecursionError. A non-empty Array fails, as sorting its
      elements by `x[0]` does for numbers, booleans, Undefined and Null. */
  function Converted(v: Value, fuel: nat): (r: Result<Host>)
    reads *
    ensures fuel == 0 ==> r == Err(RecursionError)
    ensures r.Ok? && v.ObjectRef? ==> r.value.Dict?
    decreases fuel, 0
  {
    if fuel == 0 then Err(RecursionError)
    else match v
      case ObjectRef(o) =>
        (match ConvertedMembers(o.d, fuel - 1)
         case Ok(hs) => Ok(Dict(StoreAll([], o.d, hs)))
         case Err(x) => Err(x))
      case ArrayRef(a) => if a.items == [] then Ok(HostList([])) else Err(TypeError)
      case StringRef(s) => Ok(Plain(Str(s.value)))
      case FunctionRef(_) => Err(ValueError)
      case NativeRef(n) => Ok(Callable(n.f))
      case _ => Ok(Plain(v))
  }

  /** The members' conversions, in dict order; the first failure propagates. */
  function ConvertedMembers(d: PyDict.Entries<Value>, fuel: nat): (r: Result<seq<Host>>)
    reads *
    ensures r.Ok? ==> |r.value| == |d|
    decreases fuel, 1, |d|
  {
    if d == [] then Ok([])
    else match Converted(d[0].1, fuel)
      case Err(x) => Err(x)
      case Ok(h) =>
        match ConvertedMembers(d[1..], fuel)
        case Err(x) => Err(x)
        case Ok(hs) => Ok([h] + hs)
  }

  /** `result[key] = value` for each key of `d`, in order, with the values `hs`. */
  function StoreAll(acc: PyDict.Entries<Host>, d: PyDict.Entries<Value>, hs: seq<Host>): PyDict.Entries<Host>
    requires |hs| == |d|
    decreases |d|
  {
    if d == [] then acc else StoreAll(PyDict.Store(acc, d[0].0, hs[0]), d[1..], hs[1..])
  }

  /** What the loop of `Object.to_python` still produces from the entries
      `d` left to visit, with `acc` the dict built so far. */
  function Pending(d: PyDict.Entries<Value>, acc: PyDict.Entries<Host>, fuel: nat): Result<PyDict.Entries<Host>>
    reads *
  {
    match ConvertedMembers(d, fuel)
    case Ok(hs) => Ok(StoreAll(acc, d, hs))
    case Err(x) => Err(x)
  }

  /** Module-level `to_python`. */
  method ToPython(v: Value, fuel: nat) returns (r: Result<Host>)
    ensures r == Converted(v, fuel)
    decreases fuel, 0
  {
    if fuel == 0 {
      return Err(RecursionError);
    }
    match v
    case ObjectRef(o) =>
      r := ObjectToPython(o, fuel - 1);
    case ArrayRef(a) =>
      r := if a.items == [] then Ok(HostList([])) else Err(TypeError);
    case StringRef(s) =>
      r := Ok(Plain(Str(s.value)));
    case FunctionRef(_) =>
      r := Err(ValueError);
    case NativeRef(n) =>
      r := Ok(Callable(n.f));
    case _ =>
      r := Ok(Plain(v));
  }

  /** `Object.to_python`: a fresh dict filled key by key. */
  method ObjectToPython(o: JsObject, fuel: nat) returns (r: Result<Host>)
    ensures r == Converted(ObjectRef(o), fuel + 1)
    decreases fuel, 1
  {
    var result: PyDict.Entries<Host> := [];
    for i := 0 to |o.d|
      invariant Pending(o.d[i..], result, fuel) == Pending(o.d, [], fuel)
    {
      var rest := o.d[i..];
      assert rest[1..] == o.d[i + 1..];
      var h := ToPython(o.d[i].1, fuel);
      if h.Err? {
        return Err(h.error);
      }
      PendingStep(rest, result, fuel);
      result := PyDict.Store(result, o.d[i].0, h.value);
    }
    assert o.d[|o.d|..] == [];
    return Ok(Dict(result));
  }

  /** One turn of the loop: a member that converts is stored, and the rest
      of the loop carries on from there. */
  lemma PendingStep(d: PyDict.Entries<Value>, acc: PyDict.Entries<Host>, fuel: nat)
    requires d != [] && Converted(d[0].1, fuel).Ok?
    ensures Pending(d, acc, fuel) == Pending(d[1..], PyDict.Store(acc, d[0].0, Converted(d[0].1, fuel).value), fuel)
  {
  }

  /** Each converted member is its own conversion, in member order. */
  lemma {:induction false} MembersConverted(d: PyDict.Entries<Value>, fuel: nat)
    requires ConvertedMembers(d, fuel).Ok?
    ensures forall j :: 0 <= j < |d| ==> Converted(d[j].1, fuel) == Ok(ConvertedMembers(d, fuel).value[j])
    decreases |d|
  {
    if d != [] {
      MembersConverted(d[1..], fuel);
      forall j | 1 <= j < |d|
        ensures Converted(d[j].1, fuel) == Ok(ConvertedMembers(d, fuel).value[j])
      {
        assert d[1..][j - 1] == d[j];
      }
    }
  }

  /** A failed conversion reports the error of the first member, in dict
      order, that does not convert; every member before it converts. */
  lemma {:induction false} FirstFailingMember(d: PyDict.Entries<Value>, fuel: nat)
    requires ConvertedMembers(d, fuel).Err?
    ensures exists i :: (0 <= i < |d| && Converted(d[i].1, fuel) == Err(ConvertedMembers(d, fuel).error)
      && forall j :: 0 <= j < i ==> Converted(d[j].1, fuel).Ok?)
    decreases |d|
  {
    if Converted(d[0].1, fuel).Ok? {
      FirstFailingMember(d[1..], fuel);
      var k :| 0 <= k < |d[1..]| && Converted(d[1..][k].1, fuel) == Err(ConvertedMembers(d[1..], fuel).error)
        && forall j :: 0 <= j < k ==> Converted(d[1..][j].1, fuel).Ok?;
      forall j | 1 <= j <= k
        ensures Converted(d[j].1, fuel).Ok?
      {
        assert d[1..][j - 1] == d[j];
      }
      assert d[1..][k] == d[k + 1];
    }
  }

  /** The keys of `d` paired with the values `hs`. */
  function Zip(d: PyDict.Entries<Value>, hs: seq<Host>): (z: PyDict.Entries<Host>)
    requires |hs| == |d|
    ensures |z| == |d|
  {
    if d == [] then [] else [(d[0].0, hs[0])] + Zip(d[1..], hs[1..])
  }

  /** Entry `i` of the zip pairs key `i` of `d` with value `i` of `hs`. */
  lemma {:induction false} ZipAt(d: PyDict.Entries<Value>, hs: seq<Host>)
    requires |hs| == |d|
    ensures forall i :: 0 <= i < |d| ==> Zip(d, hs)[i] == (d[i].0, hs[i])
    decreases |d|
  {
    if d != [] {
      ZipAt(d[1..], hs[1..]);
      forall i | 1 <= i < |d|
        ensures Zip(d, hs)[i] == (d[i].0, hs[i])
      {
        assert d[1..][i - 1] == d[i];
      }
    }
  }

  /** No key of `d` is a key of `acc`. */
  predicate KeysApart(acc: PyDict.Entries<Host>, d: PyDict.Entries<Value>) {
    forall i, j :: 0 <= i < |d| && 0 <= j < |acc| ==> d[i].0 != acc[j].0
  }

  /** Storing keys that are distinct and new to the dict appends them, in
      order. */
  lemma {:induction false} StoreAllAppends(acc: PyDict.Entries<Host>, d: PyDict.Entries<Value>, hs: seq<Host>)
    requires |hs| == |d| && PyDict.DistinctKeys(d) && KeysApart(acc, d)
    ensures StoreAll(acc, d, hs) == acc + Zip(d, hs)
    decreases |d|
  {
    if d != [] {
      var acc' := acc + [(d[0].0, hs[0])];
      StoreNew(acc, d[0].0, hs[0]);
      ApartAfterFirst(acc, d, hs[0]);
      StoreAllAppends(acc', d[1..], hs[1..]);
      assert StoreAll(acc, d, hs) == StoreAll(acc', d[1..], hs[1..]);
      assert Zip(d, hs) == [(d[0].0, hs[0])] + Zip(d[1..], hs[1..]);
      assert acc' + Zip(d[1..], hs[1..]) == acc + ([(d[0].0, hs[0])] + Zip(d[1..], hs[1..]));
    }
  }

  /** Once the first key of `d` is appended, the remaining keys are still
      distinct and apart from the dict. */
  lemma ApartAfterFirst(acc: PyDict.Entries<Host>, d: PyDict.Entries<Value>, h: Host)
    requires d != [] && PyDict.DistinctKeys(d) && KeysApart(acc, d)
    ensures PyDict.DistinctKeys(d[1..]) && KeysApart(acc + [(d[0].0, h)], d[1..])
  {
    var acc' := acc + [(d[0].0, h)];
    forall i, j | 0 <= i < |d[1..]| && 0 <= j < |acc'|
      ensures d[1..][i].0 != acc'[j].0
    {
      assert d[1..][i] == d[i + 1];
      if j == |acc| {
        assert acc'[j].0 == d[0].0;
      } else {
        assert acc'[j] == acc[j];
      }
    }
  }

  /** Storing a key that no entry holds appends it. */
  lemma StoreNew(acc: PyDict.Entries<Host>, k: string, h: Host)
    requires forall j :: 0 <= j < |acc| ==> acc[j].0 != k
    ensures PyDict.Store(acc, k, h) == acc + [(k, h)]
  {
    if PyDict.Lookup(acc, k).Some? {
      assert false;
    }
  }

  /** An Object converts to a dict with its keys in its own order, each
      mapped to its member's conversion. */
  lemma ObjectConversion(o: JsObject, fuel: nat)
    requires o.Valid() && Converted(ObjectRef(o), fuel).Ok?
    ensures var h := Converted(ObjectRef(o), fuel).value;
      && h.Dict? && |h.entries| == |o.d|
      && PyDict.Keys(h.entries) == PyDict.Keys(o.d)
      && forall i :: 0 <= i < |o.d| ==>
           h.entries[i].0 == o.d[i].0 && Converted(o.d[i].1, fuel - 1) == Ok(h.entries[i].1)
  {
    var hs := ConvertedMembers(o.d, fuel - 1).value;
    MembersConverted(o.d, fuel - 1);
    StoreAllAppends([], o.d, hs);
    ZipAt(o.d, hs);
    var h := Converted(ObjectRef(o), fuel).value;
    assert h.entries == [] + Zip(o.d, hs);
    SameKeyColumn(h.entries, o.d);
  }

  /** Two association lists with the same key at every position have the
      same key set. */
  lemma {:induction false} SameKeyColumn<A, B>(a: PyDict.Entries<A>, b: PyDict.Entries<B>)
    requires |a| == |b| && forall i :: 0 <= i < |a| ==> a[i].0 == b[i].0
    ensures PyDict.Keys(a) == PyDict.Keys(b)
  {
    if a != [] {
      SameKeyColumn(a[1..], b[1..]);
    }
  }

  /** More call depth changes nothing once a conversion has not hit the
      recursion limit. */
  lemma {:induction false} ConvertedFuelStable(v: Value, f: nat, g: nat)
    requires f <= g && Converted(v, f) != Err(RecursionError)
    ensures Converted(v, g) == Converted(v, f)
    decreases f, 0
  {
    if v.ObjectRef? {
      MembersFuelStable(v.obj.d, f - 1, g - 1);
    }
  }

  lemma {:induction false} MembersFuelStable(d: PyDict.Entries<Value>, f: nat, g: nat)
    requires f <= g && ConvertedMembers(d, f) != Err(RecursionError)
    ensures ConvertedMembers(d, g) == ConvertedMembers(d, f)
    decreases f, 1, |d|
  {
    if d != [] {
      ConvertedFuelStable(d[0].1, f, g);
      if Converted(d[0].1, f).Ok? {
        MembersFuelStable(d[1..], f, g);
      }
    }
  }

  /** A member holding an interpreted function makes the members fail. */
  lemma {:induction false} FunctionMemberBlocks(d: PyDict.Entries<Value>, fuel: nat, i: nat)
    requires i < |d| && d[i].1.FunctionRef?
    ensures ConvertedMembers(d, fuel).Err?
    decreases |d|
  {
    if i == 0 {
      assert Converted(d[0].1, fuel).Err?;
    } else if Converted(d[0].1, fuel).Ok? {
      assert d[1..][i - 1] == d[i];
      FunctionMemberBlocks(d[1..], fuel, i - 1);
    }
  }

  /** An Object holding an interpreted function anywhere among its members
      never converts. */
  lemma ObjectWithFunctionFails(o: JsObject, fuel: nat, i: nat)
    requires i < |o.d| && o.d[i].1.FunctionRef?
    ensures Converted(ObjectRef(o), fuel).Err?
  {
    if fuel > 0 {
      FunctionMemberBlocks(o.d, fuel - 1, i);
    }
  }
}
