/** The value-and-scope runtime of the interpreter: values, completion
    records, the three property containers (Object, Array, StringObject),
    execution contexts with their parent and horizontal links, and
    interpreted functions. */
module Js {

  import opened PyBuiltins
  import PyDict

  /** The Python exceptions the runtime raises. */
  datatype Error =
    | ReferenceError   // the runtime's own ReferenceError
    | KeyError         // a missing key in a dict
    | IndexError       // a list or text index out of range
    | TypeError        // an operation on a value of the wrong kind, `None[name]` among them
    | ValueError       // `int()` of a name that is not a number; converting a Function
    | AttributeError   // reading a field the object does not have
    | RecursionError   // Python's recursion limit

  datatype Result<+T> = Ok(value: T) | Err(error: Error)

  /** The outcome of an operation that returns nothing. */
  datatype Status = Done | Raised(error: Error)

  /** A host (Python) callable wrapped by a native function. */
  datatype HostCallable = HostCallable(id: nat)

  /** A runtime value. Numbers are the lexer's floats; the model keeps their
      integral value. Objects, arrays, string objects and functions are
      shared by reference. `List` is a host list, the form in which a call's
      arguments are bound to `arguments`. `Empty` is the EMPTY marker a
      completion carries when it has no value. */
  datatype Value =
    | Undefined
    | Empty
    | Null
    | Bool(b: bool)
    | Num(n: int)
    | Str(s: string)
    | List(elems: seq<Value>)
    | ObjectRef(obj: JsObject)
    | ArrayRef(arr: JsArray)
    | StringRef(text: StringObject)
    | FunctionRef(fn: Function)
    | NativeRef(native: NativeFunction)
    | StaticNativeRef(staticNative: StaticNativeFunction)

  /* ---------------------------------------------------------------------
     Completion records
     --------------------------------------------------------------------- */

  datatype CompletionType = Normal | Break | Continue | Return | Throw

  /** The label of a labelled break or continue; NoTarget is EMPTY. */
  datatype Target = NoTarget | Label(name: string)

  /** The result of evaluating a node (section 8.9 of ECMA-262, 5.1 edition). */
  datatype Completion = Completion(kind: CompletionType, value: Value, target: Target) {

    /** True of every signal that transfers control non-locally. */
    predicate IsAbrupt()
      ensures IsAbrupt() <==> kind in {Break, Continue, Return, Throw}
    {
      kind != Normal
    }
  }

  const EmptyCompletion := Completion(Normal, Empty, NoTarget)

  /** EMPTY_COMPLETION is a normal completion carrying EMPTY as both its
      value and its target. */
  lemma EmptyCompletionIsNormal()
    ensures !EmptyCompletion.IsAbrupt()
    ensures EmptyCompletion.value == Empty && EmptyCompletion.target == NoTarget
  {
  }

  /* ---------------------------------------------------------------------
     Property names
     --------------------------------------------------------------------- */

  /** The name of a property: a member name, or a number used as a subscript. */
  datatype PropKey = Name(text: string) | Number(n: int)

  /** `str(name)`: the key under which an Object stores a property. A number
      (a float holding an integral value) prints with a trailing ".0". */
  function KeyString(k: PropKey): (s: string)
    ensures k.Name? ==> s == k.text
    ensures k.Number? ==> |s| >= 2 && s[|s| - 2..] == ".0"
  {
    match k
    case Name(t) => t
    case Number(n) => IntToDecimal(n) + ".0"
  }

  /** `int(name)`: the index an Array or StringObject reads a name as. */
  function ToInt(k: PropKey): (r: Result<int>)
    ensures r.Err? ==> r.error == ValueError
    ensures k.Number? ==> r == Ok(k.n)
  {
    match k
    case Number(n) => Ok(n)
    case Name(t) => match ParseInt(t) case Some(i) => Ok(i) case None => Err(ValueError)
  }

  /** Distinct numeric subscripts name distinct Object properties. */
  lemma NumberKeysDistinct(n: int, m: int)
    requires n != m
    ensures KeyString(Number(n)) != KeyString(Number(m))
  {
    var a, b := IntToDecimal(n), IntToDecimal(m);
    if a + ".0" == b + ".0" {
      assert a == (a + ".0")[..|a|];
      assert b == (b + ".0")[..|b|];
      IntToDecimalInjective(n, m);
    }
  }

  /** A name spelling an integer in decimal indexes an Array or StringObject
      exactly as the number itself does. */
  lemma DecimalNameIsIndex(n: int)
    ensures ToInt(Name(IntToDecimal(n))) == ToInt(Number(n)) == Ok(n)
  {
    ParseIntRoundTrip(n);
  }

  /** The text that `str + value` accepts: a Python str or a StringObject
      (through its `__radd__`); None where the addition is a TypeError. */
  function TextOf(v: Value): (r: Option<string>)
    reads if v.StringRef? then {v.text} else {}
    ensures r.Some? <==> v.Str? || v.StringRef?
  {
    match v
    case Str(s) => Some(s)
    case StringRef(o) => Some(o.value)
    case _ => None
  }

  /* ---------------------------------------------------------------------
     Object: a dict keyed by str(name)
     --------------------------------------------------------------------- */

  class JsObject {
    var d: PyDict.Entries<Value>

    ghost predicate Valid()
      reads this
    {
      PyDict.DistinctKeys(d)
    }

    constructor (items: PyDict.Entries<Value>)
      requires PyDict.DistinctKeys(items)
      ensures Valid() && d == items
    {
      d := items;
    }

    /** `o[name]` and `get_binding_value`: a KeyError when no key matches. */
    function GetItem(name: PropKey): (r: Result<Value>)
      reads this
      ensures r.Ok? <==> KeyString(name) in PyDict.Keys(d)
      ensures r.Err? ==> r.error == KeyError
      ensures r.Ok? ==> (KeyString(name), r.value) in d
    {
      match PyDict.Lookup(d, KeyString(name))
      case Some(v) => Ok(v)
      case None => Err(KeyError)
    }

    /** `o.get(name)`: Undefined in place of a KeyError. */
    function Get(name: PropKey): (v: Value)
      reads this
      ensures KeyString(name) !in PyDict.Keys(d) ==> v == Undefined
      ensures KeyString(name) in PyDict.Keys(d) ==> Ok(v) == GetItem(name)
    {
      match PyDict.Lookup(d, KeyString(name))
      case Some(v) => v
      case None => Undefined
    }

    /** `o[name] = v` and `set_mutable_binding`. */
    method SetItem(name: PropKey, v: Value)
      requires Valid()
      modifies this
      ensures Valid()
      ensures d == PyDict.Store(old(d), KeyString(name), v)
      ensures GetItem(name) == Ok(v)
      ensures forall other :: KeyString(other) != KeyString(name) ==> GetItem(other) == old(GetItem(other))
    {
      PyDict.StoreLookup(d, KeyString(name), v);
      PyDict.StoreDistinct(d, KeyString(name), v);
      d := PyDict.Store(d, KeyString(name), v);
    }
  }

  /* ---------------------------------------------------------------------
     Array: a list with a synthetic length
     --------------------------------------------------------------------- */

  class JsArray {
    var items: seq<Value>

    constructor (items: seq<Value>)
      ensures this.items == items
    {
      this.items := [];
      new;
      var i := 0;
      while i < |items|
        invariant 0 <= i <= |items|
        invariant this.items == items[..i]
      {
        this.items := this.items + [items[i]];
        i := i + 1;
      }
    }

    /** `a[name]` and `get_binding_value`: "length" is the list's size; any
        other name goes through `int()` and indexes the list, counting from the
        end when negative. */
    function GetItem(name: PropKey): (r: Result<Value>)
      reads this
      ensures name == Name("length") ==> r == Ok(Num(|items|))
      ensures name != Name("length") && ToInt(name).Err? ==> r == Err(ValueError)
      ensures name != Name("length") && ToInt(name).Ok? ==>
        var i := ToInt(name).value;
        (r.Ok? <==> -|items| <= i < |items|) &&
        (r.Ok? ==> r.value == items[if i >= 0 then i else |items| + i]) &&
        (r.Err? ==> r.error == IndexError)
    {
      if name == Name("length") then Ok(Num(|items|))
      else match ToInt(name)
        case Err(e) => Err(e)
        case Ok(i) => match PyIndex(i, |items|) case Some(k) => Ok(items[k]) case None => Err(IndexError)
    }

    /** `a.get(i)` with a host integer: the IndexError is not caught. */
    function Get(i: int): (r: Result<Value>)
      reads this
      ensures r.Ok? <==> -|items| <= i < |items|
      ensures r.Ok? ==> r.value == items[if i >= 0 then i else |items| + i]
      ensures r.Err? ==> r.error == IndexError
    {
      match PyIndex(i, |items|) case Some(k) => Ok(items[k]) case None => Err(IndexError)
    }

    /** `a[name] = v` and `set_mutable_binding`: the list grows with Undefined
        until the index exists, then the slot is assigned. */
    method SetItem(name: PropKey, v: Value) returns (st: Status)
      modifies this
      ensures (st, items) == ArrayAssignment(old(items), name, v)
      ensures st.Done? ==> GetItem(name) == Ok(v)
    {
      var index := ToInt(name);
      if index.Err? {
        return Raised(ValueError);
      }
      var i := index.value;
      while i >= |items|
        invariant old(items) <= items
        invariant i < |old(items)| ==> items == old(items)
        invariant i >= |old(items)| ==> |items| <= i + 1
        invariant forall k :: |old(items)| <= k < |items| ==> items[k] == Undefined
        decreases i - |items|
      {
        items := items + [Undefined];
      }
      assert items == if i >= |old(items)| then old(items) + seq(i + 1 - |old(items)|, _ => Undefined) else old(items);
      match PyIndex(i, |items|)
      case None =>
        st := Raised(IndexError);
      case Some(k) =>
        items := items[k := v];
        st := Done;
    }
  }

  /** What `a[name] = v` leaves in the list `items`, and whether it raised:
      a name `int()` rejects is a ValueError; an index at or past the end
      first pads the list with Undefined up to it; a negative index counts
      from the end, and one before the start is an IndexError. A write that
      raises leaves the list as it was. */
  function ArrayAssignment(items: seq<Value>, name: PropKey, v: Value): (r: (Status, seq<Value>))
    ensures ToInt(name).Err? ==> r == (Raised(ValueError), items)
    ensures ToInt(name).Ok? && ToInt(name).value >= 0 ==>
      var i := ToInt(name).value;
      && r.0 == Done
      && |r.1| == (if i < |items| then |items| else i + 1)
      && r.1[i] == v
      && (forall k :: 0 <= k < |items| && k != i ==> r.1[k] == items[k])
      && (forall k :: |items| <= k < i ==> r.1[k] == Undefined)
    ensures ToInt(name).Ok? && ToInt(name).value < 0 ==>
      var i := ToInt(name).value;
      if -|items| <= i then r == (Done, items[|items| + i := v])
      else r == (Raised(IndexError), items)
    ensures |r.1| >= |items|
  {
    match ToInt(name)
    case Err(e) => (Raised(e), items)
    case Ok(i) =>
      var padded := if i >= |items| then items + seq(i + 1 - |items|, _ => Undefined) else items;
      match PyIndex(i, |padded|)
      case Some(k) => (Done, padded[k := v])
      case None => (Raised(IndexError), items)
  }

  /* ---------------------------------------------------------------------
     StringObject: a text that index assignment rebuilds
     --------------------------------------------------------------------- */

  class StringObject {
    var value: string

    constructor (value: string)
      ensures this.value == value
    {
      this.value := value;
    }

    /** `s[name]` and `get_binding_value`: "length" is the text's length;
        any other name is read by `int()` and picks one character. */
    function GetItem(name: PropKey): (r: Result<Value>)
      reads this
      ensures name == Name("length") ==> r == Ok(Num(|value|))
      ensures name != Name("length") && ToInt(name).Err? ==> r == Err(ValueError)
      ensures name != Name("length") && ToInt(name).Ok? ==>
        var i := ToInt(name).value;
        (r.Ok? <==> -|value| <= i < |value|) &&
        (r.Ok? ==> r.value == Str([value[if i >= 0 then i else |value| + i]])) &&
        (r.Err? ==> r.error == IndexError)
    {
      if name == Name("length") then Ok(Num(|value|))
      else match ToInt(name)
        case Err(e) => Err(e)
        case Ok(i) => match PyIndex(i, |value|) case Some(k) => Ok(Str([value[k]])) case None => Err(IndexError)
    }

    /** `s.get(i)` with a host integer: the IndexError is not caught. */
    function Get(i: int): (r: Result<Value>)
      reads this
      ensures r.Ok? <==> -|value| <= i < |value|
      ensures r.Ok? ==> r.value == Str([value[if i >= 0 then i else |value| + i]])
      ensures r.Err? ==> r.error == IndexError
    {
      match PyIndex(i, |value|) case Some(k) => Ok(Str([value[k]])) case None => Err(IndexError)
    }

    /** `s[name] = v` and `set_mutable_binding`: the whole text becomes
        `old[:i] + v + old[i + 1:]`, whatever the length of `v`. */
    method SetItem(name: PropKey, v: Value) returns (st: Status)
      modifies this
      ensures ToInt(name).Err? ==> st == Raised(ValueError) && value == old(value)
      ensures ToInt(name).Ok? && old(TextOf(v)).None? ==> st == Raised(TypeError) && value == old(value)
      ensures ToInt(name).Ok? && old(TextOf(v)).Some? ==>
        st == Done && value == ReplaceAt(old(value), ToInt(name).value, old(TextOf(v)).value)
      ensures GetItem(Name("length")) == Ok(Num(|value|))
    {
      var index := ToInt(name);
      if index.Err? {
        return Raised(ValueError);
      }
      var text := TextOf(v);
      if text.None? {
        return Raised(TypeError);
      }
      value := ReplaceAt(value, index.value, text.value);
      st := Done;
    }

    /** `__eq__`: equal to a str or a StringObject with the same text, and
        to nothing else. */
    function Equals(other: Value): (r: bool)
      reads this, if other.StringRef? then {other.text} else {}
      ensures r ==> TextOf(other) == Some(value)
      ensures TextOf(other) == Some(value) ==> r
    {
      match other
      case Str(s) => value == s
      case StringRef(o) => value == o.value
      case _ => false
    }
  }

  /* ---------------------------------------------------------------------
     Native functions: host callables, opaque here
     --------------------------------------------------------------------- */

  /** Called with `(this, args)`. */
  class NativeFunction {
    const f: HostCallable

    constructor (f: HostCallable)
      ensures this.f == f
    {
      this.f := f;
    }
  }

  /** Called with the arguments unpacked. */
  class StaticNativeFunction {
    const f: HostCallable

    constructor (f: HostCallable)
      ensures this.f == f
    {
      this.f := f;
    }
  }

  /* ---------------------------------------------------------------------
     Execution contexts
     --------------------------------------------------------------------- */

  /** The first context of `cs` whose own env binds `name`. */
  function FirstHolder(cs: seq<Context>, name: string): (r: Option<Context>)
    reads cs
    ensures r.Some? ==> r.value in cs && name in r.value.env
  {
    if cs == [] then None
    else if name in cs[0].env then Some(cs[0])
    else FirstHolder(cs[1..], name)
  }

  /** FirstHolder finds the earliest binding context, and none exactly when
      no context of `cs` binds the name. */
  lemma {:induction false} FirstHolderIsFirst(cs: seq<Context>, name: string)
    ensures FirstHolder(cs, name).None? <==> forall i :: 0 <= i < |cs| ==> name !in cs[i].env
    ensures FirstHolder(cs, name).Some? ==>
      exists i :: 0 <= i < |cs| && cs[i] == FirstHolder(cs, name).value &&
                  forall j :: 0 <= j < i ==> name !in cs[j].env
  {
    if cs != [] && name !in cs[0].env {
      FirstHolderIsFirst(cs[1..], name);
      assert forall i :: 1 <= i < |cs| ==> cs[i] == cs[1..][i - 1];
      if FirstHolder(cs, name).Some? {
        var i :| 0 <= i < |cs[1..]| && cs[1..][i] == FirstHolder(cs, name).value &&
                 forall j :: 0 <= j < i ==> name !in cs[1..][j].env;
        assert cs[i + 1] == FirstHolder(cs, name).value;
      }
    }
  }

  /** Searching a concatenation searches the left part first. */
  lemma {:induction false} FirstHolderAppend(a: seq<Context>, b: seq<Context>, name: string)
    ensures FirstHolder(a + b, name) == if FirstHolder(a, name).Some? then FirstHolder(a, name) else FirstHolder(b, name)
  {
    if a != [] {
      assert (a + b)[1..] == a[1..] + b;
      FirstHolderAppend(a[1..], b, name);
    } else {
      assert a + b == b;
    }
  }

  /** The first holder in `[c] + hs + ps`: `c` itself, else the first in
      `hs`, else the first in `ps`. */
  lemma FirstHolderOfThree(c: Context, hs: seq<Context>, ps: seq<Context>, name: string)
    ensures FirstHolder([c] + hs + ps, name) ==
      if name in c.env then Some(c)
      else if FirstHolder(hs, name).Some? then FirstHolder(hs, name)
      else FirstHolder(ps, name)
  {
    assert ([c] + hs + ps)[1..] == hs + ps;
    FirstHolderAppend(hs, ps, name);
  }

  /** A binding environment. `parent` is the lexical enclosure, `horizontal`
      the dynamic overlay; neither link is ever reassigned, and `depth`
      strictly decreases along both, so the graph of contexts is acyclic
      while contexts are still shared by reference. */
  class Context {
    var env: map<string, Value>
    const parent: Context?
    const horizontal: Context?
    ghost const depth: nat
    ghost const Repr: set<Context>

    ghost predicate Valid()
      decreases depth
    {
      && (parent != null ==> parent.depth < depth && parent.Valid() && this !in parent.Repr)
      && (horizontal != null ==> horizontal.depth < depth && horizontal.Valid() && this !in horizontal.Repr)
      && Repr == {this} + (if parent != null then parent.Repr else {})
                        + (if horizontal != null then horizontal.Repr else {})
    }

    constructor (env: map<string, Value>, parent: Context?, horizontal: Context?)
      requires parent != null ==> parent.Valid()
      requires horizontal != null ==> horizontal.Valid()
      ensures Valid()
      ensures this.env == env && this.parent == parent && this.horizontal == horizontal
    {
      this.env := env;
      this.parent := parent;
      this.horizontal := horizontal;
      var pd := if parent != null then parent.depth else 0;
      var hd := if horizontal != null then horizontal.depth else 0;
      depth := 1 + (if pd < hd then hd else pd);
      Repr := {this} + (if parent != null then parent.Repr else {})
                     + (if horizontal != null then horizontal.Repr else {});
    }

    /** `name in context`: some context reachable through parent and
        horizontal links binds the name in its own env. */
    function Contains(name: string): (b: bool)
      requires Valid()
      reads Repr
      ensures name in env ==> b
      decreases depth
    {
      name in env
      || (parent != null && parent.Contains(name))
      || (horizontal != null && horizontal.Contains(name))
    }

    /** `name in context` holds exactly when some context of the graph binds
        the name. */
    lemma {:induction false} ContainsIffBound(name: string)
      requires Valid()
      ensures Contains(name) <==> exists c :: c in Repr && name in c.env
      decreases depth
    {
      if parent != null {
        parent.ContainsIffBound(name);
      }
      if horizontal != null {
        horizontal.ContainsIffBound(name);
      }
    }

    /** The order in which reads look for a binding: the own env, then the
        horizontal overlay's whole search order, then the parent's. */
    ghost function SearchOrder(): (s: seq<Context>)
      requires Valid()
      ensures |s| > 0 && s[0] == this
      ensures forall c :: c in s ==> c in Repr
      decreases depth
    {
      [this] + (if horizontal != null then horizontal.SearchOrder() else [])
             + (if parent != null then parent.SearchOrder() else [])
    }

    /** What a read of a name bound nowhere yields: the parent chain is
        followed to its root, which answers Undefined when it has no
        horizontal context and otherwise evaluates `None[name]`, a TypeError. */
    ghost function MissingNameRead(): (r: Result<Value>)
      requires Valid()
      ensures r == Ok(Undefined) || r == Err(TypeError)
      decreases depth
    {
      if parent != null then parent.MissingNameRead()
      else if horizontal == null then Ok(Undefined)
      else Err(TypeError)
    }

    /** `context[name]`. */
    function GetItem(name: string): (r: Result<Value>)
      requires Valid()
      reads Repr
      ensures match FirstHolder(SearchOrder(), name)
              case Some(c) => r == Ok(c.env[name])
              case None => r == MissingNameRead()
      decreases depth
    {
      SearchOrderSplit(name);
      if name in env then Ok(env[name])
      else if parent == null && horizontal == null then Ok(Undefined)
      else if horizontal != null && horizontal.Contains(name) then horizontal.GetItem(name)
      else if parent == null then Err(TypeError)
      else parent.GetItem(name)
    }

    /** `get_binding_value`: the value of the first binding in search order;
        a name bound nowhere falls through to `context[name]`. */
    function GetBindingValue(name: string): (r: Result<Value>)
      requires Valid()
      reads Repr
      ensures match FirstHolder(SearchOrder(), name)
              case Some(c) => r == Ok(c.env[name])
              case None => r == MissingNameRead()
      ensures r.Err? ==> r.error == TypeError
      decreases depth
    {
      SearchOrderSplit(name);
      if name !in env then
        if horizontal != null && horizontal.Contains(name) then horizontal.GetBindingValue(name)
        else if parent != null && parent.Contains(name) then parent.GetBindingValue(name)
        else GetItem(name)
      else GetItem(name)
    }

    /** How the first holder in search order decomposes along the links. */
    lemma SearchOrderSplit(name: string)
      requires Valid()
      ensures FirstHolder(SearchOrder(), name) ==
        if name in env then Some(this)
        else if horizontal != null && horizontal.Contains(name) then FirstHolder(horizontal.SearchOrder(), name)
        else if parent != null then FirstHolder(parent.SearchOrder(), name)
        else None
      ensures FirstHolder(SearchOrder(), name).None? <==> !Contains(name)
    {
      SearchOrderAppend(name);
      HolderIffContains(name);
      if horizontal != null {
        horizontal.HolderIffContains(name);
      }
    }

    /** The search order's first holder is the own env's, else the
        horizontal order's, else the parent order's. */
    lemma SearchOrderAppend(name: string)
      requires Valid()
      ensures FirstHolder(SearchOrder(), name) ==
        if name in env then Some(this)
        else if horizontal != null && FirstHolder(horizontal.SearchOrder(), name).Some? then FirstHolder(horizontal.SearchOrder(), name)
        else if parent != null then FirstHolder(parent.SearchOrder(), name)
        else None
    {
      var hs := if horizontal != null then horizontal.SearchOrder() else [];
      var ps := if parent != null then parent.SearchOrder() else [];
      assert SearchOrder() == [this] + hs + ps;
      FirstHolderOfThree(this, hs, ps, name);
    }

    /** Some context in search order binds the name exactly when `name in
        context` holds. */
    lemma {:induction false} HolderIffContains(name: string)
      requires Valid()
      ensures FirstHolder(SearchOrder(), name).Some? <==> Contains(name)
      decreases depth
    {
      SearchOrderAppend(name);
      if horizontal != null {
        horizontal.HolderIffContains(name);
      }
      if parent != null {
        parent.HolderIffContains(name);
      }
    }

    /** The end of the chain of horizontal links from here. */
    ghost function HorizontalEnd(): (e: Context)
      requires Valid()
      ensures e in Repr && e.horizontal == null
      decreases depth
    {
      if horizontal == null then this else horizontal.HorizontalEnd()
    }

    /** The context whose env `set_mutable_binding` assigns: the first holder
        in search order when the name is bound somewhere; otherwise the end
        of the horizontal chain, which is this context itself only when it
        has no horizontal context. */
    ghost function WriteTarget(name: string): (t: Context)
      requires Valid()
      reads Repr
      ensures t in Repr
      ensures Contains(name) ==> FirstHolder(SearchOrder(), name) == Some(t) && name in t.env
      ensures !Contains(name) ==> t == HorizontalEnd()
      ensures t == this <==> name in env || (!Contains(name) && horizontal == null)
      decreases depth
    {
      SearchOrderSplit(name);
      if name in env then this
      else if horizontal != null && horizontal.Contains(name) then horizontal.WriteTarget(name)
      else if parent != null && parent.Contains(name) then parent.WriteTarget(name)
      else if horizontal != null then horizontal.WriteTarget(name)
      else this
    }

    /** `context[name] = v`: a local binding, whatever the links. */
    method SetLocal(name: string, v: Value)
      modifies this
      ensures env == old(env)[name := v]
    {
      env := env[name := v];
    }

    /** `set_mutable_binding`: exactly one env in the graph changes, at the
        one key, and the name then reads back as `v`. */
    method SetMutableBinding(name: string, v: Value)
      requires Valid()
      modifies Repr
      ensures var t := old(WriteTarget(name)); t.env == old(t.env)[name := v]
      ensures var t := old(WriteTarget(name)); forall c :: c in Repr && c != t ==> c.env == old(c.env)
      ensures Contains(name)
      ensures GetBindingValue(name) == Ok(v)
      decreases depth
    {
      ghost var t := WriteTarget(name);
      if name !in env {
        if horizontal != null && horizontal.Contains(name) {
          assert t == horizontal.WriteTarget(name);
          horizontal.SetMutableBinding(name, v);
          forall c | c in Repr && c != t
            ensures c.env == old(c.env)
          {
            if c in horizontal.Repr {
              assert c.env == old(c.env);
            }
          }
        } else if parent != null && parent.Contains(name) {
          assert t == parent.WriteTarget(name);
          if horizontal != null {
            horizontal.ContainsIffBound(name);
          }
          parent.SetMutableBinding(name, v);
          forall c | c in Repr && c != t
            ensures c.env == old(c.env)
          {
            if c in parent.Repr {
              assert c.env == old(c.env);
            }
          }
          assert name in old(t.env);
          if horizontal != null {
            forall c | c in horizontal.Repr
              ensures name !in c.env
            {
              assert name !in old(c.env);
            }
            horizontal.ContainsIffBound(name);
          }
        } else if horizontal != null {
          assert t == horizontal.WriteTarget(name);
          horizontal.SetMutableBinding(name, v);
          forall c | c in Repr && c != t
            ensures c.env == old(c.env)
          {
            if c in horizontal.Repr {
              assert c.env == old(c.env);
            }
          }
        } else {
          env := env[name := v];
        }
      } else {
        env := env[name := v];
      }
    }
  }

  /* ---------------------------------------------------------------------
     Interpreted functions
     --------------------------------------------------------------------- */

  /** The parameter bindings `prepare_args_dict` builds: every parameter and
      `arguments` are keys; a parameter takes the argument at its position,
      the last such position winning among duplicates, or Undefined when it
      has none; `arguments` is the whole argument list unless a parameter of
      that name replaced it. */
  ghost predicate BindsArguments(d: map<string, Value>, parameters: seq<string>, args: seq<Value>) {
    && (forall x :: x in d <==> x in parameters || x == "arguments")
    && ArgumentValues(d, parameters, args)
  }

  /** The values `prepare_args_dict` gives its keys, in a map holding them. */
  ghost predicate ArgumentValues(d: map<string, Value>, parameters: seq<string>, args: seq<Value>)
    requires "arguments" in d && forall x :: x in parameters ==> x in d
  {
    && ("arguments" !in parameters ==> d["arguments"] == List(args))
    && (forall x :: x in parameters ==> d[x] == BoundArgument(parameters, args, ZipLength(parameters, args), x))
  }

  /** How many (parameter, argument) pairs `zip` yields. */
  function ZipLength(parameters: seq<string>, args: seq<Value>): (n: nat)
    ensures n <= |parameters| && n <= |args|
    ensures n == |parameters| || n == |args|
  {
    if |parameters| < |args| then |parameters| else |args|
  }

  /** The value parameter `x` holds after the first `n` zipped pairs: the
      argument at its last position below `n`, or Undefined. */
  ghost function BoundArgument(parameters: seq<string>, args: seq<Value>, n: nat, x: string): Value
    requires n <= |parameters| && n <= |args|
  {
    var k := LastIndexBelow(parameters, n, x);
    if k < 0 then Undefined else args[k]
  }

  /** The local env `prepare_function_context` builds: the declared variables
      bound to Undefined, overridden by the parameter bindings. */
  ghost predicate BindsLocals(env: map<string, Value>, declared: seq<string>, parameters: seq<string>, args: seq<Value>) {
    && (forall x :: x in env <==> x in declared || x in parameters || x == "arguments")
    && (forall x :: x in declared && x !in parameters && x != "arguments" ==> env[x] == Undefined)
    && ArgumentValues(env, parameters, args)
  }

  /** The last position below `n` at which `s` holds `x`, or -1. */
  ghost function LastIndexBelow(s: seq<string>, n: nat, x: string): (k: int)
    requires n <= |s|
    ensures -1 <= k < n
  {
    if n == 0 then -1 else if s[n - 1] == x then n - 1 else LastIndexBelow(s, n - 1, x)
  }

  /** LastIndexBelow finds `x` at its result, and nowhere between its result
      and `n`. */
  lemma {:induction false} LastIndexBelowIsLast(s: seq<string>, n: nat, x: string)
    requires n <= |s|
    ensures LastIndexBelow(s, n, x) >= 0 ==> s[LastIndexBelow(s, n, x)] == x
    ensures forall j :: LastIndexBelow(s, n, x) < j < n ==> s[j] != x
  {
    if n > 0 && s[n - 1] != x {
      LastIndexBelowIsLast(s, n - 1, x);
    }
  }

  /** The map after the first loop of `prepare_args_dict` has declared the
      first `i` parameters as Undefined. */
  ghost predicate DeclaresPrefix(d: map<string, Value>, parameters: seq<string>, args: seq<Value>, i: nat)
    requires i <= |parameters|
  {
    && (forall x :: x in d <==> x in parameters[..i] || x == "arguments")
    && ("arguments" !in parameters[..i] ==> d["arguments"] == List(args))
    && (forall x :: x in parameters[..i] ==> d[x] == Undefined)
  }

  /** The map after the second loop of `prepare_args_dict` has bound the
      first `n` zipped pairs. */
  ghost predicate BindsPrefix(d: map<string, Value>, parameters: seq<string>, args: seq<Value>, n: nat)
    requires n <= |parameters| && n <= |args|
  {
    && (forall x :: x in d <==> x in parameters || x == "arguments")
    && ("arguments" !in parameters ==> d["arguments"] == List(args))
    && (forall x :: x in parameters ==> d[x] == BoundArgument(parameters, args, n, x))
  }

  /** Declaring the next parameter as Undefined extends the declared prefix. */
  lemma DeclareNext(d: map<string, Value>, parameters: seq<string>, args: seq<Value>, i: nat)
    requires i < |parameters| && DeclaresPrefix(d, parameters, args, i)
    ensures DeclaresPrefix(d[parameters[i] := Undefined], parameters, args, i + 1)
  {
    assert parameters[..i + 1] == parameters[..i] + [parameters[i]];
  }

  /** Once every parameter is declared, no pair is bound yet. */
  lemma NothingBoundYet(d: map<string, Value>, parameters: seq<string>, args: seq<Value>)
    requires DeclaresPrefix(d, parameters, args, |parameters|)
    ensures BindsPrefix(d, parameters, args, 0)
  {
    assert parameters[..|parameters|] == parameters;
  }

  /** Binding the next zipped pair extends the bound prefix. */
  lemma BindNext(d: map<string, Value>, parameters: seq<string>, args: seq<Value>, i: nat)
    requires i < |parameters| && i < |args| && BindsPrefix(d, parameters, args, i)
    ensures BindsPrefix(d[parameters[i] := args[i]], parameters, args, i + 1)
  {
  }

  /** After every zipped pair is bound, the map is what
      `prepare_args_dict` returns. */
  lemma AllPairsBound(d: map<string, Value>, parameters: seq<string>, args: seq<Value>)
    requires BindsPrefix(d, parameters, args, ZipLength(parameters, args))
    ensures BindsArguments(d, parameters, args)
  {
  }

  /** With distinct parameter names, parameter `k` takes the argument at
      position `k` when the call supplies one, and Undefined otherwise. */
  lemma DistinctParametersBind(d: map<string, Value>, parameters: seq<string>, args: seq<Value>, k: nat)
    requires BindsArguments(d, parameters, args)
    requires forall i, j :: 0 <= i < j < |parameters| ==> parameters[i] != parameters[j]
    requires k < |parameters|
    ensures d[parameters[k]] == if k < |args| then args[k] else Undefined
  {
    var n := ZipLength(parameters, args);
    var last := LastIndexBelow(parameters, n, parameters[k]);
    LastIndexBelowIsLast(parameters, n, parameters[k]);
    if k < n {
      assert last >= k;
    }
    if last >= 0 {
      assert parameters[last] == parameters[k];
    }
  }

  class Function {
    const parameters: seq<string>
    /** The body's `eval`, supplied by the parser's AST: a completion for each
        activation context. */
    const body: Context -> Completion
    const scope: Context?
    var horizontal: Context?
    var declaredVars: seq<string>

    ghost predicate Valid()
      reads this
    {
      && (scope != null ==> scope.Valid())
      && (horizontal != null ==> horizontal.Valid())
    }

    constructor (parameters: seq<string>, body: Context -> Completion, scope: Context?)
      requires scope != null ==> scope.Valid()
      ensures Valid()
      ensures this.parameters == parameters && this.body == body && this.scope == scope
      ensures horizontal == null && declaredVars == []
    {
      this.parameters := parameters;
      this.body := body;
      this.scope := scope;
      horizontal := null;
      declaredVars := [];
    }

    /** `prepare_args_dict`. */
    method PrepareArgsDict(args: seq<Value>) returns (d: map<string, Value>)
      ensures BindsArguments(d, parameters, args)
    {
      d := map["arguments" := List(args)];
      for i := 0 to |parameters|
        invariant DeclaresPrefix(d, parameters, args, i)
      {
        DeclareNext(d, parameters, args, i);
        d := d[parameters[i] := Undefined];
      }
      NothingBoundYet(d, parameters, args);
      for i := 0 to ZipLength(parameters, args)
        invariant BindsPrefix(d, parameters, args, i)
      {
        BindNext(d, parameters, args, i);
        d := d[parameters[i] := args[i]];
      }
      AllPairsBound(d, parameters, args);
    }

    /** `prepare_function_context`: a fresh context over the local bindings,
        with the captured scope as parent and the current horizontal scope. */
    method PrepareFunctionContext(args: seq<Value>) returns (ctx: Context)
      requires Valid()
      ensures fresh(ctx) && ctx.Valid()
      ensures ctx.parent == scope && ctx.horizontal == horizontal
      ensures BindsLocals(ctx.env, declaredVars, parameters, args)
    {
      var locals: map<string, Value> := map[];
      for i := 0 to |declaredVars|
        invariant forall x :: x in locals <==> x in declaredVars[..i]
        invariant forall x :: x in locals ==> locals[x] == Undefined
      {
        locals := locals[declaredVars[i] := Undefined];
      }
      assert declaredVars[..|declaredVars|] == declaredVars;
      var bindings := PrepareArgsDict(args);
      var env := locals + bindings;
      ctx := new Context(env, scope, horizontal);
    }

    /** `call`: a caller-supplied scope becomes this function's horizontal
        scope for this and every later call; the body runs in a fresh
        activation context; a RETURN completion yields its value and any
        other completion Undefined. */
    method Call(thisValue: Value, args: seq<Value>, callerScope: Context?) returns (r: Value, ghost activation: Context)
      requires Valid()
      requires callerScope != null ==> callerScope.Valid()
      modifies this
      ensures Valid() && declaredVars == old(declaredVars)
      ensures horizontal == if callerScope != null then callerScope else old(horizontal)
      ensures fresh(activation) && activation.Valid()
      ensures activation.parent == scope && activation.horizontal == horizontal
      ensures BindsLocals(activation.env, declaredVars, parameters, args)
      ensures r == if body(activation).kind == Return then body(activation).value else Undefined
    {
      if callerScope != null {
        horizontal := callerScope;
      }
      var functionContext := PrepareFunctionContext(args);
      activation := functionContext;
      var result := body(functionContext);
      if result.kind == Return {
        r := result.value;
      } else {
        r := Undefined;
      }
    }
  }
}
