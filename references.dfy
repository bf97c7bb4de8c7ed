/** The Reference type (section 8.7 of ECMA-262, 5.1 edition) as the runtime
    implements it: a name and a base that a read or a write is delegated to
    once it is resolved. An unresolvable reference has the UNDEFINED base. */
module References {

  import opened PyBuiltins
  import PyDict
  import opened Js

  /** What a reference can be resolved against. `OtherBase` is any other
      value held as a base (a str, a number, a bool, None, a function or a
      host list): none of them has `get_binding_value` or
      `set_mutable_binding`. */
  datatype Base =
    | UndefinedBase
    | Scope(ctx: Context)
    | ObjectBase(obj: JsObject)
    | ArrayBase(arr: JsArray)
    | StringBase(str: StringObject)
    | OtherBase(v: Value)

  datatype Reference = Reference(name: PropKey, base: Base) {

    /** `is_unresolvable`: the base is UNDEFINED, so there is nothing to read
        from or write to. */
    predicate IsUnresolvable()
      ensures IsUnresolvable() ==> Footprint() == {}
    {
      base.UndefinedBase?
    }

    /** The objects a write through this reference may change. */
    ghost function Footprint(): set<object> {
      match base
      case UndefinedBase => {}
      case Scope(c) => c.Repr
      case ObjectBase(o) => {o}
      case ArrayBase(a) => {a}
      case StringBase(s) => {s}
      case OtherBase(_) => {}
    }

    /** A scope is searched by identifier; an Object keeps distinct keys;
        UNDEFINED, Objects, Arrays and StringObjects have bases of their own. */
    ghost predicate Valid()
      reads Footprint()
    {
      && (base.Scope? ==> base.ctx.Valid() && name.Name?)
      && (base.ObjectBase? ==> base.obj.Valid())
      && (base.OtherBase? ==> !(base.v.Undefined? || base.v.ObjectRef? || base.v.ArrayRef? || base.v.StringRef?))
    }

    /** `get_value`: the base's `get_binding_value`. */
    function GetValue(): (r: Result<Value>)
      requires Valid()
      reads Footprint()
      ensures r == Err(ReferenceError) <==> IsUnresolvable()
      ensures base.Scope? ==>
        match FirstHolder(base.ctx.SearchOrder(), name.text)
        case Some(c) => r == Ok(c.env[name.text])
        case None => r == base.ctx.MissingNameRead()
      ensures base.ObjectBase? ==> r == base.obj.GetItem(name) && (r.Ok? <==> KeyString(name) in PyDict.Keys(base.obj.d))
      ensures base.ArrayBase? ==> r == base.arr.GetItem(name)
      ensures base.StringBase? ==> r == base.str.GetItem(name)
      ensures base.OtherBase? ==> r == Err(AttributeError)
    {
      match base
      case UndefinedBase => Err(ReferenceError)
      case Scope(c) => c.GetBindingValue(name.text)
      case ObjectBase(o) => o.GetItem(name)
      case ArrayBase(a) => a.GetItem(name)
      case StringBase(s) => s.GetItem(name)
      case OtherBase(_) => Err(AttributeError)
    }

    /** `put_value`: the base's `set_mutable_binding`, with that method's
        whole effect. A write that succeeds through a scope, an Object or an
        Array reads back through the same reference. */
    method PutValue(v: Value) returns (st: Status)
      requires Valid()
      modifies Footprint()
      ensures Valid()
      ensures st == Raised(ReferenceError) <==> IsUnresolvable()
      ensures base.Scope? || base.ObjectBase? ==> st == Done
      ensures Effect(this, v, st)
      ensures (base.Scope? || base.ObjectBase? || base.ArrayBase?) && st == Done ==> GetValue() == Ok(v)
    {
      match base
      case UndefinedBase =>
        st := Raised(ReferenceError);
      case Scope(c) =>
        c.SetMutableBinding(name.text, v);
        st := Done;
      case ObjectBase(o) =>
        o.SetItem(name, v);
        st := Done;
      case ArrayBase(a) =>
        st := a.SetItem(name, v);
      case StringBase(s) =>
        st := s.SetItem(name, v);
      case OtherBase(_) =>
        st := Raised(AttributeError);
    }
  }

  /** What a write of `v` through `ref` did, by base: in a scope, the write
      target's env gains the binding and every other context of the graph
      keeps its env; an Object's dict stores the key; an Array's list and
      the outcome are those of `ArrayAssignment`; a StringObject's text is
      rebuilt when the index and the value are accepted, and is otherwise
      kept, with ValueError or TypeError; any other base raises
      AttributeError. */
  twostate predicate Effect(ref: Reference, v: Value, st: Status)
    reads ref.Footprint()
  {
    match ref.base
    case UndefinedBase => st == Raised(ReferenceError)
    case Scope(c) =>
      && c.Valid() && ref.name.Name?
      && var t := old(c.WriteTarget(ref.name.text));
      && t.env == old(t.env)[ref.name.text := v]
      && (forall x :: x in c.Repr && x != t ==> x.env == old(x.env))
    case ObjectBase(o) => o.d == PyDict.Store(old(o.d), KeyString(ref.name), v)
    case ArrayBase(a) => (st, a.items) == ArrayAssignment(old(a.items), ref.name, v)
    case StringBase(s) =>
      if ToInt(ref.name).Err? then st == Raised(ValueError) && s.value == old(s.value)
      else if old(TextOf(v)).None? then st == Raised(TypeError) && s.value == old(s.value)
      else st == Done && s.value == ReplaceAt(old(s.value), ToInt(ref.name).value, old(TextOf(v)).value)
    case OtherBase(_) => st == Raised(AttributeError)
  }

  /** What an expression evaluates to before `get_value`/`put_value`. */
  datatype Operand = RefOperand(ref: Reference) | ValueOperand(v: Value)

  ghost predicate OperandValid(x: Operand)
    reads if x.RefOperand? then x.ref.Footprint() else {}
  {
    x.RefOperand? ==> x.ref.Valid()
  }

  /** Module-level `get_value`: a reference is resolved, any other value is
      its own value. */
  function GetValueOf(x: Operand): (r: Result<Value>)
    requires OperandValid(x)
    reads if x.RefOperand? then x.ref.Footprint() else {}
    ensures x.ValueOperand? ==> r == Ok(x.v)
    ensures r == Err(ReferenceError) <==> x.RefOperand? && x.ref.IsUnresolvable()
  {
    match x
    case RefOperand(ref) => ref.GetValue()
    case ValueOperand(v) => Ok(v)
  }

  /** Module-level `put_value`: only a reference can be written. */
  method PutValueOf(x: Operand, v: Value) returns (st: Status)
    requires OperandValid(x)
    modifies if x.RefOperand? then x.ref.Footprint() else {}
    ensures OperandValid(x)
    ensures st == Raised(ReferenceError) <==> x.ValueOperand? || x.ref.IsUnresolvable()
    ensures x.RefOperand? ==> Effect(x.ref, v, st)
    ensures x.RefOperand? && (x.ref.base.Scope? || x.ref.base.ObjectBase? || x.ref.base.ArrayBase?) && st == Done ==>
      GetValueOf(x) == Ok(v)
  {
    match x
    case RefOperand(ref) =>
      st := ref.PutValue(v);
    case ValueOperand(_) =>
      st := Raised(ReferenceError);
  }

  /** A write to a name bound nowhere, from a context with an empty env, no
      parent and an empty horizontal context, lands in the horizontal
      context; the writing context stays without the name, yet reads it. */
  method HorizontalWriteExample() returns (inHorizontal: Option<Value>, local: bool, read: Result<Value>)
    ensures inHorizontal == Some(Num(5)) && !local && read == Ok(Num(5))
  {
    var h := new Context(map[], null, null);
    var c := new Context(map[], null, h);
    assert !c.Contains("x");
    assert c.WriteTarget("x") == h;
    c.SetMutableBinding("x", Num(5));
    inHorizontal := if "x" in h.env then Some(h.env["x"]) else None;
    local := "x" in c.env;
    read := c.GetBindingValue("x");
  }
}
