# jspy runtime core in Dafny

This project models the value-and-scope runtime of jspy, a JavaScript interpreter written in Python (`jspy/js.py`). It also proves properties of that model. The model covers:

- completion records;
- the three property containers: Object, Array and StringObject;
- execution contexts linked by a lexical `parent` and a dynamic `horizontal` overlay, and how reads and writes are resolved through them;
- interpreted-function activation;
- the Reference type;
- `to_python`;
- Python `==` on runtime values.

Modules:

- `PyBuiltins` (`builtins.dfy`): the Python built-ins the runtime relies on for property names. These are `str()` of an integral float, `int()` of a name, negative list indices and slice bounds.
- `PyDict` (`pydict.dfy`): a Python dict with string keys, kept as an insertion-ordered association list. Iteration and `==` follow that order.
- `Js` (`js.dfy`):
  - runtime values, completions and property keys;
  - the classes `JsObject`, `JsArray`, `StringObject`, `NativeFunction` and `StaticNativeFunction`;
  - the class `Context` (an execution context);
  - the class `Function`.
- `Conversion` (`conversion.dfy`): `to_python`.
- `Equality` (`equality.dfy`): `==`. It follows Python's operator dispatch: the reflected operand is consulted, and a subclass operand is asked first.
- `References` (`references.dfy`): `Reference`, `get_value` and `put_value`.

Contexts are heap objects shared by reference. Each context carries a ghost `depth` that strictly decreases along both links, and a ghost `Repr` that holds everything reachable from it. So the context graph is acyclic, and the recursive lookups terminate.

Reads are specified against one search order: the context itself, then the whole search order of its horizontal context, then that of its parent. Writes are specified against `WriteTarget`, the single context whose env a write changes.

A function body's `eval` belongs to the AST module, which is not part of this model. Here it is a total function from the activation context to a completion.

Numbers are the lexer's floats. The model keeps their integral value (`Num(n: int)`). `str()` of such a float prints it with a trailing `.0`. The one Python int the core produces, the `length` of an Array or StringObject, is also held as a `Num` (see "Left out").

## Model

| member | source | states |
|---|---|---|
| Js.EmptyCompletionIsNormal | jspy/js.py:20 | `EMPTY_COMPLETION` is not abrupt, and carries EMPTY as both its value and its target |
| Js.Completion.IsAbrupt | jspy/js.py:23-24 | a completion is abrupt exactly when its type is BREAK, CONTINUE, RETURN or THROW, i.e. not NORMAL |
| Js.KeyString | jspy/js.py:42-46 | `str(name)`: a member name is its own key; a numeric (float) subscript's key ends in ".0" |
| Js.ToInt | jspy/js.py:84-95 | `int(name)`: a numeric subscript is its own value, a name is read as a decimal integer, and the only failure is ValueError |
| Js.NumberKeysDistinct | jspy/js.py:42-46 | distinct numeric subscripts name distinct Object keys |
| Js.DecimalNameIsIndex | jspy/js.py:84-95 | a name spelling an integer in decimal, as `str()` of a Python int prints it (`IntToDecimal`), is read by `int()` as that integer, as the number itself is |
| PyBuiltins.ParseIntRoundTrip | jspy/js.py:84-95 | `int()` of the decimal text of any integer gives that integer back |
| PyBuiltins.PyIndex | jspy/js.py:84-95 | an index is valid exactly when it lies in [-len, len); a negative one counts from the end |
| PyDict.Store | jspy/js.py:45-46 | `d[k] = v` with a key the dict lacks appends the entry (k, v) at the end |
| PyDict.StoreLookup | jspy/js.py:45-46 | after `d[k] = v`, k reads back v and every other key reads as before |
| PyDict.StoreKeys | jspy/js.py:45-46 | after `d[k] = v` the keys are the old keys plus k; an existing key keeps its position and the dict its length |
| PyDict.StoreDistinct | jspy/js.py:45-46 | `d[k] = v` keeps the keys distinct |
| PyDict.Lookup | jspy/js.py:42-43 | `d[k]` finds a value exactly when k is one of the dict's keys, and then it is the value of an entry with key k |
| PyDict.LookupEntry | jspy/js.py:42-43 | in a dict with distinct keys, every entry is what a lookup of its key finds |
| Js.JsObject.constructor | jspy/js.py:37-40 | a new Object holds the given entries, whose keys are distinct |
| Js.JsObject.GetItem | jspy/js.py:42-43 | `o[name]` succeeds exactly when `str(name)` is a key and yields that entry's value; otherwise KeyError |
| Js.JsObject.Get | jspy/js.py:48-52 | `o.get(name)` is Undefined for a missing key and otherwise agrees with `o[name]` |
| Js.JsObject.SetItem | jspy/js.py:45-46 | the dict becomes `Store(old, str(name), v)`; the name reads back v; no other key's read changes; keys stay distinct |
| Js.JsArray.constructor | jspy/js.py:77-82 | the new array holds a copy of the given items in order |
| Js.JsArray.GetItem | jspy/js.py:84-90 | "length" is the item count; a name `int()` rejects is a ValueError; an index in [-len, len) yields that item (counting from the end when negative); any other index is an IndexError |
| Js.JsArray.Get | jspy/js.py:97-101 | a host index reads an item exactly when it lies in [-len, len); otherwise IndexError |
| Js.ArrayAssignment | jspy/js.py:92-95 | for index i ≥ 0: length becomes max(old length, i+1); slot i holds v; other old items are unchanged; the gap [old length, i) is Undefined; a non-numeric name raises ValueError and changes nothing; a negative index wraps or raises IndexError and changes nothing; the list never shrinks |
| Js.JsArray.SetItem | jspy/js.py:92-95 | the outcome and the new list are those of `ArrayAssignment` on the old list; a successful write reads back |
| Js.StringObject.constructor | jspy/js.py:131-133 | a new StringObject holds the given text |
| Js.StringObject.GetItem | jspy/js.py:135-138 | "length" is the text length; otherwise `int()` of the name picks one character (from the end when negative), or raises ValueError or IndexError |
| Js.StringObject.Get | jspy/js.py:151-155 | a host index reads a character exactly when it lies in [-len, len) |
| Js.StringObject.SetItem | jspy/js.py:140-142 | the text becomes `old[:i] + v + old[i+1:]`; ValueError for a non-numeric name; TypeError when v is neither a str nor a StringObject; "length" always reports the current text length |
| PyBuiltins.ReplaceAt | jspy/js.py:142 | for 0 ≤ i < len, the new length is len − 1 + \|v\|; for i ≥ len, v is appended |
| Js.StringObject.Equals | jspy/js.py:169-176 | equal exactly to a str or a StringObject with the same text |
| Js.TextOf | jspy/js.py:145-149 | what `str + v` accepts: exactly a str or a StringObject |
| Js.FirstHolderIsFirst | jspy/js.py:373-383 | the first holder in a search order is the earliest context binding the name; there is none exactly when no context binds it |
| Js.Context.constructor | jspy/js.py:348-352 | a new context has the given env, parent and horizontal, and is a well-formed (acyclic) graph whenever its links are |
| Js.Context.Contains | jspy/js.py:368-371 | `name in context` holds whenever the context's own env binds the name |
| Js.Context.ContainsIffBound | jspy/js.py:368-371 | `name in context` holds exactly when some context reachable through parent and horizontal links binds the name |
| Js.Context.HolderIffContains | jspy/js.py:368-383 | some context in search order binds the name exactly when `name in context` holds |
| Js.Context.SearchOrderSplit | jspy/js.py:354-383 | own env first, then horizontal when it contains the name (even if the parent also does), then parent; nothing found exactly when `name in context` is false |
| Js.Context.GetItem | jspy/js.py:354-363 | `context[name]` is the value at the first holder in search order; a name bound nowhere reads Undefined at a root without horizontal, and otherwise raises TypeError from `None[name]` |
| Js.Context.GetBindingValue | jspy/js.py:373-383 | `get_binding_value` reads the first binding in search order, with the same fallback for absent names; its only failure is that TypeError |
| Js.Context.MissingNameRead | jspy/js.py:354-363 | an absent name reads Undefined or raises TypeError, and nothing else |
| Js.Context.WriteTarget | jspy/js.py:385-399 | the env a write changes: the first holder when the name is bound somewhere (so no new key is created); otherwise the end of the horizontal chain; the writing context itself only when it already binds the name, or when the name is absent everywhere and it has no horizontal context |
| Js.Context.SetMutableBinding | jspy/js.py:385-399 | exactly the target env changes, at exactly the one key; every other context in the graph is untouched; afterwards the name is contained and reads back as v |
| Js.Context.SetLocal | jspy/js.py:365-366 | `context[name] = v` binds the name in the own env only |
| References.HorizontalWriteExample | jspy/js.py:385-399 | with an empty context C (no parent) over an empty horizontal H, writing x = 5 binds x in H to 5; C's env stays without x; C reads x as 5 |
| Js.Function.constructor | jspy/js.py:187-192 | a new function keeps its parameters, body and scope, with no horizontal scope and no declared variables yet |
| Js.NativeFunction.constructor | jspy/js.py:243-244 | a NativeFunction holds exactly the host callable it is given |
| Js.StaticNativeFunction.constructor | jspy/js.py:259-260 | a StaticNativeFunction holds exactly the host callable it is given |
| Js.Function.PrepareArgsDict | jspy/js.py:225-231 | keys are the parameters plus "arguments"; each parameter holds the argument at its last zipped position, else Undefined; "arguments" is the argument list unless a parameter of that name overrides it |
| Js.DistinctParametersBind | jspy/js.py:225-231 | with distinct parameter names, parameter k is bound to args[k] when k < \|args\| and to Undefined otherwise |
| Js.Function.PrepareFunctionContext | jspy/js.py:218-223 | the fresh context binds declared vars ∪ parameters ∪ {"arguments"}; declared-only names are Undefined; the parameter bindings override; parent = scope and horizontal = the function's current horizontal |
| Js.Function.Call | jspy/js.py:194-216 | a supplied caller scope becomes the function's horizontal and stays for later calls without one; the body runs in a fresh activation built as above; a RETURN completion yields its value and any other completion Undefined |
| Conversion.Converted | jspy/js.py:27-31 | `to_python` as a function: it fails with RecursionError once no depth is left, and an Object that converts becomes a dict |
| Conversion.ToPython | jspy/js.py:27-31 | agrees with `Converted`: an Object becomes a dict; a StringObject its text; a Function a ValueError; a NativeFunction its callable; anything else, StaticNativeFunction included, itself |
| Conversion.ObjectToPython | jspy/js.py:66-70 | the loop's result is the Object's conversion: its members' conversions stored key by key in dict order, or, when several members fail, the error of the first failing one in dict order, where the loop stops |
| Conversion.FirstFailingMember | jspy/js.py:66-70 | when the members do not all convert, the error reported is that of the first member in dict order that fails, and every member before it converts |
| Conversion.MembersConverted | jspy/js.py:68-69 | each value the loop stores is its member's own conversion |
| Conversion.StoreAllAppends | jspy/js.py:66-70 | storing distinct keys that the dict lacks, one by one, appends them in their order |
| Conversion.ObjectConversion | jspy/js.py:66-70 | a converted Object is a dict with the same keys in the same order, each holding its member's conversion |
| Conversion.ObjectWithFunctionFails | jspy/js.py:236-237 | an Object with an interpreted function among its members never converts |
| Conversion.ConvertedFuelStable | jspy/js.py:27-31 | a conversion that does not hit the recursion limit gives the same result with any greater depth |
| Equality.Eq | jspy/js.py:63-64 | `a == b` fails only with AttributeError (from `other.d`) or RecursionError |
| Equality.ObjectEq | jspy/js.py:63-64 | `Object.__eq__`: against a StringObject it is False; against anything without a `d` it raises AttributeError; against an Object with a dict of another size it is False; it fails with nothing but AttributeError or RecursionError |
| Equality.SameEntriesEqual | jspy/js.py:63-64 | two Objects holding the same entries, in any order, are equal |
| Equality.SharedDictEqual | jspy/js.py:63-64 | an Object equals itself and any Object with the same dict |
| Equality.EqualObjectsMatch | jspy/js.py:63-64 | two Objects that compare equal have dicts of the same size, and every left key is a right key whose value compares equal (or is the same value) |
| Equality.MissingKeyUnequal | jspy/js.py:63-64 | dicts are unequal once the comparison reaches a left key the right dict lacks |
| Equality.ObjectAgainstString | jspy/js.py:63-64 | Object vs StringObject is False in either order; Object vs any other non-Object raises AttributeError in either order |
| Equality.TextEquality | jspy/js.py:169-176 | a str and a StringObject compare by text in either order |
| Equality.ArrayComparisonRaises | jspy/js.py:63-64 | an Array compared with anything but a StringObject raises AttributeError, itself included, because Array never sets `d` |
| Equality.EqFuelStable | jspy/js.py:63-64 | a comparison that does not hit the recursion limit gives the same result with any greater depth |
| References.Reference.IsUnresolvable | jspy/js.py:417-418 | an unresolvable reference (UNDEFINED base) has nothing to read from or write to |
| References.Reference.GetValue | jspy/js.py:426-429 | raises ReferenceError exactly when the base is UNDEFINED; a scope base reads the first binding in search order; an Object, Array or StringObject base gives exactly what that object's `__getitem__` gives (`GetItem`), and an Object base succeeds exactly when the key is present; a base without `get_binding_value` raises AttributeError |
| References.Reference.PutValue | jspy/js.py:431-436 | raises ReferenceError exactly when the base is UNDEFINED (for values whose `repr` succeeds, see "Left out"); otherwise has the whole effect of the base's `set_mutable_binding` (`Effect`): the write target's env and nothing else in a scope, `Store` on an Object, `ArrayAssignment` on an Array, the rebuilt text or the error on a StringObject, AttributeError on any other base; a write through a scope, Object or Array reads back |
| References.GetValueOf | jspy/js.py:442-449 | a non-reference is its own value; ReferenceError only for an unresolvable reference |
| References.PutValueOf | jspy/js.py:452-460 | any non-reference raises ReferenceError (when its `repr` succeeds, see "Left out"); a reference write has the whole effect `Effect` states; a successful write through a scope, Object or Array reference reads back |

## Left out

- The lexer (`jspy/lexer.py`) and the AST module that evaluates nodes: neither is part of this model. A body's `eval` is a parameter of `Function`, a total function of the activation context.
- Js.Function.Call: the body is a `->` function, which reads no heap state. So a body's completion cannot depend on the values bound in its activation, e.g. `function f(a) { return a }` called as `f(7)` cannot be modelled as returning 7. A body also cannot write through its contexts, and cannot re-enter `call` with another scope, which in the source reassigns `horizontal` again (jspy/js.py:200). `Call`'s frame (`modifies this`) and its final `horizontal` hold only under that restriction.
- `Console` (stdout and terminal-size I/O) and `Math` (floating-point functions).
- The bodies of the host callables behind `NativeFunction.call` and `StaticNativeFunction.call`. A native function is only the identity of its callable.
- Floating point. Numbers are integral. `str()` of a float of 1e16 or more (exponent notation) is not modelled. Neither are `int()` of names with surrounding whitespace or underscores, or float subscripts with a fraction.
- `Array.__repr__` (jspy/js.py:109-115) is not modelled. It is reached from the ReferenceError messages of `put_value` (see the next two lines) and from the `repr` of any Object, Array, list or context that holds an Array. It unpacks every item into a (key, value) pair, so for a non-empty Array it raises, usually TypeError. `Array.__str__` and `StringObject.__repr__`/`__str__` only print.
- References.Reference.PutValue: assumes `repr` of the assigned value succeeds. The source builds the ReferenceError message with `%r` of the value (jspy/js.py:433), and `repr` raises instead (usually TypeError) when the value is, or reaches, a non-empty Array (jspy/js.py:109-115). The ensures `st == Raised(ReferenceError) <==> IsUnresolvable()` holds only for values whose `repr` succeeds.
- References.PutValueOf: assumes `repr` of the operand succeeds. The source formats the "non-reference" ReferenceError with `%r` of the operand (jspy/js.py:459-460), which raises instead (usually TypeError) for a non-empty Array or anything reaching one (jspy/js.py:109-115). The ensures that a non-reference gives ReferenceError holds only for such operands; for a reference operand the same holds as for `Reference.PutValue`.
- Js.Context.constructor: the source keeps the caller's `env` dict itself (jspy/js.py:350), so a later write through the dict is seen by the context and the other way round. The model's `env` is a value; sharing between a context and its creator is not modelled.
- Js.ToInt and PyBuiltins.ParseInt accept an optional sign and ASCII digits only. Python's `int()` also accepts the other Unicode decimal digits ("١٢", "１２"); such names raise ValueError here, but the source reads them as indexes.
- Js.Context.Contains, Js.Context.GetItem, Js.Context.GetBindingValue, Js.Context.SetMutableBinding: total on every well-formed (acyclic) context graph. The source recurses once per parent or horizontal link (jspy/js.py:368-399), so a chain longer than Python's recursion limit raises RecursionError; that outcome is not modelled.
- Conversion.Converted: a non-empty Array is modelled as a TypeError. The source sorts the items by `x[0]` and unpacks each into a pair. That raises TypeError when an item is a number, a boolean, Undefined, Null or a function. Other items give other outcomes, none of them modelled: a str of length other than two raises ValueError (IndexError when empty); an Object item raises KeyError from `x[0]`; a two-character str or a two-element list converts.
- `StringObject.__add__` and `__radd__`: modelled only through `TextOf`, i.e. which right operands a text assignment accepts.
- `ExecutionContext.get_this_reference`, `Reference.has_primitive_base` and `Reference.is_property`: none of them is reached from the modelled operations.
- References.Reference.Valid: it requires a scope reference's name to be an identifier. This assumes the AST module, which is not part of this model, builds scope references only from identifiers. Env keys are strings.
- Js.JsArray.Get and Js.StringObject.Get take a host integer. The host's other index forms (slices, floats) are not modelled.
- Conversion.Converted, Equality.Eq: `fuel` stands for Python's recursion limit. A comparison or conversion that runs out of it is a RecursionError. The actual limit counts interpreter frames, not nesting levels.
- Equality.Eq: Python's identity of floats, strs and lists is not modelled. Containers compare members with an identity shortcut, and here that is structural equality of the values. For these immutable values it gives the same answers.
- Js.KeyString, Js.JsArray.GetItem, Js.StringObject.GetItem: `length` is a Python int in the source (jspy/js.py:86, jspy/js.py:137) and `Num(len)` here, the same value as a float. `str()` of that int has no ".0", so an Object subscripted by a length stores under "3" in the source and under "3.0" in the model.
- Js.PropKey: a property name is a string or an integral float. Other subscripts the source accepts are not representable: bool (`str(True)`, `int(True)`), StringObject, None and UNDEFINED.
- Js.JsObject.constructor: the source keeps the caller's dict by reference (`self.d = items`), so two Objects built from one dict share writes. The model copies the entries into the new Object.
