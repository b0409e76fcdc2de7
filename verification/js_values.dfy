/** JavaScript values as the console wrappers receive them.
    Primitive values are held inline; every object lives in a `Heap` under an address, so
    arrays and objects may refer to each other, or to themselves, in cycles. */
module JsValues {
  import opened JsStrings

  datatype Option<T> = None | Some(value: T)

  type Addr = nat

  /** A value as `typeof` tells it apart. Where the runtime's own text for a value is not
      part of this model (number formatting, a function's source text) it is carried as data. */
  datatype Value =
    | Undefined
    | Null
    | Bool(b: bool)
      /** `repr` is `String(x)`; `finite` is false for NaN and the infinities */
    | Num(repr: string, finite: bool)
      /** `digits` is `String(x)` of a BigInt */
    | BigInt(digits: string)
    | Str(s: string)
    | Symbol(description: string)
      /** `source` is `String(f)`, the function's source text */
    | Func(name: string, source: string)
    | Ref(addr: Addr)

  /** Reading an own property either yields a value or runs a getter that throws. */
  datatype Getter = Data(value: Value) | Throwing

  datatype Prop = Prop(key: string, getter: Getter)

  datatype Shape =
    | ArrayOf(items: seq<Value>)
      /** own enumerable properties in `Object.keys` order */
    | Plain(props: seq<Prop>)
      /** `iso` is `toISOString()`, or None for an invalid date (where it throws) */
    | DateObj(iso: Option<string>)
    | RegExpObj(source: string, flags: string)
    | ErrorObj(name: string, message: string, stack: Option<string>)

  /** An object; `display` is `String(obj)`, which the model leaves uninterpreted. */
  datatype Obj = Obj(shape: Shape, display: string)

  type Heap = map<Addr, Obj>

  predicate InHeap(h: Heap, v: Value) {
    v.Ref? ==> v.addr in h
  }

  predicate ShapeInHeap(h: Heap, sh: Shape) {
    match sh
    case ArrayOf(items) => forall i :: 0 <= i < |items| ==> InHeap(h, items[i])
    case Plain(props) => forall i :: 0 <= i < |props| ==> props[i].getter.Data? ==> InHeap(h, props[i].getter.value)
    case _ => true
  }

  /** Every reference stored in an object of the heap points into the heap. */
  predicate Closed(h: Heap) {
    forall a :: a in h ==> ShapeInHeap(h, h[a].shape)
  }

  /** JavaScript truthiness. */
  predicate Truthy(v: Value) {
    match v
    case Undefined => false
    case Null => false
    case Bool(b) => b
    case Num(repr, _) => repr != "0" && repr != "NaN"
    case BigInt(digits) => digits != "0"
    case Str(s) => s != ""
    case _ => true
  }

  /** `String(x)`. */
  function ToJsString(h: Heap, v: Value): string
    requires InHeap(h, v)
  {
    match v
    case Undefined => "undefined"
    case Null => "null"
    case Bool(b) => if b then "true" else "false"
    case Num(repr, _) => repr
    case BigInt(digits) => digits
    case Str(s) => s
    case Symbol(d) => "Symbol(" + d + ")"
    case Func(_, source) => source
    case Ref(a) => h[a].display
  }

  /** The array index that a property key names: its canonical decimal form. */
  function ArrayIndex(key: string): (r: Option<nat>)
    ensures r.Some? ==> key == NatToString(r.value)
  {
    if |key| > 0 && (forall i :: 0 <= i < |key| ==> IsDigit(key[i])) && (|key| == 1 || key[0] != '0')
    then
      CanonicalDigits(key);
      Some(DecimalValue(key))
    else None
  }

  lemma {:induction false} CanonicalDigits(key: string)
    requires |key| > 0 && forall i :: 0 <= i < |key| ==> IsDigit(key[i])
    requires |key| == 1 || key[0] != '0'
    ensures NatToString(DecimalValue(key)) == key
  {
    var pre := key[..|key| - 1];
    var d := DigitValue(key[|key| - 1]);
    if |key| > 1 {
      assert |pre| == 1 || pre[0] != '0';
      CanonicalDigits(pre);
      assert DecimalValue(pre) > 0;
      var n := DecimalValue(key);
      assert n / 10 == DecimalValue(pre) && n % 10 == d;
    }
  }

  function FindProp(props: seq<Prop>, key: string): (r: Option<Getter>)
    ensures r.Some? <==> exists i :: 0 <= i < |props| && props[i].key == key
    ensures r.Some? ==> exists i :: (0 <= i < |props| && props[i].key == key && props[i].getter == r.value
                                     && forall j :: 0 <= j < i ==> props[j].key != key)
  {
    if |props| == 0 then None
    else if props[0].key == key then Some(props[0].getter)
    else
      var r := FindProp(props[1..], key);
      assert forall i :: 1 <= i < |props| ==> props[i] == props[1..][i - 1];
      r
  }

  /** The own, non-enumerable properties the runtime gives an error: its `message`, and its
      `stack` when it has one. */
  function ErrorProps(message: string, stack: Option<string>): seq<Prop> {
    [Prop("message", Data(Str(message)))] + (if stack.Some? then [Prop("stack", Data(Str(stack.value)))] else [])
  }

  /** The own property `name` of a function. */
  function FunctionProps(name: string): seq<Prop> {
    [Prop("name", Data(Str(name)))]
  }

  /** Reading `key` from a list of own properties: undefined when none has that key. */
  function ReadProp(props: seq<Prop>, key: string): Getter {
    var g := FindProp(props, key);
    if g.Some? then g.value else Data(Undefined)
  }

  /** `v[key]` for own properties: own keys of plain objects, indices of arrays and strings,
      an error's `message` and `stack`, a function's `name`. Inherited properties, `length`
      and a regular expression's `lastIndex` read as undefined. */
  function GetProperty(h: Heap, v: Value, key: string): (r: Getter)
    requires Closed(h) && InHeap(h, v)
    ensures r.Data? ==> InHeap(h, r.value)
  {
    match v
    case Ref(a) =>
      (match h[a].shape
       case ArrayOf(items) =>
         var idx := ArrayIndex(key);
         if idx.Some? && idx.value < |items| then Data(items[idx.value]) else Data(Undefined)
       case Plain(props) => ReadProp(props, key)
       case ErrorObj(_, message, stack) => ReadProp(ErrorProps(message, stack), key)
       case _ => Data(Undefined))
    case Str(s) =>
      var idx := ArrayIndex(key);
      if idx.Some? && idx.value < |s| then Data(Str([s[idx.value]])) else Data(Undefined)
    case Func(name, _) => ReadProp(FunctionProps(name), key)
    case _ => Data(Undefined)
  }

  /** `Object.keys(obj)` for an object value. */
  function OwnKeys(h: Heap, v: Value): (keys: seq<string>)
    requires InHeap(h, v)
    ensures v.Ref? && h[v.addr].shape.Plain? ==>
      |keys| == |h[v.addr].shape.props| && forall i :: 0 <= i < |keys| ==> keys[i] == h[v.addr].shape.props[i].key
  {
    match v
    case Ref(a) =>
      (match h[a].shape
       case ArrayOf(items) => seq(|items|, i requires 0 <= i => NatToString(i))
       case Plain(props) => seq(|props|, i requires 0 <= i < |props| => props[i].key)
       case _ => [])
    case _ => []
  }
}
