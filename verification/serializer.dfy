/** The bounded-depth serializer `safeStringify` of the console capture script. */
module Serializer {
  import opened JsStrings
  import opened JsValues

  /** Recursion stops below this depth (LIMITS.MAX_STRINGIFY_DEPTH). */
  const MaxDepth: nat := 10
  /** At most this many keys of an object are written (LIMITS.MAX_OBJECT_KEYS). */
  const MaxObjectKeys: nat := 50

  const DepthSentinel := "[Max Depth Reached]"
  const NonSerializable := "[Circular or Non-Serializable Object]"
  const KeyErrorSentinel := "[Error serializing]"

  function HexDigit(d: nat): char
    requires d < 16
  {
    "0123456789abcdef"[d]
  }

  /** One character as `JSON.stringify` writes it inside a string literal. */
  function JsonEscape(c: char): string {
    if c == '"' then "\\\""
    else if c == '\\' then "\\\\"
    else if c == '\U{0008}' then "\\b"
    else if c == '\U{000C}' then "\\f"
    else if c == '\n' then "\\n"
    else if c == '\r' then "\\r"
    else if c == '\t' then "\\t"
    else if c < ' ' then "\\u00" + [HexDigit(c as int / 16), HexDigit(c as int % 16)]
    else [c]
  }

  function JsonEscapeAll(s: string): string {
    if |s| == 0 then "" else JsonEscape(s[0]) + JsonEscapeAll(s[1..])
  }

  /** `JSON.stringify(s)` of a string. */
  function JsonQuote(s: string): string {
    "\"" + JsonEscapeAll(s) + "\""
  }

  /** `.replace(/\\n/g, '\n')`: every backslash followed by `n`, left to right, becomes a newline. */
  function UnescapeNewlines(s: string): string {
    if |s| >= 2 && s[0] == '\\' && s[1] == 'n' then "\n" + UnescapeNewlines(s[2..])
    else if |s| == 0 then ""
    else [s[0]] + UnescapeNewlines(s[1..])
  }

  /** `JSON.stringify({name, message, stack})`, where an undefined stack is omitted. */
  function ErrorJson(name: string, message: string, stack: Option<string>): string {
    "{\"name\":" + JsonQuote(name) + ",\"message\":" + JsonQuote(message)
    + (if stack.Some? then ",\"stack\":" + JsonQuote(stack.value) else "") + "}"
  }

  function FunctionText(name: string): string {
    "[Function: " + (if name == "" then "anonymous" else name) + "]"
  }

  /** `safeStringify(obj, depth)`. Every recursive call is made at `depth + 1` and the guard
      answers every call deeper than `MaxDepth`, so the serializer terminates on any heap,
      cyclic ones included: the `decreases` clause is that argument. */
  function SafeStringify(h: Heap, v: Value, depth: nat): (r: string)
    requires Closed(h) && InHeap(h, v)
    ensures depth > MaxDepth ==> r == DepthSentinel
    decreases MaxDepth + 1 - depth, 2
  {
    if depth > MaxDepth then DepthSentinel
    else match v
      case Null => "null"
      case Undefined => "undefined"
      case Func(name, _) => FunctionText(name)
      case Symbol(d) => "Symbol(" + d + ")"
      case Str(s) => JsonQuote(s)
      case Num(repr, finite) => if finite then repr else "null"
      case Bool(b) => if b then "true" else "false"
      case BigInt(_) => NonSerializable
      case Ref(a) =>
        match h[a].shape
        case DateObj(iso) => if iso.Some? then iso.value else NonSerializable
        case RegExpObj(source, flags) => "/" + source + "/" + flags
        case ErrorObj(name, message, stack) => UnescapeNewlines(ErrorJson(name, message, stack))
        case ArrayOf(items) =>
          "(" + NatToString(|items|) + ") [" + Join(ItemTexts(h, items, depth), ", ") + "]"
        case Plain(props) =>
          "{" + Join(PairTexts(h, props, depth), ", ") + (if |props| > MaxObjectKeys then "..." else "") + "}"
  }

  /** The serialized elements of an array found at `depth`, each at `depth + 1`. */
  function ItemTexts(h: Heap, items: seq<Value>, depth: nat): (r: seq<string>)
    requires Closed(h) && depth <= MaxDepth
    requires forall i :: 0 <= i < |items| ==> InHeap(h, items[i])
    ensures |r| == |items|
    decreases MaxDepth + 1 - depth, 1
  {
    seq(|items|, i requires 0 <= i < |items| => SafeStringify(h, items[i], depth + 1))
  }

  /** `"key": value` for one property, or the error sentinel when its getter throws. */
  function PairText(h: Heap, p: Prop, depth: nat): string
    requires Closed(h) && depth <= MaxDepth
    requires p.getter.Data? ==> InHeap(h, p.getter.value)
    decreases MaxDepth + 1 - depth, 0
  {
    "\"" + p.key + "\": "
    + (match p.getter
       case Data(x) => SafeStringify(h, x, depth + 1)
       case Throwing => KeyErrorSentinel)
  }

  /** The pairs written for the first `MaxObjectKeys` keys of an object. */
  function PairTexts(h: Heap, props: seq<Prop>, depth: nat): (r: seq<string>)
    requires Closed(h) && depth <= MaxDepth
    requires forall i :: 0 <= i < |props| ==> props[i].getter.Data? ==> InHeap(h, props[i].getter.value)
    ensures |r| == if |props| <= MaxObjectKeys then |props| else MaxObjectKeys
    decreases MaxDepth + 1 - depth, 1
  {
    var n := if |props| <= MaxObjectKeys then |props| else MaxObjectKeys;
    seq(n, i requires 0 <= i < n => PairText(h, props[i], depth))
  }

  /** An array is written as its length in parentheses followed by its elements, each
      serialized one level deeper, in their original order and separated by ", ". */
  lemma ArrayText(h: Heap, a: Addr, depth: nat)
    requires Closed(h) && a in h && h[a].shape.ArrayOf? && depth <= MaxDepth
    ensures var items := h[a].shape.items;
      var texts := ItemTexts(h, items, depth);
      && SafeStringify(h, Ref(a), depth) == "(" + NatToString(|items|) + ") [" + Join(texts, ", ") + "]"
      && |texts| == |items|
      && forall i :: 0 <= i < |items| ==> texts[i] == SafeStringify(h, items[i], depth + 1)
  {
  }

  /** An object is written as exactly min(50, key count) pairs `"key": value` in key order,
      followed by "..." exactly when it has more than 50 keys; a key whose getter throws is
      written with the error sentinel. */
  lemma ObjectText(h: Heap, a: Addr, depth: nat)
    requires Closed(h) && a in h && h[a].shape.Plain? && depth <= MaxDepth
    ensures var props := h[a].shape.props;
      var pairs := PairTexts(h, props, depth);
      && SafeStringify(h, Ref(a), depth)
         == "{" + Join(pairs, ", ") + (if |props| > MaxObjectKeys then "..." else "") + "}"
      && |pairs| == (if |props| <= MaxObjectKeys then |props| else MaxObjectKeys)
      && forall i :: 0 <= i < |pairs| ==>
           pairs[i] == "\"" + props[i].key + "\": "
                       + (if props[i].getter.Throwing? then KeyErrorSentinel
                          else SafeStringify(h, props[i].getter.value, depth + 1))
  {
  }

  /** A key whose getter throws affects only its own pair: two objects that differ in one
      property only are written with the same pairs at every other position. */
  lemma KeyFailureIsolated(h: Heap, props: seq<Prop>, props': seq<Prop>, j: nat, depth: nat)
    requires Closed(h) && depth <= MaxDepth
    requires forall i :: 0 <= i < |props| ==> props[i].getter.Data? ==> InHeap(h, props[i].getter.value)
    requires |props'| == |props| && j < |props|
    requires forall i :: 0 <= i < |props| && i != j ==> props'[i] == props[i]
    requires props'[j] == Prop(props[j].key, Throwing)
    ensures var pairs := PairTexts(h, props, depth);
      var pairs' := PairTexts(h, props', depth);
      && |pairs'| == |pairs|
      && (forall i :: 0 <= i < |pairs| && i != j ==> pairs'[i] == pairs[i])
      && (j < |pairs| ==> pairs'[j] == "\"" + props[j].key + "\": " + KeyErrorSentinel)
  {
  }

  /** Keys past the 50th are never read: objects that agree on their first 50 properties and
      both have more than 50 are written identically. */
  lemma KeysPastLimitIgnored(h: Heap, a: Addr, b: Addr, depth: nat)
    requires Closed(h) && a in h && b in h && depth <= MaxDepth
    requires h[a].shape.Plain? && h[b].shape.Plain?
    requires |h[a].shape.props| > MaxObjectKeys && |h[b].shape.props| > MaxObjectKeys
    requires h[a].shape.props[..MaxObjectKeys] == h[b].shape.props[..MaxObjectKeys]
    ensures SafeStringify(h, Ref(a), depth) == SafeStringify(h, Ref(b), depth)
  {
    var pa, pb := h[a].shape.props, h[b].shape.props;
    assert forall i :: 0 <= i < MaxObjectKeys ==> pa[i] == pa[..MaxObjectKeys][i] == pb[i];
    assert PairTexts(h, pa, depth) == PairTexts(h, pb, depth);
  }

  /** One level of the self-referencing object: its only pair holds the next level. */
  lemma SelfReferenceStep(h: Heap, a: Addr, depth: nat)
    requires Closed(h) && a in h && h[a].shape == Plain([Prop("self", Data(Ref(a)))])
    requires depth <= MaxDepth
    ensures SafeStringify(h, Ref(a), depth) == "{" + ("\"self\": " + SafeStringify(h, Ref(a), depth + 1)) + "}"
  {
    var props := h[a].shape.props;
    var pair := PairText(h, props[0], depth);
    assert pair == "\"self\": " + SafeStringify(h, Ref(a), depth + 1);
    assert PairTexts(h, props, depth) == [pair];
    assert SafeStringify(h, Ref(a), depth) == "{" + pair + "" + "}";
  }

  lemma NestOnce(open: string, close: string, middle: string, k: nat)
    ensures "{" + (open[1..] + (RepeatStr(open, k) + middle + RepeatStr(close, k))) + close
            == RepeatStr(open, k + 1) + middle + RepeatStr(close, k + 1)
    requires |open| > 0 && open[0] == '{'
  {
    RepeatStrSnoc(close, k);
    assert "{" + open[1..] == open;
  }

  /** The self-referencing object `a = {}; a.self = a` serializes to eleven nested levels and
      then the depth sentinel: the cycle is cut off after a bounded number of steps. */
  lemma {:induction false} SelfReference(h: Heap, a: Addr, depth: nat)
    requires Closed(h) && a in h && h[a].shape == Plain([Prop("self", Data(Ref(a)))])
    requires depth <= MaxDepth + 1
    ensures SafeStringify(h, Ref(a), depth)
            == RepeatStr("{\"self\": ", MaxDepth + 1 - depth) + DepthSentinel + RepeatStr("}", MaxDepth + 1 - depth)
    decreases MaxDepth + 1 - depth
  {
    if depth <= MaxDepth {
      SelfReference(h, a, depth + 1);
      SelfReferenceStep(h, a, depth);
      var open := "{\"self\": ";
      assert open[1..] == "\"self\": ";
      NestOnce(open, "}", DepthSentinel, MaxDepth - depth);
    }
  }
}
