/** The values the fallback store keeps: JSON documents, as the browser's
    storage hands them back, plus JavaScript's `undefined` for a lookup that
    finds no property. */
module Json {

  /** A JSON value. Numbers are kept as integers: only the falsiness of zero
      matters to the store. */
  datatype Value =
    | Null
    | Bool(b: bool)
    | Num(n: int)
    | Str(s: string)
    | Node(children: map<string, Value>)

  /** The outcome of reading a property: `undefined` or a value. */
  datatype Read = Undefined | Defined(value: Value)

  const EmptyNode: Value := Node(map[])

  /** JavaScript truthiness of a read. */
  predicate Truthy(r: Read)
  {
    match r
    case Undefined => false
    case Defined(v) =>
      match v
      case Null => false
      case Bool(b) => b
      case Num(n) => n != 0
      case Str(s) => s != []
      case Node(_) => true
  }

  /** `null` or `undefined`: what a read of an absent path yields. */
  predicate Nullish(r: Read)
  {
    r == Undefined || r == Defined(Null)
  }

  /** An object, or something the store treats as "nothing here". */
  predicate NodeOrFalsy(r: Read)
  {
    !Truthy(r) || r.value.Node?
  }

  /** A non-empty string: the one truthy primitive with own properties. */
  predicate IsText(r: Read)
  {
    Truthy(r) && r.value.Str?
  }

  predicate IsDigit(c: char)
  {
    '0' <= c <= '9'
  }

  /** The number a string of decimal digits denotes. */
  function DigitsValue(p: string): (n: nat)
    requires forall i :: 0 <= i < |p| ==> IsDigit(p[i])
    decreases |p|
  {
    if |p| == 0 then 0
    else
      assert IsDigit(p[|p| - 1]);
      DigitsValue(p[..|p| - 1]) * 10 + (p[|p| - 1] as int - '0' as int)
  }

  /** A property key that denotes a string index: decimal digits without a
      leading zero. */
  predicate IsIndexKey(p: string)
  {
    && |p| > 0
    && (forall i :: 0 <= i < |p| ==> IsDigit(p[i]))
    && (p[0] != '0' || |p| == 1)
  }

  /** `v[key]` for a value the store has already found truthy. Objects yield
      their own property; a string yields its `length` or the character at an
      index key; numbers and booleans have no own properties. Null never
      reaches here: every caller tests truthiness first. */
  function Property(v: Value, key: string): (r: Read)
  {
    match v
    case Node(m) => if key in m then Defined(m[key]) else Undefined
    case Str(s) =>
      if key == "length" then Defined(Num(|s|))
      else if IsIndexKey(key) && DigitsValue(key) < |s| then Defined(Str([s[DigitsValue(key)]]))
      else Undefined
    case _ => Undefined
  }
}
