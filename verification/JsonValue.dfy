/** The values json11 holds, with `operator==` and `operator<` as the source computes them. */
module JsonValue {
  import opened Bytes

  newtype int32 = n: int | -0x8000_0000 <= n < 0x8000_0000

  /** A double is held as the real number it denotes. An object lists its members in the iteration
      order of the `std::map`, by increasing key. */
  datatype Json =
    | Null
    | Int(n: int32)
    | Double(x: real)
    | Bool(b: bool)
    | String(s: bytes)
    | Array(items: seq<Json>)
    | Object(members: seq<Member>)

  datatype Member = Member(key: bytes, value: Json)

  /** The enumerators of `Json::Type`, in order. */
  function Type(v: Json): nat {
    match v
    case Null => 0
    case Int(_) => 1
    case Double(_) => 1
    case Bool(_) => 2
    case String(_) => 3
    case Array(_) => 4
    case Object(_) => 5
  }

  function NumberValue(v: Json): real {
    match v
    case Int(n) => n as int as real
    case Double(x) => x
    case _ => 0.0
  }

  /** `std::string::operator<`: lexicographic on unsigned bytes. */
  predicate BytesLess(a: bytes, b: bytes) {
    if b == [] then false
    else if a == [] then true
    else if a[0] < b[0] then true
    else if b[0] < a[0] then false
    else BytesLess(a[1..], b[1..])
  }

  /** `Json::operator==`. */
  predicate Equal(a: Json, b: Json)
    decreases a, 1
  {
    Type(a) == Type(b) &&
    match a
    case Null => true
    case Int(_) => NumberValue(a) == NumberValue(b)
    case Double(_) => NumberValue(a) == NumberValue(b)
    case Bool(p) => p == b.b
    case String(s) => s == b.s
    case Array(xs) => EqualItems(xs, b.items)
    case Object(ms) => EqualMembers(ms, b.members)
  }

  predicate EqualItems(xs: seq<Json>, ys: seq<Json>)
    decreases xs, 0
  {
    if xs == [] || ys == [] then xs == ys
    else Equal(xs[0], ys[0]) && EqualItems(xs[1..], ys[1..])
  }

  predicate EqualMembers(xs: seq<Member>, ys: seq<Member>)
    decreases xs, 0
  {
    if xs == [] || ys == [] then xs == ys
    else xs[0].key == ys[0].key && Equal(xs[0].value, ys[0].value) && EqualMembers(xs[1..], ys[1..])
  }

  /** A measure on which the two-sided comparisons below go down. */
  function Size(v: Json): nat
    decreases v, 1
  {
    match v
    case Array(xs) => 1 + ItemsSize(xs)
    case Object(ms) => 1 + MembersSize(ms)
    case _ => 1
  }

  function ItemsSize(xs: seq<Json>): nat
    decreases xs, 0
  {
    if xs == [] then 0 else 1 + Size(xs[0]) + ItemsSize(xs[1..])
  }

  function MembersSize(ms: seq<Member>): nat
    decreases ms, 0
  {
    if ms == [] then 0 else 1 + Size(ms[0].value) + MembersSize(ms[1..])
  }

  /** `Json::operator<`. */
  predicate Less(a: Json, b: Json)
    decreases Size(a) + Size(b), 0
  {
    if Type(a) != Type(b) then Type(a) < Type(b)
    else
      match a
      case Null => false
      case Int(_) => NumberValue(a) < NumberValue(b)
      case Double(_) => NumberValue(a) < NumberValue(b)
      case Bool(p) => !p && b.b
      case String(s) => BytesLess(s, b.s)
      case Array(xs) => LessItems(xs, b.items)
      case Object(ms) => LessMembers(ms, b.members)
  }

  /** `std::vector`'s comparison: `std::lexicographical_compare`, which only uses `<`, both ways. */
  predicate LessItems(xs: seq<Json>, ys: seq<Json>)
    decreases ItemsSize(xs) + ItemsSize(ys)
  {
    if ys == [] then false
    else if xs == [] then true
    else if Less(xs[0], ys[0]) then true
    else if Less(ys[0], xs[0]) then false
    else LessItems(xs[1..], ys[1..])
  }

  /** `std::pair`'s comparison of two entries of an object. */
  predicate LessMember(m: Member, m': Member)
    decreases Size(m.value) + Size(m'.value), 1
  {
    BytesLess(m.key, m'.key) || (!BytesLess(m'.key, m.key) && Less(m.value, m'.value))
  }

  /** `std::map`'s comparison. */
  predicate LessMembers(xs: seq<Member>, ys: seq<Member>)
    decreases MembersSize(xs) + MembersSize(ys)
  {
    if ys == [] then false
    else if xs == [] then true
    else if LessMember(xs[0], ys[0]) then true
    else if LessMember(ys[0], xs[0]) then false
    else LessMembers(xs[1..], ys[1..])
  }

  /** `data[key] = value` on a `std::map`. */
  function Put(ms: seq<Member>, key: bytes, value: Json): seq<Member> {
    if ms == [] || BytesLess(key, ms[0].key) then [Member(key, value)] + ms
    else if key == ms[0].key then [Member(key, value)] + ms[1..]
    else [ms[0]] + Put(ms[1..], key, value)
  }

  /** Keys strictly increase: what a `std::map` maintains. */
  predicate Sorted(ms: seq<Member>) {
    forall i, j | 0 <= i < j < |ms| :: BytesLess(ms[i].key, ms[j].key)
  }

  /** Every object inside `v` is a possible `std::map`. */
  predicate IsMap(v: Json)
    decreases v
  {
    match v
    case Array(xs) => forall k | 0 <= k < |xs| :: IsMap(xs[k])
    case Object(ms) => Sorted(ms) && forall k | 0 <= k < |ms| :: IsMap(ms[k].value)
    case _ => true
  }

  function Max(a: nat, b: nat): nat {
    if a < b then b else a
  }

  /** Nesting height; scalars and empty containers have height 0. */
  function Height(v: Json): nat
    decreases v, 1
  {
    match v
    case Array(xs) => ItemsHeight(xs)
    case Object(ms) => MembersHeight(ms)
    case _ => 0
  }

  function ItemsHeight(xs: seq<Json>): nat
    decreases xs, 0
  {
    if xs == [] then 0 else Max(1 + Height(xs[0]), ItemsHeight(xs[1..]))
  }

  function MembersHeight(ms: seq<Member>): nat
    decreases ms, 0
  {
    if ms == [] then 0 else Max(1 + Height(ms[0].value), MembersHeight(ms[1..]))
  }
}
