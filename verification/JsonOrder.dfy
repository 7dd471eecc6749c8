/** `Json::operator<` is a strict total order and `operator==` is its equality, through nested arrays and
    objects and across integers and doubles. Both are tied to one three-way comparison. */
module JsonOrder {
  import opened Bytes
  import opened JsonValue

  function CmpBytes(a: bytes, b: bytes): (c: int)
    ensures -1 <= c <= 1
  {
    if a == [] || b == [] then (if a == b then 0 else if a == [] then -1 else 1)
    else if a[0] != b[0] then (if a[0] < b[0] then -1 else 1)
    else CmpBytes(a[1..], b[1..])
  }

  function CmpReal(x: real, y: real): int {
    if x < y then -1 else if x == y then 0 else 1
  }

  /** -1, 0 or 1 as `a` comes before, is equal to, or comes after `b`. */
  function Cmp(a: Json, b: Json): (c: int)
    ensures -1 <= c <= 1
    decreases a, 1
  {
    if Type(a) != Type(b) then (if Type(a) < Type(b) then -1 else 1)
    else
      match a
      case Null => 0
      case Int(_) => CmpReal(NumberValue(a), NumberValue(b))
      case Double(_) => CmpReal(NumberValue(a), NumberValue(b))
      case Bool(p) => if p == b.b then 0 else if b.b then -1 else 1
      case String(s) => CmpBytes(s, b.s)
      case Array(xs) => CmpItems(xs, b.items)
      case Object(ms) => CmpMembers(ms, b.members)
  }

  function CmpItems(xs: seq<Json>, ys: seq<Json>): (c: int)
    ensures -1 <= c <= 1
    decreases xs, 0
  {
    if xs == [] || ys == [] then (if xs == ys then 0 else if xs == [] then -1 else 1)
    else
      var c := Cmp(xs[0], ys[0]);
      if c != 0 then c else CmpItems(xs[1..], ys[1..])
  }

  function CmpMembers(xs: seq<Member>, ys: seq<Member>): (c: int)
    ensures -1 <= c <= 1
    decreases xs, 0
  {
    if xs == [] || ys == [] then (if xs == ys then 0 else if xs == [] then -1 else 1)
    else
      var k, c := CmpBytes(xs[0].key, ys[0].key), Cmp(xs[0].value, ys[0].value);
      if k != 0 then k else if c != 0 then c else CmpMembers(xs[1..], ys[1..])
  }

  lemma {:induction false} CmpBytesMeaning(a: bytes, b: bytes)
    ensures BytesLess(a, b) <==> CmpBytes(a, b) < 0
    ensures a == b <==> CmpBytes(a, b) == 0
    ensures CmpBytes(b, a) == -CmpBytes(a, b)
  {
    if a != [] && b != [] {
      CmpBytesMeaning(a[1..], b[1..]);
      assert a == [a[0]] + a[1..] && b == [b[0]] + b[1..];
    }
  }

  lemma {:induction false} CmpBytesTransitive(a: bytes, b: bytes, c: bytes)
    requires CmpBytes(a, b) <= 0 && CmpBytes(b, c) <= 0
    ensures CmpBytes(a, c) <= 0
    ensures CmpBytes(a, c) == 0 <==> CmpBytes(a, b) == 0 && CmpBytes(b, c) == 0
  {
    if a != [] && b != [] && c != [] && a[0] == b[0] == c[0] {
      CmpBytesTransitive(a[1..], b[1..], c[1..]);
    }
  }

  lemma {:induction false} CmpSwap(a: Json, b: Json)
    ensures Cmp(b, a) == -Cmp(a, b)
    decreases a, 1
  {
    if Type(a) == Type(b) {
      match a
      case String(s) => CmpBytesMeaning(s, b.s);
      case Array(xs) => CmpItemsSwap(xs, b.items);
      case Object(ms) => CmpMembersSwap(ms, b.members);
      case _ =>
    }
  }

  lemma {:induction false} CmpItemsSwap(xs: seq<Json>, ys: seq<Json>)
    ensures CmpItems(ys, xs) == -CmpItems(xs, ys)
    decreases xs, 0
  {
    if xs != [] && ys != [] {
      CmpSwap(xs[0], ys[0]);
      CmpItemsSwap(xs[1..], ys[1..]);
    }
  }

  lemma {:induction false} CmpMembersSwap(xs: seq<Member>, ys: seq<Member>)
    ensures CmpMembers(ys, xs) == -CmpMembers(xs, ys)
    decreases xs, 0
  {
    if xs != [] && ys != [] {
      CmpBytesMeaning(xs[0].key, ys[0].key);
      CmpSwap(xs[0].value, ys[0].value);
      CmpMembersSwap(xs[1..], ys[1..]);
    }
  }

  /** The two operators of the source are the signs of the three-way comparison. */
  lemma {:induction false} CmpMeaning(a: Json, b: Json)
    ensures Less(a, b) <==> Cmp(a, b) < 0
    ensures Equal(a, b) <==> Cmp(a, b) == 0
    decreases Size(a) + Size(b)
  {
    if Type(a) == Type(b) {
      match a
      case String(s) => CmpBytesMeaning(s, b.s);
      case Array(xs) => CmpItemsMeaning(xs, b.items);
      case Object(ms) => CmpMembersMeaning(ms, b.members);
      case _ =>
    }
  }

  lemma {:induction false} CmpItemsMeaning(xs: seq<Json>, ys: seq<Json>)
    ensures LessItems(xs, ys) <==> CmpItems(xs, ys) < 0
    ensures EqualItems(xs, ys) <==> CmpItems(xs, ys) == 0
    decreases ItemsSize(xs) + ItemsSize(ys)
  {
    if xs != [] && ys != [] {
      CmpMeaning(xs[0], ys[0]);
      CmpMeaning(ys[0], xs[0]);
      CmpSwap(xs[0], ys[0]);
      CmpItemsMeaning(xs[1..], ys[1..]);
    }
  }

  lemma {:induction false} CmpMembersMeaning(xs: seq<Member>, ys: seq<Member>)
    ensures LessMembers(xs, ys) <==> CmpMembers(xs, ys) < 0
    ensures EqualMembers(xs, ys) <==> CmpMembers(xs, ys) == 0
    decreases MembersSize(xs) + MembersSize(ys)
  {
    if xs != [] && ys != [] {
      CmpBytesMeaning(xs[0].key, ys[0].key);
      CmpBytesMeaning(ys[0].key, xs[0].key);
      CmpMeaning(xs[0].value, ys[0].value);
      CmpMeaning(ys[0].value, xs[0].value);
      CmpSwap(xs[0].value, ys[0].value);
      CmpMembersMeaning(xs[1..], ys[1..]);
    }
  }

  lemma {:induction false} CmpTransitive(a: Json, b: Json, c: Json)
    requires Cmp(a, b) <= 0 && Cmp(b, c) <= 0
    ensures Cmp(a, c) <= 0
    ensures Cmp(a, c) == 0 <==> Cmp(a, b) == 0 && Cmp(b, c) == 0
    decreases a, 1
  {
    if Type(a) == Type(b) == Type(c) {
      match a
      case String(s) => CmpBytesTransitive(s, b.s, c.s);
      case Array(xs) => CmpItemsTransitive(xs, b.items, c.items);
      case Object(ms) => CmpMembersTransitive(ms, b.members, c.members);
      case _ =>
    }
  }

  lemma {:induction false} CmpItemsTransitive(xs: seq<Json>, ys: seq<Json>, zs: seq<Json>)
    requires CmpItems(xs, ys) <= 0 && CmpItems(ys, zs) <= 0
    ensures CmpItems(xs, zs) <= 0
    ensures CmpItems(xs, zs) == 0 <==> CmpItems(xs, ys) == 0 && CmpItems(ys, zs) == 0
    decreases xs, 0
  {
    if xs != [] && ys != [] && zs != [] {
      CmpTransitive(xs[0], ys[0], zs[0]);
      if Cmp(xs[0], ys[0]) == 0 && Cmp(ys[0], zs[0]) == 0 {
        CmpItemsTransitive(xs[1..], ys[1..], zs[1..]);
      }
    }
  }

  lemma {:induction false} CmpMembersTransitive(xs: seq<Member>, ys: seq<Member>, zs: seq<Member>)
    requires CmpMembers(xs, ys) <= 0 && CmpMembers(ys, zs) <= 0
    ensures CmpMembers(xs, zs) <= 0
    ensures CmpMembers(xs, zs) == 0 <==> CmpMembers(xs, ys) == 0 && CmpMembers(ys, zs) == 0
    decreases xs, 0
  {
    if xs != [] && ys != [] && zs != [] {
      var x, y, z := xs[0], ys[0], zs[0];
      CmpBytesTransitive(x.key, y.key, z.key);
      CmpBytesMeaning(x.key, y.key);
      CmpBytesMeaning(y.key, z.key);
      if x.key == y.key == z.key {
        CmpTransitive(x.value, y.value, z.value);
        if Cmp(x.value, y.value) == 0 && Cmp(y.value, z.value) == 0 {
            CmpMembersTransitive(xs[1..], ys[1..], zs[1..]);
        }
      }
    }
  }

  /** The order axioms, for all values: `<` is irreflexive and transitive, exactly one of `a < b`,
      `a == b` and `b < a` holds, and equal values are interchangeable under `<`. */
  lemma StrictTotalOrder(a: Json, b: Json, c: Json)
    ensures !Less(a, a) && Equal(a, a)
    ensures Less(a, b) && Less(b, c) ==> Less(a, c)
    ensures if Equal(a, b) then !Less(a, b) && !Less(b, a) else Less(a, b) != Less(b, a)
    ensures Equal(a, b) ==> Equal(b, a) && (Less(a, c) <==> Less(b, c)) && (Less(c, a) <==> Less(c, b))
    ensures Equal(a, b) && Equal(b, c) ==> Equal(a, c)
  {
    CmpSwap(a, a);
    CmpSwap(a, b);
    CmpSwap(b, c);
    CmpSwap(a, c);
    CmpMeaning(a, a);
    CmpMeaning(a, b);
    CmpMeaning(b, a);
    CmpMeaning(b, c);
    CmpMeaning(c, b);
    CmpMeaning(a, c);
    CmpMeaning(c, a);
    if Cmp(a, b) <= 0 && Cmp(b, c) <= 0 {
      CmpTransitive(a, b, c);
    }
    if Cmp(b, a) <= 0 && Cmp(a, c) <= 0 {
      CmpTransitive(b, a, c);
    }
    if Cmp(c, a) <= 0 && Cmp(a, b) <= 0 {
      CmpTransitive(c, a, b);
    }
    if Cmp(c, b) <= 0 && Cmp(b, a) <= 0 {
      CmpTransitive(c, b, a);
    }
  }
}
