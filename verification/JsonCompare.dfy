/** What `operator<` and `operator==` of json11 decide, case by case: numbers by value, the types in their order, and
    strings, arrays and objects by the first place where they differ. */
module JsonCompare {
  import opened Bytes
  import opened JsonValue
  import opened JsonOrder

  /** Numbers of either form are compared by what they denote. */
  lemma NumbersByValue(m: int32, n: int32, x: real, y: real)
    ensures Less(Int(m), Int(n)) <==> m < n
    ensures Less(Int(m), Double(y)) <==> m as int as real < y
    ensures Less(Double(x), Int(n)) <==> x < n as int as real
    ensures Less(Double(x), Double(y)) <==> x < y
    ensures Equal(Int(m), Int(n)) <==> m == n
    ensures Equal(Int(m), Double(y)) <==> m as int as real == y
    ensures Equal(Double(x), Int(n)) <==> x == n as int as real
    ensures Equal(Double(x), Double(y)) <==> x == y
  {
    assert m < n <==> m as int as real < n as int as real;
  }

  lemma NullAndBools(p: bool, q: bool)
    ensures !Less(Null, Null) && Equal(Null, Null)
    ensures Less(Bool(p), Bool(q)) <==> !p && q
    ensures Equal(Bool(p), Bool(q)) <==> p == q
  {
  }

  /** Null comes before every number, and so on through booleans, strings and arrays to objects. */
  lemma TypesInOrder(number: Json, b: bool, s: bytes, xs: seq<Json>, ms: seq<Member>)
    requires number.Int? || number.Double?
    ensures var kinds := [Null, number, Bool(b), String(s), Array(xs), Object(ms)];
      forall i, j | 0 <= i < 6 && 0 <= j < 6 && i != j ::
        (Less(kinds[i], kinds[j]) <==> i < j) && !Equal(kinds[i], kinds[j])
  {
    var kinds := [Null, number, Bool(b), String(s), Array(xs), Object(ms)];
    forall i | 0 <= i < 6 ensures Type(kinds[i]) == i {
    }
  }

  // Strings.

  /** `k` is the first place where the strings differ. */
  predicate DifferAt(s: bytes, t: bytes, k: nat) {
    k < |s| && k < |t| && s[..k] == t[..k] && s[k] != t[k]
  }

  lemma DifferStep(s: bytes, t: bytes, k: nat)
    requires s != [] && t != [] && s[0] == t[0]
    ensures DifferAt(s, t, k + 1) <==> DifferAt(s[1..], t[1..], k)
  {
    var s', t' := s[1..], t[1..];
    if k < |s'| && k < |t'| {
      assert s[..k + 1] == [s[0]] + s'[..k] && t[..k + 1] == [t[0]] + t'[..k];
      assert s'[..k] == s[..k + 1][1..] && t'[..k] == t[..k + 1][1..];
    }
  }

  lemma PrefixStep(s: bytes, t: bytes)
    requires s != [] && t != [] && s[0] == t[0]
    ensures s < t <==> s[1..] < t[1..]
    ensures s == t <==> s[1..] == t[1..]
  {
    assert s == [s[0]] + s[1..] && t == [t[0]] + t[1..];
    if s < t {
      assert t[..|s|][1..] == t[1..][..|s| - 1];
    }
  }

  /** A string comes before those it begins, and otherwise the first byte that differs decides. */
  lemma {:induction false} StringsByByte(s: bytes, t: bytes)
    ensures Less(String(s), String(t)) <==> s < t || exists k: nat :: DifferAt(s, t, k) && s[k] < t[k]
    ensures Equal(String(s), String(t)) <==> s == t
    decreases |s|
  {
    if s != [] && t != [] && s[0] == t[0] {
      var s', t' := s[1..], t[1..];
      StringsByByte(s', t');
      PrefixStep(s, t);
      if k: nat :| DifferAt(s, t, k) && s[k] < t[k] {
        DifferStep(s, t, k - 1);
      }
      if k: nat :| DifferAt(s', t', k) && s'[k] < t'[k] {
        DifferStep(s, t, k);
      }
    } else if s != [] && t != [] {
      assert DifferAt(s, t, 0);
    }
  }

  // Arrays.

  /** The first `n` elements are equal. */
  ghost predicate EqualUpTo(xs: seq<Json>, ys: seq<Json>, n: nat) {
    n <= |xs| && n <= |ys| && forall j | 0 <= j < n :: Equal(xs[j], ys[j])
  }

  lemma EqualUpToStep(xs: seq<Json>, ys: seq<Json>, n: nat)
    requires xs != [] && ys != []
    ensures EqualUpTo(xs, ys, n + 1) <==> Equal(xs[0], ys[0]) && EqualUpTo(xs[1..], ys[1..], n)
  {
    hide Equal;
    if EqualUpTo(xs, ys, n + 1) {
      forall j | 0 <= j < n ensures Equal(xs[1..][j], ys[1..][j]) {
        assert Equal(xs[j + 1], ys[j + 1]);
      }
    }
    if Equal(xs[0], ys[0]) && EqualUpTo(xs[1..], ys[1..], n) {
      forall j | 0 <= j < n + 1 ensures Equal(xs[j], ys[j]) {
        if j > 0 {
          assert Equal(xs[1..][j - 1], ys[1..][j - 1]);
        }
      }
    }
  }

  /** The array `xs` comes first at `k`, or ends there. */
  ghost predicate ArrayFirstAt(xs: seq<Json>, ys: seq<Json>, k: nat) {
    EqualUpTo(xs, ys, k) && k < |ys| && (k == |xs| || Less(xs[k], ys[k]))
  }

  lemma ArrayFirstStep(xs: seq<Json>, ys: seq<Json>, k: nat)
    requires xs != [] && ys != []
    ensures ArrayFirstAt(xs, ys, k + 1) <==> Equal(xs[0], ys[0]) && ArrayFirstAt(xs[1..], ys[1..], k)
  {
    hide Equal, Less;
    EqualUpToStep(xs, ys, k);
  }

  /** Arrays are equal element by element, and the first element that differs decides; an array comes before those it
      begins. */
  lemma {:induction false} ArraysByElement(xs: seq<Json>, ys: seq<Json>)
    ensures Less(Array(xs), Array(ys)) <==> exists k: nat :: ArrayFirstAt(xs, ys, k)
    ensures Equal(Array(xs), Array(ys)) <==> |xs| == |ys| && EqualUpTo(xs, ys, |xs|)
    decreases |xs|
  {
    if xs == [] || ys == [] {
      assert EqualUpTo(xs, ys, 0);
      assert xs == [] && ys != [] ==> ArrayFirstAt(xs, ys, 0);
    } else {
      var x, y, xs', ys' := xs[0], ys[0], xs[1..], ys[1..];
      StrictTotalOrder(x, y, x);
      ArraysByElement(xs', ys');
      assert Less(Array(xs), Array(ys)) <==> Less(x, y) || (Equal(x, y) && Less(Array(xs'), Array(ys')));
      assert Equal(Array(xs), Array(ys)) <==> Equal(x, y) && Equal(Array(xs'), Array(ys'));
      hide Less, Equal, EqualUpTo;
      EqualUpToStep(xs, ys, |xs'|);
      assert EqualUpTo(xs, ys, 0) by {
        NoElements(xs, ys);
      }
      assert ArrayFirstAt(xs, ys, 0) <==> Less(x, y);
      forall k: nat ensures ArrayFirstAt(xs, ys, k + 1) <==> Equal(x, y) && ArrayFirstAt(xs', ys', k) {
        ArrayFirstStep(xs, ys, k);
      }
      if k: nat :| ArrayFirstAt(xs, ys, k) {
        assert k > 0 ==> ArrayFirstAt(xs', ys', k - 1);
      }
      if Equal(x, y) && exists k: nat :: ArrayFirstAt(xs', ys', k) {
        var k: nat :| ArrayFirstAt(xs', ys', k);
        assert ArrayFirstAt(xs, ys, k + 1);
      }
    }
  }

  lemma NoElements(xs: seq<Json>, ys: seq<Json>)
    ensures EqualUpTo(xs, ys, 0)
  {
  }

  // Objects.

  ghost predicate SameMember(m: Member, m': Member) {
    m.key == m'.key && Equal(m.value, m'.value)
  }

  ghost predicate SameUpTo(xs: seq<Member>, ys: seq<Member>, n: nat) {
    n <= |xs| && n <= |ys| && forall j | 0 <= j < n :: SameMember(xs[j], ys[j])
  }

  lemma SameUpToStep(xs: seq<Member>, ys: seq<Member>, n: nat)
    requires xs != [] && ys != []
    ensures SameUpTo(xs, ys, n + 1) <==> SameMember(xs[0], ys[0]) && SameUpTo(xs[1..], ys[1..], n)
  {
    hide SameMember;
    if SameUpTo(xs, ys, n + 1) {
      forall j | 0 <= j < n ensures SameMember(xs[1..][j], ys[1..][j]) {
        assert SameMember(xs[j + 1], ys[j + 1]);
      }
    }
    if SameMember(xs[0], ys[0]) && SameUpTo(xs[1..], ys[1..], n) {
      forall j | 0 <= j < n + 1 ensures SameMember(xs[j], ys[j]) {
        if j > 0 {
          assert SameMember(xs[1..][j - 1], ys[1..][j - 1]);
        }
      }
    }
  }

  /** Of two members the one with the smaller key comes first, and of two with one key the one with the smaller
      value. */
  ghost predicate MemberFirst(m: Member, m': Member) {
    Less(String(m.key), String(m'.key)) || (m.key == m'.key && Less(m.value, m'.value))
  }

  ghost predicate ObjectFirstAt(xs: seq<Member>, ys: seq<Member>, k: nat) {
    SameUpTo(xs, ys, k) && k < |ys| && (k == |xs| || MemberFirst(xs[k], ys[k]))
  }

  lemma ObjectFirstStep(xs: seq<Member>, ys: seq<Member>, k: nat)
    requires xs != [] && ys != []
    ensures ObjectFirstAt(xs, ys, k + 1) <==> SameMember(xs[0], ys[0]) && ObjectFirstAt(xs[1..], ys[1..], k)
  {
    hide SameMember, MemberFirst;
    SameUpToStep(xs, ys, k);
  }

  lemma MemberOrder(m: Member, m': Member)
    ensures LessMember(m, m') <==> MemberFirst(m, m')
    ensures LessMember(m', m) ==> !MemberFirst(m, m') && !SameMember(m, m')
    ensures !LessMember(m, m') && !LessMember(m', m) ==> SameMember(m, m')
    ensures SameMember(m, m') ==> !MemberFirst(m, m')
  {
    StrictTotalOrder(m.value, m'.value, m.value);
    StrictTotalOrder(String(m.key), String(m'.key), String(m.key));
    hide Equal, BytesLess;
    assert Equal(String(m.key), String(m'.key)) <==> m.key == m'.key by {
      KeysEqual(m.key, m'.key);
    }
  }

  lemma KeysEqual(a: bytes, b: bytes)
    ensures Equal(String(a), String(b)) <==> a == b
  {
  }

  /** Objects are equal member by member in the order of their keys, and the first member that differs decides. */
  lemma {:induction false} ObjectsByMember(xs: seq<Member>, ys: seq<Member>)
    ensures Less(Object(xs), Object(ys)) <==> exists k: nat :: ObjectFirstAt(xs, ys, k)
    ensures Equal(Object(xs), Object(ys)) <==> |xs| == |ys| && SameUpTo(xs, ys, |xs|)
    decreases |xs|
  {
    if xs == [] || ys == [] {
      assert SameUpTo(xs, ys, 0);
      assert xs == [] && ys != [] ==> ObjectFirstAt(xs, ys, 0);
    } else {
      var x, y, xs', ys' := xs[0], ys[0], xs[1..], ys[1..];
      MemberOrder(x, y);
      ObjectsByMember(xs', ys');
      assert Less(Object(xs), Object(ys)) <==>
        LessMember(x, y) || (!LessMember(y, x) && Less(Object(xs'), Object(ys')));
      assert Equal(Object(xs), Object(ys)) <==> SameMember(x, y) && Equal(Object(xs'), Object(ys'));
      hide Less, Equal, SameUpTo, LessMember, MemberFirst, SameMember;
      SameUpToStep(xs, ys, |xs'|);
      assert SameUpTo(xs, ys, 0) by {
        NoMembers(xs, ys);
      }
      assert ObjectFirstAt(xs, ys, 0) <==> MemberFirst(x, y);
      forall k: nat ensures ObjectFirstAt(xs, ys, k + 1) <==> SameMember(x, y) && ObjectFirstAt(xs', ys', k) {
        ObjectFirstStep(xs, ys, k);
      }
      if k: nat :| ObjectFirstAt(xs, ys, k) {
        assert k > 0 ==> ObjectFirstAt(xs', ys', k - 1);
      }
      if SameMember(x, y) && exists k: nat :: ObjectFirstAt(xs', ys', k) {
        var k: nat :| ObjectFirstAt(xs', ys', k);
        assert ObjectFirstAt(xs, ys, k + 1);
      }
    }
  }

  lemma NoMembers(xs: seq<Member>, ys: seq<Member>)
    ensures SameUpTo(xs, ys, 0)
  {
  }
}
