/** Dividing a string at a separator. */
module Splits {
  import opened Bytes

  /** The pieces of `s` between occurrences of `c`. */
  function Split(s: bytes, c: byte): (r: seq<bytes>)
    ensures r != []
  {
    if s == [] then [[]]
    else
      var rest := Split(s[1..], c);
      if s[0] == c then [[]] + rest else [[s[0]] + rest[0]] + rest[1..]
  }

  lemma {:induction false} SplitLast(s: bytes, c: byte, item: bytes)
    requires c !in item
    ensures Split(s + ([c] + item), c) == Split(s, c) + [item]
  {
    var t := s + ([c] + item);
    if s == [] {
      assert t[1..] == item;
      SplitNone(item, c);
    } else {
      assert t[1..] == s[1..] + ([c] + item);
      SplitLast(s[1..], c, item);
    }
  }

  lemma {:induction false} SplitNone(item: bytes, c: byte)
    requires c !in item
    ensures Split(item, c) == [item]
  {
    if item != [] {
      SplitNone(item[1..], c);
      assert [item[0]] + item[1..] == item;
    }
  }

  /** The pieces do not contain the separator. */
  lemma {:induction false} PiecesFree(s: bytes, c: byte, k: nat)
    requires k < |Split(s, c)|
    ensures c !in Split(s, c)[k]
  {
    if s != [] {
      var rest := Split(s[1..], c);
      if s[0] == c {
        if k > 0 {
          PiecesFree(s[1..], c, k - 1);
        }
      } else {
        PiecesFree(s[1..], c, k);
      }
    }
  }

  /** The string with every run of separators made one. */
  function Collapse(s: bytes, c: byte): bytes {
    if |s| >= 2 && s[0] == c && s[1] == c then Collapse(s[1..], c)
    else if s == [] then []
    else [s[0]] + Collapse(s[1..], c)
  }

  /** `boost::split` with `token_compress_on`: adjacent separators count as one. */
  function SplitRuns(s: bytes, c: byte): seq<bytes> {
    Split(Collapse(s, c), c)
  }

  lemma {:induction false} CollapseNone(a: bytes, c: byte, b: bytes)
    requires c !in a && c !in b
    ensures Collapse(a + ([c] + b), c) == a + ([c] + b)
  {
    var s := a + ([c] + b);
    if a == [] {
      assert s[1..] == b;
      CollapseFree(b, c);
    } else {
      assert s[1..] == a[1..] + ([c] + b);
      assert s[0] == a[0];
      CollapseNone(a[1..], c, b);
    }
  }

  lemma {:induction false} CollapseFree(b: bytes, c: byte)
    requires c !in b
    ensures Collapse(b, c) == b
  {
    if b != [] {
      CollapseFree(b[1..], c);
    }
  }

  /** A separator between two strings free of it divides them. */
  lemma SplitRunsPair(a: bytes, c: byte, b: bytes)
    requires c !in a && c !in b
    ensures SplitRuns(a + ([c] + b), c) == [a, b]
  {
    CollapseNone(a, c, b);
    SplitLast(a, c, b);
    SplitNone(a, c);
  }

  /** So does any number of separators in a row. */
  lemma {:induction false} SplitRunsRun(a: bytes, c: byte, run: bytes, b: bytes)
    requires c !in a && c !in b && run != [] && forall k | 0 <= k < |run| :: run[k] == c
    ensures SplitRuns(a + (run + b), c) == [a, b]
  {
    CollapseRun(a, c, run, b);
    SplitRunsPair(a, c, b);
    CollapseNone(a, c, b);
  }

  lemma {:induction false} CollapseRun(a: bytes, c: byte, run: bytes, b: bytes)
    requires c !in a && run != [] && forall k | 0 <= k < |run| :: run[k] == c
    ensures Collapse(a + (run + b), c) == Collapse(a + ([c] + b), c)
    decreases |a|, |run|
  {
    var s := a + (run + b);
    if a != [] {
      assert s[1..] == a[1..] + (run + b) && (a + ([c] + b))[1..] == a[1..] + ([c] + b);
      CollapseRun(a[1..], c, run, b);
    } else if |run| > 1 {
      assert s[1..] == [] + (run[1..] + b);
      CollapseRun([], c, run[1..], b);
    } else {
      assert run == [c];
    }
  }

  /** Two pieces free of the separator with a run of separators between them. */
  ghost predicate Divided(s: bytes, c: byte, a: bytes, run: bytes, b: bytes) {
    c !in a && c !in b && run != [] && (forall k | 0 <= k < |run| :: run[k] == c) && s == a + (run + b)
  }

  lemma {:induction false} SplitOne(s: bytes, c: byte)
    requires |Split(s, c)| == 1
    ensures c !in s && Split(s, c) == [s]
  {
    if s != [] {
      SplitOne(s[1..], c);
      assert [s[0]] + s[1..] == s;
    }
  }

  lemma {:induction false} CollapseOne(s: bytes, c: byte)
    requires c !in Collapse(s, c)
    ensures c !in s && Collapse(s, c) == s
  {
    if s != [] && !(|s| >= 2 && s[0] == c && s[1] == c) {
      assert Collapse(s, c)[0] == s[0] && Collapse(s, c)[1..] == Collapse(s[1..], c);
      CollapseOne(s[1..], c);
    } else if s != [] {
      CollapseOne(s[1..], c);
    }
  }

  lemma DividedHead(s: bytes, c: byte, a: bytes, run: bytes, b: bytes)
    requires Divided(s, c, a, run, b)
    ensures a != [] ==> s[0] in a
  {
  }

  /** Only such strings are divided in two. */
  lemma {:induction false} SplitRunsTwo(s: bytes, c: byte) returns (run: bytes)
    requires |SplitRuns(s, c)| == 2
    ensures Divided(s, c, SplitRuns(s, c)[0], run, SplitRuns(s, c)[1])
  {
    var t := Collapse(s, c);
    if |s| >= 2 && s[0] == c && s[1] == c {
      run := SplitRunsTwo(s[1..], c);
      DividedHead(s[1..], c, SplitRuns(s, c)[0], run, SplitRuns(s, c)[1]);
      run := [c] + run;
    } else {
      assert t[1..] == Collapse(s[1..], c);
      if s[0] == c {
        SplitOne(t[1..], c);
        CollapseOne(s[1..], c);
        run := [c];
      } else {
        run := SplitRunsTwo(s[1..], c);
      }
    }
  }
}
