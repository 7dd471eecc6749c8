/** Adding arguments and groups in front of the argument list keeps a command line ready for its first parse. */
module TclapDefine {
  import opened Tclap
  import opened TclapRequired

  ghost function ShiftGroup(group: seq<nat>, n: nat): (r: seq<nat>)
    ensures |r| == |group|
  {
    seq(|group|, i requires 0 <= i < |group| => group[i] + n)
  }

  /** The same groups after `n` arguments were put in front. */
  ghost function Shift(groups: Groups, n: nat): (r: Groups)
    ensures |r| == |groups|
  {
    seq(|groups|, g requires 0 <= g < |groups| => ShiftGroup(groups[g], n))
  }

  lemma InShifted(group: seq<nat>, n: nat, k: nat)
    ensures k in ShiftGroup(group, n) <==> k >= n && k - n in group
  {
    var s := ShiftGroup(group, n);
    if k in s {
      var i :| 0 <= i < |s| && s[i] == k;
      assert group[i] == k - n;
    }
    if k >= n && k - n in group {
      var i :| 0 <= i < |group| && group[i] == k - n;
      assert s[i] == k;
    }
  }

  lemma ShiftedGroups(groups: Groups, n: nat, front: seq<Arg>, args: seq<Arg>)
    requires WellDefined(groups, args) && |front| == n
    ensures Disjoint(Shift(groups, n))
    ensures forall g | 0 <= g < |groups| ::
      Distinct(Shift(groups, n)[g]) && AllRequired(Shift(groups, n)[g], front + args)
  {
    var s := Shift(groups, n);
    forall g, h, k: nat | 0 <= g < h < |s| && k in s[g] ensures k !in s[h] {
      InShifted(groups[g], n, k);
      InShifted(groups[h], n, k);
    }
    forall g | 0 <= g < |s| ensures Distinct(s[g]) && AllRequired(s[g], front + args) {
      assert Distinct(groups[g]) && AllRequired(groups[g], args);
    }
  }

  ghost function ShiftSet(s: set<nat>, n: nat): set<nat> {
    set k: nat | k in s :: k + n
  }

  lemma InShiftSet(s: set<nat>, n: nat, k: nat)
    ensures k in ShiftSet(s, n) <==> k >= n && k - n in s
  {
    if k >= n && k - n in s {
      assert k - n + n == k;
    }
  }

  lemma {:induction false} ShiftSetSize(s: set<nat>, n: nat)
    ensures |ShiftSet(s, n)| == |s|
  {
    if s == {} {
      assert ShiftSet(s, n) == {};
    } else {
      var k :| k in s;
      ShiftSetSize(s - {k}, n);
      var rest := ShiftSet(s - {k}, n);
      assert k + n !in rest;
      assert ShiftSet(s, n) == rest + {k + n} by {
        forall x: nat ensures x in ShiftSet(s, n) <==> x in rest || x == k + n {
          InShiftSet(s, n, x);
          InShiftSet(s - {k}, n, x);
        }
      }
    }
  }

  lemma RequiredConcat(front: seq<Arg>, args: seq<Arg>)
    ensures |Required(front + args)| == |Required(front)| + |Required(args)|
  {
    var moved := ShiftSet(Required(args), |front|);
    ShiftSetSize(Required(args), |front|);
    forall k: nat ensures k in Required(front + args) <==> k in Required(front) + moved {
      if |front| <= k < |front + args| {
        assert k in moved <==> k - |front| in Required(args);
      }
    }
    assert Required(front + args) == Required(front) + moved;
  }

  lemma {:induction false} AllRequiredSize(args: seq<Arg>)
    requires forall k | 0 <= k < |args| :: args[k].required
    ensures |Required(args)| == |args|
  {
    if args == [] {
      assert Required(args) == {};
    } else {
      var n := |args| - 1;
      AllRequiredSize(args[..n]);
      assert Required(args) == Required(args[..n]) + {n};
    }
  }

  /** `add` of an argument outside the groups. */
  lemma AddDefined(line: Line, args: seq<Arg>, a: Arg)
    requires Defined(line, args) && (a.kind.SwitchArg? ==> !a.required)
    ensures
      var numRequired := line.numRequired + if a.required then 1 else 0;
      Defined(line.(groups := Shift(line.groups, 1), numRequired := numRequired), [a] + args)
  {
    var groups := Shift(line.groups, 1);
    ShiftedGroups(line.groups, 1, [a], args);
    assert |Required([a])| == if a.required then 1 else 0 by {
      assert Required([a]) == if a.required then {0} else {};
    }
    RequiredConcat([a], args);
    forall k: nat | k < |[a] + args| && ([a] + args)[k].kind.SwitchArg? && ([a] + args)[k].required
      ensures Grouped(groups, k)
    {
      var g :| 0 <= g < |line.groups| && k - 1 in line.groups[g];
      InShifted(line.groups[g], 1, k);
      assert k in groups[g];
    }
  }

  /** The positions of a group whose members were put in front one by one. */
  ghost function FrontGroup(n: nat): (r: seq<nat>)
    ensures |r| == n
  {
    seq(n, j requires 0 <= j < n => n - 1 - j)
  }

  lemma InFrontGroup(n: nat, k: nat)
    ensures k in FrontGroup(n) <==> k < n
  {
    if k < n {
      assert FrontGroup(n)[n - 1 - k] == k;
    }
  }

  /** `xorAdd` of a group. */
  lemma XorAddDefined(line: Line, args: seq<Arg>, front: seq<Arg>)
    requires Defined(line, args) && forall k | 0 <= k < |front| :: front[k].required
    ensures
      var n := |front|;
      Defined(line.(groups := Shift(line.groups, n) + [FrontGroup(n)], numRequired := line.numRequired + n),
              front + args)
  {
    var n := |front|;
    var shifted := Shift(line.groups, n);
    var groups := shifted + [FrontGroup(n)];
    ShiftedGroups(line.groups, n, front, args);
    AllRequiredSize(front);
    RequiredConcat(front, args);
    forall g, h, k: nat | 0 <= g < h < |groups| && k in groups[g] ensures k !in groups[h] {
      if h == |shifted| {
        InShifted(line.groups[g], n, k);
        InFrontGroup(n, k);
      }
    }
    forall k: nat | k < |front + args| && (front + args)[k].kind.SwitchArg? && (front + args)[k].required
      ensures Grouped(groups, k)
    {
      InFrontGroup(n, k);
      if k < n {
        assert k in groups[|shifted|];
      } else {
        var g :| 0 <= g < |line.groups| && k - n in line.groups[g];
        InShifted(line.groups[g], n, k);
        assert k in groups[g];
      }
    }
  }
}
