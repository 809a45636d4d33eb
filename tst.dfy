/**
 * The draft derangement engine: the check that no santa drew itself, and the
 * single-pass "draw from the pool" procedure built on it.
 */
module Tst {
  import opened Wrappers
  import opened PyList
  import opened PyRandom

  /** Position `i` never holds the same value in both lists. */
  predicate NoFixedPoint<T(==)>(keys: seq<T>, values: seq<T>)
    requires |keys| == |values|
  {
    forall i :: 0 <= i < |keys| ==> keys[i] != values[i]
  }

  /** `result` is a rearrangement of `santas` in which nobody drew themselves. */
  predicate IsDerangement<T(==)>(santas: seq<T>, result: seq<T>)
  {
    |result| == |santas| && multiset(result) == multiset(santas) && NoFixedPoint(santas, result)
  }

  /**
   * The state in which the procedure gets stuck: every santa but the last has
   * drawn, nobody drew themselves, and the one value left in the pool is the
   * last santa.
   */
  predicate DeadEnd<T(==)>(santas: seq<T>, drawn: seq<T>)
  {
    && |santas| > 0
    && |drawn| == |santas| - 1
    && (forall j :: 0 <= j < |drawn| ==> drawn[j] != santas[j])
    && multiset(drawn) + multiset{santas[|drawn|]} == multiset(santas)
  }

  /**
   * `constraint(key_santas, value_santas)`: scans the positions in order and
   * answers false at the first one holding equal values. `clash` names that
   * position.
   */
  method Constraint<T(==)>(keySantas: seq<T>, valueSantas: seq<T>) returns (ok: bool, ghost clash: nat)
    requires |keySantas| == |valueSantas|
    ensures ok <==> NoFixedPoint(keySantas, valueSantas)
    ensures !ok ==> clash < |keySantas| && keySantas[clash] == valueSantas[clash]
                    && NoFixedPoint(keySantas[..clash], valueSantas[..clash])
  {
    clash := 0;
    for i := 0 to |keySantas|
      invariant forall j :: 0 <= j < i ==> keySantas[j] != valueSantas[j]
    {
      if keySantas[i] == valueSantas[i] {
        clash := i;
        return false, clash;
      }
    }
    return true, clash;
  }

  /** A value taken out of the pool, and the pool left behind. */
  datatype Pick<T> = Pick(drawn: T, rest: seq<T>)

  /**
   * The draw that `wichtel` makes in both its `try` body and its `except`
   * clause: `r = random.randint(0, len(tmp) - 1)`, then `tmp[r]` is the value
   * drawn and `tmp.remove(tmp[r])` takes it out. An empty pool makes `randint`
   * raise (`None`).
   */
  method DrawFrom<T(==)>(tmp: seq<T>) returns (p: Option<Pick<T>>)
    ensures p.None? <==> tmp == []
    ensures p.Some? ==> |p.value.rest| == |tmp| - 1
    ensures p.Some? ==> multiset(tmp) == multiset(p.value.rest) + multiset{p.value.drawn}
  {
    var roll := RandInt(0, |tmp| - 1);
    match roll {
      case None =>
        p := None;
      case Some(r) =>
        p := Some(Pick(tmp[r], Remove(tmp, tmp[r]).value));
    }
  }

  /** What one santa's turn leaves behind. */
  datatype Turn<T> =
    /** The santa drew `drawn`; `tmp` is the pool afterwards. */
    | Drew(drawn: T, tmp: seq<T>)
    /** `randint(0, -1)` raised in the `except` clause, which nothing catches. */
    | Stuck

  /**
   * The body of the `for` loop in `wichtel` for one santa. If the santa is in
   * the pool it is taken out, draws, and is appended again; otherwise
   * `tmp.remove(santa)` raises and the santa draws in the `except` clause.
   * When the `try` body leaves the pool empty, its `randint` raises into the
   * `except` clause, whose `randint` raises again.
   */
  method TakeTurn<T(==)>(santa: T, tmp: seq<T>) returns (t: Turn<T>)
    ensures t.Stuck? <==> tmp == [] || tmp == [santa]
    ensures t.Drew? && multiset(tmp)[santa] <= 1 ==> t.drawn != santa
    ensures t.Drew? ==> |t.tmp| == |tmp| - 1 && multiset(tmp) == multiset(t.tmp) + multiset{t.drawn}
  {
    var pool := tmp;
    // true while a ValueError travels from the try body to the except clause
    var raised := false;
    match Remove(pool, santa) {
      case None =>
        raised := true;
      case Some(rest) =>
        pool := rest;
        var p := DrawFrom(pool);
        match p {
          case None =>
            raised := true;
          case Some(Pick(x, left)) =>
            // the santa is out of the pool while it draws, so it cannot draw itself
            assert multiset(tmp)[santa] <= 1 ==> santa !in multiset(pool);
            t := Drew(x, left + [santa]);
        }
    }
    if raised {
      var p := DrawFrom(pool);
      match p {
        case None =>
          t := Stuck;
        case Some(Pick(x, left)) =>
          t := Drew(x, left);
      }
    }
  }

  /** A value occurs at most once in a pool carved out of distinct santas. */
  lemma PoolCount<T>(santas: seq<T>, result: seq<T>, tmp: seq<T>, santa: T)
    requires Distinct(santas) && multiset(result) + multiset(tmp) == multiset(santas)
    ensures multiset(tmp)[santa] <= 1
  {
    SingleCount(santas, santa);
    assert multiset(santas)[santa] == multiset(result)[santa] + multiset(tmp)[santa];
  }

  /** How one run of `wichtel` ends. */
  datatype Outcome<T> =
    /** The loop went through every santa; `panicked` is the final check failing. */
    | Finished(result: seq<T>, panicked: bool)
    /** A `ValueError` escaped a santa's turn; `result` is what had been drawn by then. */
    | Raised(result: seq<T>)

  /**
   * `wichtel()` over any list of distinct santas: every santa, in order,
   * takes a turn at drawing from the pool `tmp` of values nobody has drawn
   * yet, and at the end the `constraint` check decides whether to panic.
   */
  method Wichtel<T(==)>(santas: seq<T>) returns (o: Outcome<T>)
    requires Distinct(santas)
    ensures o.Finished? ==> IsDerangement(santas, o.result) && Distinct(o.result) && !o.panicked
    ensures o.Raised? ==> DeadEnd(santas, o.result)
  {
    var tmp := santas;
    var result := [];
    for i := 0 to |santas|
      invariant |result| == i
      invariant |tmp| == |santas| - i
      invariant multiset(result) + multiset(tmp) == multiset(santas)
      invariant forall j :: 0 <= j < i ==> result[j] != santas[j]
    {
      var santa := santas[i];
      PoolCount(santas, result, tmp, santa);
      var t := TakeTurn(santa, tmp);
      if t.Stuck? {
        assert tmp == [santa] && i == |santas| - 1;
        assert multiset(tmp) == multiset{santas[|result|]};
        return Raised(result);
      }
      result := result + [t.drawn];
      tmp := t.tmp;
    }
    assert tmp == [] && multiset(result) == multiset(santas);
    PermutationOfDistinct(result, santas);
    var ok, _ := Constraint(santas, result);
    o := Finished(result, !ok);
  }

  /** With two santas the only derangement is the swap. */
  lemma TwoSantasSwap<T>(santas: seq<T>, result: seq<T>)
    requires |santas| == 2 && Distinct(santas) && IsDerangement(santas, result)
    ensures result == [santas[1], santas[0]]
  {
    assert santas == [santas[0], santas[1]];
    assert result[0] in multiset(santas) && result[1] in multiset(santas) by {
      assert result[0] in multiset(result) && result[1] in multiset(result);
    }
  }

  /** With two santas the procedure never reaches the dead-end. */
  lemma NoDeadEndForTwo<T>(santas: seq<T>, drawn: seq<T>)
    requires |santas| == 2 && Distinct(santas)
    ensures !DeadEnd(santas, drawn)
  {
    if |drawn| == 1 && drawn[0] != santas[0] {
      assert santas == [santas[0], santas[1]];
      assert drawn == [drawn[0]];
      assert multiset(drawn) + multiset{santas[1]} != multiset(santas) by {
        assert multiset(santas)[santas[0]] == 1;
        assert (multiset(drawn) + multiset{santas[1]})[santas[0]] == 0;
      }
    }
  }

  /** A lone santa has no derangement: the run can only end at the dead-end. */
  lemma LoneSantaIsDeadEnd<T>(santas: seq<T>, result: seq<T>)
    requires |santas| == 1
    ensures !IsDerangement(santas, result)
    ensures DeadEnd(santas, [])
  {
  }

  /** The cyclic shift of `s` one place to the left. */
  function RotateLeft<T>(s: seq<T>): (r: seq<T>)
    ensures |r| == |s| && multiset(r) == multiset(s)
    ensures forall j :: 0 <= j < |s| - 1 ==> r[j] == s[j + 1]
    ensures s != [] ==> r[|s| - 1] == s[0]
  {
    if s == [] then [] else
      assert s == [s[0]] + s[1..];
      s[1..] + [s[0]]
  }

  /**
   * From three santas on the dead-end is a consistent state: the first
   * `n - 1` santas can have drawn each other in a cycle, leaving only the
   * last santa in the pool for its own turn.
   */
  lemma DeadEndFromThree<T>(santas: seq<T>)
    requires |santas| >= 3 && Distinct(santas)
    ensures DeadEnd(santas, RotateLeft(santas[..|santas| - 1]))
  {
    var n := |santas|;
    var first := santas[..n - 1];
    var drawn := RotateLeft(first);
    forall j | 0 <= j < |drawn| ensures drawn[j] != santas[j] {
      if j < n - 2 {
        assert drawn[j] == santas[j + 1];
      } else {
        assert drawn[j] == santas[0];
      }
    }
    assert santas == first + [santas[n - 1]];
  }

  /** Every run with two distinct santas finishes with the swap. */
  method WichtelTwo<T(==)>(santas: seq<T>) returns (o: Outcome<T>)
    requires |santas| == 2 && Distinct(santas)
    ensures o == Finished([santas[1], santas[0]], false)
  {
    o := Wichtel(santas);
    if o.Raised? {
      NoDeadEndForTwo(santas, o.result);
    } else {
      TwoSantasSwap(santas, o.result);
    }
  }

  /** Every run with a lone santa raises before anything is drawn. */
  method WichtelOne<T(==)>(santas: seq<T>) returns (o: Outcome<T>)
    requires |santas| == 1
    ensures o == Raised([])
  {
    o := Wichtel(santas);
    LoneSantaIsDeadEnd(santas, o.result);
  }

  /** A completed run always has the last santa drawn before its own turn. */
  lemma LastSantaDrawnEarly<T>(santas: seq<T>, result: seq<T>)
    requires |santas| > 0 && IsDerangement(santas, result)
    ensures santas[|santas| - 1] in result[..|santas| - 1]
  {
    var n := |santas|;
    var last := santas[n - 1];
    assert last in multiset(result) by {
      assert last in multiset(santas);
    }
    var k :| 0 <= k < n && result[k] == last;
    assert result[..n - 1][k] == last;
  }

  /** The drawn list read as the dictionary from each santa to the santa it gifts. */
  function ToAssignment<T>(santas: seq<T>, result: seq<T>): (m: map<T, T>)
    requires Distinct(santas) && |result| == |santas|
    ensures m.Keys == set i | 0 <= i < |santas| :: santas[i]
    ensures forall i :: 0 <= i < |santas| ==> m[santas[i]] == result[i]
  {
    map i | 0 <= i < |santas| :: santas[i] := result[i]
  }

  /** Only santas are gifted. */
  lemma AssignmentValuesAreSantas<T>(santas: seq<T>, result: seq<T>)
    requires Distinct(santas) && IsDerangement(santas, result)
    ensures ToAssignment(santas, result).Values <= ToAssignment(santas, result).Keys
  {
    var m := ToAssignment(santas, result);
    forall y | y in m.Values ensures y in m.Keys {
      var x :| x in m.Keys && m[x] == y;
      var i :| 0 <= i < |santas| && santas[i] == x;
      assert y == result[i];
      assert y in multiset(santas) by {
        assert y in multiset(result);
      }
      var j := IndexOf(santas, y);
    }
  }

  /** Every santa is gifted by someone. */
  lemma AssignmentCoversSantas<T>(santas: seq<T>, result: seq<T>)
    requires Distinct(santas) && IsDerangement(santas, result)
    ensures ToAssignment(santas, result).Keys <= ToAssignment(santas, result).Values
  {
    var m := ToAssignment(santas, result);
    forall y | y in m.Keys ensures y in m.Values {
      var i :| 0 <= i < |santas| && santas[i] == y;
      assert y in multiset(result) by {
        assert y in multiset(santas);
      }
      var k := IndexOf(result, y);
      assert m[santas[k]] == y;
    }
  }

  /**
   * The first half of the intended contract of `shuffle_santas`: the santas
   * gifted are exactly the santas gifting.
   */
  lemma AssignmentOnto<T>(santas: seq<T>, result: seq<T>)
    requires Distinct(santas) && IsDerangement(santas, result)
    ensures ToAssignment(santas, result).Values == ToAssignment(santas, result).Keys
  {
    AssignmentValuesAreSantas(santas, result);
    AssignmentCoversSantas(santas, result);
  }

  /** The second half: nobody is mapped to themselves. */
  lemma AssignmentNoSelf<T>(santas: seq<T>, result: seq<T>)
    requires Distinct(santas) && IsDerangement(santas, result)
    ensures forall x | x in ToAssignment(santas, result) :: ToAssignment(santas, result)[x] != x
  {
  }

  /** No two santas gift the same santa. */
  lemma AssignmentInjective<T>(santas: seq<T>, result: seq<T>)
    requires Distinct(santas) && IsDerangement(santas, result)
    ensures forall i, j :: 0 <= i < j < |santas| ==>
      ToAssignment(santas, result)[santas[i]] != ToAssignment(santas, result)[santas[j]]
  {
    var m := ToAssignment(santas, result);
    forall i, j | 0 <= i < j < |santas| ensures m[santas[i]] != m[santas[j]] {
      SingleCount(santas, result[i]);
      NoRepeat(result, i, j);
    }
  }
}
