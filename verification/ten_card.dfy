/**
 * ten-card.cs: the card variant of the ten puzzle. Its `Perm<T>` is an
 * odometer over index tuples, `Combi<T>` filters that odometer down to
 * tuples of pairwise distinct indexes, `checkIt` searches the operator
 * triples for one whose expression is worth 10, and `computeKey` names a
 * hand of four digits independently of their order. Ratios, operators and
 * expression trees are the same as in ten.cs and come from `TenPuzzle`.
 */
module TenCard {
  import opened Truncation
  import opened TenPuzzle

  /** The odometer after one step, and whether it did not wrap around. */
  datatype Step = Step(digits: seq<nat>, more: bool)

  /** `len` zero digits. */
  function Zeros(len: nat): (z: seq<nat>)
    ensures |z| == len && forall i :: 0 <= i < len ==> z[i] == 0
  {
    seq(len, _ => 0)
  }

  /**
   * One turn of the odometer over base n: digit 0 goes up by one; a digit
   * that reaches n becomes 0 and carries into the next one; a carry out of
   * the last digit means the odometer wrapped around.
   */
  function Increment(ds: seq<nat>, n: nat): (r: Step)
    ensures |r.digits| == |ds|
  {
    if ds == [] then Step([], false)
    else if ds[0] + 1 < n then Step([ds[0] + 1] + ds[1..], true)
    else
      var rest := Increment(ds[1..], n);
      Step([0] + rest.digits, rest.more)
  }

  /**
   * Read as a base-n number, digit 0 least significant, one step adds one;
   * it wraps around to all zeros exactly when the number was the largest
   * one, n^len - 1.
   */
  lemma {:induction false} IncrementCounts(ds: seq<nat>, n: nat)
    requires n > 0 && forall i :: 0 <= i < |ds| ==> ds[i] < n
    ensures var r := Increment(ds, n);
      (forall i :: 0 <= i < |ds| ==> r.digits[i] < n) &&
      (r.more ==> FromDigits(r.digits, n) == FromDigits(ds, n) + 1) &&
      (!r.more ==> r.digits == Zeros(|ds|) && FromDigits(ds, n) + 1 == Pow(n, |ds|))
  {
    if ds != [] {
      var r := Increment(ds, n);
      if ds[0] + 1 < n {
        assert r.digits[1..] == ds[1..];
      } else {
        var rest := Increment(ds[1..], n);
        IncrementCounts(ds[1..], n);
        assert r.digits[1..] == rest.digits;
        assert ds[0] == n - 1;
        if rest.more {
          assert n * (FromDigits(ds[1..], n) + 1) == n * FromDigits(ds[1..], n) + n;
        } else {
          assert n * Pow(n, |ds| - 1) == Pow(n, |ds|);
          assert n * (FromDigits(ds[1..], n) + 1) == n * FromDigits(ds[1..], n) + n;
          assert FromDigits(r.digits, n) == 0 by {
            FromDigitsOfZeros(|ds| - 1, n);
          }
        }
      }
    }
  }

  lemma {:induction false} FromDigitsOfZeros(len: nat, n: nat)
    ensures FromDigits(Zeros(len), n) == 0
  {
    if len > 0 {
      FromDigitsOfZeros(len - 1, n);
      assert Zeros(len)[1..] == Zeros(len - 1);
    }
  }

  /** The zero digits are the digits of 0. */
  lemma {:induction false} ZerosAreDigitsOfZero(n: nat, len: nat)
    requires n > 0
    ensures DigitsOf(0, n, len) == Zeros(len)
  {
    if len > 0 {
      ZerosAreDigitsOfZero(n, len - 1);
    }
  }

  /**
   * The odometer walks the base-n digits of 0, 1, 2, ... in order: from the
   * digits of k it steps to the digits of k + 1, and after the last number
   * it reports the end and returns to the digits of 0. This is the order in
   * which the `PermutationSet` of ten.cs enumerates its tuples.
   */
  lemma IncrementIsSuccessor(k: nat, n: nat, len: nat)
    requires n > 0 && k < Pow(n, len)
    ensures Increment(DigitsOf(k, n, len), n) ==
      if k + 1 < Pow(n, len) then Step(DigitsOf(k + 1, n, len), true)
      else Step(DigitsOf(0, n, len), false)
  {
    var ds := DigitsOf(k, n, len);
    var r := Increment(ds, n);
    DigitsRoundTrip(k, n, len);
    IncrementCounts(ds, n);
    FromDigitsRoundTrip(r.digits, n);
    if !r.more {
      FromDigitsOfZeros(len, n);
      ZerosAreDigitsOfZero(n, len);
    }
  }

  /** The elements of `alphabetv` that the indexes `ds` select. */
  function Select<T>(alphabetv: seq<T>, ds: seq<nat>): (vv: seq<T>)
    requires forall i :: 0 <= i < |ds| ==> ds[i] < |alphabetv|
    ensures |vv| == |ds| && forall i :: 0 <= i < |ds| ==> vv[i] == alphabetv[ds[i]]
  {
    Pick(alphabetv, ds)
  }

  /**
   * `Perm<T>`: an odometer of `numElts` indexes into `alphabetv`, starting
   * from all zeros; `current` holds the elements the indexes select.
   */
  class Perm<T(0)> {
    const alphabetv: seq<T>
    var current: seq<T>
    const numElts: nat
    const indexv: array<nat>

    ghost predicate Valid()
      reads this, indexv
    {
      indexv.Length == numElts && (|alphabetv| > 0 || numElts == 0) &&
      forall i :: 0 <= i < numElts ==> indexv[i] < |alphabetv|
    }

    constructor (alphabetv: seq<T>, numElts: nat)
      requires |alphabetv| > 0 || numElts == 0
      ensures Valid() && fresh(indexv)
      ensures this.alphabetv == alphabetv && this.numElts == numElts
      ensures indexv[..] == Zeros(numElts) && current == Select(alphabetv, indexv[..])
    {
      this.numElts := numElts;
      this.alphabetv := alphabetv;
      this.indexv := new nat[numElts] (_ => 0);
      new;
      current := Compute();
    }

    /** `compute`: the elements selected by the current indexes. */
    method Compute() returns (vv: seq<T>)
      requires Valid()
      ensures vv == Select(alphabetv, indexv[..])
    {
      var a := new T[numElts];
      for i := 0 to numElts
        invariant forall j :: 0 <= j < i ==> a[j] == alphabetv[indexv[j]]
      {
        var k := indexv[i];
        a[i] := alphabetv[k];
      }
      vv := a[..];
    }

    /**
     * `MoveNext`: one odometer step on `indexv`. It reports false after a
     * full wrap-around, leaving `current` as it was.
     */
    method MoveNext() returns (more: bool)
      requires Valid()
      modifies this, indexv
      ensures Valid()
      ensures Increment(old(indexv[..]), |alphabetv|) == Step(indexv[..], more)
      ensures more ==> current == Select(alphabetv, indexv[..])
      ensures !more ==> current == old(current)
    {
      ghost var s := indexv[..];
      var n := |alphabetv|;
      var i := 0;
      more := false;
      while i < numElts
        invariant 0 <= i <= numElts && !more
        invariant forall j :: 0 <= j < i ==> indexv[j] == 0 && s[j] + 1 >= n
        invariant forall j :: i <= j < numElts ==> indexv[j] == s[j]
        modifies indexv
      {
        indexv[i] := indexv[i] + 1;
        if indexv[i] < n {
          more := true;
          break;
        }
        indexv[i] := 0;
        i := i + 1;
      }
      IncrementResult(s, n, i, indexv[..], more);
      if more {
        current := Compute();
      }
    }
  }

  /**
   * The digits the carry loop leaves: zeros below position i, then (unless
   * the carry ran off the end) the incremented digit i and the untouched
   * rest. That is one odometer step.
   */
  lemma {:induction false} IncrementResult(s: seq<nat>, n: nat, i: nat, t: seq<nat>, more: bool)
    requires |t| == |s| && i <= |s|
    requires forall j :: 0 <= j < i ==> t[j] == 0 && s[j] + 1 >= n
    requires more ==> i < |s| && s[i] + 1 < n && t[i] == s[i] + 1 && forall j :: i < j < |s| ==> t[j] == s[j]
    requires !more ==> i == |s|
    ensures Increment(s, n) == Step(t, more)
  {
    if i > 0 {
      IncrementResult(s[1..], n, i - 1, t[1..], more);
      assert t == [0] + t[1..];
    } else if more {
      assert t == [s[0] + 1] + s[1..];
    }
  }

  /** No index occurs twice. */
  predicate Distinct(ds: seq<nat>) {
    forall i, j :: 0 <= i < j < |ds| ==> ds[i] != ds[j]
  }

  /** Odometer position v (base n, len digits) repeats an index. */
  predicate Repeats(v: nat, n: nat, len: nat)
    requires n > 0 || len == 0
  {
    !Distinct(DigitsOf(v, n, len))
  }

  /** All digits are below n. */
  predicate InBase(ds: seq<nat>, n: nat) {
    forall i :: 0 <= i < |ds| ==> ds[i] < n
  }

  /**
   * One odometer step, read as numbers: from position k it moves to k + 1,
   * or wraps around to 0 after the last position n^len - 1.
   */
  lemma OdometerStep(ds: seq<nat>, n: nat)
    requires n > 0 && InBase(ds, n)
    ensures var r := Increment(ds, n);
      InBase(r.digits, n) && FromDigits(ds, n) < Pow(n, |ds|) &&
      (r.more ==> FromDigits(r.digits, n) == FromDigits(ds, n) + 1 < Pow(n, |ds|)) &&
      (!r.more ==> FromDigits(ds, n) + 1 == Pow(n, |ds|) && r.digits == Zeros(|ds|))
  {
    IncrementCounts(ds, n);
    FromDigitsRoundTrip(ds, n);
    FromDigitsRoundTrip(Increment(ds, n).digits, n);
  }

  /**
   * The odometer stepped until its digits are distinct or it wraps around:
   * what `Combi.MoveNext` computes.
   */
  function NextDistinct(ds: seq<nat>, n: nat): (r: Step)
    requires n > 0 && InBase(ds, n)
    ensures |r.digits| == |ds| && InBase(r.digits, n)
    decreases Pow(n, |ds|) - FromDigits(ds, n)
  {
    OdometerStep(ds, n);
    var r := Increment(ds, n);
    if !r.more || Distinct(r.digits) then r else NextDistinct(r.digits, n)
  }

  /** Every odometer position strictly between lo and hi repeats an index. */
  predicate RepeatsBetween(lo: nat, hi: nat, n: nat, len: nat)
    requires n > 0 || len == 0
  {
    forall v :: lo < v < hi ==> Repeats(v, n, len)
  }

  lemma RepeatsBetweenExtend(lo: nat, hi: nat, n: nat, len: nat)
    requires n > 0 || len == 0
    requires lo + 1 < hi ==> Repeats(lo + 1, n, len)
    requires RepeatsBetween(lo + 1, hi, n, len)
    ensures RepeatsBetween(lo, hi, n, len)
  {
    forall v | lo < v < hi
      ensures Repeats(v, n, len)
    {
      if v > lo + 1 {
        assert lo + 1 < v < hi;
      }
    }
  }

  /**
   * `NextDistinct` finds the next position after k whose indexes are
   * distinct, passing over only positions with a repeated index; when there
   * is none it reports the end and returns to position 0.
   */
  lemma {:induction false} NextDistinctSkipsOnlyRepeats(ds: seq<nat>, n: nat)
    requires n > 0 && InBase(ds, n)
    ensures var r, k, len := NextDistinct(ds, n), FromDigits(ds, n), |ds|;
      r.more ==> (Distinct(r.digits) && k < FromDigits(r.digits, n) &&
        DigitsOf(FromDigits(r.digits, n), n, len) == r.digits &&
        RepeatsBetween(k, FromDigits(r.digits, n), n, len))
    ensures var r, k, len := NextDistinct(ds, n), FromDigits(ds, n), |ds|;
      !r.more ==> (r.digits == Zeros(len) && RepeatsBetween(k, Pow(n, len), n, len))
    decreases Pow(n, |ds|) - FromDigits(ds, n)
  {
    OdometerStep(ds, n);
    var r := Increment(ds, n);
    var k := FromDigits(ds, n);
    var len := |ds|;
    if r.more {
      FromDigitsRoundTrip(r.digits, n);
      if !Distinct(r.digits) {
        var q := NextDistinct(r.digits, n);
        assert NextDistinct(ds, n) == q;
        NextDistinctSkipsOnlyRepeats(r.digits, n);
        var hi := if q.more then FromDigits(q.digits, n) else Pow(n, len);
        assert FromDigits(r.digits, n) == k + 1;
        assert Repeats(k + 1, n, len);
        RepeatsBetweenExtend(k, hi, n, len);
      }
    }
  }

  /**
   * `Combi<T>`: the odometer restricted to index tuples without repeats.
   * It is a `Perm<T>` in the source; here it holds one.
   */
  class Combi<T(0)> {
    const perm: Perm<T>

    ghost predicate Valid()
      reads this, perm, perm.indexv
    {
      perm.Valid() && |perm.alphabetv| <= perm.numElts
    }

    /** Builds the odometer and advances it once, as the source's constructor does. */
    constructor (alphabetv: seq<T>, numElts: nat)
      requires |alphabetv| > 0 || numElts == 0
      requires |alphabetv| <= numElts
      ensures Valid() && fresh(perm) && fresh(perm.indexv)
      ensures perm.alphabetv == alphabetv && perm.numElts == numElts
      ensures |alphabetv| > 0 ==> perm.indexv[..] == NextDistinct(Zeros(numElts), |alphabetv|).digits
    {
      perm := new Perm(alphabetv, numElts);
      new;
      var _ := MoveNext();
    }

    /** `NoDuplicate`: whether the current indexes are pairwise distinct. */
    method NoDuplicate() returns (r: bool)
      requires Valid()
      ensures r <==> Distinct(perm.indexv[..])
    {
      var bv := new bool[perm.numElts] (_ => false);
      var i := 0;
      while i < perm.numElts
        invariant 0 <= i <= perm.numElts
        invariant forall k :: 0 <= k < bv.Length ==> (bv[k] <==> k in perm.indexv[..i])
        invariant Distinct(perm.indexv[..i])
      {
        var k := perm.indexv[i];
        if bv[k] {
          assert !Distinct(perm.indexv[..]) by {
            var j :| 0 <= j < i && perm.indexv[..i][j] == k;
            assert perm.indexv[..][j] == perm.indexv[..][i];
          }
          return false;
        }
        bv[k] := true;
        assert perm.indexv[..i + 1] == perm.indexv[..i] + [k];
        i := i + 1;
      }
      assert perm.indexv[..] == perm.indexv[..i];
      return true;
    }

    /**
     * `MoveNext`: steps the odometer until its indexes are distinct or it
     * wraps around, as `NextDistinct` says.
     */
    method MoveNext() returns (more: bool)
      requires Valid()
      modifies perm, perm.indexv
      ensures Valid()
      ensures |perm.alphabetv| > 0 ==> NextDistinct(old(perm.indexv[..]), |perm.alphabetv|) == Step(perm.indexv[..], more)
      ensures |perm.alphabetv| == 0 ==> !more
      ensures more ==> perm.current == Select(perm.alphabetv, perm.indexv[..])
    {
      var n := |perm.alphabetv|;
      if n == 0 {
        more := perm.MoveNext();
        return;
      }
      ghost var s := perm.indexv[..];
      OdometerStep(s, n);
      while true
        invariant Valid()
        invariant NextDistinct(s, n) == NextDistinct(perm.indexv[..], n)
        decreases Pow(n, perm.numElts) - FromDigits(perm.indexv[..], n)
      {
        ghost var before := perm.indexv[..];
        OdometerStep(before, n);
        more := perm.MoveNext();
        if !more {
          return false;
        }
        var d := NoDuplicate();
        if d {
          return true;
        }
      }
    }
  }

  /** `operatorv`: the operators in the order tried, division last. */
  const operatorv: seq<Op> := [OpAdd, OpMul, OpSub, OpDiv]

  /** The expression `checkIt` builds: opv0(opv1(d0, opv2(d1, d2)), d3). */
  function Expr(dv: seq<int>, opv: seq<Op>): Node
    requires |dv| == 4 && |opv| == 3
  {
    BinNode(opv[0], BinNode(opv[1], Immediate(dv[0]), BinNode(opv[2], Immediate(dv[1]), Immediate(dv[2]))), Immediate(dv[3]))
  }

  /** The operator triple the odometer holds at position k. */
  function OpsAt(k: nat): (opv: seq<Op>)
    ensures |opv| == 3
  {
    Select(operatorv, DigitsOf(k, 4, 3))
  }

  /** Whether an expression is worth exactly 10 (`expr.Value == 10`). */
  predicate IsTen(e: Node) {
    RatioEqInt(Value(e), 10)
  }

  /** Whether the expression at odometer position j is worth 10. */
  function TenAt(dv: seq<int>): nat -> bool
    requires |dv| == 4
  {
    (j: nat) => IsTen(Expr(dv, OpsAt(j)))
  }

  /**
   * The first odometer position from k on (of the 64 operator triples)
   * where p holds, if any.
   */
  function FirstFrom(k: nat, p: nat -> bool): (r: Option<nat>)
    ensures r.Some? ==> k <= r.value < 64 && p(r.value) && forall j :: k <= j < r.value ==> !p(j)
    ensures r.None? ==> forall j :: k <= j < 64 ==> !p(j)
    decreases 64 - k
  {
    if k >= 64 then None
    else if p(k) then Some(k)
    else FirstFrom(k + 1, p)
  }

  /**
   * The first expression from odometer position k on that is worth 10, if
   * any: the one at `FirstFrom(k, TenAt(dv))`.
   */
  function FirstTen(dv: seq<int>, k: nat): Option<Node>
    requires |dv| == 4
  {
    match FirstFrom(k, TenAt(dv))
    case None => None
    case Some(j) => Some(Expr(dv, OpsAt(j)))
  }

  /**
   * `checkIt` as written: a `foreach` over a fresh odometer, whose first
   * `MoveNext` already steps past the all-zero position, so the triple
   * (+, +, +) is never tried.
   */
  method CheckIt(dv: seq<int>) returns (r: Option<Node>)
    requires |dv| == 4
    ensures r == FirstTen(dv, 1)
  {
    var perm := new Perm(operatorv, 3);
    ZerosAreDigitsOfZero(4, 3);
    IncrementIsSuccessor(0, 4, 3);
    var more := perm.MoveNext();
    ghost var k := 1;
    while more
      invariant perm.Valid() && perm.alphabetv == operatorv && perm.numElts == 3
      invariant 1 <= k <= 64 && (more ==> k < 64)
      invariant more ==> perm.indexv[..] == DigitsOf(k, 4, 3) && perm.current == OpsAt(k)
      invariant FirstTen(dv, 1) == FirstTen(dv, if more then k else 64)
      decreases 64 - k, more
    {
      var opv := perm.current;
      var expr := BinNode(opv[0], BinNode(opv[1], Immediate(dv[0]), BinNode(opv[2], Immediate(dv[1]), Immediate(dv[2]))), Immediate(dv[3]));
      if RatioEqInt(Value(expr), 10) {
        return Some(expr);
      }
      IncrementIsSuccessor(k, 4, 3);
      more := perm.MoveNext();
      if more {
        k := k + 1;
      }
    }
    return None;
  }

  /** `checkIt` as evidently intended: the starting triple is tried too. */
  method CheckItCorrected(dv: seq<int>) returns (r: Option<Node>)
    requires |dv| == 4
    ensures r == FirstTen(dv, 0)
  {
    var perm := new Perm(operatorv, 3);
    ZerosAreDigitsOfZero(4, 3);
    var more := true;
    ghost var k := 0;
    while more
      invariant perm.Valid() && perm.alphabetv == operatorv && perm.numElts == 3
      invariant 0 <= k <= 64 && (more ==> k < 64)
      invariant more ==> perm.indexv[..] == DigitsOf(k, 4, 3) && perm.current == OpsAt(k)
      invariant FirstTen(dv, 0) == FirstTen(dv, if more then k else 64)
      decreases 64 - k, more
    {
      var opv := perm.current;
      var expr := BinNode(opv[0], BinNode(opv[1], Immediate(dv[0]), BinNode(opv[2], Immediate(dv[1]), Immediate(dv[2]))), Immediate(dv[3]));
      if RatioEqInt(Value(expr), 10) {
        return Some(expr);
      }
      IncrementIsSuccessor(k, 4, 3);
      more := perm.MoveNext();
      if more {
        k := k + 1;
      }
    }
    return None;
  }

  /**
   * The as-written search can never return the all-addition expression,
   * while for the hand 1, 1, 1, 7 that is the one the corrected search
   * returns: (1 + (1 + 1)) + 7 = 10.
   */
  lemma CheckItSkipsAllAddition(dv: seq<int>)
    requires |dv| == 4
    ensures FirstTen(dv, 1) != Some(Expr(dv, [OpAdd, OpAdd, OpAdd]))
  {
    var e := Expr(dv, [OpAdd, OpAdd, OpAdd]);
    var r := FirstFrom(1, TenAt(dv));
    if r.Some? {
      OpsAtNonZero(r.value);
    }
  }

  /** For the hand 1, 1, 1, 7 the corrected search returns (1 + (1 + 1)) + 7. */
  lemma CorrectedFindsAllAddition()
    ensures FirstTen([1, 1, 1, 7], 0) == Some(Expr([1, 1, 1, 7], [OpAdd, OpAdd, OpAdd]))
  {
    ZerosAreDigitsOfZero(4, 3);
    assert OpsAt(0) == [OpAdd, OpAdd, OpAdd];
    AllAdditionIsTen();
    assert TenAt([1, 1, 1, 7])(0);
  }

  /** Only position 0 holds the triple (+, +, +). */
  lemma OpsAtNonZero(j: nat)
    requires 0 < j < 64
    ensures OpsAt(j) != [OpAdd, OpAdd, OpAdd]
  {
    DigitsRoundTrip(j, 4, 3);
  }

  lemma AllAdditionIsTen()
    ensures IsTen(Expr([1, 1, 1, 7], [OpAdd, OpAdd, OpAdd]))
  {
    var two := RatioAdd(FromInt(1), FromInt(1));
    assert two == Ratio(2, 1) by {
      GcdOfUnit(2);
    }
    var three := RatioAdd(FromInt(1), two);
    assert three == Ratio(3, 1) by {
      GcdOfUnit(3);
    }
    var ten := RatioAdd(three, FromInt(7));
    assert ten == Ratio(10, 1) by {
      GcdOfUnit(10);
    }
  }

  /** gcd(m, 1) is 1, so dividing it out changes nothing. */
  lemma GcdOfUnit(m: int)
    ensures GcdOf(m, 1) == 1 && MakeRatio(m, 1) == Ratio(m, 1)
  {
    assert TMod(m, 1) == 0;
    assert GcdOf(m, 1) == GcdOf(1, 0) == 1;
    TDivExact(m, 1);
  }

  /** `Immediate.ToString()` for a digit: the decimal text of the value. */
  function DigitText(d: int): string {
    RatioToString(FromInt(d))
  }

  /** Texts of the digits, in the order given. */
  function Texts(dv: seq<int>): (sv: seq<string>)
    ensures |sv| == |dv|
  {
    MapSeq(DigitText, dv)
  }

  /** `f` applied to each element, in order. */
  function MapSeq<A, B>(f: A -> B, s: seq<A>): (r: seq<B>)
    ensures |r| == |s|
  {
    if s == [] then [] else [f(s[0])] + MapSeq(f, s[1..])
  }

  /** Ordinal string order: lexicographic by character code. */
  predicate StrLe(a: string, b: string) {
    a == [] || (b != [] && (a[0] < b[0] || (a[0] == b[0] && StrLe(a[1..], b[1..]))))
  }

  lemma {:induction false} StrLeTotal(a: string, b: string)
    ensures StrLe(a, b) || StrLe(b, a)
  {
    if a != [] && b != [] && a[0] == b[0] {
      StrLeTotal(a[1..], b[1..]);
    }
  }

  lemma {:induction false} StrLeAntisymmetric(a: string, b: string)
    requires StrLe(a, b) && StrLe(b, a)
    ensures a == b
  {
    if a != [] && b != [] {
      StrLeAntisymmetric(a[1..], b[1..]);
      assert a == [a[0]] + a[1..] && b == [b[0]] + b[1..];
    }
  }

  lemma {:induction false} StrLeTransitive(a: string, b: string, c: string)
    requires StrLe(a, b) && StrLe(b, c)
    ensures StrLe(a, c)
  {
    if a != [] && b != [] && c != [] && a[0] == b[0] && b[0] == c[0] {
      StrLeTransitive(a[1..], b[1..], c[1..]);
    }
  }

  predicate SortedStrings(sv: seq<string>) {
    forall i, j :: 0 <= i < j < |sv| ==> StrLe(sv[i], sv[j])
  }

  /** x is at most every element of sv. */
  predicate AtMostAll(x: string, sv: seq<string>) {
    forall j :: 0 <= j < |sv| ==> StrLe(x, sv[j])
  }

  /** A sorted sequence stays sorted with a smallest element in front. */
  lemma PrependSorted(x: string, sv: seq<string>)
    requires SortedStrings(sv) && AtMostAll(x, sv)
    ensures SortedStrings([x] + sv)
  {
    var r := [x] + sv;
    forall i, j | 0 <= i < j < |r|
      ensures StrLe(r[i], r[j])
    {
      if i > 0 {
        assert r[i] == sv[i - 1] && r[j] == sv[j - 1];
      } else {
        assert r[j] == sv[j - 1];
      }
    }
  }

  /** The head of a sorted sequence is at most all of its tail, which is sorted. */
  lemma SortedSplit(sv: seq<string>)
    requires sv != [] && SortedStrings(sv)
    ensures SortedStrings(sv[1..]) && AtMostAll(sv[0], sv[1..])
  {
    forall j | 0 <= j < |sv| - 1
      ensures StrLe(sv[0], sv[1..][j])
    {
      assert sv[1..][j] == sv[j + 1];
    }
  }

  /** A lower bound of every element is a lower bound after a permutation. */
  lemma AtMostAllPermuted(y: string, a: seq<string>, b: seq<string>)
    requires AtMostAll(y, a) && multiset(a) == multiset(b)
    ensures AtMostAll(y, b)
  {
    forall j | 0 <= j < |b|
      ensures StrLe(y, b[j])
    {
      assert b[j] in multiset(a);
      var i :| 0 <= i < |a| && a[i] == b[j];
    }
  }

  /** Inserts `x` into the sorted `sv`. */
  function Insert(x: string, sv: seq<string>): (r: seq<string>)
    requires SortedStrings(sv)
    ensures SortedStrings(r) && multiset(r) == multiset(sv) + multiset{x}
  {
    if sv == [] then [x]
    else if StrLe(x, sv[0]) then
      SortedSplit(sv);
      assert AtMostAll(x, sv) by {
        forall j | 0 <= j < |sv|
          ensures StrLe(x, sv[j])
        {
          if j > 0 {
            StrLeTransitive(x, sv[0], sv[j]);
          }
        }
      }
      PrependSorted(x, sv);
      [x] + sv
    else
      StrLeTotal(x, sv[0]);
      SortedSplit(sv);
      var rest := Insert(x, sv[1..]);
      assert sv == [sv[0]] + sv[1..];
      assert AtMostAll(sv[0], sv[1..] + [x]);
      AtMostAllPermuted(sv[0], sv[1..] + [x], rest);
      PrependSorted(sv[0], rest);
      [sv[0]] + rest
  }

  /** `Array.Sort` on the digit texts, as an insertion sort. */
  function SortStrings(sv: seq<string>): (r: seq<string>)
    ensures SortedStrings(r) && multiset(r) == multiset(sv)
  {
    if sv == [] then []
    else
      assert sv == [sv[0]] + sv[1..];
      Insert(sv[0], SortStrings(sv[1..]))
  }

  /**
   * `computeKey`: the four digit texts sorted and joined by single spaces.
   */
  function ComputeKey(dv: seq<int>): (key: string)
    requires |dv| == 4
    ensures var sv := SortStrings(Texts(dv));
      |sv| == 4 && key == sv[0] + " " + sv[1] + " " + sv[2] + " " + sv[3]
  {
    var sv := SortStrings(Texts(dv));
    assert |multiset(sv)| == |multiset(Texts(dv))|;
    sv[0] + " " + sv[1] + " " + sv[2] + " " + sv[3]
  }

  /** Two non-empty sorted sequences with the same elements start alike. */
  lemma SortedSameHead(a: seq<string>, b: seq<string>)
    requires a != [] && b != []
    requires SortedStrings(a) && SortedStrings(b) && multiset(a) == multiset(b)
    ensures a[0] == b[0]
  {
    assert a[0] in multiset(b) && b[0] in multiset(a);
    var i :| 0 <= i < |b| && b[i] == a[0];
    var j :| 0 <= j < |a| && a[j] == b[0];
    assert StrLe(b[0], a[0]) by {
      if i > 0 {
        assert StrLe(b[0], b[i]);
      } else {
        StrLeTotal(b[0], a[0]);
      }
    }
    assert StrLe(a[0], b[0]) by {
      if j > 0 {
        assert StrLe(a[0], a[j]);
      } else {
        StrLeTotal(a[0], b[0]);
      }
    }
    StrLeAntisymmetric(a[0], b[0]);
  }

  /** Two sorted sequences with the same elements are the same sequence. */
  lemma {:induction false} SortedUnique(a: seq<string>, b: seq<string>)
    requires SortedStrings(a) && SortedStrings(b) && multiset(a) == multiset(b)
    ensures a == b
  {
    if a != [] {
      assert |b| == |multiset(b)| == |multiset(a)| == |a|;
      SortedSameHead(a, b);
      assert a == [a[0]] + a[1..] && b == [b[0]] + b[1..];
      assert multiset(a) == multiset{a[0]} + multiset(a[1..]);
      assert multiset(b) == multiset{b[0]} + multiset(b[1..]);
      assert multiset(a[1..]) == multiset(a) - multiset{a[0]};
      assert multiset(b[1..]) == multiset(b) - multiset{b[0]};
      SortedUnique(a[1..], b[1..]);
    }
  }

  /** Mapping two arrangements of the same elements gives arrangements of the same images. */
  lemma {:induction false} MapSeqPermutation<A, B>(f: A -> B, a: seq<A>, b: seq<A>)
    requires multiset(a) == multiset(b)
    ensures multiset(MapSeq(f, a)) == multiset(MapSeq(f, b))
    decreases |a|
  {
    if a != [] {
      assert a[0] in multiset(b);
      var i :| 0 <= i < |b| && b[i] == a[0];
      var b' := b[..i] + b[i + 1..];
      RemoveBoth(a, b, i);
      MapSeqPermutation(f, a[1..], b');
      MapSeqRemove(f, b, i);
      assert MapSeq(f, a) == [f(a[0])] + MapSeq(f, a[1..]);
    } else {
      assert b == [];
    }
  }

  /** Removing the same element from two arrangements of one multiset. */
  lemma RemoveBoth<A>(a: seq<A>, b: seq<A>, i: nat)
    requires a != [] && i < |b| && b[i] == a[0] && multiset(a) == multiset(b)
    ensures multiset(a[1..]) == multiset(b[..i] + b[i + 1..])
  {
    assert a == [a[0]] + a[1..];
    assert b == b[..i] + [b[i]] + b[i + 1..];
    assert multiset(a[1..]) == multiset(a) - multiset{a[0]};
    assert multiset(b[..i] + b[i + 1..]) == multiset(b) - multiset{b[i]};
  }

  /** Taking the element at i out takes its image out. */
  lemma MapSeqRemove<A, B>(f: A -> B, b: seq<A>, i: nat)
    requires i < |b|
    ensures multiset(MapSeq(f, b)) == multiset(MapSeq(f, b[..i] + b[i + 1..])) + multiset{f(b[i])}
  {
    var x, y := b[..i], b[i + 1..];
    MapSeqSplit(f, b, i);
    MapSeqConcat(f, x, y);
    MultisetMiddle(MapSeq(f, x), f(b[i]), MapSeq(f, y));
  }

  lemma MapSeqSplit<A, B>(f: A -> B, b: seq<A>, i: nat)
    requires i < |b|
    ensures MapSeq(f, b) == MapSeq(f, b[..i]) + [f(b[i])] + MapSeq(f, b[i + 1..])
  {
    var z := b[i..];
    assert b == b[..i] + z;
    MapSeqConcat(f, b[..i], z);
    assert z[1..] == b[i + 1..];
  }

  lemma MultisetMiddle<B>(a: seq<B>, v: B, c: seq<B>)
    ensures multiset(a + [v] + c) == multiset(a + c) + multiset{v}
  {
  }

  lemma {:induction false} MapSeqConcat<A, B>(f: A -> B, a: seq<A>, b: seq<A>)
    ensures MapSeq(f, a + b) == MapSeq(f, a) + MapSeq(f, b)
  {
    if a != [] {
      MapSeqConcat(f, a[1..], b);
      assert (a + b)[1..] == a[1..] + b;
    } else {
      assert a + b == b;
    }
  }

  /** `computeKey` does not depend on the order of the four digits. */
  lemma ComputeKeyOrderIndependent(a: seq<int>, b: seq<int>)
    requires |a| == 4 && multiset(a) == multiset(b)
    ensures |b| == 4 && ComputeKey(a) == ComputeKey(b)
  {
    assert |b| == |multiset(b)| == |multiset(a)| == 4;
    MapSeqPermutation(DigitText, a, b);
    SortedUnique(SortStrings(Texts(a)), SortStrings(Texts(b)));
  }
}
