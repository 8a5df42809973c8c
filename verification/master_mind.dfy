/**
 * master_mind.cs: Knuth's code breaker for Mastermind with four pins and six
 * colours. A code word is its four-letter string over 'a'..'f'; the code
 * breaker keeps the set of code words it may still guess and the set of
 * code words that are still possible answers, and narrows both with every
 * response.
 */
module MasterMind {
  import opened Truncation

  const Pins := 4
  const Colors := 6

  /** Black pins: right colour in the right place; white: right colour elsewhere. */
  datatype Response = Response(black: int, white: int) {
    function Sum(): int { black + white }
  }

  datatype Result = Continue | Fail | Got

  datatype Option<T> = None | Some(value: T)

  /** n to the power k. */
  function Exp(n: int, k: nat): int
    decreases k
  {
    if k == 0 then 1 else n * Exp(n, k - 1)
  }

  /** `Power`: the multiplying loop; a k of zero or below gives 1. */
  method Power(n: int, k: int) returns (x: int)
    ensures x == if k <= 0 then 1 else Exp(n, k)
  {
    x := 1;
    var i := 0;
    while i < k
      invariant 0 <= i && (k > 0 ==> i <= k) && (k <= 0 ==> i == 0)
      invariant x == Exp(n, i)
    {
      x := x * n;
      i := i + 1;
    }
  }

  lemma PowerOfCodes()
    ensures Exp(Colors, Pins) == 1296
  {
  }

  predicate IsColor(c: char) { 'a' <= c <= 'f' }

  /** A code word: four pins, each a colour 'a'..'f'. */
  predicate IsCode(s: string) {
    |s| == Pins && AllColors(s)
  }

  predicate AllColors(s: string) {
    forall i :: 0 <= i < |s| ==> IsColor(s[i])
  }

  /** The colour of a pin as a base-6 digit. */
  function Digit(c: char): int { c as int - 'a' as int }

  /** The number a string of pins stands for, first pin most significant. */
  function CodeValue(s: string): int
  {
    if s == [] then 0 else Digit(s[0]) * Exp(Colors, |s| - 1) + CodeValue(s[1..])
  }

  lemma ExpPositive(k: nat)
    ensures Exp(Colors, k) > 0
  {
    if k > 0 {
      ExpPositive(k - 1);
    }
  }

  /** Pins over 'a'..'f' stand for a number below 6^len. */
  lemma {:induction false} CodeValueBounds(s: string)
    requires AllColors(s)
    ensures 0 <= CodeValue(s) < Exp(Colors, |s|)
  {
    if s != [] {
      CodeValueBounds(s[1..]);
      ExpPositive(|s| - 1);
      var e := Exp(Colors, |s| - 1);
      var d := Digit(s[0]);
      assert 0 <= d <= 5;
      assert d * e <= 5 * e;
    }
  }

  /** Equal quotient-and-remainder forms have equal parts. */
  lemma DigitsAgree(d1: int, r1: int, d2: int, r2: int, e: int)
    requires e > 0 && 0 <= r1 < e && 0 <= r2 < e
    requires d1 * e + r1 == d2 * e + r2
    ensures d1 == d2 && r1 == r2
  {
    if d1 < d2 {
      MulGe(e, d2 - d1);
    } else if d2 < d1 {
      MulGe(e, d1 - d2);
    }
  }

  /**
   * Two strings of pins with the same number are the same string, so no two
   * code words share an index (the code table's keys never collide).
   */
  lemma {:induction false} CodeValueInjective(s: string, t: string)
    requires AllColors(s) && AllColors(t) && |s| == |t|
    requires CodeValue(s) == CodeValue(t)
    ensures s == t
  {
    if s != [] {
      CodeValueBounds(s[1..]);
      CodeValueBounds(t[1..]);
      ExpPositive(|s| - 1);
      DigitsAgree(Digit(s[0]), CodeValue(s[1..]), Digit(t[0]), CodeValue(t[1..]), Exp(Colors, |s| - 1));
      CodeValueInjective(s[1..], t[1..]);
      assert s == [s[0]] + s[1..] && t == [t[0]] + t[1..];
    }
  }

  /** x times 6^k, split into x's last base-6 digit and the rest. */
  lemma SplitDigit(x: int, e: int)
    requires x >= 0 && e >= 0
    ensures x * e == (x / Colors) * (Colors * e) + (x % Colors) * e
  {
    var q, m := x / Colors, x % Colors;
    assert x == Colors * q + m;
    assert x * e == (Colors * q + m) * e;
    assert (Colors * q + m) * e == q * (Colors * e) + m * e;
  }

  /**
   * `ComputeStr`: the index's base-6 digits as letters, least significant
   * digit into the last pin. Every index of a code word (0..1295) gives a
   * code word whose number is that index.
   */
  method ComputeStr(ival: int) returns (s: string)
    ensures |s| == Pins
    ensures 0 <= ival < Exp(Colors, Pins) ==> IsCode(s) && CodeValue(s) == ival
  {
    var x := ival;
    var chv := new char[Pins];
    ghost var suffix: string := [];
    var i := 1;
    while i <= Pins
      invariant 1 <= i <= Pins + 1
      invariant |suffix| == i - 1 && chv[Pins - i + 1..] == suffix
      invariant 0 <= ival ==> (0 <= x && AllColors(suffix) &&
        ival == x * Exp(Colors, i - 1) + CodeValue(suffix))
    {
      var m := TMod(x, Colors);
      if 0 <= ival {
        TruncatingIsEuclideanOnNaturals(x, Colors);
        SplitDigit(x, Exp(Colors, i - 1));
      }
      chv[Pins - i] := ('a' as int + m) as char;
      suffix := [chv[Pins - i]] + suffix;
      assert chv[Pins - i..] == [chv[Pins - i]] + chv[Pins - i + 1..];
      x := TDiv(x, Colors);
      i := i + 1;
    }
    s := chv[..];
    assert s == suffix;
    if 0 <= ival < Exp(Colors, Pins) {
      CodeValueBounds(s);
    }
  }

  /** Right colour in the right place, counted over the common length. */
  function BlackCount(a: string, b: string): (r: nat)
    ensures r <= |a| && r <= |b|
  {
    if a == [] || b == [] then 0
    else (if a[0] == b[0] then 1 else 0) + BlackCount(a[1..], b[1..])
  }

  /** The colours of a at the positions where a and b differ. */
  function Unmatched(a: string, b: string): (r: multiset<char>)
    ensures |a| == |b| ==> |r| + BlackCount(a, b) == |a|
  {
    if a == [] || b == [] then multiset{}
    else (if a[0] != b[0] then multiset{a[0]} else multiset{}) + Unmatched(a[1..], b[1..])
  }

  /**
   * The response to guessing b when the answer is a: black pins for equal
   * positions, white pins for the colours the remaining positions share.
   */
  function Score(a: string, b: string): (r: Response)
    ensures 0 <= r.black && 0 <= r.white
  {
    Response(BlackCount(a, b), |Unmatched(a, b) * Unmatched(b, a)|)
  }

  lemma IntersectionSmaller(m: multiset<char>, n: multiset<char>)
    ensures |m * n| <= |m|
  {
    assert m == (m * n) + (m - n);
  }

  /** At most one pin per position: black + white <= the number of pins. */
  lemma ScoreBounded(a: string, b: string)
    requires |a| == |b|
    ensures Score(a, b).Sum() <= |a|
  {
    IntersectionSmaller(Unmatched(a, b), Unmatched(b, a));
  }

  lemma {:induction false} BlackCountSelf(a: string)
    ensures BlackCount(a, a) == |a|
  {
    if a != [] {
      BlackCountSelf(a[1..]);
    }
  }

  /** Guessing the answer itself scores (4, 0). */
  lemma ScoreSelf(a: string)
    ensures Score(a, a) == Response(|a|, 0)
  {
    BlackCountSelf(a);
  }

  /** Only the answer itself scores four black pins. */
  lemma {:induction false} AllBlackIsEqual(a: string, b: string)
    requires |a| == |b| && BlackCount(a, b) == |a|
    ensures a == b
  {
    if a != [] {
      AllBlackIsEqual(a[1..], b[1..]);
      assert a == [a[0]] + a[1..] && b == [b[0]] + b[1..];
    }
  }

  lemma {:induction false} BlackCountSymmetric(a: string, b: string)
    ensures BlackCount(a, b) == BlackCount(b, a)
  {
    if a != [] && b != [] {
      BlackCountSymmetric(a[1..], b[1..]);
    }
  }

  /** The score does not depend on which side is the answer. */
  lemma ScoreSymmetric(a: string, b: string)
    ensures Score(a, b) == Score(b, a)
  {
    BlackCountSymmetric(a, b);
    assert Unmatched(a, b) * Unmatched(b, a) == Unmatched(b, a) * Unmatched(a, b);
  }

  /** The colours at the positions where a and b agree. */
  function Matched(a: string, b: string): multiset<char>
  {
    if a == [] || b == [] then multiset{}
    else (if a[0] == b[0] then multiset{a[0]} else multiset{}) + Matched(a[1..], b[1..])
  }

  lemma MultisetOfCons(a: string)
    requires a != []
    ensures multiset(a) == multiset{a[0]} + multiset(a[1..])
  {
    assert a == [a[0]] + a[1..];
  }

  lemma {:induction false} MatchedSplit(a: string, b: string)
    requires |a| == |b|
    ensures multiset(a) == Matched(a, b) + Unmatched(a, b)
  {
    if a != [] {
      MatchedSplit(a[1..], b[1..]);
      MultisetOfCons(a);
    }
  }

  lemma {:induction false} MatchedSymmetric(a: string, b: string)
    ensures Matched(a, b) == Matched(b, a)
  {
    if a != [] && b != [] {
      MatchedSymmetric(a[1..], b[1..]);
    }
  }

  lemma {:induction false} MatchedCount(a: string, b: string)
    ensures |Matched(a, b)| == BlackCount(a, b)
  {
    if a != [] && b != [] {
      MatchedCount(a[1..], b[1..]);
    }
  }

  /**
   * The classical count: black + white is the number of colours the two
   * codes share, counted with multiplicity.
   */
  lemma ScoreSumIsSharedColors(a: string, b: string)
    requires |a| == |b|
    ensures Score(a, b).Sum() == |multiset(a) * multiset(b)|
  {
    MatchedSplit(a, b);
    MatchedSplit(b, a);
    MatchedSymmetric(a, b);
    MatchedCount(a, b);
    var m, u, v := Matched(a, b), Unmatched(a, b), Unmatched(b, a);
    assert (m + u) * (m + v) == m + u * v;
  }

  /** The colours of a at the positions `used` still marks free ('_'). */
  function Avail(a: string, used: seq<char>): multiset<char>
  {
    if a == [] || used == [] then multiset{}
    else (if used[0] == '_' then multiset{a[0]} else multiset{}) + Avail(a[1..], used[1..])
  }

  /** The black pass has marked positions ..i: 'B' where a and b agree, '_' elsewhere. */
  predicate BlackPassMask(a: string, b: string, used: seq<char>, i: nat)
    requires i <= |a| == |b| == |used|
  {
    forall k :: 0 <= k < i ==> used[k] == if a[k] == b[k] then 'B' else '_'
  }

  /** The mask the black pass leaves: 'B' on equal positions, '_' elsewhere. */
  lemma {:induction false} AvailAfterBlackPass(a: string, b: string, used: seq<char>)
    requires |a| == |b| == |used|
    requires BlackPassMask(a, b, used, |a|)
    ensures Avail(a, used) == Unmatched(a, b)
  {
    if a != [] {
      AvailAfterBlackPass(a[1..], b[1..], used[1..]);
    }
  }

  /** The colour at a free position is among the free colours. */
  lemma {:induction false} AvailHas(a: string, used: seq<char>, j: nat)
    requires |a| == |used| && j < |a| && used[j] == '_'
    ensures a[j] in Avail(a, used)
  {
    if j > 0 {
      AvailHas(a[1..], used[1..], j - 1);
    }
  }

  /** Marking a free position 'W' takes its colour out of the free colours. */
  lemma {:induction false} AvailMark(a: string, used: seq<char>, j: nat)
    requires |a| == |used| && j < |a| && used[j] == '_'
    ensures Avail(a, used[j := 'W']) == Avail(a, used) - multiset{a[j]}
  {
    if j > 0 {
      assert |a[1..]| == |used[1..]| && used[1..][j - 1] == used[j];
      AvailHas(a[1..], used[1..], j - 1);
      AvailMark(a[1..], used[1..], j - 1);
      AvailMarkStep(a, used, j);
    } else {
      AvailMarkHead(a, used);
    }
  }

  /** Marking a later position changes only the free colours after the first. */
  lemma AvailMarkStep(a: string, used: seq<char>, j: nat)
    requires |a| == |used| && 0 < j < |a| && used[j] == '_'
    requires a[1..][j - 1] in Avail(a[1..], used[1..])
    requires Avail(a[1..], used[1..][j - 1 := 'W']) == Avail(a[1..], used[1..]) - multiset{a[1..][j - 1]}
    ensures Avail(a, used[j := 'W']) == Avail(a, used) - multiset{a[j]}
  {
    assert a[1..][j - 1] == a[j];
    var u := used[j := 'W'];
    var h := if used[0] == '_' then multiset{a[0]} else multiset{};
    var rest := Avail(a[1..], used[1..]);
    assert u[0] == used[0] && u[1..] == used[1..][j - 1 := 'W'];
    assert Avail(a, u) == h + (rest - multiset{a[j]});
    assert Avail(a, used) == h + rest;
    RemoveAfterAdd(h, rest, a[j]);
  }

  /** Marking the first position removes its colour, which was free. */
  lemma AvailMarkHead(a: string, used: seq<char>)
    requires |a| == |used| && 0 < |a| && used[0] == '_'
    ensures Avail(a, used[0 := 'W']) == Avail(a, used) - multiset{a[0]}
  {
    var rest := Avail(a[1..], used[1..]);
    assert used[0 := 'W'][1..] == used[1..];
    assert Avail(a, used[0 := 'W']) == rest;
    assert Avail(a, used) == multiset{a[0]} + rest;
    assert (multiset{a[0]} + rest) - multiset{a[0]} == rest;
  }

  lemma RemoveAfterAdd(h: multiset<char>, r: multiset<char>, c: char)
    requires c in r
    ensures h + (r - multiset{c}) == (h + r) - multiset{c}
  {
  }

  /** A colour at no free position is not among the free colours. */
  lemma {:induction false} AvailAbsent(a: string, used: seq<char>, c: char)
    requires |a| == |used|
    requires forall k :: 0 <= k < |a| ==> !(used[k] == '_' && a[k] == c)
    ensures c !in Avail(a, used)
  {
    if a != [] {
      AvailAbsent(a[1..], used[1..], c);
    }
  }

  /** One more pending colour c adds one white pin exactly when c is still free. */
  lemma IntersectCons(m: multiset<char>, t: multiset<char>, c: char)
    ensures c in m ==> m * (multiset{c} + t) == (m - multiset{c}) * t + multiset{c}
    ensures c !in m ==> m * (multiset{c} + t) == m * t
  {
  }

  lemma UnmatchedFrom(a: string, b: string, i: nat)
    requires |a| == |b| && i < |a|
    ensures Unmatched(b[i..], a[i..]) ==
      (if a[i] != b[i] then multiset{b[i]} else multiset{}) + Unmatched(b[i + 1..], a[i + 1..])
    ensures BlackCount(a[i..], b[i..]) == (if a[i] == b[i] then 1 else 0) + BlackCount(a[i + 1..], b[i + 1..])
  {
    assert a[i..][1..] == a[i + 1..] && b[i..][1..] == b[i + 1..];
  }

  /** `used` marks exactly the black positions with 'B'. */
  predicate BlackMask(a: string, b: string, used: seq<char>)
    requires |a| == |b| == |used|
  {
    forall k :: 0 <= k < |a| ==> (used[k] == 'B' <==> a[k] == b[k])
  }

  /** j is the first position that is free ('_') and holds colour c, or |a| if none is. */
  predicate FirstFree(a: string, used: seq<char>, c: char, j: nat)
    requires |a| == |used|
  {
    j <= |a| && (j < |a| ==> used[j] == '_' && a[j] == c) &&
    forall k :: 0 <= k < j ==> !(used[k] == '_' && a[k] == c)
  }

  /** The white pins positions i.. of b can still take from the free positions of a. */
  function WhiteLeft(a: string, b: string, used: seq<char>, i: nat): nat
    requires i <= |a| == |b|
  {
    |Avail(a, used) * Unmatched(b[i..], a[i..])|
  }

  /**
   * One position i of the white pass: a position that is not black and
   * finds a free position j of the same colour gains a white pin and uses
   * j up; the white pins still to come shrink accordingly. The found j is
   * never i itself.
   */
  lemma WhitePassStep(a: string, b: string, used: seq<char>, i: nat, j: nat)
    requires |a| == |b| == |used| && i < |a|
    requires BlackMask(a, b, used)
    requires a[i] != b[i] ==> FirstFree(a, used, b[i], j)
    ensures a[i] != b[i] && j < |a| ==> (i != j &&
      1 + WhiteLeft(a, b, used[j := 'W'], i + 1) == WhiteLeft(a, b, used, i) &&
      BlackMask(a, b, used[j := 'W']))
    ensures !(a[i] != b[i] && j < |a|) ==> WhiteLeft(a, b, used, i + 1) == WhiteLeft(a, b, used, i)
  {
    UnmatchedFrom(a, b, i);
    var free, pending, c := Avail(a, used), Unmatched(b[i + 1..], a[i + 1..]), b[i];
    IntersectCons(free, pending, c);
    if a[i] != b[i] {
      assert Unmatched(b[i..], a[i..]) == multiset{c} + pending;
      if j < |a| {
        AvailHas(a, used, j);
        AvailMark(a, used, j);
      } else {
        AvailAbsent(a, used, c);
      }
    } else {
      assert Unmatched(b[i..], a[i..]) == pending;
    }
  }

  /**
   * The inner loop of the white pass: the first position that is still free
   * ('_') and holds colour c, or |a| when there is none.
   */
  method FindFree(a: string, c: char, usedv: array<char>) returns (j: nat)
    requires |a| == usedv.Length
    ensures FirstFree(a, usedv[..], c, j)
  {
    j := 0;
    while j < |a| && !(usedv[j] == '_' && c == a[j])
      invariant 0 <= j <= |a|
      invariant forall k :: 0 <= k < j ==> !(usedv[k] == '_' && a[k] == c)
    {
      j := j + 1;
    }
  }

  /**
   * The second pass of `CodeWord.Test`: each position i of b that is not
   * black takes the first free position of a with its colour, marks it 'W'
   * and counts a white pin. The "BAD" exception (a match at i itself) is
   * unreachable.
   */
  method WhitePass(a: string, b: string, usedv: array<char>) returns (white: nat)
    requires |a| == |b| == usedv.Length
    requires BlackPassMask(a, b, usedv[..], |a|)
    modifies usedv
    ensures white == |Unmatched(a, b) * Unmatched(b, a)|
  {
    white := 0;
    AvailAfterBlackPass(a, b, usedv[..]);
    assert a[0..] == a && b[0..] == b;
    var i := 0;
    while i < |a|
      invariant 0 <= i <= |a|
      invariant BlackMask(a, b, usedv[..])
      invariant white + WhiteLeft(a, b, usedv[..], i) == |Unmatched(a, b) * Unmatched(b, a)|
    {
      ghost var used := usedv[..];
      if usedv[i] != 'B' {
        var j := FindFree(a, b[i], usedv);
        assert a[i] != b[i];
        WhitePassStep(a, b, used, i, j);
        if j < |b| {
          if i == j {
            assert false;
          }
          usedv[j] := 'W';
          assert usedv[..] == used[j := 'W'];
          white := white + 1;
        }
      } else {
        assert a[i] == b[i];
        WhitePassStep(a, b, used, i, 0);
      }
      i := i + 1;
    }
    assert a[|a|..] == [];
  }

  /**
   * `CodeWord.Test`: the answer a scores the guess b. The first pass counts
   * black pins and marks them 'B' in the shared scratch array; the second
   * pass gives each remaining position of b the first free matching colour
   * of a as a white pin. The "BAD" exception is unreachable.
   */
  method Test(a: string, b: string, usedv: array<char>) returns (r: Response)
    requires |a| == |b| == usedv.Length == Pins
    modifies usedv
    ensures r == Score(a, b)
  {
    var black := 0;
    var white := 0;
    var i := 0;
    while i < |a|
      invariant 0 <= i <= |a|
      invariant black + BlackCount(a[i..], b[i..]) == BlackCount(a, b)
      invariant BlackPassMask(a, b, usedv[..], i)
    {
      UnmatchedFrom(a, b, i);
      if a[i] == b[i] {
        black := black + 1;
        usedv[i] := 'B';
      } else {
        usedv[i] := '_';
      }
      i := i + 1;
    }

    if black == Pins {
      AllBlackIsEqual(a, b);
      ScoreSelf(a);
      return Response(black, 0);
    }

    white := WhitePass(a, b, usedv);
    ScoreBounded(a, b);
    return Response(black, white);
  }

  /** The candidates that would give `response` to `guess`. */
  function Partition(ps: set<string>, guess: string, response: Response): set<string>
  {
    Filter(ps, Answers(guess, response))
  }

  /** Whether answer x would give `response` to `guess`. */
  function Answers(guess: string, response: Response): string -> bool
  {
    x => Score(x, guess) == response
  }

  /** The members of s that satisfy p. */
  function Filter<T>(s: set<T>, p: T -> bool): (r: set<T>)
    ensures r <= s
  {
    set x | x in s && p(x)
  }

  /** Taking x out of s takes it out of the filtered set exactly when it satisfies p. */
  lemma FilterTake<T>(s: set<T>, x: T, p: T -> bool)
    requires x in s
    ensures Filter(s, p) == if p(x) then Filter(s - {x}, p) + {x} else Filter(s - {x}, p)
    ensures |Filter(s, p)| == |Filter(s - {x}, p)| + if p(x) then 1 else 0
  {
    if p(x) {
      assert Filter(s, p) == Filter(s - {x}, p) + {x};
    } else {
      assert Filter(s, p) == Filter(s - {x}, p);
    }
  }

  /**
   * A loop that filters `all` has collected `acc` so far and has `rest`
   * still to look at.
   */
  ghost predicate Collected<T>(acc: set<T>, rest: set<T>, all: set<T>, p: T -> bool)
  {
    acc + Filter(rest, p) == Filter(all, p)
  }

  /** Looking at x keeps the filtering loop on track. */
  lemma CollectStep<T>(acc: set<T>, rest: set<T>, all: set<T>, p: T -> bool, x: T)
    requires Collected(acc, rest, all, p) && x in rest
    ensures Collected(if p(x) then acc + {x} else acc, rest - {x}, all, p)
  {
    FilterTake(rest, x, p);
  }

  /** With nothing left to look at, the loop has the whole filtered set. */
  lemma CollectDone<T>(acc: set<T>, all: set<T>, p: T -> bool)
    requires Collected(acc, {}, all, p)
    ensures acc == Filter(all, p)
  {
    assert Filter({}, p) == {};
  }

  /** How many candidates are left if answer c scores `guess`. */
  function PartSize(ps: set<string>, guess: string, c: string): nat
  {
    |Partition(ps, guess, Score(c, guess))|
  }

  /** A candidate always lies in its own partition. */
  lemma PartSizePositive(ps: set<string>, guess: string, c: string)
    requires c in ps
    ensures PartSize(ps, guess, c) >= 1
  {
    assert c in Partition(ps, guess, Score(c, guess));
  }

  lemma SubsetCard(a: set<string>, b: set<string>)
    requires a <= b
    ensures |a| <= |b|
    ensures |a| == |b| ==> a == b
  {
    assert b == a + (b - a);
    if |a| == |b| {
      assert |b - a| == 0;
    }
  }

  /** The largest value f takes on s, or 0 on the empty set. */
  ghost function MaxOf<T>(s: set<T>, f: T -> nat): (m: nat)
    ensures s == {} ==> m == 0
    ensures forall x {:trigger f(x)} :: x in s ==> f(x) <= m
    ensures s != {} ==> exists x :: x in s && f(x) == m
    decreases s
  {
    if s == {} then 0
    else
      var x :| x in s;
      var rest := MaxOf(s - {x}, f);
      if f(x) > rest then f(x) else rest
  }

  /** Adding one element raises the maximum to its value at most. */
  lemma MaxOfAdd<T>(s: set<T>, x: T, f: T -> nat)
    ensures MaxOf(s + {x}, f) == if f(x) > MaxOf(s, f) then f(x) else MaxOf(s, f)
  {
    var m1, m0 := MaxOf(s + {x}, f), MaxOf(s, f);
    var c :| c in s + {x} && f(c) == m1;
    if s != {} {
      var c0 :| c0 in s && f(c0) == m0;
      assert f(c0) <= m1;
    }
  }

  /** Taking one element out of s: the maximum is the larger of its value and the rest's. */
  lemma MaxOfTake<T>(s: set<T>, x: T, f: T -> nat)
    requires x in s
    ensures MaxOf(s, f) == if f(x) > MaxOf(s - {x}, f) then f(x) else MaxOf(s - {x}, f)
  {
    assert s == (s - {x}) + {x};
    MaxOfAdd(s - {x}, x, f);
  }

  /**
   * A loop that takes the maximum of f over `all` has the running maximum m
   * and has `rest` still to look at.
   */
  ghost predicate MaxSoFar<T>(all: set<T>, rest: set<T>, m: nat, f: T -> nat)
  {
    MaxOf(all, f) == if m > MaxOf(rest, f) then m else MaxOf(rest, f)
  }

  /** Looking at x keeps the maximum loop on track; x's value is below the maximum. */
  lemma MaxStep<T>(all: set<T>, rest: set<T>, m: nat, f: T -> nat, x: T)
    requires MaxSoFar(all, rest, m, f) && x in rest
    ensures f(x) <= MaxOf(all, f)
    ensures MaxSoFar(all, rest - {x}, if m > f(x) then m else f(x), f)
  {
    MaxOfTake(rest, x, f);
  }

  /**
   * `CountRemoves`'s loop: the running maximum m of f over what it has seen
   * of `all`, none of which exceeded the threshold.
   */
  ghost predicate MaxLoop<T>(all: set<T>, rest: set<T>, m: nat, f: T -> nat, threshold: int)
  {
    MaxSoFar(all, rest, m, f) && (m <= threshold || m == 0)
  }

  /**
   * One step of that loop: a value above the threshold puts the maximum
   * above it; otherwise the loop stays on track.
   */
  lemma MaxLoopStep<T>(all: set<T>, rest: set<T>, m: nat, f: T -> nat, threshold: int, x: T)
    requires MaxLoop(all, rest, m, f, threshold) && x in rest
    ensures f(x) > threshold ==> MaxOf(all, f) > threshold
    ensures f(x) <= threshold ==> MaxLoop(all, rest - {x}, if m > f(x) then m else f(x), f, threshold)
  {
    MaxStep(all, rest, m, f, x);
  }

  /**
   * At the end of that loop, m is the maximum, and it is within the
   * threshold unless all is empty, given some x in all with a positive value.
   */
  lemma MaxLoopDone<T>(all: set<T>, m: nat, f: T -> nat, threshold: int, x: T)
    requires MaxLoop(all, {}, m, f, threshold)
    requires x in all ==> f(x) >= 1
    ensures MaxOf(all, f) == m
    ensures x in all ==> m <= threshold
  {
  }

  lemma MaxOfBounded<T>(s: set<T>, f: T -> nat, b: nat)
    requires forall x :: x in s ==> f(x) <= b
    ensures MaxOf(s, f) <= b
  {
    if s != {} {
      var c :| c in s && f(c) == MaxOf(s, f);
    }
  }

  /** The partition sizes of the answers in ps after `guess`. */
  ghost function SizeAfter(ps: set<string>, guess: string): string -> nat
  {
    c => PartSize(ps, guess, c)
  }

  /**
   * The largest partition any answer in ps leaves after `guess`: the worst
   * case for the code breaker.
   */
  ghost function WorstCase(ps: set<string>, guess: string): (m: nat)
    ensures m <= |ps|
  {
    PartitionsBounded(ps, guess);
    MaxOf(ps, SizeAfter(ps, guess))
  }

  /** No partition of ps is larger than ps. */
  lemma PartitionsBounded(ps: set<string>, guess: string)
    ensures MaxOf(ps, SizeAfter(ps, guess)) <= |ps|
  {
    var size := SizeAfter(ps, guess);
    forall c | c in ps
      ensures size(c) <= |ps|
    {
      SubsetCard(Partition(ps, guess, Score(c, guess)), ps);
    }
    MaxOfBounded(ps, size, |ps|);
  }

  /**
   * No answer leaves more candidates than the worst case, and some answer
   * leaves exactly that many.
   */
  lemma WorstCaseIsLargest(ps: set<string>, guess: string, c: string)
    requires c in ps
    ensures PartSize(ps, guess, c) <= WorstCase(ps, guess)
    ensures exists d :: d in ps && PartSize(ps, guess, d) == WorstCase(ps, guess)
  {
    var size := SizeAfter(ps, guess);
    assert size(c) <= MaxOf(ps, size);
    var d :| d in ps && size(d) == MaxOf(ps, size);
    assert PartSize(ps, guess, d) == WorstCase(ps, guess);
  }

  /**
   * The number of candidates `guess` is sure to eliminate: all of them but
   * the largest partition.
   */
  ghost function Removes(ps: set<string>, guess: string): (r: int)
    ensures 0 <= r <= |ps|
    ensures ps == {} ==> r == 0
  {
    |ps| - WorstCase(ps, guess)
  }

  /** `Removes` against the possibilities ps, as a function of the guess. */
  ghost function RemovesFrom(ps: set<string>): string -> int
  {
    g => Removes(ps, g)
  }

  /**
   * g is a guess the code breaker may make from gs when rem tells how many
   * possibilities (ps) each guess eliminates: one that eliminates the most,
   * and one that may be the answer itself whenever such a guess eliminates
   * as many; there is none only when no guess eliminates anything and none
   * may be the answer.
   */
  ghost predicate BestGuess<T>(ps: set<T>, gs: set<T>, g: Option<T>, rem: T -> int)
  {
    (g.Some? ==> g.value in gs && forall c :: c in gs ==> rem(c) <= rem(g.value)) &&
    (g.Some? && (exists c :: c in gs && c in ps && rem(c) == rem(g.value)) ==> g.value in ps) &&
    (g.None? <==> forall c :: c in gs ==> rem(c) == 0 && c !in ps)
  }

  /** What `Guess` knows after scoring the guesses of gs that are not in `rest`. */
  ghost predicate GuessSoFar<T>(ps: set<T>, gs: set<T>, rest: set<T>, guess: Option<T>, maxScore: int, rem: T -> int)
  {
    maxScore >= 0 &&
    (forall c {:trigger rem(c)} :: c in gs && c !in rest ==> 0 <= rem(c) <= maxScore) &&
    (guess.Some? ==> guess.value in gs && guess.value !in rest && rem(guess.value) == maxScore) &&
    (guess.Some? ==> maxScore > 0 || guess.value in ps) &&
    (maxScore > 0 ==> guess.Some?) &&
    ((exists c {:trigger rem(c)} :: c in gs && c !in rest && c in ps && rem(c) == maxScore) ==> guess.Some? && guess.value in ps)
  }

  /**
   * One candidate of `Guess`'s loop, scored by `CountRemoves` against the
   * best score so far: a tie that may be the answer replaces the guess, a
   * better score replaces guess and score, a worse one changes nothing.
   */
  lemma GuessStep<T>(ps: set<T>, gs: set<T>, rest: set<T>, guess: Option<T>, maxScore: int,
                     candidate: T, score: int, rem: T -> int)
    requires GuessSoFar(ps, gs, rest, guess, maxScore, rem)
    requires candidate in rest && candidate in gs && rem(candidate) >= 0
    requires score == if rem(candidate) < maxScore then 0 else rem(candidate)
    ensures maxScore == score ==>
      GuessSoFar(ps, gs, rest - {candidate}, if candidate in ps then Some(candidate) else guess, maxScore, rem)
    ensures maxScore < score ==> GuessSoFar(ps, gs, rest - {candidate}, Some(candidate), score, rem)
    ensures score < maxScore ==> GuessSoFar(ps, gs, rest - {candidate}, guess, maxScore, rem)
  {
  }

  /** `GuessStep` with the scores of `CountRemoves`. */
  lemma RemovesStep(ps: set<string>, gs: set<string>, rest: set<string>, guess: Option<string>, maxScore: int,
                    candidate: string, score: int)
    requires GuessSoFar(ps, gs, rest, guess, maxScore, RemovesFrom(ps))
    requires candidate in rest && candidate in gs
    requires score == if Removes(ps, candidate) < maxScore then 0 else Removes(ps, candidate)
    ensures maxScore == score ==>
      GuessSoFar(ps, gs, rest - {candidate}, if candidate in ps then Some(candidate) else guess, maxScore, RemovesFrom(ps))
    ensures maxScore < score ==> GuessSoFar(ps, gs, rest - {candidate}, Some(candidate), score, RemovesFrom(ps))
    ensures score < maxScore ==> GuessSoFar(ps, gs, rest - {candidate}, guess, maxScore, RemovesFrom(ps))
  {
    var rem := RemovesFrom(ps);
    assert rem(candidate) == Removes(ps, candidate);
    GuessStep(ps, gs, rest, guess, maxScore, candidate, score, rem);
  }

  /** Once every guess is scored, the loop's choice is a best guess. */
  lemma GuessDone<T>(ps: set<T>, gs: set<T>, guess: Option<T>, maxScore: int, rem: T -> int)
    requires GuessSoFar(ps, gs, {}, guess, maxScore, rem)
    ensures BestGuess(ps, gs, guess, rem)
  {
    if guess.Some? {
      var g := guess.value;
      assert g in gs && rem(g) == maxScore;
      assert rem(g) != 0 || g in ps;
    } else {
      assert maxScore == 0;
      forall c | c in gs
        ensures rem(c) == 0 && c !in ps
      {
        assert 0 <= rem(c) <= maxScore;
      }
    }
  }

  /** The guesses whose score against `guess` has `sum` pins in all. */
  function SumFilter(gs: set<string>, guess: string, sum: int): set<string>
  {
    Filter(gs, PinsInAll(guess, sum))
  }

  /**
   * The guesses left after `response` to `guess`: all but the guess itself,
   * and when the response has 0 or 4 pins in all only those whose score
   * against the guess has as many.
   */
  function GuessesAfter(gs: set<string>, guess: string, response: Response): (r: set<string>)
    ensures r <= gs && guess !in r
  {
    var rest := gs - {guess};
    if response.Sum() == 0 || response.Sum() == 4 then SumFilter(rest, guess, response.Sum()) else rest
  }

  /** Whether guess x, scored against `guess`, has `sum` pins in all. */
  function PinsInAll(guess: string, sum: int): string -> bool
  {
    x => Score(guess, x).Sum() == sum
  }

  /**
   * No candidate but the answer itself scores four black pins, so a
   * response with fewer leaves the guess out of its partition, and a
   * partition that is not the whole set is strictly smaller.
   */
  lemma PartitionExcludesGuess(ps: set<string>, guess: string, response: Response)
    requires response.black != |guess|
    ensures guess !in Partition(ps, guess, response)
    ensures Partition(ps, guess, response) <= ps
    ensures |Partition(ps, guess, response)| != |ps| ==> |Partition(ps, guess, response)| < |ps|
  {
    ScoreSelf(guess);
    SubsetCard(Partition(ps, guess, response), ps);
  }

  /** Removing what is not there changes nothing. */
  lemma RemoveAbsent<T>(s: set<T>, x: T)
    requires x !in s
    ensures s - {x} == s
  {
  }

  /**
   * What `Update` answers and which possibilities it keeps: `Got` on four
   * black pins; otherwise the partition of the response, minus the guess,
   * unless that partition is empty or no smaller than the whole set, which
   * is `Fail` and leaves the possibilities as they were.
   */
  function Outcome(ps: set<string>, guess: string, response: Response): (Result, set<string>)
  {
    if response.black == Pins then (Got, ps)
    else
      var f := Partition(ps, guess, response);
      if |f| == 0 || |f| == |ps| then (Fail, ps) else (Continue, f - {guess})
  }

  /**
   * A `Continue` keeps exactly the partition of the response, which is not
   * empty, strictly smaller than before and without the guess; so the
   * possibilities shrink with every round that does not stop.
   */
  lemma OutcomeShrinks(ps: set<string>, guess: string, response: Response)
    requires |guess| == Pins
    ensures var (r, ps') := Outcome(ps, guess, response);
      ps' <= ps &&
      (r == Continue ==> ps' == Partition(ps, guess, response) && ps' != {} && |ps'| < |ps| && guess !in ps') &&
      (r == Fail <==> response.black != Pins && (Partition(ps, guess, response) == {} || |Partition(ps, guess, response)| == |ps|))
  {
    if response.black != Pins {
      var f := Partition(ps, guess, response);
      PartitionExcludesGuess(ps, guess, response);
      RemoveAbsent(f, guess);
    }
  }

  /** Every member of the set has four pins. */
  predicate AllPins(ss: set<string>) {
    forall s :: s in ss ==> |s| == Pins
  }

  /**
   * `KnuthCodeBreaker`: the guesses still worth trying and the code words
   * still possible as the answer. `usedv` is `CodeWord`'s static scratch
   * array, which every call of `Test` overwrites.
   */
  class KnuthCodeBreaker {
    var guessSet: set<string>
    var possibleSet: set<string>
    const usedv: array<char>

    ghost predicate Valid()
      reads this
    {
      usedv.Length == Pins && AllPins(guessSet) && AllPins(possibleSet)
    }

    /** Both sets start as all 6^4 code words. */
    constructor ()
      ensures Valid()
      ensures forall s :: s in guessSet <==> IsCode(s)
      ensures possibleSet == guessSet
    {
      usedv := new char[Pins];
      guessSet := {};
      possibleSet := {};
      new;
      var n := Power(Colors, Pins);
      forall s | IsCode(s)
        ensures CodeValue(s) >= 0
      {
        CodeValueBounds(s);
      }
      var i := 0;
      while i < n
        invariant 0 <= i <= n == Exp(Colors, Pins)
        invariant possibleSet == guessSet
        invariant forall s :: s in guessSet <==> IsCode(s) && CodeValue(s) < i
      {
        var codeWord := ComputeStr(i);
        forall s | IsCode(s) && CodeValue(s) == i
          ensures s == codeWord
        {
          CodeValueInjective(s, codeWord);
        }
        guessSet := guessSet + {codeWord};
        possibleSet := possibleSet + {codeWord};
        i := i + 1;
      }
      forall s | IsCode(s)
        ensures CodeValue(s) < n
      {
        CodeValueBounds(s);
      }
    }

    /** `CountPossibles`: the size of the partition `response` leaves. */
    method CountPossibles(guess: string, response: Response) returns (n: nat)
      requires Valid() && |guess| == Pins
      modifies usedv
      ensures n == |Partition(possibleSet, guess, response)|
    {
      n := 0;
      var rest := possibleSet;
      ghost var answers := Answers(guess, response);
      while rest != {}
        invariant AllPins(rest)
        invariant n + |Filter(rest, answers)| == |Filter(possibleSet, answers)|
        decreases |rest|
      {
        var x :| x in rest;
        var response2 := Test(x, guess, usedv);
        FilterTake(rest, x, answers);
        if response2 == response {
          n := n + 1;
        }
        rest := rest - {x};
      }
    }

    /**
     * `CountRemoves`: how many possibilities `guess` is sure to eliminate,
     * or 0 as soon as it is clear that this is fewer than `maxScore`.
     */
    method CountRemoves(guess: string, maxScore: int) returns (r: int)
      requires Valid() && |guess| == Pins
      modifies usedv
      ensures r == if Removes(possibleSet, guess) < maxScore then 0 else Removes(possibleSet, guess)
    {
      var ps := possibleSet;
      var threshold := |ps| - maxScore;
      var maxPossibles: nat := 0;
      var rest := ps;
      ghost var size := SizeAfter(ps, guess);
      while rest != {}
        invariant possibleSet == ps && AllPins(rest)
        invariant MaxLoop(ps, rest, maxPossibles, size, threshold)
        decreases rest
      {
        var candidate :| candidate in rest;
        var n := Possibles(candidate, guess);
        assert n == size(candidate);
        MaxLoopStep(ps, rest, maxPossibles, size, threshold, candidate);
        if n > threshold {
          assert WorstCase(ps, guess) > threshold;
          return 0;
        }
        maxPossibles := if maxPossibles > n then maxPossibles else n;
        rest := rest - {candidate};
      }
      if ps != {} {
        var c :| c in ps;
        PartSizePositive(ps, guess, c);
        MaxLoopDone(ps, maxPossibles, size, threshold, c);
      } else {
        MaxLoopDone(ps, maxPossibles, size, threshold, guess);
      }
      assert possibleSet == ps && WorstCase(ps, guess) == maxPossibles;
      return |ps| - maxPossibles;
    }

    /** `CountRemoves`'s loop body: how many candidates answer c leaves. */
    method Possibles(c: string, guess: string) returns (n: nat)
      requires Valid() && |guess| == Pins && |c| == Pins
      modifies usedv
      ensures n == PartSize(possibleSet, guess, c)
    {
      var response := Test(c, guess, usedv);
      n := CountPossibles(guess, response);
    }

    /**
     * `Guess`: with at most two possibilities left, one of them; otherwise
     * a best guess. `None` stands for the "Can't happen!" exceptions.
     */
    method Guess() returns (g: Option<string>)
      requires Valid()
      modifies usedv
      ensures |possibleSet| <= 2 ==> (g.Some? <==> possibleSet != {}) && (g.Some? ==> g.value in possibleSet)
      ensures |possibleSet| > 2 ==> BestGuess(possibleSet, guessSet, g, RemovesFrom(possibleSet))
    {
      if |possibleSet| <= 2 {
        if possibleSet == {} {
          return None;
        }
        var possible :| possible in possibleSet;
        return Some(possible);
      }
      var ps, gs := possibleSet, guessSet;
      var guess: Option<string> := None;
      var maxScore := 0;
      var rest := gs;
      ghost var rem := RemovesFrom(ps);
      while rest != {}
        invariant rest <= gs && AllPins(rest)
        invariant GuessSoFar(ps, gs, rest, guess, maxScore, rem)
        decreases rest
      {
        var candidate :| candidate in rest;
        var score := CountRemoves(candidate, maxScore);
        RemovesStep(ps, gs, rest, guess, maxScore, candidate, score);
        if maxScore == score {
          if candidate in ps {
            guess := Some(candidate);
          }
        } else if maxScore < score {
          guess := Some(candidate);
          maxScore := score;
        }
        rest := rest - {candidate};
      }
      GuessDone(ps, gs, guess, maxScore, rem);
      if guess.None? {
        return None;
      }
      return guess;
    }

    /** `UpdateGuess`: keeps the guesses whose score against `guess` has n pins in all. */
    method UpdateGuess(guess: string, n: int)
      requires Valid() && |guess| == Pins
      modifies this, usedv
      ensures Valid() && possibleSet == old(possibleSet)
      ensures guessSet == SumFilter(old(guessSet), guess, n)
    {
      var newCodeSet: set<string> := {};
      var rest := guessSet;
      ghost var keep := PinsInAll(guess, n);
      while rest != {}
        invariant AllPins(rest) && AllPins(newCodeSet)
        invariant Collected(newCodeSet, rest, guessSet, keep)
        modifies usedv
        decreases |rest|
      {
        var x :| x in rest;
        var response := Test(guess, x, usedv);
        assert keep(x) == (response.Sum() == n);
        CollectStep(newCodeSet, rest, guessSet, keep, x);
        if response.Sum() == n {
          newCodeSet := newCodeSet + {x};
        }
        rest := rest - {x};
      }
      CollectDone(newCodeSet, guessSet, keep);
      guessSet := newCodeSet;
    }

    /**
     * `Update`: records the response to `guess`. Four black pins end the
     * game; otherwise the guess is dropped from the guesses (and for 0 or 4
     * pins in all the guesses are narrowed), and the possibilities shrink to
     * the partition of the response, unless that is empty or not smaller.
     */
    method Update(guess: string, response: Response) returns (r: Result)
      requires Valid() && |guess| == Pins
      modifies this, usedv
      ensures Valid()
      ensures (r, possibleSet) == Outcome(old(possibleSet), guess, response)
      ensures guessSet == if r == Got then old(guessSet) else GuessesAfter(old(guessSet), guess, response)
    {
      if response.black == Pins {
        return Got;
      }
      PruneGuesses(guess, response);
      var set_ := Narrow(guess, response);
      if |set_| == 0 || |set_| == |possibleSet| {
        r := Fail;
      } else {
        possibleSet := set_ - {guess};
        r := Continue;
      }
    }

    /** `Update`'s first step: drop the guess, then filter on the pin sum. */
    method PruneGuesses(guess: string, response: Response)
      requires Valid() && |guess| == Pins
      modifies this, usedv
      ensures Valid() && possibleSet == old(possibleSet)
      ensures guessSet == GuessesAfter(old(guessSet), guess, response)
    {
      guessSet := guessSet - {guess};
      if response.Sum() == 0 {
        UpdateGuess(guess, 0);
      } else if response.Sum() == 4 {
        UpdateGuess(guess, 4);
      }
    }

    /** `Update`'s loop: the possibilities that give `response` to `guess`. */
    method Narrow(guess: string, response: Response) returns (set_: set<string>)
      requires Valid() && |guess| == Pins
      modifies usedv
      ensures AllPins(set_) && set_ == Partition(possibleSet, guess, response)
    {
      set_ := {};
      var rest := possibleSet;
      ghost var answers := Answers(guess, response);
      while rest != {}
        invariant AllPins(rest) && AllPins(set_)
        invariant Collected(set_, rest, possibleSet, answers)
        decreases |rest|
      {
        var x :| x in rest;
        var response2 := Test(x, guess, usedv);
        assert answers(x) == (response2 == response);
        CollectStep(set_, rest, possibleSet, answers, x);
        if response2 == response {
          set_ := set_ + {x};
        }
        rest := rest - {x};
      }
      CollectDone(set_, possibleSet, answers);
    }
  }
}
