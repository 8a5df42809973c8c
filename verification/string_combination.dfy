/**
 * The combination printer (string_combination.cpp): `printAux(str, suffix)`
 * prints one line for every non-empty selection of the positions of str:
 * the first chosen character, the suffix, then the other chosen characters
 * from the last one back. It recurses on str without its last character.
 */
module StringCombination {

  /** The lines `printAux(str, suffix)` prints, in order. */
  function Lines(str: string, suffix: string): seq<string>
    requires |str| >= 1
    decreases |str|
  {
    if |str| == 1 then [str + suffix]
    else
      var head, last := str[..|str| - 1], str[|str| - 1];
      Lines(head, suffix) + [[last] + suffix] + Lines(head, suffix + [last])
  }

  function Pow2(n: nat): (p: nat)
    ensures p >= 1
  {
    if n == 0 then 1 else 2 * Pow2(n - 1)
  }

  /** A string of n characters gives 2^n - 1 lines, one per non-empty selection. */
  lemma {:induction false} LinesCount(str: string, suffix: string)
    requires |str| >= 1
    ensures |Lines(str, suffix)| == Pow2(|str|) - 1
    decreases |str|
  {
    if |str| > 1 {
      var head, last := str[..|str| - 1], str[|str| - 1];
      LinesCount(head, suffix);
      LinesCount(head, suffix + [last]);
    }
  }

  /** The characters of str at the positions of S below n, from the last position down. */
  function Downward(str: string, S: set<int>, n: nat): string
    requires n <= |str|
  {
    if n == 0 then [] else (if n - 1 in S then [str[n - 1]] else []) + Downward(str, S, n - 1)
  }

  /** A selection of the characters of a string of n characters: a non-empty set of positions below n. */
  predicate IsSelection(S: set<int>, n: nat) {
    (exists k :: k in S) && forall k | k in S :: 0 <= k < n
  }

  /**
   * The line printed for the selection S: the first chosen character, the
   * suffix, then the other chosen characters from the last one back.
   */
  function LineOf(str: string, S: set<int>, suffix: string): string {
    var d := Downward(str, S, |str|);
    if d == [] then suffix else [d[|d| - 1]] + suffix + d[..|d| - 1]
  }

  /**
   * The selections of a string of n characters in the order their lines
   * are printed: those of the first n - 1 characters, the last character
   * alone, then each earlier selection with the last character added.
   */
  function Selections(n: nat): (r: seq<set<int>>)
    requires n >= 1
    ensures |r| == Pow2(n) - 1
  {
    if n == 1 then [{0}]
    else
      var prev := Selections(n - 1);
      prev + [{n - 1}] + seq(|prev|, k requires 0 <= k < |prev| => prev[k] + {n - 1})
  }

  lemma PartIndex<T>(a: seq<T>, m: T, b: seq<T>, i: nat)
    requires i < |a| + 1 + |b|
    ensures (a + [m] + b)[i] == if i < |a| then a[i] else if i == |a| then m else b[i - |a| - 1]
  {
  }

  /** Every entry of the enumeration is a selection. */
  lemma {:induction false} SelectionsValid(n: nat, i: nat)
    requires n >= 1 && i < |Selections(n)|
    ensures IsSelection(Selections(n)[i], n)
  {
    if n > 1 {
      var m := |Selections(n - 1)|;
      SelectionAt(n, i);
      if i < m {
        SelectionsValid(n - 1, i);
      } else if i > m {
        SelectionsValid(n - 1, i - m - 1);
      }
    }
  }

  /** Where the i-th selection of n characters comes from in the enumeration for n - 1. */
  lemma SelectionAt(n: nat, i: nat)
    requires n > 1 && i < |Selections(n)|
    ensures i < |Selections(n - 1)| ==> Selections(n)[i] == Selections(n - 1)[i]
    ensures i == |Selections(n - 1)| ==> Selections(n)[i] == {n - 1}
    ensures i > |Selections(n - 1)| ==> Selections(n)[i] == Selections(n - 1)[i - |Selections(n - 1)| - 1] + {n - 1}
  {
    var prev := Selections(n - 1);
    var tail := seq(|prev|, k requires 0 <= k < |prev| => prev[k] + {n - 1});
    PartIndex(prev, {n - 1}, tail, i);
  }

  /** No selection is enumerated twice. */
  lemma {:induction false} SelectionsDistinct(n: nat, i: nat, j: nat)
    requires n >= 1 && i < j < |Selections(n)|
    ensures Selections(n)[i] != Selections(n)[j]
  {
    if n > 1 {
      var prev := Selections(n - 1);
      var m := |prev|;
      if j < m {
        SelectionsDistinct(n - 1, i, j);
        SelectionAt(n, i);
        SelectionAt(n, j);
      } else if i < m {
        SelectionsValid(n - 1, i);
        SelectionAt(n, i);
        SelectionAt(n, j);
        LastSeparates(prev[i], Selections(n)[j], n - 1);
      } else if i == m {
        SelectionsValid(n - 1, j - m - 1);
        SelectionAt(n, i);
        SelectionAt(n, j);
        MoreThanLast(prev[j - m - 1], n - 1);
      } else {
        var a, b := i - m - 1, j - m - 1;
        SelectionsDistinct(n - 1, a, b);
        SelectionsValid(n - 1, a);
        SelectionsValid(n - 1, b);
        SelectionAt(n, i);
        SelectionAt(n, j);
        AddLastInjective(prev[a], prev[b], n - 1);
      }
    }
  }

  /** A selection below p differs from any set holding p. */
  lemma LastSeparates(A: set<int>, B: set<int>, p: nat)
    requires IsSelection(A, p) && p in B
    ensures A != B
  {
    assert p !in A;
  }

  /** Adding p to two different selections below p keeps them different. */
  lemma AddLastInjective(A: set<int>, B: set<int>, p: nat)
    requires IsSelection(A, p) && IsSelection(B, p) && A != B
    ensures A + {p} != B + {p}
  {
    assert p !in A && p !in B;
    assert (A + {p}) - {p} == A && (B + {p}) - {p} == B;
  }

  /** A selection below p with p added is more than p alone. */
  lemma MoreThanLast(T: set<int>, p: nat)
    requires IsSelection(T, p)
    ensures T + {p} != {p}
  {
    var k :| k in T;
    assert k < p && k in T + {p};
  }

  /** Every selection is enumerated. */
  lemma {:induction false} SelectionsComplete(n: nat, S: set<int>) returns (i: nat)
    requires n >= 1 && IsSelection(S, n)
    ensures i < |Selections(n)| && Selections(n)[i] == S
  {
    if n == 1 {
      var k :| k in S;
      assert S == {0} by {
        forall x
          ensures x in S <==> x in {0}
        {
        }
      }
      return 0;
    }
    var m := |Selections(n - 1)|;
    if n - 1 !in S {
      i := SelectionsComplete(n - 1, S);
    } else if forall k | k in S :: k == n - 1 {
      assert S == {n - 1} by {
        forall x
          ensures x in S <==> x in {n - 1}
        {
        }
      }
      i := m;
    } else {
      var T := S - {n - 1};
      var k :| k in S && k != n - 1;
      assert k in T;
      var j := SelectionsComplete(n - 1, T);
      i := m + 1 + j;
      assert T + {n - 1} == S;
    }
    SelectionAt(n, i);
  }

  /** Downward only looks at the characters and the positions below m. */
  lemma {:induction false} DownwardAgree(s: string, t: string, S: set<int>, T: set<int>, m: nat)
    requires m <= |s| && m <= |t|
    requires forall k | 0 <= k < m :: s[k] == t[k] && (k in S <==> k in T)
    ensures Downward(s, S, m) == Downward(t, T, m)
  {
    if m > 0 {
      DownwardAgree(s, t, S, T, m - 1);
    }
  }

  /** Nothing is chosen below m. */
  lemma {:induction false} DownwardNone(s: string, S: set<int>, m: nat)
    requires m <= |s| && forall k | k in S :: !(0 <= k < m)
    ensures Downward(s, S, m) == []
  {
    if m > 0 {
      DownwardNone(s, S, m - 1);
    }
  }

  /** A chosen position below m gives a character. */
  lemma {:induction false} DownwardSome(s: string, S: set<int>, m: nat, k: int)
    requires m <= |s| && k in S && 0 <= k < m
    ensures Downward(s, S, m) != []
  {
    if k < m - 1 {
      DownwardSome(s, S, m - 1, k);
    }
  }

  /** The chosen characters are characters of s. */
  lemma {:induction false} DownwardChars(s: string, S: set<int>, m: nat)
    requires m <= |s|
    ensures multiset(Downward(s, S, m)) <= multiset(s[..m])
  {
    if m > 0 {
      DownwardChars(s, S, m - 1);
      assert s[..m] == s[..m - 1] + [s[m - 1]];
    }
  }

  /** A selection without the last position has the same line in str as in str without its last character. */
  lemma LineWithoutLast(str: string, S: set<int>, suffix: string)
    requires |str| >= 2 && IsSelection(S, |str| - 1)
    ensures LineOf(str, S, suffix) == LineOf(str[..|str| - 1], S, suffix)
  {
    var n := |str|;
    DownwardAgree(str, str[..n - 1], S, S, n - 1);
    assert Downward(str, S, n) == Downward(str, S, n - 1);
  }

  /** The last position alone: the last character, then the suffix. */
  lemma LineOfLast(str: string, suffix: string)
    requires |str| >= 1
    ensures LineOf(str, {|str| - 1}, suffix) == [str[|str| - 1]] + suffix
  {
    var n := |str|;
    DownwardNone(str, {n - 1}, n - 1);
    assert Downward(str, {n - 1}, n) == [str[n - 1]];
  }

  /**
   * A selection with the last position: its line in str is the line of
   * the rest of it in str without its last character, with the last
   * character added to the suffix.
   */
  lemma LineWithLast(str: string, T: set<int>, suffix: string)
    requires |str| >= 2 && IsSelection(T, |str| - 1)
    ensures LineOf(str, T + {|str| - 1}, suffix) == LineOf(str[..|str| - 1], T, suffix + [str[|str| - 1]])
  {
    var n := |str|;
    var head, last, S := str[..n - 1], str[n - 1], T + {n - 1};
    DownwardAgree(str, head, S, T, n - 1);
    var d' := Downward(head, T, n - 1);
    var k :| k in T;
    DownwardSome(head, T, n - 1, k);
    assert Downward(str, S, n) == [last] + d';
    var d := [last] + d';
    assert d[|d| - 1] == d'[|d'| - 1] && d[..|d| - 1] == [last] + d'[..|d'| - 1];
  }

  /**
   * The i-th line printed is the line of the i-th selection: its first
   * chosen character, the suffix, then the other chosen characters from
   * the last one back.
   */
  lemma {:induction false} LineAt(str: string, suffix: string, i: nat)
    requires |str| >= 1 && i < |Lines(str, suffix)|
    ensures |Lines(str, suffix)| == |Selections(|str|)|
    ensures Lines(str, suffix)[i] == LineOf(str, Selections(|str|)[i], suffix)
    decreases |str|
  {
    var n := |str|;
    LinesCount(str, suffix);
    if n == 1 {
      LineOfLast(str, suffix);
      assert str == [str[0]];
    } else {
      var head, last := str[..n - 1], str[n - 1];
      LinesCount(head, suffix);
      var m := |Lines(head, suffix)|;
      if i < m {
        LineAt(head, suffix, i);
        LineAtHead(str, suffix, i);
      } else if i == m {
        LineAtLast(str, suffix);
      } else {
        LinesCount(head, suffix + [last]);
        LineAt(head, suffix + [last], i - m - 1);
        LineAtTail(str, suffix, i);
      }
    }
  }

  /** Where the i-th line for str comes from among the lines for its head. */
  lemma LineSplit(str: string, suffix: string, i: nat)
    requires |str| > 1 && i < |Lines(str, suffix)|
    ensures var head, last := str[..|str| - 1], str[|str| - 1];
      var first := Lines(head, suffix);
      Lines(str, suffix)[i] ==
        if i < |first| then first[i]
        else if i == |first| then [last] + suffix
        else Lines(head, suffix + [last])[i - |first| - 1]
  {
    var n := |str|;
    var head, last := str[..n - 1], str[n - 1];
    var first, rest := Lines(head, suffix), Lines(head, suffix + [last]);
    assert Lines(str, suffix) == first + [[last] + suffix] + rest;
    PartIndex(first, [last] + suffix, rest, i);
  }

  /** A line of the first half of the output is the head's line for the same selection. */
  lemma LineAtHead(str: string, suffix: string, i: nat)
    requires |str| > 1 && i < |Lines(str[..|str| - 1], suffix)|
    requires |Lines(str[..|str| - 1], suffix)| == |Selections(|str| - 1)|
    requires Lines(str[..|str| - 1], suffix)[i] == LineOf(str[..|str| - 1], Selections(|str| - 1)[i], suffix)
    ensures i < |Lines(str, suffix)| && i < |Selections(|str|)|
    ensures Lines(str, suffix)[i] == LineOf(str, Selections(|str|)[i], suffix)
  {
    var n := |str|;
    LinesCount(str, suffix);
    LineSplit(str, suffix, i);
    SelectionAt(n, i);
    SelectionsValid(n - 1, i);
    LineWithoutLast(str, Selections(n - 1)[i], suffix);
  }

  /** The middle line of the output is the last character alone. */
  lemma LineAtLast(str: string, suffix: string)
    requires |str| > 1
    ensures |Lines(str[..|str| - 1], suffix)| < |Lines(str, suffix)|
    ensures |Lines(str[..|str| - 1], suffix)| < |Selections(|str|)|
    ensures var i := |Lines(str[..|str| - 1], suffix)|;
      Lines(str, suffix)[i] == LineOf(str, Selections(|str|)[i], suffix)
  {
    var n := |str|;
    var i := |Lines(str[..n - 1], suffix)|;
    LinesCount(str, suffix);
    LinesCount(str[..n - 1], suffix);
    LineSplit(str, suffix, i);
    SelectionAt(n, i);
    LineOfLast(str, suffix);
  }

  /** A line of the second half is the head's line with the last character added to the suffix. */
  lemma LineAtTail(str: string, suffix: string, i: nat)
    requires |str| > 1 && |Lines(str[..|str| - 1], suffix)| < i < |Lines(str, suffix)|
    requires i - |Lines(str[..|str| - 1], suffix)| - 1 < |Selections(|str| - 1)|
    requires LineOf(str[..|str| - 1], Selections(|str| - 1)[i - |Lines(str[..|str| - 1], suffix)| - 1], suffix + [str[|str| - 1]])
             == Lines(str[..|str| - 1], suffix + [str[|str| - 1]])[i - |Lines(str[..|str| - 1], suffix)| - 1]
    ensures i < |Selections(|str|)|
    ensures Lines(str, suffix)[i] == LineOf(str, Selections(|str|)[i], suffix)
  {
    var n := |str|;
    var head, last := str[..n - 1], str[n - 1];
    var m := |Lines(head, suffix)|;
    var j := i - m - 1;
    LinesCount(str, suffix);
    LinesCount(head, suffix);
    var T := Selections(n - 1)[j];
    assert Lines(str, suffix)[i] == Lines(head, suffix + [last])[j] by {
      LineSplit(str, suffix, i);
    }
    assert Selections(n)[i] == T + {n - 1} by {
      SelectionAt(n, i);
    }
    SelectionsValid(n - 1, j);
    LineWithLast(str, T, suffix);
  }

  /** The line of a selection with no suffix is non-empty and made of characters of str. */
  lemma LineOfChars(str: string, S: set<int>)
    requires IsSelection(S, |str|)
    ensures LineOf(str, S, "") != [] && multiset(LineOf(str, S, "")) <= multiset(str)
  {
    var d := Downward(str, S, |str|);
    var k :| k in S;
    DownwardSome(str, S, |str|, k);
    DownwardChars(str, S, |str|);
    assert str[..|str|] == str;
    assert d == d[..|d| - 1] + [d[|d| - 1]];
    assert LineOf(str, S, "") == [d[|d| - 1]] + d[..|d| - 1];
  }

  /**
   * `printCombination` prints every selection of the characters of str
   * exactly once: S has one place among the selections, and the line
   * printed there is S's line, non-empty and made of characters of str.
   */
  lemma CombinationLines(str: string, S: set<int>) returns (i: nat)
    requires |str| >= 1 && IsSelection(S, |str|)
    ensures |Lines(str, "")| == |Selections(|str|)| && i < |Lines(str, "")|
    ensures Selections(|str|)[i] == S && Lines(str, "")[i] == LineOf(str, S, "")
    ensures forall j | 0 <= j < |Selections(|str|)| && Selections(|str|)[j] == S :: j == i
    ensures Lines(str, "")[i] != [] && multiset(Lines(str, "")[i]) <= multiset(str)
  {
    i := SelectionsComplete(|str|, S);
    LinesCount(str, "");
    LineAt(str, "", i);
    LineOfChars(str, S);
    forall j | 0 <= j < |Selections(|str|)| && Selections(|str|)[j] == S
      ensures j == i
    {
      if j < i {
        SelectionsDistinct(|str|, j, i);
      } else if i < j {
        SelectionsDistinct(|str|, i, j);
      }
    }
  }

  /**
   * The lines for "abc": the selections of the doc comment, with the last
   * one printed as "acb" since the suffix collects characters from the end.
   */
  lemma LinesOfAbc()
    ensures Lines("abc", "") == ["a", "b", "ab", "c", "ac", "bc", "acb"]
  {
    LinesOfAb("", "a", "b", "ab");
    LinesOfAb("c", "ac", "bc", "acb");
    var abc := "abc";
    assert abc[..2] == "ab" && abc[2] == 'c';
    assert "" + [abc[2]] == "c" && [abc[2]] + "" == "c";
    assert Lines(abc, "") == Lines("ab", "") + ["c"] + Lines("ab", "c");
  }

  lemma LinesOfAb(suffix: string, x: string, y: string, z: string)
    requires x == "a" + suffix && y == "b" + suffix && z == "a" + suffix + "b"
    ensures Lines("ab", suffix) == [x, y, z]
  {
    assert "ab"[..1] == "a" && "ab"[1] == 'b';
    assert Lines("a", suffix) == [x];
    assert "a" + (suffix + "b") == z;
    assert Lines("a", suffix + "b") == [z];
  }

  /**
   * `printAux`: the lines it prints, one per selection of the characters
   * of str, in the order of `Selections`.
   */
  method PrintAux(str: string, suffix: string) returns (lines: seq<string>)
    requires |str| >= 1
    ensures lines == Lines(str, suffix) && |lines| == Pow2(|str|) - 1
    ensures forall i | 0 <= i < |lines| :: lines[i] == LineOf(str, Selections(|str|)[i], suffix)
    decreases |str|
  {
    var len := |str|;
    if len == 1 {
      lines := [str + suffix];
    } else {
      var head := str[..len - 1];
      var first := PrintAux(head, suffix);
      var suffix2 := suffix + [str[len - 1]];
      var rest := PrintAux(head, suffix2);
      lines := first + [[str[len - 1]] + suffix] + rest;
    }
    LinesCount(str, suffix);
    forall i | 0 <= i < |lines|
      ensures lines[i] == LineOf(str, Selections(|str|)[i], suffix)
    {
      LineAt(str, suffix, i);
    }
  }

  /**
   * `printCombination`: `printAux` with an empty suffix. Each selection of
   * the characters of str is printed exactly once: the selections are
   * enumerated without repetition, every one of them has its line, and
   * there are 2^|str| - 1 lines.
   */
  method PrintCombination(str: string) returns (lines: seq<string>)
    requires |str| >= 1
    ensures |lines| == Pow2(|str|) - 1
    ensures forall i | 0 <= i < |lines| :: lines[i] == LineOf(str, Selections(|str|)[i], "")
    ensures forall i, j | 0 <= i < j < |lines| :: Selections(|str|)[i] != Selections(|str|)[j]
    ensures forall S | IsSelection(S, |str|) ::
              exists i | 0 <= i < |lines| :: Selections(|str|)[i] == S && lines[i] == LineOf(str, S, "")
  {
    lines := PrintAux(str, "");
    forall i, j | 0 <= i < j < |lines|
      ensures Selections(|str|)[i] != Selections(|str|)[j]
    {
      SelectionsDistinct(|str|, i, j);
    }
    forall S | IsSelection(S, |str|)
      ensures exists i | 0 <= i < |lines| :: Selections(|str|)[i] == S && lines[i] == LineOf(str, S, "")
    {
      var i := CombinationLines(str, S);
    }
  }
}
