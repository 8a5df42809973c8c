/**
 * Natural-order file names (rz.cs): a name becomes a sequence of Int32
 * tokens, one per character, except that every maximal run of decimal
 * digits is folded into one number token; two names compare token by
 * token. `ShouldRemove` decides which files of an archive are deleted.
 * The token helpers here are shared with the variant in src/rz.cs.
 */
module Renames {

  // ---------------------------------------------------------------------
  // C# Int32 arithmetic (unchecked: results wrap modulo 2^32)
  // ---------------------------------------------------------------------

  const Two31: int := 0x8000_0000
  const Two32: int := 0x1_0000_0000

  predicate IsInt32(x: int) {
    -Two31 <= x < Two31
  }

  /** The Int32 that x wraps to. */
  function Wrap32(x: int): (r: int)
    ensures IsInt32(r)
    ensures IsInt32(x) ==> r == x
  {
    (x + Two31) % Two32 - Two31
  }

  /** Adding a multiple of 2^32 does not change the wrapped value. */
  lemma WrapShift(x: int, k: int)
    ensures Wrap32(x + k * Two32) == Wrap32(x)
  {
    var a := x + Two31;
    assert (a + k * Two32) % Two32 == a % Two32;
  }

  /** A wrapped value differs from the value by a multiple of 2^32. */
  lemma WrapOffset(x: int) returns (k: int)
    ensures Wrap32(x) == x + k * Two32
  {
    k := -((x + Two31) / Two32);
  }

  /** Wrapping an operand of `* 10 + d` early does not change the wrapped result. */
  lemma WrapMulAdd(x: int, d: int)
    ensures Wrap32(Wrap32(Wrap32(x) * 10) + d) == Wrap32(x * 10 + d)
  {
    var k := WrapOffset(x);
    var y := Wrap32(x) * 10;
    var j := WrapOffset(y);
    assert Wrap32(y) + d == x * 10 + d + (10 * k + j) * Two32;
    WrapShift(x * 10 + d, 10 * k + j);
  }

  // ---------------------------------------------------------------------
  // Characters
  // ---------------------------------------------------------------------

  predicate IsDigit(c: char) {
    '0' <= c <= '9'
  }

  /** `ch - '0'`. */
  function DigitValue(c: char): int {
    c as int - '0' as int
  }

  /**
   * `Char.IsWhiteSpace`: the Unicode space, line and paragraph separators,
   * U+0009 to U+000D, U+0085 and U+00A0.
   */
  predicate IsWhiteSpace(c: char) {
    ('\U{0009}' <= c <= '\U{000D}') || c == '\U{0020}' || c == '\U{0085}' || c == '\U{00A0}' || c == '\U{1680}'
    || ('\U{2000}' <= c <= '\U{200A}') || c == '\U{2028}' || c == '\U{2029}' || c == '\U{202F}'
    || c == '\U{205F}' || c == '\U{3000}'
  }

  function TrimStart(s: string): (r: string)
    ensures |r| <= |s| && r == s[|s| - |r|..]
    ensures r == [] || !IsWhiteSpace(r[0])
  {
    if s != [] && IsWhiteSpace(s[0]) then TrimStart(s[1..]) else s
  }

  /** What `TrimStart` drops is white space. */
  lemma {:induction false} TrimStartDropsWhiteSpace(s: string, i: nat)
    requires i < |s| - |TrimStart(s)|
    ensures IsWhiteSpace(s[i])
  {
    if i > 0 {
      TrimStartDropsWhiteSpace(s[1..], i - 1);
    }
  }

  function TrimEnd(s: string): (r: string)
    ensures |r| <= |s| && r == s[..|r|]
    ensures r == [] || !IsWhiteSpace(r[|r| - 1])
  {
    if s != [] && IsWhiteSpace(s[|s| - 1]) then TrimEnd(s[..|s| - 1]) else s
  }

  /** What `TrimEnd` drops is white space. */
  lemma {:induction false} TrimEndDropsWhiteSpace(s: string, i: nat)
    requires |TrimEnd(s)| <= i < |s|
    ensures IsWhiteSpace(s[i])
  {
    if i < |s| - 1 {
      TrimEndDropsWhiteSpace(s[..|s| - 1], i);
    }
  }

  /** `String.Trim()`: the name without leading and trailing white space. */
  function Trim(s: string): (r: string)
    ensures r == [] || (!IsWhiteSpace(r[0]) && !IsWhiteSpace(r[|r| - 1]))
  {
    TrimEnd(TrimStart(s))
  }

  /** A name without white space is its own trim. */
  lemma TrimWithoutWhiteSpace(s: string)
    requires forall i :: 0 <= i < |s| ==> !IsWhiteSpace(s[i])
    ensures Trim(s) == s
  {
    assert TrimStart(s) == s;
    assert TrimEnd(s) == s;
  }

  /** The index of the last c in s, or -1. */
  function LastIndexOf(s: string, c: char): (k: int)
    ensures -1 <= k < |s|
    ensures k >= 0 ==> s[k] == c
    ensures forall i :: k < i < |s| ==> s[i] != c
  {
    if s == [] then -1
    else if s[|s| - 1] == c then |s| - 1
    else LastIndexOf(s[..|s| - 1], c)
  }

  /**
   * `FileInfo.Extension` of a file name: from the last '.' to the end, or
   * empty when there is no '.' or it is the last character.
   */
  function Extension(name: string): (e: string)
    ensures e == [] || (2 <= |e| <= |name| && e[0] == '.' && e == name[|name| - |e|..])
    ensures e != [] ==> forall i :: 1 <= i < |e| ==> e[i] != '.'
  {
    var k := LastIndexOf(name, '.');
    if k < 0 || k == |name| - 1 then [] else name[k..]
  }

  // ---------------------------------------------------------------------
  // ShouldRemove (rz.cs)
  // ---------------------------------------------------------------------

  const SpamName1: string := "excnn.com.jpg"
  const SpamName2: string := "z999_upload_by_shobon-next.com"

  /** The extensions whose files are kept (compared case-sensitively). */
  const KeptExtensions: set<string> := {".jpg", ".bmp", ".JPG", ".jpeg", ".png", ".tif"}

  /** Whether the file of this name is deleted rather than renamed. */
  function ShouldRemove(name: string): bool {
    match Extension(name)
    case ".jpg" => name == SpamName1 || name == SpamName2
    case ".bmp" => false
    case ".JPG" => false
    case ".jpeg" => false
    case ".png" => false
    case ".tif" => false
    case _ => true
  }

  /**
   * A file is kept exactly when its extension is one of the image
   * extensions and it is not the first spam name.
   */
  lemma ShouldRemoveKeepsImages(name: string)
    ensures !ShouldRemove(name) <==> Extension(name) in KeptExtensions && name != SpamName1
  {
    if name == SpamName1 {
      SpamName1Removed();
    }
  }

  /** The first spam name has the extension ".jpg" and is removed by that case. */
  lemma SpamName1Removed()
    ensures ShouldRemove(SpamName1)
  {
    SpamName1Extension();
  }

  /** A name whose fourth-last character is its last '.' has a three-letter extension. */
  lemma ExtensionOfThree(name: string)
    requires |name| >= 4 && name[|name| - 4] == '.'
    requires name[|name| - 3] != '.' && name[|name| - 2] != '.' && name[|name| - 1] != '.'
    ensures Extension(name) == name[|name| - 4..]
  {
    var n := |name|;
    assert name[..n - 1][..n - 2] == name[..n - 2];
    assert name[..n - 2][..n - 3] == name[..n - 3];
    assert LastIndexOf(name[..n - 3], '.') == n - 4;
  }

  lemma SpamName1Extension()
    ensures Extension(SpamName1) == ".jpg"
  {
    ExtensionOfThree(SpamName1);
    assert SpamName1[|SpamName1| - 4..] == ".jpg";
  }

  lemma SpamName2Extension()
    ensures Extension(SpamName2) == ".com"
  {
    ExtensionOfThree(SpamName2);
    assert SpamName2[|SpamName2| - 4..] == ".com";
  }

  /**
   * The second spam name has the extension ".com", so it never reaches the
   * ".jpg" case; it is removed by the default case instead.
   */
  lemma SpamName2Removed()
    ensures ShouldRemove(SpamName2)
  {
    SpamName2Extension();
  }

  // ---------------------------------------------------------------------
  // Normalize: tokens of a name
  // ---------------------------------------------------------------------

  /**
   * `NUMBER`, the offset that lifts a number above every UTF-16 code unit,
   * which is what a C# `char` is. A character of this model is a Unicode
   * scalar value, so one outside the Basic Multilingual Plane reaches it.
   */
  const Number: int := 0x10000

  /** The marker rz.cs puts before each number: the code of '0'. */
  const Marker: seq<int> := ['0' as int]

  /** The end of the run of digits that starts at i: the first non-digit at or after i. */
  function RunEnd(s: string, i: nat): (j: nat)
    requires i <= |s|
    ensures i <= j <= |s|
    ensures j == |s| || !IsDigit(s[j])
    decreases |s| - i
  {
    if i == |s| || !IsDigit(s[i]) then i else RunEnd(s, i + 1)
  }

  /** Everything between i and the end of its run is a digit. */
  lemma {:induction false} RunEndDigits(s: string, i: nat, k: nat)
    requires i <= |s| && i <= k < RunEnd(s, i)
    ensures IsDigit(s[k])
    decreases k - i
  {
    if k > i {
      RunEndDigits(s, i + 1, k);
    }
  }

  /** Digits from i up to a non-digit (or the end) at j: the run at i ends at j. */
  lemma {:induction false} RunEndAt(s: string, i: nat, j: nat)
    requires i <= j <= |s| && (j == |s| || !IsDigit(s[j]))
    requires forall k :: i <= k < j ==> IsDigit(s[k])
    ensures RunEnd(s, i) == j
    decreases j - i
  {
    if i < j {
      RunEndAt(s, i + 1, j);
    }
  }

  /** The accumulator after reading the digits ds: `acc *= 10; acc += ch - '0'`, in Int32. */
  function Accumulate(ds: string): (v: int)
    ensures IsInt32(v)
  {
    if ds == [] then 0
    else Wrap32(Wrap32(Accumulate(ds[..|ds| - 1]) * 10) + DigitValue(ds[|ds| - 1]))
  }

  /** The decimal value of ds, without a bound. */
  function Decimal(ds: string): int {
    if ds == [] then 0 else Decimal(ds[..|ds| - 1]) * 10 + DigitValue(ds[|ds| - 1])
  }

  /** The accumulator is the decimal value of the run, wrapped once to Int32. */
  lemma {:induction false} AccumulateIsDecimal(ds: string)
    ensures Accumulate(ds) == Wrap32(Decimal(ds))
  {
    if ds != [] {
      var p := ds[..|ds| - 1];
      AccumulateIsDecimal(p);
      WrapMulAdd(Decimal(p), DigitValue(ds[|ds| - 1]));
    }
  }

  /**
   * The end of the chunk that starts at i: the end of its maximal run of
   * digits, or just past it when s[i] is not a digit.
   */
  function ChunkEnd(s: string, i: nat): (j: nat)
    requires i < |s|
    ensures i < j <= |s|
  {
    if IsDigit(s[i]) then RunEnd(s, i) else i + 1
  }

  /** The tokens of one chunk: marker and number for a run, else the character's code. */
  function ChunkTokens(c: string, marker: seq<int>): seq<int>
    requires c != []
  {
    if IsDigit(c[0]) then marker + [Wrap32(Accumulate(c) + Number)] else [c[0] as int]
  }

  /** The tokens of s[i..], chunk by chunk. */
  function TokensFrom(s: string, i: nat, marker: seq<int>): seq<int>
    requires i <= |s|
    decreases |s| - i
  {
    if i == |s| then []
    else
      var j := ChunkEnd(s, i);
      ChunkTokens(s[i..j], marker) + TokensFrom(s, j, marker)
  }

  /**
   * The tokens of s: every character outside a digit run is its code; every
   * maximal run of digits becomes the marker followed by its value plus
   * `Number` (both additions in Int32).
   */
  function Tokens(s: string, marker: seq<int>): seq<int> {
    TokensFrom(s, 0, marker)
  }

  /** The character codes of s, one token each. */
  function Codes(s: string): (r: seq<int>)
    ensures |r| == |s|
  {
    seq(|s|, k requires 0 <= k < |s| => s[k] as int)
  }

  /** A name without digits passes through character by character. */
  lemma {:induction false} TokensWithoutDigits(s: string, i: nat, m: seq<int>)
    requires i <= |s|
    requires forall k :: i <= k < |s| ==> !IsDigit(s[k])
    ensures TokensFrom(s, i, m) == Codes(s[i..])
    decreases |s| - i
  {
    if i < |s| {
      TokensWithoutDigits(s, i + 1, m);
      assert s[i..i + 1] == [s[i]];
      assert Codes(s[i..]) == [s[i] as int] + Codes(s[i + 1..]);
    }
  }

  /** Every token is an Int32 once the marker is. */
  lemma {:induction false} TokensAreInt32(s: string, i: nat, m: seq<int>)
    requires i <= |s|
    requires forall k :: 0 <= k < |m| ==> IsInt32(m[k])
    ensures forall k :: 0 <= k < |TokensFrom(s, i, m)| ==> IsInt32(TokensFrom(s, i, m)[k])
    decreases |s| - i
  {
    if i < |s| {
      TokensAreInt32(s, ChunkEnd(s, i), m);
    }
  }

  /** A run of digits that reaches the end of the name is flushed as the last tokens. */
  lemma TrailingRun(s: string, i: nat, m: seq<int>)
    requires i < |s| && forall k :: i <= k < |s| ==> IsDigit(s[k])
    ensures TokensFrom(s, i, m) == m + [Wrap32(Accumulate(s[i..]) + Number)]
  {
    RunEndAt(s, i, |s|);
    assert ChunkEnd(s, i) == |s|;
    assert s[i..|s|] == s[i..];
    assert TokensFrom(s, i, m) == ChunkTokens(s[i..], m) + TokensFrom(s, |s|, m);
  }

  /**
   * What `Normalize` has built after reading name[..i] outside a run: results
   * followed by the tokens of the rest are the tokens of the name.
   */
  ghost predicate ScannedOut(name: string, i: nat, m: seq<int>, results: seq<int>) {
    i <= |name| && results + TokensFrom(name, i, m) == Tokens(name, m)
  }

  /**
   * What `Normalize` has built after reading name[..i] inside the run that
   * began at `start`: results are `pre` and the marker, `pre` followed by the
   * tokens from `start` are the tokens of the name, and acc is the run so far.
   */
  ghost predicate ScannedIn(name: string, i: nat, m: seq<int>, start: nat, acc: int, pre: seq<int>, results: seq<int>) {
    start < i <= |name| && (forall k :: start <= k < i ==> IsDigit(name[k])) &&
    results == pre + m && pre + TokensFrom(name, start, m) == Tokens(name, m) &&
    acc == Accumulate(name[start..i])
  }

  /** A digit inside a run: `acc *= 10; acc += ch - '0'`. */
  lemma ScanRunDigit(name: string, i: nat, m: seq<int>, start: nat, acc: int, pre: seq<int>, results: seq<int>)
    requires ScannedIn(name, i, m, start, acc, pre, results) && i < |name| && IsDigit(name[i])
    ensures ScannedIn(name, i + 1, m, start, Wrap32(Wrap32(acc * 10) + DigitValue(name[i])), pre, results)
  {
    assert name[start..i + 1][..i - start] == name[start..i];
  }

  /** The end of a run (a non-digit, or the end of the name): its number token. */
  lemma ScanRunEnd(name: string, i: nat, m: seq<int>, start: nat, acc: int, pre: seq<int>, results: seq<int>)
    requires ScannedIn(name, i, m, start, acc, pre, results)
    requires i == |name| || !IsDigit(name[i])
    ensures ScannedOut(name, i, m, results + [Wrap32(acc + Number)])
  {
    RunEndAt(name, start, i);
    var w := [Wrap32(acc + Number)];
    assert TokensFrom(name, start, m) == m + w + TokensFrom(name, i, m);
    ConcatAssoc(pre, m + w, TokensFrom(name, i, m));
    ConcatAssoc(pre, m, w);
  }

  /** A digit outside a run starts one: the marker, and the digit's value. */
  lemma ScanRunStart(name: string, i: nat, m: seq<int>, results: seq<int>)
    requires ScannedOut(name, i, m, results) && i < |name| && IsDigit(name[i])
    ensures ScannedIn(name, i + 1, m, i, DigitValue(name[i]), results, results + m)
  {
    assert name[i..i + 1][..0] == [];
  }

  /** A non-digit outside a run passes through. */
  lemma ScanOther(name: string, i: nat, m: seq<int>, results: seq<int>)
    requires ScannedOut(name, i, m, results) && i < |name| && !IsDigit(name[i])
    ensures ScannedOut(name, i + 1, m, results + [name[i] as int])
  {
    assert name[i..i + 1] == [name[i]];
    ConcatAssoc(results, [name[i] as int], TokensFrom(name, i + 1, m));
  }

  /** Outside a run at the end of the name, results are the tokens. */
  lemma ScanDone(name: string, m: seq<int>, results: seq<int>)
    requires ScannedOut(name, |name|, m, results)
    ensures results == Tokens(name, m)
  {
    assert results + [] == results;
  }

  lemma ConcatAssoc<T>(a: seq<T>, b: seq<T>, c: seq<T>)
    ensures (a + b) + c == a + (b + c)
  {
  }

  /**
   * The state of `Normalize`'s scan. `Start` is declared but never entered
   * (the loop keeps `state != Start`), so the scan branches on `Digit` alone.
   */
  datatype State = Digit | NotDigit | Start

  /** `Normalize` of rz.cs: the tokens of the name with the '0' marker. */
  method Normalize(name: string) returns (results: seq<int>)
    ensures results == Tokens(name, Marker)
  {
    var state := NotDigit;
    var accumulator := 0;
    results := [];
    ghost var start, pre := 0, [];
    for i := 0 to |name|
      invariant state != Start
      invariant state == NotDigit ==> ScannedOut(name, i, Marker, results)
      invariant state == Digit ==> ScannedIn(name, i, Marker, start, accumulator, pre, results)
    {
      var ch := name[i];
      if state == Digit {
        if IsDigit(ch) {
          ScanRunDigit(name, i, Marker, start, accumulator, pre, results);
          accumulator := Wrap32(Wrap32(accumulator * 10) + DigitValue(ch));
        } else {
          ScanRunEnd(name, i, Marker, start, accumulator, pre, results);
          results := results + [Wrap32(accumulator + Number)];
          ScanOther(name, i, Marker, results);
          results := results + [ch as int];
          state := NotDigit;
        }
      } else {
        if IsDigit(ch) {
          ScanRunStart(name, i, Marker, results);
          pre, results := results, results + Marker;
          accumulator := DigitValue(ch);
          start := i;
          state := Digit;
        } else {
          ScanOther(name, i, Marker, results);
          results := results + [ch as int];
        }
      }
    }
    if state == Digit {
      ScanRunEnd(name, |name|, Marker, start, accumulator, pre, results);
      results := results + [Wrap32(accumulator + Number)];
    }
    ScanDone(name, Marker, results);
  }

  // ---------------------------------------------------------------------
  // CompareFileNames
  // ---------------------------------------------------------------------

  /**
   * The comparison loop of `CompareFileNames`: the first Int32 difference
   * `name1[i] - name2[i]` that is not zero, 1 when name2 runs out first,
   * and 0 when name1 runs out first or the two are equal.
   */
  function Compare(a: seq<int>, b: seq<int>): int {
    if a == [] then 0
    else if b == [] then 1
    else if Wrap32(a[0] - b[0]) != 0 then Wrap32(a[0] - b[0])
    else Compare(a[1..], b[1..])
  }

  predicate AllInt32(a: seq<int>) {
    forall i :: 0 <= i < |a| ==> IsInt32(a[i])
  }

  /** For Int32 tokens the comparison is 0 exactly when a is a prefix of b. */
  lemma {:induction false} CompareZeroIffPrefix(a: seq<int>, b: seq<int>)
    requires AllInt32(a) && AllInt32(b)
    ensures Compare(a, b) == 0 <==> a <= b
  {
    if a != [] && b != [] {
      CompareZeroIffPrefix(a[1..], b[1..]);
      if a[0] == b[0] {
        assert a[1..] <= b[1..] <==> a <= b by {
          assert a == [a[0]] + a[1..] && b == [b[0]] + b[1..];
        }
      }
    }
  }

  /** When b is a proper prefix of a the comparison is 1. */
  lemma {:induction false} CompareLongerIsOne(a: seq<int>, b: seq<int>)
    requires b < a
    ensures Compare(a, b) == 1
  {
    if b != [] {
      assert a[0] == b[0];
      CompareLongerIsOne(a[1..], b[1..]);
    }
  }

  /**
   * At the first position where the tokens differ, the result is their
   * Int32 difference; for tokens less than 2^31 apart its sign says which
   * is larger.
   */
  lemma {:induction false} CompareFirstDifference(a: seq<int>, b: seq<int>, k: nat)
    requires k < |a| && k < |b| && a[..k] == b[..k] && a[k] != b[k]
    requires AllInt32(a) && AllInt32(b)
    ensures Compare(a, b) == Wrap32(a[k] - b[k])
    ensures IsInt32(a[k] - b[k]) ==> (Compare(a, b) > 0 <==> a[k] > b[k])
  {
    if k > 0 {
      assert a[0] == a[..k][0] == b[..k][0] == b[0];
      assert a[1..][..k - 1] == a[..k][1..] == b[..k][1..] == b[1..][..k - 1];
      CompareFirstDifference(a[1..], b[1..], k - 1);
    }
  }

  /** `CompareFileNames` of rz.cs on the file names: tokens of the trimmed names. */
  function CompareNames(name1: string, name2: string): int {
    Compare(Tokens(Trim(name1), Marker), Tokens(Trim(name2), Marker))
  }

  /** Every name compares equal to itself. */
  lemma CompareNamesReflexive(name: string)
    ensures CompareNames(name, name) == 0
  {
    var t := Tokens(Trim(name), Marker);
    TokensAreInt32(Trim(name), 0, Marker);
    CompareZeroIffPrefix(t, t);
  }

  /** The loop of `CompareFileNames` (shared by src/rz.cs). */
  method CompareTokens(name1: seq<int>, name2: seq<int>) returns (r: int)
    ensures r == Compare(name1, name2)
  {
    for i := 0 to |name1|
      invariant i <= |name2|
      invariant Compare(name1, name2) == Compare(name1[i..], name2[i..])
    {
      if i == |name2| {
        return 1;
      }
      var diff := Wrap32(name1[i] - name2[i]);
      if diff != 0 {
        return diff;
      }
      assert name1[i..][1..] == name1[i + 1..] && name2[i..][1..] == name2[i + 1..];
    }
    return 0;
  }

  /** `CompareFileNames` of rz.cs. */
  method CompareFileNames(fileName1: string, fileName2: string) returns (r: int)
    ensures r == CompareNames(fileName1, fileName2)
  {
    var name1 := Normalize(Trim(fileName1));
    var name2 := Normalize(Trim(fileName2));
    r := CompareTokens(name1, name2);
  }

  /**
   * As written the comparison is not antisymmetric: a name whose tokens are
   * a proper prefix of another's compares equal to it, while the reverse
   * comparison says greater.
   */
  lemma CompareNamesNotAntisymmetric()
    ensures CompareNames("a", "ab") == 0
    ensures CompareNames("ab", "a") == 1
  {
    ExampleTokens();
    ExampleCompare();
  }

  lemma ExampleTokens()
    ensures Tokens(Trim("a"), Marker) == [97] && Tokens(Trim("ab"), Marker) == [97, 98]
  {
    TrimWithoutWhiteSpace("a");
    TrimWithoutWhiteSpace("ab");
    TokensOfA();
    TokensOfAb();
  }

  lemma TokensOfA()
    ensures Tokens("a", Marker) == [97]
  {
    assert TokensFrom("a", 1, Marker) == [];
  }

  lemma TokensOfAb()
    ensures Tokens("ab", Marker) == [97, 98]
  {
    assert TokensFrom("ab", 2, Marker) == [];
    assert TokensFrom("ab", 1, Marker) == [98];
  }

  lemma ExampleCompare()
    ensures Compare([97], [97, 98]) == 0 && Compare([97, 98], [97]) == 1
  {
    assert [97][1..] == [] && [97, 98][1..] == [98];
  }

  /**
   * The evidently intended comparison: lexicographic on the tokens, with a
   * proper prefix ordered first and signs that never wrap.
   */
  function CompareCorrected(a: seq<int>, b: seq<int>): (r: int)
    ensures -1 <= r <= 1
  {
    if a == [] then (if b == [] then 0 else -1)
    else if b == [] then 1
    else if a[0] < b[0] then -1
    else if a[0] > b[0] then 1
    else CompareCorrected(a[1..], b[1..])
  }

  /** The corrected comparison is antisymmetric and 0 only on equal tokens. */
  lemma {:induction false} CompareCorrectedIsOrder(a: seq<int>, b: seq<int>)
    ensures CompareCorrected(a, b) == -CompareCorrected(b, a)
    ensures CompareCorrected(a, b) == 0 <==> a == b
  {
    if a != [] && b != [] {
      CompareCorrectedIsOrder(a[1..], b[1..]);
      if a[0] == b[0] {
        assert a[1..] == b[1..] <==> a == b by {
          assert a == [a[0]] + a[1..] && b == [b[0]] + b[1..];
        }
      }
    }
  }

  /** A proper prefix now comes first, in both directions. */
  lemma {:induction false} CompareCorrectedPrefix(a: seq<int>, b: seq<int>)
    requires a < b
    ensures CompareCorrected(a, b) == -1 && CompareCorrected(b, a) == 1
  {
    if a != [] {
      assert a[0] == b[0];
      CompareCorrectedPrefix(a[1..], b[1..]);
    }
  }
}
