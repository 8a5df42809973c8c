/**
 * The earlier version of the renamer (src/rz.cs): the same token scan, but
 * a digit run is not preceded by a marker, names are compared untrimmed,
 * and ".tif" files are deleted rather than kept.
 */
module RenamesSrc {
  import R = Renames

  /** The extensions whose files are kept in this version. */
  const KeptExtensions: set<string> := {".jpg", ".bmp", ".JPG", ".jpeg", ".png"}

  /** Whether the file of this name is deleted rather than renamed. */
  function ShouldRemove(name: string): bool {
    match R.Extension(name)
    case ".jpg" => name == R.SpamName1
    case ".bmp" => false
    case ".JPG" => false
    case ".jpeg" => false
    case ".png" => false
    case _ => true
  }

  /** A file is kept exactly when its extension is listed and it is not the spam name. */
  lemma ShouldRemoveKeepsImages(name: string)
    ensures !ShouldRemove(name) <==> R.Extension(name) in KeptExtensions && name != R.SpamName1
  {
    if name == R.SpamName1 {
      SpamNameRemoved();
    }
  }

  lemma SpamNameRemoved()
    ensures ShouldRemove(R.SpamName1)
  {
    R.SpamName1Extension();
  }

  /** The two versions disagree exactly on ".tif" files, which only this one deletes. */
  lemma ShouldRemoveVersions(name: string)
    ensures ShouldRemove(name) != R.ShouldRemove(name) <==> R.Extension(name) == ".tif"
    ensures R.Extension(name) == ".tif" ==> ShouldRemove(name)
  {
    if name == R.SpamName2 {
      R.SpamName2Extension();
    }
  }

  /** `Normalize` of src/rz.cs: the tokens of the name without a marker. */
  method Normalize(name: string) returns (results: seq<int>)
    ensures results == R.Tokens(name, [])
  {
    var state := R.NotDigit;
    var accumulator := 0;
    results := [];
    ghost var start, pre := 0, [];
    for i := 0 to |name|
      invariant state != R.Start
      invariant state == R.NotDigit ==> R.ScannedOut(name, i, [], results)
      invariant state == R.Digit ==> R.ScannedIn(name, i, [], start, accumulator, pre, results)
    {
      var ch := name[i];
      if state == R.Digit {
        if R.IsDigit(ch) {
          R.ScanRunDigit(name, i, [], start, accumulator, pre, results);
          accumulator := R.Wrap32(R.Wrap32(accumulator * 10) + R.DigitValue(ch));
        } else {
          R.ScanRunEnd(name, i, [], start, accumulator, pre, results);
          results := results + [R.Wrap32(accumulator + R.Number)];
          R.ScanOther(name, i, [], results);
          results := results + [ch as int];
          state := R.NotDigit;
        }
      } else {
        if R.IsDigit(ch) {
          R.ScanRunStart(name, i, [], results);
          assert results + [] == results;
          pre := results;
          accumulator := R.DigitValue(ch);
          start := i;
          state := R.Digit;
        } else {
          R.ScanOther(name, i, [], results);
          results := results + [ch as int];
        }
      }
    }
    if state == R.Digit {
      R.ScanRunEnd(name, |name|, [], start, accumulator, pre, results);
      results := results + [R.Wrap32(accumulator + R.Number)];
    }
    R.ScanDone(name, [], results);
  }

  /** `CompareFileNames` of src/rz.cs on the file names: tokens of the untrimmed names. */
  function CompareNames(name1: string, name2: string): int {
    R.Compare(R.Tokens(name1, []), R.Tokens(name2, []))
  }

  /** Every name compares equal to itself. */
  lemma CompareNamesReflexive(name: string)
    ensures CompareNames(name, name) == 0
  {
    var t := R.Tokens(name, []);
    R.TokensAreInt32(name, 0, []);
    R.CompareZeroIffPrefix(t, t);
  }

  /**
   * Without the marker a number token can meet a character token at the
   * same position: since every number token is at least `Number` once the
   * run's value stays below 2^31 - `Number`, a number sorts after every
   * UTF-16 code unit.
   */
  lemma NumberAfterCodeUnits(ds: string, c: char)
    requires forall k :: 0 <= k < |ds| ==> R.IsDigit(ds[k])
    requires R.Decimal(ds) < R.Two31 - R.Number && c as int < R.Number
    ensures R.Wrap32(R.Accumulate(ds) + R.Number) > c as int
  {
    R.AccumulateIsDecimal(ds);
    DecimalNonNegative(ds);
  }

  lemma {:induction false} DecimalNonNegative(ds: string)
    requires forall k :: 0 <= k < |ds| ==> R.IsDigit(ds[k])
    ensures R.Decimal(ds) >= 0
  {
    if ds != [] {
      DecimalNonNegative(ds[..|ds| - 1]);
    }
  }

  /** `CompareFileNames` of src/rz.cs. */
  method CompareFileNames(fileName1: string, fileName2: string) returns (r: int)
    ensures r == CompareNames(fileName1, fileName2)
  {
    var name1 := Normalize(fileName1);
    var name2 := Normalize(fileName2);
    r := R.CompareTokens(name1, name2);
  }
}
