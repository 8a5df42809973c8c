/**
 * The expectation-file updater (update_test_expectations.py): every line of
 * an updates file with three space-separated fields is indexed by its second
 * field (the test name); every non-comment line of the expectations file
 * whose name is indexed is replaced by the indexed line.
 */
module TestExpectations {

  // ---------------------------------------------------------------------
  // line.split(' ', 2)
  // ---------------------------------------------------------------------

  /** The first index at or after `from` holding a space, or |s|. */
  function NextSpace(s: string, from: nat): (k: nat)
    requires from <= |s|
    ensures from <= k <= |s|
    ensures k < |s| ==> s[k] == ' '
    decreases |s| - from
  {
    if from == |s| || s[from] == ' ' then from else NextSpace(s, from + 1)
  }

  /** `NextSpace` skips no space. */
  lemma {:induction false} NextSpaceFirst(s: string, from: nat, i: nat)
    requires from <= |s| && from <= i < NextSpace(s, from)
    ensures s[i] != ' '
    decreases i - from
  {
    if i > from {
      NextSpaceFirst(s, from + 1, i);
    }
  }

  /** Python's `line.split(' ', 2)`: at most two splits, at the first two spaces. */
  function Split2(line: string): (fields: seq<string>)
    ensures 1 <= |fields| <= 3
  {
    var i := NextSpace(line, 0);
    if i == |line| then [line]
    else
      var j := NextSpace(line, i + 1);
      if j == |line| then [line[..i], line[i + 1..]]
      else [line[..i], line[i + 1..j], line[j + 1..]]
  }

  /** The fields joined back with single spaces. */
  function JoinSpace(fields: seq<string>): string
    requires fields != []
  {
    if |fields| == 1 then fields[0] else fields[0] + " " + JoinSpace(fields[1..])
  }

  /** Splitting loses nothing: the fields joined by spaces are the line. */
  lemma SplitJoin(line: string)
    ensures JoinSpace(Split2(line)) == line
  {
    var i := NextSpace(line, 0);
    if i < |line| {
      var j := NextSpace(line, i + 1);
      if j == |line| {
        JoinTwo(line[..i], line[i + 1..]);
        assert line == line[..i] + " " + line[i + 1..];
      } else {
        JoinThree(line[..i], line[i + 1..j], line[j + 1..]);
        SplitAt(line[i + 1..], j - i - 1);
        assert line[i + 1..][..j - i - 1] == line[i + 1..j] && line[i + 1..][j - i..] == line[j + 1..];
        SplitAt(line, i);
      }
    }
  }

  /** A string with a space at k is its two sides joined by that space. */
  lemma SplitAt(s: string, k: nat)
    requires k < |s| && s[k] == ' '
    ensures s == s[..k] + " " + s[k + 1..]
  {
  }

  lemma JoinTwo(a: string, b: string)
    ensures JoinSpace([a, b]) == a + " " + b
  {
    assert [a, b][1..] == [b];
  }

  lemma JoinThree(a: string, b: string, c: string)
    ensures JoinSpace([a, b, c]) == a + " " + (b + " " + c)
  {
    assert [a, b, c][1..] == [b, c];
    JoinTwo(b, c);
  }

  /** There are three fields exactly when the line has at least two spaces. */
  lemma SplitFieldsCount(line: string)
    ensures |Split2(line)| == 3 <==> SpaceCount(line) >= 2
  {
    var i := NextSpace(line, 0);
    SpacesBefore(line, 0, i);
    if i < |line| {
      SpaceCountSplit(line, i);
      SecondSpace(line, i);
    } else {
      assert line[0..i] == line;
    }
  }

  /** After the first space at i, a second space exists exactly when one more is counted. */
  lemma SecondSpace(line: string, i: nat)
    requires i < |line| && line[i] == ' '
    ensures NextSpace(line, i + 1) < |line| <==> SpaceCount(line[i + 1..]) >= 1
  {
    var j := NextSpace(line, i + 1);
    if j < |line| {
      SpaceInSuffix(line, i + 1, j);
    } else {
      SpacesBefore(line, i + 1, j);
    }
  }

  /** A space at k is counted in every suffix that starts at or before k. */
  lemma SpaceInSuffix(s: string, from: nat, k: nat)
    requires from <= k < |s| && s[k] == ' '
    ensures SpaceCount(s[from..]) >= 1
  {
    var rest := s[from..];
    assert rest[k - from] == ' ';
    SpaceCountSplit(rest, k - from);
  }

  /** The first two of three fields hold no space. */
  lemma SplitFieldsNoSpace(line: string)
    requires |Split2(line)| == 3
    ensures ' ' !in Split2(line)[0] && ' ' !in Split2(line)[1]
  {
    var i := NextSpace(line, 0);
    NoSpaceIn(line, 0, i);
    NoSpaceIn(line, i + 1, NextSpace(line, i + 1));
    assert line[0..i] == line[..i];
  }

  function SpaceCount(s: string): nat {
    if s == [] then 0 else (if s[0] == ' ' then 1 else 0) + SpaceCount(s[1..])
  }

  lemma SpaceCountHead(s: string)
    requires s != [] && s[0] == ' '
    ensures SpaceCount(s) >= 1
  {
  }

  /** Counting spaces splits at a space into both sides and the space itself. */
  lemma {:induction false} SpaceCountSplit(s: string, k: nat)
    requires k < |s| && s[k] == ' '
    ensures SpaceCount(s) == SpaceCount(s[..k]) + 1 + SpaceCount(s[k + 1..])
  {
    if k > 0 {
      SpaceCountSplit(s[1..], k - 1);
      assert s[1..][..k - 1] == s[..k][1..];
      assert s[1..][k..] == s[k + 1..];
    }
  }

  /** Between `from` and the next space there are no spaces to count. */
  lemma SpacesBefore(s: string, from: nat, k: nat)
    requires from <= |s| && k == NextSpace(s, from)
    ensures SpaceCount(s[from..k]) == 0
    ensures k == |s| ==> SpaceCount(s[from..]) == 0
  {
    NoSpaceIn(s, from, k);
    NoSpaceCount(s[from..k]);
    if k == |s| {
      assert s[from..k] == s[from..];
    }
  }

  lemma NoSpaceIn(s: string, from: nat, k: nat)
    requires from <= |s| && k == NextSpace(s, from)
    ensures ' ' !in s[from..k]
  {
    if ' ' in s[from..k] {
      var i :| from <= i < k && s[i] == ' ';
      NextSpaceFirst(s, from, i);
    }
  }

  lemma {:induction false} NoSpaceCount(s: string)
    requires ' ' !in s
    ensures SpaceCount(s) == 0
  {
    if s != [] {
      assert s[0] in s;
      assert forall c :: c in s[1..] ==> c in s;
      NoSpaceCount(s[1..]);
    }
  }

  // ---------------------------------------------------------------------
  // is_comment
  // ---------------------------------------------------------------------

  /** `\s` of Python 2's `re` on byte strings. */
  predicate IsSpace(c: char) {
    c == ' ' || c == '\t' || c == '\n' || c == '\r' || c == '\U{000C}' || c == '\U{000B}'
  }

  /** The index of the first character that is not `\s`, or |s|. */
  function SkipSpace(s: string, from: nat): (k: nat)
    requires from <= |s|
    ensures from <= k <= |s|
    ensures k < |s| ==> !IsSpace(s[k])
    decreases |s| - from
  {
    if from == |s| || !IsSpace(s[from]) then from else SkipSpace(s, from + 1)
  }

  /** `re.search('^\s*#', line)`: the first character that is not white space is '#'. */
  predicate HashComment(line: string) {
    var k := SkipSpace(line, 0);
    k < |line| && line[k] == '#'
  }

  /** `is_comment`: empty, a '#' comment, or without three space-separated fields. */
  predicate IsComment(line: string) {
    |line| == 0 || HashComment(line) || |Split2(line)| != 3
  }

  /** The test name of a line with three fields. */
  function Name(line: string): string
    requires |Split2(line)| == 3
  {
    Split2(line)[1]
  }

  /** A line that is not a comment has three fields and does not start with '#'. */
  lemma NotCommentHasName(line: string)
    requires !IsComment(line)
    ensures |Split2(line)| == 3 && SpaceCount(line) >= 2 && line[0] != '#'
    ensures ' ' !in Name(line)
  {
    SplitFieldsCount(line);
    SplitFieldsNoSpace(line);
  }

  // ---------------------------------------------------------------------
  // make_updates
  // ---------------------------------------------------------------------

  /** The dictionary `make_updates` builds from the lines read so far. */
  function UpdatesOf(lines: seq<string>): map<string, string> {
    if lines == [] then map[]
    else
      var u, line := UpdatesOf(lines[..|lines| - 1]), lines[|lines| - 1];
      if |Split2(line)| != 3 then u else u[Name(line) := line]
  }

  /** Each indexed line is one of the lines read, with that name. */
  lemma {:induction false} UpdatesFromLines(lines: seq<string>, name: string)
    requires name in UpdatesOf(lines)
    ensures UpdatesOf(lines)[name] in lines
    ensures |Split2(UpdatesOf(lines)[name])| == 3 && Name(UpdatesOf(lines)[name]) == name
  {
    var prefix, line := lines[..|lines| - 1], lines[|lines| - 1];
    assert lines == prefix + [line];
    if !(|Split2(line)| == 3 && Name(line) == name) {
      UpdatesFromLines(prefix, name);
    }
  }

  /** The last line with a given name wins. */
  lemma {:induction false} UpdatesLastWins(lines: seq<string>, i: nat)
    requires i < |lines| && |Split2(lines[i])| == 3
    requires forall j :: i < j < |lines| ==> !(|Split2(lines[j])| == 3 && Name(lines[j]) == Name(lines[i]))
    ensures Name(lines[i]) in UpdatesOf(lines) && UpdatesOf(lines)[Name(lines[i])] == lines[i]
  {
    var prefix := lines[..|lines| - 1];
    if i < |lines| - 1 {
      assert prefix[i] == lines[i];
      UpdatesLastWins(prefix, i);
    }
  }

  /** `make_updates`, over the lines of the updates file. */
  method MakeUpdates(lines: seq<string>) returns (updates: map<string, string>)
    ensures updates == UpdatesOf(lines)
  {
    updates := map[];
    for k := 0 to |lines|
      invariant updates == UpdatesOf(lines[..k])
    {
      var line := lines[k];
      assert lines[..k + 1][..k] == lines[..k];
      var fields := Split2(line);
      if |fields| != 3 {
        continue;
      }
      var name := fields[1];
      updates := updates[name := line];
    }
    assert lines[..|lines|] == lines;
  }

  // ---------------------------------------------------------------------
  // the replacement loop of main
  // ---------------------------------------------------------------------

  /** What one line of the expectations file becomes. */
  function Replaced(line: string, updates: map<string, string>): (r: string)
    ensures IsComment(line) ==> r == line
  {
    if IsComment(line) || Name(line) !in updates then line else updates[Name(line)]
  }

  /**
   * The loop of `main`: every line is copied, and a non-comment line whose
   * name is indexed is overwritten by the indexed line.
   */
  method Rewrite(input: seq<string>, updates: map<string, string>) returns (outputs: seq<string>)
    ensures |outputs| == |input|
    ensures forall i :: 0 <= i < |input| ==> outputs[i] == Replaced(input[i], updates)
  {
    outputs := [];
    for k := 0 to |input|
      invariant |outputs| == k
      invariant forall i :: 0 <= i < k ==> outputs[i] == Replaced(input[i], updates)
    {
      var line := input[k];
      outputs := outputs + [line];
      if IsComment(line) {
        continue;
      }
      var name := Split2(line)[1];
      if name !in updates {
        continue;
      }
      outputs := outputs[..|outputs| - 1] + [updates[name]];
    }
  }

  /** Rewriting with the dictionary of an updates file a second time changes nothing. */
  lemma RewriteIdempotent(line: string, updateLines: seq<string>)
    ensures Replaced(Replaced(line, UpdatesOf(updateLines)), UpdatesOf(updateLines)) == Replaced(line, UpdatesOf(updateLines))
  {
    var u := UpdatesOf(updateLines);
    if !IsComment(line) && Name(line) in u {
      UpdatesFromLines(updateLines, Name(line));
    }
  }

  /** Lines whose name is not indexed, and comments, pass through unchanged. */
  lemma RewriteKeeps(line: string, updates: map<string, string>)
    requires IsComment(line) || Name(line) !in updates
    ensures Replaced(line, updates) == line
  {
  }
}
