/**
 * The call-tree converter (profiling/calltree2dot.py): function names are
 * shortened and escaped for a Graphviz label, uninteresting frames are
 * ignored, and each chain of interesting calls becomes nodes and edges, each
 * node and each edge written at most once.
 */
module CallTree {

  // ---------------------------------------------------------------------
  // str.replace
  // ---------------------------------------------------------------------

  /** Python's `s.replace(pat, rep)`: every occurrence found scanning left to right. */
  function Replace(s: string, pat: string, rep: string): string
    requires pat != []
    decreases |s|
  {
    if |s| < |pat| then s
    else if s[..|pat|] == pat then rep + Replace(s[|pat|..], pat, rep)
    else [s[0]] + Replace(s[1..], pat, rep)
  }

  /** pat occurs in s at index i. */
  predicate OccursAt(s: string, pat: string, i: nat) {
    i + |pat| <= |s| && s[i..i + |pat|] == pat
  }

  /** pat occurs nowhere in s. */
  predicate Free(s: string, pat: string) {
    forall i: nat | i <= |s| :: !OccursAt(s, pat, i)
  }

  /** Replacing a pattern that does not occur changes nothing. */
  lemma {:induction false} ReplaceFree(s: string, pat: string, rep: string)
    requires pat != [] && Free(s, pat)
    ensures Replace(s, pat, rep) == s
    decreases |s|
  {
    if |s| >= |pat| {
      assert !OccursAt(s, pat, 0);
      FreeTail(s, pat);
      ReplaceFree(s[1..], pat, rep);
    }
  }

  lemma FreeTail(s: string, pat: string)
    requires s != [] && Free(s, pat)
    ensures Free(s[1..], pat)
  {
    forall i: nat
      ensures !OccursAt(s[1..], pat, i)
    {
      assert !OccursAt(s, pat, i + 1);
      if i + |pat| <= |s| - 1 {
        assert s[1..][i..i + |pat|] == s[i + 1..i + 1 + |pat|];
      }
    }
  }

  /** A leading occurrence is replaced, and the scan goes on after it. */
  lemma ReplacePrefix(pat: string, rest: string, rep: string)
    requires pat != []
    ensures Replace(pat + rest, pat, rep) == rep + Replace(rest, pat, rep)
  {
    assert (pat + rest)[..|pat|] == pat && (pat + rest)[|pat|..] == rest;
  }

  /**
   * Python's `replace` by occurrences: when the first occurrence of pat
   * starts right after x, the result is x, the replacement, and the rest
   * replaced in turn (occurrences never overlap).
   */
  lemma {:induction false} ReplaceFirst(x: string, pat: string, y: string, rep: string)
    requires pat != [] && forall i: nat | i < |x| :: !OccursAt(x + pat + y, pat, i)
    ensures Replace(x + pat + y, pat, rep) == x + rep + Replace(y, pat, rep)
    decreases |x|
  {
    if x == [] {
      assert x + pat + y == pat + y;
      ReplacePrefix(pat, y, rep);
    } else {
      var s := x + pat + y;
      var t := x[1..] + pat + y;
      assert s[0] == x[0] && s[1..] == t;
      assert !OccursAt(s, pat, 0);
      assert |s| >= |pat| && s[..|pat|] != pat;
      assert Replace(s, pat, rep) == [x[0]] + Replace(t, pat, rep);
      ShiftedFree(x, pat, y);
      ReplaceFirst(x[1..], pat, y, rep);
      assert [x[0]] + (x[1..] + rep + Replace(y, pat, rep)) == x + rep + Replace(y, pat, rep);
    }
  }

  lemma ShiftedFree(x: string, pat: string, y: string)
    requires x != [] && forall i: nat | i < |x| :: !OccursAt(x + pat + y, pat, i)
    ensures forall i: nat | i < |x[1..]| :: !OccursAt(x[1..] + pat + y, pat, i)
  {
    var s := x + pat + y;
    var t := x[1..] + pat + y;
    assert s[1..] == t;
    forall i: nat | i < |x[1..]|
      ensures !OccursAt(t, pat, i)
    {
      assert !OccursAt(s, pat, i + 1);
      if i + |pat| <= |t| {
        var u, v := s[i + 1..i + 1 + |pat|], t[i..i + |pat|];
        forall k | 0 <= k < |pat|
          ensures u[k] == v[k]
        {
          assert u[k] == s[i + 1 + k] && v[k] == t[i + k];
        }
        assert u == v;
      }
    }
  }

  /** A prefix without the pattern's first character adds no occurrence. */
  lemma FreeConcat(a: string, b: string, pat: string)
    requires pat != [] && pat[0] !in a && Free(b, pat)
    ensures Free(a + b, pat)
  {
    forall i: nat
      ensures !OccursAt(a + b, pat, i)
    {
      if i < |a| {
        assert a[i] in a;
        if i + |pat| <= |a + b| {
          assert (a + b)[i..i + |pat|][0] == a[i];
        }
      } else {
        assert !OccursAt(b, pat, i - |a|);
        if i + |pat| <= |a + b| {
          assert (a + b)[i..i + |pat|] == b[i - |a|..i - |a| + |pat|];
        }
      }
    }
  }

  /** A character not in the replacement is gone after replacing it. */
  lemma {:induction false} ReplaceRemoves(s: string, c: char, rep: string)
    requires c !in rep
    ensures c !in Replace(s, [c], rep)
    decreases |s|
  {
    if |s| >= 1 {
      ReplaceRemoves(s[1..], c, rep);
    }
  }

  /** A character in neither the string nor the replacement stays absent. */
  lemma {:induction false} ReplaceKeepsAbsent(s: string, pat: string, rep: string, c: char)
    requires pat != [] && c !in s && c !in rep
    ensures c !in Replace(s, pat, rep)
    decreases |s|
  {
    if |s| >= |pat| {
      assert s[0] in s;
      assert forall d :: d in s[1..] ==> d in s;
      assert forall d :: d in s[|pat|..] ==> d in s;
      ReplaceKeepsAbsent(s[1..], pat, rep, c);
      ReplaceKeepsAbsent(s[|pat|..], pat, rep, c);
    }
  }

  // ---------------------------------------------------------------------
  // decodeFunctionName, encodeLabel, shouldIgnore
  // ---------------------------------------------------------------------

  /** The rewrites of `decodeFunctionName`, as (pattern, replacement), in order. */
  const Rules: seq<(string, string)> := [
    (" >", ">"),
    ("blink::", ""),
    ("EditingAlgorithm<NodeTraversal>", "EditingStrategy"),
    ("EditingAlgorithm<ComposedTreeTraversal>", "EditingInComposedTreeStrategy"),
    ("Algorithm<EditingStrategy>", ""),
    ("Algorithm<EditingInComposedTreeStrategy>", "InComposedTree"),
    ("Template<EditingStrategy>", ""),
    ("Template<EditingInComposedTreeStrategy>", "InComposedTree")
  ]

  predicate NonEmptyPatterns(rules: seq<(string, string)>) {
    forall k :: 0 <= k < |rules| ==> rules[k].0 != []
  }

  /** Each rule's `replace` applied in turn. */
  function ApplyRules(name: string, rules: seq<(string, string)>): string
    requires NonEmptyPatterns(rules)
    decreases |rules|
  {
    if rules == [] then name
    else ApplyRules(Replace(name, rules[0].0, rules[0].1), rules[1..])
  }

  /** `decodeFunctionName`: the rewrites, then the cut of a long name. */
  function DecodeFunctionName(name: string): (r: string)
    ensures |r| <= 100
    ensures var w := ApplyRules(name, Rules);
            if |w| <= 100 then r == w
            else |r| == 62 && r[..39] == w[..39] && r[39..42] == "..." && r[42..] == w[|w| - 20..]
  {
    ShortenKeepsEnds(ApplyRules(name, Rules));
    Shorten(ApplyRules(name, Rules))
  }

  /** A name longer than 100 characters keeps its first 39 and last 20 around "...". */
  function Shorten(n: string): (r: string)
    ensures |r| <= 100
  {
    if |n| > 100 then n[0..39] + "..." + n[|n| - 20..] else n
  }

  /** The cut is exactly the first 39 characters, "..." and the last 20; a short name is kept. */
  lemma ShortenKeepsEnds(n: string)
    ensures |n| > 100 ==>
              (|Shorten(n)| == 62 && Shorten(n)[..39] == n[..39] &&
               Shorten(n)[39..42] == "..." && Shorten(n)[42..] == n[|n| - 20..])
    ensures |n| <= 100 ==> Shorten(n) == n
  {
  }

  /** A name in which no pattern of the rules occurs. */
  ghost predicate PlainFor(s: string, rules: seq<(string, string)>) {
    forall k :: 0 <= k < |rules| ==> Free(s, rules[k].0)
  }

  /** Rules whose patterns do not occur leave the name alone. */
  lemma {:induction false} ApplyRulesPlain(s: string, rules: seq<(string, string)>)
    requires NonEmptyPatterns(rules) && PlainFor(s, rules)
    ensures ApplyRules(s, rules) == s
    decreases |rules|
  {
    if rules != [] {
      ReplaceFree(s, rules[0].0, rules[0].1);
      ApplyRulesPlain(s, rules[1..]);
    }
  }

  /** The shape of the rule list the lemmas below rely on. */
  lemma RulesShape()
    ensures NonEmptyPatterns(Rules) && |Rules| == 8
    ensures Rules[0].0 == " >" && Rules[1] == ("blink::", "")
    ensures forall k :: 2 <= k < |Rules| ==> |Rules[k].0| >= 25
  {
  }

  /** Plain for a list of rules means plain for every later part of it. */
  lemma PlainForSuffix(s: string, rules: seq<(string, string)>, k: nat)
    requires PlainFor(s, rules) && k <= |rules|
    ensures PlainFor(s, rules[k..])
  {
    forall j | 0 <= j < |rules[k..]|
      ensures Free(s, rules[k..][j].0)
    {
      assert rules[k..][j] == rules[k + j];
    }
  }

  /**
   * When the second rule deletes a prefix that the first rule's pattern
   * cannot start in, both rules together remove just that prefix from a
   * plain name, and the later rules leave the rest alone.
   */
  lemma DropsLeading(ns: string, rest: string, rules: seq<(string, string)>)
    requires NonEmptyPatterns(rules) && |rules| >= 2 && rules[1] == (ns, "")
    requires rules[0].0[0] !in ns && PlainFor(rest, rules)
    ensures ApplyRules(ns + rest, rules) == rest
  {
    var p0 := rules[0].0;
    assert Free(rest, p0) && Free(rest, ns);
    FreeConcat(ns, rest, p0);
    ReplaceFree(ns + rest, p0, rules[0].1);
    assert rules[1..][0] == rules[1] && rules[1..][1..] == rules[2..];
    if ns == [] {
      ReplaceFree(rest, ns, "");
    } else {
      ReplacePrefix(ns, rest, "");
      assert "" + Replace(rest, ns, "") == Replace(rest, ns, "");
      ReplaceFree(rest, ns, "");
    }
    PlainForSuffix(rest, rules, 2);
    ApplyRulesPlain(rest, rules[2..]);
  }

  /** `decodeFunctionName` drops the `blink::` qualifier of an otherwise plain name. */
  lemma DecodeDropsNamespace(rest: string)
    requires PlainFor(rest, Rules) && |rest| <= 100
    ensures DecodeFunctionName("blink::" + rest) == rest
  {
    RulesShape();
    DropsLeading("blink::", rest, Rules);
  }

  /** `encodeLabel`: '<' and '>' become "&lt;" and "&gt;". */
  function EncodeLabel(text: string): (r: string)
    ensures '<' !in r && '>' !in r
  {
    var r1 := Replace(text, "<", "&lt;");
    ReplaceRemoves(text, '<', "&lt;");
    ReplaceKeepsAbsent(r1, ">", "&gt;", '<');
    ReplaceRemoves(r1, '>', "&gt;");
    Replace(r1, ">", "&gt;")
  }

  /** The text one character becomes in a label. */
  function Escape(c: char): string {
    if c == '<' then "&lt;" else if c == '>' then "&gt;" else [c]
  }

  /** Every character escaped in place. */
  function Escaped(s: string): string {
    if s == [] then [] else Escape(s[0]) + Escaped(s[1..])
  }

  /** Every c in s becomes rep, and every other character stays. */
  function MapChar(s: string, c: char, rep: string): string {
    if s == [] then [] else (if s[0] == c then rep else [s[0]]) + MapChar(s[1..], c, rep)
  }

  /** Replacing a one-character pattern maps that character. */
  lemma {:induction false} ReplaceChar(s: string, c: char, rep: string)
    ensures Replace(s, [c], rep) == MapChar(s, c, rep)
    decreases |s|
  {
    if s != [] {
      ReplaceChar(s[1..], c, rep);
      assert s[..1] == [s[0]];
    }
  }

  lemma {:induction false} MapCharConcat(a: string, b: string, c: char, rep: string)
    ensures MapChar(a + b, c, rep) == MapChar(a, c, rep) + MapChar(b, c, rep)
    decreases |a|
  {
    if a != [] {
      assert (a + b)[0] == a[0] && (a + b)[1..] == a[1..] + b;
      MapCharConcat(a[1..], b, c, rep);
      var h := if a[0] == c then rep else [a[0]];
      calc {
        MapChar(a + b, c, rep);
        h + MapChar(a[1..] + b, c, rep);
        h + (MapChar(a[1..], c, rep) + MapChar(b, c, rep));
        (h + MapChar(a[1..], c, rep)) + MapChar(b, c, rep);
      }
    } else {
      assert a + b == b;
    }
  }

  /** Escaping '<' first and '>' second is escaping each character once. */
  lemma {:induction false} MapTwiceEscaped(s: string)
    ensures MapChar(MapChar(s, '<', "&lt;"), '>', "&gt;") == Escaped(s)
    decreases |s|
  {
    if s != [] {
      var head := if s[0] == '<' then "&lt;" else [s[0]];
      assert MapChar(s, '<', "&lt;") == head + MapChar(s[1..], '<', "&lt;");
      MapCharConcat(head, MapChar(s[1..], '<', "&lt;"), '>', "&gt;");
      assert MapChar(head, '>', "&gt;") == Escape(s[0]) by {
        if s[0] == '<' {
          assert MapChar("&lt;", '>', "&gt;") == "&lt;";
        } else {
          assert MapChar([s[0]], '>', "&gt;") == (if s[0] == '>' then "&gt;" else [s[0]]) + MapChar([], '>', "&gt;");
        }
      }
      MapTwiceEscaped(s[1..]);
    }
  }

  /** `encodeLabel` escapes each character on its own. */
  lemma EncodeLabelEscapes(text: string)
    ensures EncodeLabel(text) == Escaped(text)
  {
    ReplaceChar(text, '<', "&lt;");
    ReplaceChar(MapChar(text, '<', "&lt;"), '>', "&gt;");
    MapTwiceEscaped(text);
  }

  lemma {:induction false} EscapedConcat(a: string, b: string)
    ensures Escaped(a + b) == Escaped(a) + Escaped(b)
    decreases |a|
  {
    if a != [] {
      assert (a + b)[0] == a[0] && (a + b)[1..] == a[1..] + b;
      EscapedConcat(a[1..], b);
      calc {
        Escaped(a + b);
        Escape(a[0]) + Escaped(a[1..] + b);
        Escape(a[0]) + (Escaped(a[1..]) + Escaped(b));
        (Escape(a[0]) + Escaped(a[1..])) + Escaped(b);
      }
    } else {
      assert a + b == b;
    }
  }

  /** Encoding a label piece by piece gives the encoding of the whole. */
  lemma EncodeLabelConcat(a: string, b: string)
    ensures EncodeLabel(a + b) == EncodeLabel(a) + EncodeLabel(b)
  {
    EncodeLabelEscapes(a + b);
    EncodeLabelEscapes(a);
    EncodeLabelEscapes(b);
    EscapedConcat(a, b);
  }

  /** How Graphviz reads the two entities back. */
  function Unescape(t: string): string
    decreases |t|
  {
    if t == [] then []
    else if |t| >= 4 && t[..4] == "&lt;" then "<" + Unescape(t[4..])
    else if |t| >= 4 && t[..4] == "&gt;" then ">" + Unescape(t[4..])
    else [t[0]] + Unescape(t[1..])
  }

  /**
   * A name without '&' reads back as itself; '&' itself is not escaped, so
   * a name holding "&lt;" would read back as "<".
   */
  lemma {:induction false} EncodeLabelRoundTrip(text: string)
    requires '&' !in text
    ensures Unescape(EncodeLabel(text)) == text
  {
    EncodeLabelEscapes(text);
    UnescapeEscaped(text);
  }

  lemma {:induction false} UnescapeEscaped(s: string)
    requires '&' !in s
    ensures Unescape(Escaped(s)) == s
    decreases |s|
  {
    if s != [] {
      var t, e := Escaped(s), Escaped(s[1..]);
      assert t == Escape(s[0]) + e;
      assert s[0] in s;
      assert forall d | d in s[1..] :: d in s;
      UnescapeEscaped(s[1..]);
      if s[0] == '<' {
        assert t[..4] == "&lt;" && t[4..] == e;
        assert Unescape(t) == "<" + Unescape(e);
      } else if s[0] == '>' {
        assert t[..4] == "&gt;" && t[4..] == e;
        assert t[..4] != "&lt;" by { assert t[..4][1] == 'g'; }
        assert Unescape(t) == ">" + Unescape(e);
      } else {
        assert t == [s[0]] + e && t[1..] == e;
        assert |t| >= 4 ==> t[..4][0] == s[0] != '&';
        assert Unescape(t) == [s[0]] + Unescape(e);
      }
      assert [s[0]] + s[1..] == s;
    }
  }

  /** A label without angle brackets is its own encoding. */
  lemma EncodeLabelPlain(text: string)
    requires '<' !in text && '>' !in text
    ensures EncodeLabel(text) == text
  {
    FreeOfFirst(text, "<");
    FreeOfFirst(text, ">");
    ReplaceFree(text, "<", "&lt;");
    ReplaceFree(text, ">", "&gt;");
  }

  /** The frames `shouldIgnore` looks up after decoding. */
  const Ignores: set<string> := {
    "_RTC_CheckEsp", "Node::getFlag", "Node::hasRareData", "Node::treeScope",
    "TreeScope::document", "WTF::RefPtr<Node>::RefPtr<Node>"
  }

  /** The prefixes of smart-pointer frames. */
  const IgnoredPrefixes: seq<string> := ["DataRef<", "WTF::PassRefPtr<", "WTF::RawPtr<", "WTF::RefPtr<"]

  /** `shouldIgnore`: destructors, smart-pointer frames and the listed frames. */
  function ShouldIgnore(name: string): bool {
    if '~' in name then true
    else if IgnoredPrefixes[0] <= name then true
    else if IgnoredPrefixes[1] <= name then true
    else if IgnoredPrefixes[2] <= name then true
    else if IgnoredPrefixes[3] <= name then true
    else DecodeFunctionName(name) in Ignores
  }

  /** A pattern whose first character is missing does not occur. */
  lemma FreeOfFirst(s: string, pat: string)
    requires pat != [] && pat[0] !in s
    ensures Free(s, pat)
  {
    forall i: nat | i + |pat| <= |s|
      ensures !OccursAt(s, pat, i)
    {
      assert s[i] in s;
      assert s[i..i + |pat|][0] == s[i];
    }
  }

  /**
   * A name that lacks the first character of the first two patterns, and is
   * shorter than every other pattern, is plain.
   */
  lemma PlainShort(s: string, rules: seq<(string, string)>)
    requires NonEmptyPatterns(rules) && |rules| >= 2
    requires rules[0].0[0] !in s && rules[1].0[0] !in s
    requires forall k :: 2 <= k < |rules| ==> |rules[k].0| > |s|
    ensures PlainFor(s, rules)
  {
    FreeOfFirst(s, rules[0].0);
    FreeOfFirst(s, rules[1].0);
  }

  /** A short name without a space or a 'b' decodes to itself. */
  lemma DecodeKeepsShort(name: string)
    requires ' ' !in name && 'b' !in name && |name| < 25
    ensures DecodeFunctionName(name) == name
  {
    RulesShape();
    PlainShort(name, Rules);
    ApplyRulesPlain(name, Rules);
  }

  /** Every frame of the list is ignored: each decodes to itself or has a listed prefix. */
  lemma IgnoresIgnored(name: string)
    requires name in Ignores
    ensures ShouldIgnore(name)
  {
    if name == "WTF::RefPtr<Node>::RefPtr<Node>" {
      assert IgnoredPrefixes[3] <= name;
    } else {
      ListedFrameKept(name);
    }
  }

  /**
   * A listed frame is ignored also under the `blink::` qualifier, which
   * decoding removes before the lookup.
   */
  lemma NamespacedIgnored(name: string)
    requires name in Ignores - {"WTF::RefPtr<Node>::RefPtr<Node>"}
    ensures ShouldIgnore("blink::" + name)
  {
    RulesShape();
    PlainShort(name, Rules);
    DecodeDropsNamespace(name);
  }

  /** The other listed frames are short, without a space or a 'b'. */
  lemma ListedFrameKept(name: string)
    requires name in Ignores - {"WTF::RefPtr<Node>::RefPtr<Node>"}
    ensures DecodeFunctionName(name) == name
  {
    DecodeKeepsShort(name);
  }

  // ---------------------------------------------------------------------
  // Entries and what is written
  // ---------------------------------------------------------------------

  /** One row of the call tree, with the identifier `makeEntry` gave it. */
  datatype Entry = Entry(id: int, level: int, name: string, inclusive: int, exclusive: int,
                         inclusivePercent: real, exclusivePercent: real, moduleName: string)

  const Modules: set<string> := {"blink_platform.dll", "webcore_shared.dll"}

  predicate IsInterestedModule(e: Entry) {
    e.moduleName in Modules
  }

  /** The fill colour `emitEntry` picks. */
  datatype Fill = White | Red | Yellow | Blue | DefaultFill

  /** How hot a fill is: none, blue, yellow, red. */
  function Heat(f: Fill): nat {
    match f
    case White => 0
    case DefaultFill => 0
    case Blue => 1
    case Yellow => 2
    case Red => 3
  }

  /** The band an interesting entry falls in: above 5, 4 and 1 percent. */
  function FillOf(e: Entry): (f: Fill)
    ensures f == White <==> !IsInterestedModule(e)
    ensures f == Red <==> IsInterestedModule(e) && e.inclusivePercent > 5.0
    ensures f == Yellow <==> IsInterestedModule(e) && 4.0 < e.inclusivePercent <= 5.0
    ensures f == Blue <==> IsInterestedModule(e) && 1.0 < e.inclusivePercent <= 4.0
    ensures f == DefaultFill <==> IsInterestedModule(e) && e.inclusivePercent <= 1.0
  {
    if !IsInterestedModule(e) then White
    else if e.inclusivePercent > 5.0 then Red
    else if e.inclusivePercent > 4.0 then Yellow
    else if e.inclusivePercent > 1.0 then Blue
    else DefaultFill
  }

  /** Among interesting entries, a larger inclusive share never gets a cooler fill. */
  lemma FillMonotone(e1: Entry, e2: Entry)
    requires IsInterestedModule(e1) && IsInterestedModule(e2) && e1.inclusivePercent <= e2.inclusivePercent
    ensures Heat(FillOf(e1)) <= Heat(FillOf(e2))
  {
  }

  /**
   * What is written: a trace comment, a node, or an edge. A node line
   * carries its entry; its label shows `Label` of that entry and its numbers.
   */
  datatype Line =
    | Trace(fromLevel: int, toLevel: int)
    | NodeLine(id: int, entry: Entry, fill: Fill, bold: bool)
    | EdgeLine(source: int, target: int)

  /** The name part of `labelOfEntry`: the decoded name, escaped. */
  function Label(e: Entry): (r: string)
    ensures '<' !in r && '>' !in r
  {
    EncodeLabel(DecodeFunctionName(e.name))
  }

  /** The node line of an entry, with the colours `emitEntry` picks. */
  function NodeOf(e: Entry): Line {
    NodeLine(e.id, e, FillOf(e), e.inclusive > 1)
  }

  /** The output and the sets of what has been emitted. */
  datatype EmitState = EmitState(output: seq<Line>, emittedEntries: set<int>, emittedEdges: set<(int, int)>)

  /** Every node written is recorded as emitted. */
  predicate NodesRecorded(output: seq<Line>, emitted: set<int>) {
    forall i :: 0 <= i < |output| && output[i].NodeLine? ==> output[i].id in emitted
  }

  /** Every edge written is recorded as emitted. */
  predicate EdgesRecorded(output: seq<Line>, emitted: set<(int, int)>) {
    forall i :: 0 <= i < |output| && output[i].EdgeLine? ==> (output[i].source, output[i].target) in emitted
  }

  /** No node id is written twice. */
  predicate NodesOnce(output: seq<Line>) {
    forall i, j :: 0 <= i < j < |output| && output[i].NodeLine? && output[j].NodeLine? ==>
      output[i].id != output[j].id
  }

  /** No edge is written twice. */
  predicate EdgesOnce(output: seq<Line>) {
    forall i, j :: 0 <= i < j < |output| && output[i].EdgeLine? && output[j].EdgeLine? ==>
      (output[i].source, output[i].target) != (output[j].source, output[j].target)
  }

  /** Every node and every edge appears at most once, and is recorded as emitted. */
  predicate ValidState(st: EmitState) {
    NodesRecorded(st.output, st.emittedEntries) && EdgesRecorded(st.output, st.emittedEdges) &&
    NodesOnce(st.output) && EdgesOnce(st.output)
  }

  /** Appending a node whose id was not emitted keeps the nodes unique. */
  lemma AppendNode(output: seq<Line>, emitted: set<int>, line: Line)
    requires NodesRecorded(output, emitted) && NodesOnce(output)
    requires line.NodeLine? && line.id !in emitted
    ensures NodesRecorded(output + [line], emitted + {line.id}) && NodesOnce(output + [line])
  {
    var out := output + [line];
    forall i, j | 0 <= i < j < |out| && out[i].NodeLine? && out[j].NodeLine?
      ensures out[i].id != out[j].id
    {
      if j == |output| {
        assert out[i] == output[i];
      }
    }
  }

  /** Appending an edge that was not emitted keeps the edges unique. */
  lemma AppendEdge(output: seq<Line>, emitted: set<(int, int)>, line: Line)
    requires EdgesRecorded(output, emitted) && EdgesOnce(output)
    requires line.EdgeLine? && (line.source, line.target) !in emitted
    ensures EdgesRecorded(output + [line], emitted + {(line.source, line.target)}) && EdgesOnce(output + [line])
  {
    var out := output + [line];
    forall i, j | 0 <= i < j < |out| && out[i].EdgeLine? && out[j].EdgeLine?
      ensures (out[i].source, out[i].target) != (out[j].source, out[j].target)
    {
      if j == |output| {
        assert out[i] == output[i];
      }
    }
  }

  /** Appending a line that is neither keeps both. */
  lemma AppendOther(output: seq<Line>, nodes: set<int>, edges: set<(int, int)>, line: Line)
    requires NodesRecorded(output, nodes) && NodesOnce(output)
    requires EdgesRecorded(output, edges) && EdgesOnce(output)
    requires !line.NodeLine? && !line.EdgeLine?
    ensures NodesRecorded(output + [line], nodes) && NodesOnce(output + [line])
    ensures EdgesRecorded(output + [line], edges) && EdgesOnce(output + [line])
  {
  }

  /** Appending a node keeps the edge facts. */
  lemma AppendKeepsEdges(output: seq<Line>, edges: set<(int, int)>, line: Line)
    requires EdgesRecorded(output, edges) && EdgesOnce(output) && !line.EdgeLine?
    ensures EdgesRecorded(output + [line], edges) && EdgesOnce(output + [line])
  {
  }

  /** Appending an edge keeps the node facts. */
  lemma AppendKeepsNodes(output: seq<Line>, nodes: set<int>, line: Line)
    requires NodesRecorded(output, nodes) && NodesOnce(output) && !line.NodeLine?
    ensures NodesRecorded(output + [line], nodes) && NodesOnce(output + [line])
  {
  }

  /** `emitEntry`: the node, unless its id was emitted before. */
  function EmitEntry(st: EmitState, e: Entry): EmitState {
    if e.id in st.emittedEntries then st
    else EmitState(st.output + [NodeOf(e)], st.emittedEntries + {e.id}, st.emittedEdges)
  }

  /** The edge of `processChain`, unless it was emitted before. */
  function EmitEdge(st: EmitState, source: int, target: int): EmitState {
    if (source, target) in st.emittedEdges then st
    else EmitState(st.output + [EdgeLine(source, target)], st.emittedEntries, st.emittedEdges + {(source, target)})
  }

  /** `emitEntry` keeps every node and edge unique, and records the id. */
  lemma EmitEntryValid(st: EmitState, e: Entry)
    requires ValidState(st)
    ensures ValidState(EmitEntry(st, e))
    ensures EmitEntry(st, e).emittedEntries == st.emittedEntries + {e.id}
    ensures EmitEntry(st, e).emittedEdges == st.emittedEdges
    ensures st.output <= EmitEntry(st, e).output
  {
    if e.id !in st.emittedEntries {
      AppendNode(st.output, st.emittedEntries, NodeOf(e));
      AppendKeepsEdges(st.output, st.emittedEdges, NodeOf(e));
    }
  }

  /** The edge step keeps every node and edge unique, and records the edge. */
  lemma EmitEdgeValid(st: EmitState, source: int, target: int)
    requires ValidState(st)
    ensures ValidState(EmitEdge(st, source, target))
    ensures EmitEdge(st, source, target).emittedEdges == st.emittedEdges + {(source, target)}
    ensures EmitEdge(st, source, target).emittedEntries == st.emittedEntries
    ensures st.output <= EmitEdge(st, source, target).output
  {
    if (source, target) !in st.emittedEdges {
      AppendEdge(st.output, st.emittedEdges, EdgeLine(source, target));
      AppendKeepsNodes(st.output, st.emittedEntries, EdgeLine(source, target));
    }
  }

  // ---------------------------------------------------------------------
  // processChain
  // ---------------------------------------------------------------------

  /** The levels from lo to hi are all present. */
  predicate HasLevels(entries: map<int, Entry>, lo: int, hi: int) {
    forall l :: lo <= l <= hi ==> l in entries
  }

  /**
   * The `while` loop of `processChain`: from `toLevel` down, the first level
   * above `fromLevel` whose entry is interesting enough, else `toLevel` when
   * it is not above `fromLevel`, else `fromLevel`.
   */
  function Top(entries: map<int, Entry>, fromLevel: int, toLevel: int, threshold: int): (top: int)
    requires HasLevels(entries, fromLevel + 1, toLevel)
    ensures toLevel <= fromLevel ==> top == toLevel
    ensures toLevel > fromLevel ==> fromLevel <= top <= toLevel
    ensures top > fromLevel ==> entries[top].inclusive > threshold && IsInterestedModule(entries[top])
    decreases toLevel - fromLevel
  {
    if toLevel <= fromLevel then toLevel
    else if entries[toLevel].inclusive > threshold && IsInterestedModule(entries[toLevel]) then toLevel
    else Top(entries, fromLevel, toLevel - 1, threshold)
  }

  /** No level between the top and `toLevel` was interesting enough. */
  lemma {:induction false} TopIsHighest(entries: map<int, Entry>, fromLevel: int, toLevel: int, threshold: int, l: int)
    requires HasLevels(entries, fromLevel + 1, toLevel)
    requires Top(entries, fromLevel, toLevel, threshold) < l <= toLevel
    ensures !(entries[l].inclusive > threshold && IsInterestedModule(entries[l]))
    decreases toLevel - fromLevel
  {
    if l < toLevel {
      TopIsHighest(entries, fromLevel, toLevel - 1, threshold, l);
    }
  }

  /**
   * The levels `processChain` reads are present: those scanned by the
   * `while` loop, and, unless it returns early, the level below `fromLevel`
   * and the levels of the chain.
   */
  predicate ChainReadable(entries: map<int, Entry>, fromLevel: int, toLevel: int, threshold: int) {
    HasLevels(entries, fromLevel + 1, toLevel) &&
    (Top(entries, fromLevel, toLevel, threshold) != fromLevel ==>
       fromLevel - 1 in entries && HasLevels(entries, fromLevel, Top(entries, fromLevel, toLevel, threshold)))
  }

  /**
   * The `for` loop of `processChain` from `index`: stop at an ignored frame,
   * skip a frame of the same uninteresting module, else emit the entry and
   * the edge from the previous one.
   */
  function Chain(st: EmitState, entries: map<int, Entry>, ignored: string -> bool, fromEntry: Entry, index: int, top: int): EmitState
    requires HasLevels(entries, index, top)
    decreases top - index + 1
  {
    if index > top then st
    else
      var toEntry := entries[index];
      if ignored(toEntry.name) then st
      else if fromEntry.moduleName == toEntry.moduleName && !IsInterestedModule(toEntry) then
        Chain(st, entries, ignored, fromEntry, index + 1, top)
      else
        Chain(Step(st, fromEntry, toEntry), entries, ignored, toEntry, index + 1, top)
  }

  /** One emitting step of the chain: the entry, then the edge to it. */
  function Step(st: EmitState, fromEntry: Entry, toEntry: Entry): EmitState {
    EmitEdge(EmitEntry(st, toEntry), fromEntry.id, toEntry.id)
  }

  /** `processChain` on the emitted state, with `shouldIgnore` as `ignored`. */
  function ProcessChainSpec(st: EmitState, entries: map<int, Entry>, ignored: string -> bool,
                            fromLevel: int, toLevel: int, threshold: int): EmitState
    requires ChainReadable(entries, fromLevel, toLevel, threshold)
  {
    var st0 := EmitState(st.output + [Trace(fromLevel, toLevel)], st.emittedEntries, st.emittedEdges);
    var top := Top(entries, fromLevel, toLevel, threshold);
    if fromLevel == top then st0
    else
      var fromEntry := entries[fromLevel - 1];
      Chain(EmitEntry(st0, fromEntry), entries, ignored, fromEntry, fromLevel, top)
  }

  /** The emitting step keeps every node and edge unique and only adds to the output. */
  lemma StepValid(st: EmitState, fromEntry: Entry, toEntry: Entry)
    requires ValidState(st)
    ensures ValidState(Step(st, fromEntry, toEntry))
    ensures st.output <= Step(st, fromEntry, toEntry).output
    ensures Step(st, fromEntry, toEntry).emittedEntries == st.emittedEntries + {toEntry.id}
    ensures Step(st, fromEntry, toEntry).emittedEdges == st.emittedEdges + {(fromEntry.id, toEntry.id)}
  {
    EmitEntryValid(st, toEntry);
    EmitEdgeValid(EmitEntry(st, toEntry), fromEntry.id, toEntry.id);
  }

  /** The chain loop keeps every node and edge unique and only adds to the output. */
  lemma {:induction false} ChainValid(st: EmitState, entries: map<int, Entry>, ignored: string -> bool,
                                      fromEntry: Entry, index: int, top: int)
    requires HasLevels(entries, index, top) && ValidState(st)
    ensures ValidState(Chain(st, entries, ignored, fromEntry, index, top))
    ensures st.output <= Chain(st, entries, ignored, fromEntry, index, top).output
    decreases top - index + 1
  {
    if index <= top {
      var toEntry := entries[index];
      if !ignored(toEntry.name) {
        if fromEntry.moduleName == toEntry.moduleName && !IsInterestedModule(toEntry) {
          ChainValid(st, entries, ignored, fromEntry, index + 1, top);
        } else {
          StepValid(st, fromEntry, toEntry);
          ChainValid(Step(st, fromEntry, toEntry), entries, ignored, toEntry, index + 1, top);
        }
      }
    }
  }

  /** `processChain` writes each node and each edge at most once. */
  lemma ProcessChainValid(st: EmitState, entries: map<int, Entry>, ignored: string -> bool,
                          fromLevel: int, toLevel: int, threshold: int)
    requires ChainReadable(entries, fromLevel, toLevel, threshold) && ValidState(st)
    ensures ValidState(ProcessChainSpec(st, entries, ignored, fromLevel, toLevel, threshold))
    ensures st.output + [Trace(fromLevel, toLevel)] <= ProcessChainSpec(st, entries, ignored, fromLevel, toLevel, threshold).output
  {
    var st0 := EmitState(st.output + [Trace(fromLevel, toLevel)], st.emittedEntries, st.emittedEdges);
    AppendOther(st.output, st.emittedEntries, st.emittedEdges, Trace(fromLevel, toLevel));
    var top := Top(entries, fromLevel, toLevel, threshold);
    if fromLevel != top {
      var fromEntry := entries[fromLevel - 1];
      EmitEntryValid(st0, fromEntry);
      ChainValid(EmitEntry(st0, fromEntry), entries, ignored, fromEntry, fromLevel, top);
    }
  }

  // ---------------------------------------------------------------------
  // The module's globals
  // ---------------------------------------------------------------------

  /** The root entry `last_entry` starts as. */
  const Root: Entry := Entry(0, -1, "root", 1, 1, 100.0, 100.0, "root")

  /** The converter's global state: `entries`, the emitted sets and the output. */
  class Converter {
    var entries: map<int, Entry>
    var output: seq<Line>
    var emittedEntries: set<int>
    var emittedEdges: set<(int, int)>

    function State(): EmitState
      reads this
    {
      EmitState(output, emittedEntries, emittedEdges)
    }

    ghost predicate Valid()
      reads this
    {
      ValidState(State())
    }

    /** The globals at start-up: the root entry at level -1, and id 0 counted as emitted. */
    constructor ()
      ensures entries == map[-1 := Root] && output == []
      ensures emittedEntries == {0} && emittedEdges == {}
      ensures Valid()
    {
      entries := map[-1 := Root];
      output := [];
      emittedEntries := {0};
      emittedEdges := {};
    }

    /** `emitEntry`. */
    method EmitEntryLine(e: Entry)
      requires Valid()
      modifies this
      ensures Valid() && entries == old(entries)
      ensures State() == EmitEntry(old(State()), e)
    {
      EmitEntryValid(State(), e);
      if e.id in emittedEntries {
        return;
      }
      emittedEntries := emittedEntries + {e.id};
      output := output + [NodeOf(e)];
    }

    /** `processChain`. */
    method ProcessChain(fromLevel: int, toLevel: int, threshold: int)
      requires Valid() && ChainReadable(entries, fromLevel, toLevel, threshold)
      modifies this
      ensures Valid() && entries == old(entries)
      ensures State() == ProcessChainSpec(old(State()), entries, ShouldIgnore, fromLevel, toLevel, threshold)
    {
      ProcessChainWith(ShouldIgnore, fromLevel, toLevel, threshold);
    }

    /** `processChain`, with `shouldIgnore` as `ignored`. */
    method ProcessChainWith(ignored: string -> bool, fromLevel: int, toLevel: int, threshold: int)
      requires Valid() && ChainReadable(entries, fromLevel, toLevel, threshold)
      modifies this
      ensures Valid() && entries == old(entries)
      ensures State() == ProcessChainSpec(old(State()), entries, ignored, fromLevel, toLevel, threshold)
    {
      ProcessChainValid(State(), entries, ignored, fromLevel, toLevel, threshold);
      AppendOther(output, emittedEntries, emittedEdges, Trace(fromLevel, toLevel));
      output := output + [Trace(fromLevel, toLevel)];
      var top := FindTop(entries, fromLevel, toLevel, threshold);
      if fromLevel == top {
        return;
      }
      var fromEntry := entries[fromLevel - 1];
      EmitEntryLine(fromEntry);
      EmitChain(ignored, fromEntry, fromLevel, top);
    }

    /** The `for` loop of `processChain`, with `shouldIgnore` as `ignored`. */
    method EmitChain(ignored: string -> bool, first: Entry, fromLevel: int, top: int)
      requires Valid() && HasLevels(entries, fromLevel, top)
      modifies this
      ensures Valid() && entries == old(entries)
      ensures State() == Chain(old(State()), entries, ignored, first, fromLevel, top)
    {
      var fromEntry := first;
      var index := fromLevel;
      while index <= top
        invariant entries == old(entries)
        invariant HasLevels(entries, fromLevel, top) && HasLevels(entries, index, top)
        invariant Chain(State(), entries, ignored, fromEntry, index, top) ==
                  Chain(old(State()), entries, ignored, first, fromLevel, top)
        invariant entries == old(entries) && Valid()
        decreases top - index + 1
      {
        var toEntry := entries[index];
        if ignored(toEntry.name) {
          return;
        }
        if fromEntry.moduleName == toEntry.moduleName && !IsInterestedModule(toEntry) {
          index := index + 1;
          continue;
        }
        StepValid(State(), fromEntry, toEntry);
        EmitEntryLine(toEntry);
        if (fromEntry.id, toEntry.id) !in emittedEdges {
          output := output + [EdgeLine(fromEntry.id, toEntry.id)];
          emittedEdges := emittedEdges + {(fromEntry.id, toEntry.id)};
        }
        fromEntry := toEntry;
        index := index + 1;
      }
    }
  }

  /** The `while` loop of `processChain`. */
  method FindTop(entries: map<int, Entry>, fromLevel: int, toLevel: int, threshold: int) returns (top: int)
    requires HasLevels(entries, fromLevel + 1, toLevel)
    ensures top == Top(entries, fromLevel, toLevel, threshold)
  {
    top := toLevel;
    while top > fromLevel
      invariant Top(entries, fromLevel, top, threshold) == Top(entries, fromLevel, toLevel, threshold)
      invariant toLevel > fromLevel ==> fromLevel <= top <= toLevel
      invariant toLevel <= fromLevel ==> top == toLevel
      decreases top - fromLevel
    {
      var entry := entries[top];
      if entry.inclusive > threshold && IsInterestedModule(entry) {
        break;
      }
      top := top - 1;
    }
  }
}
