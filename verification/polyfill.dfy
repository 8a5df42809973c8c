/**
 * The polyfills of src/editing/polyfill.js: `String.prototype.startsWith`
 * through `indexOf`, and a string-only `Set` whose members are the keys of
 * a plain object.
 */
module Polyfill {

  // ---------------------------------------------------------------------
  // String.prototype.startsWith
  // ---------------------------------------------------------------------

  /** The first index at or after `from` where text occurs in s, or -1. */
  function IndexFrom(s: string, text: string, from: nat): (k: int)
    requires from <= |s|
    ensures k == -1 || (from <= k && k + |text| <= |s| && s[k..k + |text|] == text)
    decreases |s| - from
  {
    if from + |text| > |s| then -1
    else if s[from..from + |text|] == text then from
    else if from == |s| then -1
    else IndexFrom(s, text, from + 1)
  }

  /** `indexOf` finds the first occurrence: text occurs nowhere before it. */
  lemma {:induction false} IndexFromFirst(s: string, text: string, from: nat, i: nat)
    requires from <= i <= |s| - |text| && from <= |s|
    requires IndexFrom(s, text, from) == -1 || i < IndexFrom(s, text, from)
    ensures s[i..i + |text|] != text
    decreases i - from
  {
    if i > from {
      IndexFromFirst(s, text, from + 1, i);
    }
  }

  /** `String.prototype.indexOf(text)`. */
  function IndexOf(s: string, text: string): int {
    IndexFrom(s, text, 0)
  }

  /** `startsWith(text)` as `!this.indexOf(text)`: true exactly when the index is 0. */
  function StartsWith(s: string, text: string): (r: bool)
    ensures r <==> text <= s
  {
    IndexOf(s, text) == 0
  }

  /** Every string starts with the empty string and with itself. */
  lemma StartsWithSelf(s: string)
    ensures StartsWith(s, "") && StartsWith(s, s)
  {
    assert s[0..0] == "" && s[0..|s|] == s;
  }

  // ---------------------------------------------------------------------
  // Set
  // ---------------------------------------------------------------------

  /** The names every plain object inherits from `Object.prototype`. */
  const InheritedNames: set<string> := {
    "constructor", "hasOwnProperty", "isPrototypeOf", "propertyIsEnumerable",
    "toLocaleString", "toString", "valueOf", "__defineGetter__",
    "__defineSetter__", "__lookupGetter__", "__lookupSetter__", "__proto__"
  }

  /** The argument of the constructor: an array, or any other value. */
  datatype Iterable = Array(items: seq<string>) | Other

  /** The `Set` polyfill: `members` are the own keys of `members_`. */
  class StringSet {
    var members: set<string>

    /** `new Set(iterable)`: the array's members, or nothing for a non-array. */
    constructor (iterable: Iterable)
      ensures members == (if iterable.Array? then set x | x in iterable.items else {})
    {
      var keys: set<string> := {};
      if iterable.Array? {
        var items := iterable.items;
        for k := 0 to |items|
          invariant keys == set x | x in items[..k]
        {
          assert items[..k + 1] == items[..k] + [items[k]];
          keys := keys + {items[k]};
        }
        assert items[..|items|] == items;
      }
      members := keys;
    }

    /** `add`: `members_[newMember] = true`. */
    method Add(newMember: string)
      modifies this
      ensures members == old(members) + {newMember}
      ensures Has(newMember) && HasOwn(newMember)
    {
      members := members + {newMember};
    }

    /**
     * `has`, as written: `Boolean(members_[member])` also finds the
     * properties every object inherits.
     */
    function Has(member: string): (r: bool)
      reads this
    {
      member in members || member in InheritedNames
    }

    /** `has`, as intended: only the own keys. */
    function HasOwn(member: string): (r: bool)
      reads this
    {
      member in members
    }

    /** `size`: the number of own keys. */
    function Size(): (n: nat)
      reads this
    {
      |members|
    }
  }

  /** A fresh set without members still "has" every inherited name. */
  lemma EmptySetHasInherited(s: StringSet)
    requires s.members == {}
    ensures s.Has("toString") && s.Has("constructor") && s.Size() == 0
  {
  }

  /** The intended `has` holds exactly for what was added, and `size` counts it. */
  lemma HasOwnIsMembership(s: StringSet, items: seq<string>, x: string)
    requires s.members == set y | y in items
    ensures s.HasOwn(x) <==> x in items
    ensures s.Size() <= |items|
  {
    DistinctAtMost(items);
  }

  lemma {:induction false} DistinctAtMost(items: seq<string>)
    ensures |set y | y in items| <= |items|
  {
    if items != [] {
      var rest := items[1..];
      DistinctAtMost(rest);
      assert (set y | y in items) == (set y | y in rest) + {items[0]};
    }
  }
}
