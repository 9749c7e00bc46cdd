/**
 The string primitives the schema linter relies on: ASCII lower-casing
 (`strings.ToLower`), case-insensitive equality (`strings.EqualFold`),
 suffix tests (`strings.HasSuffix`) and the byte-wise lexicographic order
 that `sort.Strings` sorts by.
 */
module Strings {

  /** Lower-cases one ASCII letter; every other character is unchanged. */
  function LowerChar(c: char): (r: char)
    ensures 'A' <= c <= 'Z' ==> 'a' <= r <= 'z' && r as int - c as int == 32
    ensures !('A' <= c <= 'Z') ==> r == c
    ensures !('A' <= r <= 'Z')
  {
    if 'A' <= c <= 'Z' then (c as int + 32) as char else c
  }

  /** A string holds no upper-case ASCII letter. */
  predicate IsLower(s: string) {
    forall i :: 0 <= i < |s| ==> !('A' <= s[i] <= 'Z')
  }

  /** ASCII model of `strings.ToLower`. */
  function ToLower(s: string): (r: string)
    ensures |r| == |s|
    ensures forall i :: 0 <= i < |s| ==> r[i] == LowerChar(s[i])
    ensures IsLower(r)
  {
    seq(|s|, i requires 0 <= i < |s| => LowerChar(s[i]))
  }

  /** Lower-casing changes nothing in a string that is already lower case. */
  lemma LowerIsFixed(s: string)
    requires IsLower(s)
    ensures ToLower(s) == s
  {
  }

  /** Joining two lower-case strings gives a lower-case string. */
  lemma LowerConcat(a: string, b: string)
    requires IsLower(a) && IsLower(b)
    ensures IsLower(a + b)
  {
    forall i | 0 <= i < |a + b| ensures !('A' <= (a + b)[i] <= 'Z') {
      if i >= |a| {
        assert (a + b)[i] == b[i - |a|];
      }
    }
  }

  /** ASCII model of `strings.EqualFold`. */
  predicate EqualFold(a: string, b: string) {
    ToLower(a) == ToLower(b)
  }

  /**
   `EqualFold` compares as Go's does, character by character: the strings
   have the same length and agree at each position once lower-cased.
   */
  lemma EqualFoldPointwise(a: string, b: string)
    ensures EqualFold(a, b) <==> |a| == |b| && forall i :: 0 <= i < |a| ==> LowerChar(a[i]) == LowerChar(b[i])
  {
    if |a| == |b| && forall i :: 0 <= i < |a| ==> LowerChar(a[i]) == LowerChar(b[i]) {
      assert forall i :: 0 <= i < |a| ==> ToLower(a)[i] == ToLower(b)[i];
    }
  }

  /**
   Against a lower-case constant, case-insensitive equality of a lower-cased
   key is plain equality.
   */
  lemma EqualFoldLowerConstant(key: string, c: string)
    requires IsLower(key) && IsLower(c)
    ensures EqualFold(key, c) <==> key == c
  {
    LowerIsFixed(key);
    LowerIsFixed(c);
  }

  /** Model of `strings.HasSuffix`. */
  predicate HasSuffix(s: string, suffix: string) {
    |suffix| <= |s| && s[|s| - |suffix|..] == suffix
  }

  /** `s` has the suffix exactly when it is some string followed by the suffix. */
  lemma HasSuffixIsEndsWith(s: string, suffix: string)
    ensures HasSuffix(s, suffix) <==> exists p :: s == p + suffix
  {
    if HasSuffix(s, suffix) {
      assert s == s[..|s| - |suffix|] + suffix;
    }
  }

  /**
   Byte-wise lexicographic order of Go strings, which for UTF-8 text is the
   order of code points: a proper prefix sorts first.
   */
  predicate Less(a: string, b: string)
    decreases |a|
  {
    if |b| == 0 then false
    else if |a| == 0 then true
    else if a[0] != b[0] then a[0] < b[0]
    else Less(a[1..], b[1..])
  }

  /**
   The reference meaning of the order: `a` sorts before `b` exactly when,
   at the first position `k` where they differ, `a` has ended (it is a
   proper prefix of `b`) or has the smaller character.
   */
  lemma {:induction false} LessIsFirstDifference(a: string, b: string)
    ensures Less(a, b) <==>
              exists k :: 0 <= k <= |a| && k < |b| && a[..k] == b[..k] && (k == |a| || a[k] < b[k])
    decreases |a|
  {
    if |a| > 0 && |b| > 0 && a[0] == b[0] {
      LessIsFirstDifference(a[1..], b[1..]);
      if Less(a, b) {
        var k :| 0 <= k <= |a[1..]| && k < |b[1..]| && a[1..][..k] == b[1..][..k] && (k == |a[1..]| || a[1..][k] < b[1..][k]);
        assert a[..k + 1] == [a[0]] + a[1..][..k];
        assert b[..k + 1] == [b[0]] + b[1..][..k];
      }
      if exists k :: 0 <= k <= |a| && k < |b| && a[..k] == b[..k] && (k == |a| || a[k] < b[k]) {
        var k :| 0 <= k <= |a| && k < |b| && a[..k] == b[..k] && (k == |a| || a[k] < b[k]);
        assert k > 0;
        assert a[1..][..k - 1] == a[..k][1..] && b[1..][..k - 1] == b[..k][1..];
      }
    } else if |a| > 0 && |b| > 0 {
      assert a[..0] == b[..0];
      forall k | 0 < k <= |a| && k < |b| ensures a[..k] != b[..k] {
        assert a[..k][0] != b[..k][0];
      }
    } else if |b| > 0 {
      assert a[..0] == b[..0];
    }
  }

  lemma {:induction false} LessIrreflexive(a: string)
    ensures !Less(a, a)
    decreases |a|
  {
    if |a| > 0 {
      LessIrreflexive(a[1..]);
    }
  }

  lemma {:induction false} LessAsymmetric(a: string, b: string)
    ensures !(Less(a, b) && Less(b, a))
    decreases |a|
  {
    if |a| > 0 && |b| > 0 && a[0] == b[0] {
      LessAsymmetric(a[1..], b[1..]);
    }
  }

  /** Any two different strings are ordered one way or the other. */
  lemma {:induction false} LessTotal(a: string, b: string)
    requires a != b
    ensures Less(a, b) || Less(b, a)
    decreases |a|
  {
    if |a| > 0 && |b| > 0 && a[0] == b[0] {
      assert a == [a[0]] + a[1..] && b == [b[0]] + b[1..];
      LessTotal(a[1..], b[1..]);
    }
  }

  lemma {:induction false} LessTransitive(a: string, b: string, c: string)
    requires Less(a, b) && Less(b, c)
    ensures Less(a, c)
    decreases |a|
  {
    if |a| > 0 && a[0] == b[0] && b[0] == c[0] {
      LessTransitive(a[1..], b[1..], c[1..]);
    }
  }

  /** A sequence of names in strictly ascending order, hence without repeats. */
  predicate StrictlySorted(names: seq<string>) {
    forall i, j :: 0 <= i < j < |names| ==> Less(names[i], names[j])
  }

  /** Prepending a name below every element keeps a sequence strictly sorted. */
  lemma PrependSorted(a: string, t: seq<string>)
    requires StrictlySorted(t)
    requires forall e :: e in t ==> Less(a, e)
    ensures StrictlySorted([a] + t)
  {
    forall i, j | 0 <= i < j < |[a] + t| ensures Less(([a] + t)[i], ([a] + t)[j]) {
      if i > 0 {
        assert ([a] + t)[i] == t[i - 1] && ([a] + t)[j] == t[j - 1];
      } else {
        assert ([a] + t)[j] in t;
      }
    }
  }

  /** Puts a new name into its place in a strictly ascending sequence. */
  function InsertName(names: seq<string>, x: string): (r: seq<string>)
    requires StrictlySorted(names) && x !in names
    ensures StrictlySorted(r)
    ensures multiset(r) == multiset(names) + multiset{x}
  {
    if names == [] then [x]
    else if Less(x, names[0]) then
      BelowHeadIsBelowAllNames(x, names);
      PrependSorted(x, names);
      [x] + names
    else
      var head, rest := names[0], names[1..];
      assert names == [head] + rest;
      assert Less(head, x) by { LessTotal(x, head); }
      var tail := InsertName(rest, x);
      AboveHeadAfterInsertName(names, x, tail);
      PrependSorted(head, tail);
      [head] + tail
  }

  /** A name below the least of a strictly ascending sequence is below all of it. */
  lemma BelowHeadIsBelowAllNames(x: string, names: seq<string>)
    requires StrictlySorted(names) && |names| > 0 && Less(x, names[0])
    ensures forall e :: e in names ==> Less(x, e)
  {
    forall e | e in names ensures Less(x, e) {
      if e != names[0] {
        var j :| 0 < j < |names| && names[j] == e;
        LessTransitive(x, names[0], e);
      }
    }
  }

  /** Inserting a name above the head into the rest leaves everything above the head. */
  lemma AboveHeadAfterInsertName(names: seq<string>, x: string, tail: seq<string>)
    requires StrictlySorted(names) && |names| > 0 && Less(names[0], x)
    requires multiset(tail) == multiset(names[1..]) + multiset{x}
    ensures forall e :: e in tail ==> Less(names[0], e)
  {
    forall e | e in tail ensures Less(names[0], e) {
      assert e in multiset(tail);
      if e != x {
        var j :| 0 <= j < |names[1..]| && names[1..][j] == e;
        assert names[j + 1] == e;
      }
    }
  }
}
