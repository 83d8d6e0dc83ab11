/**
 * The PHP string built-ins the trace reader relies on: trim(), the truth value of a
 * string, strstr(), explode(), implode(), str_replace() of one character and
 * str_ireplace() with an empty replacement. Strings are `seq<char>`.
 */
module Strings {

  /** The characters trim() strips by default: space, tab, LF, CR, NUL and vertical tab. */
  predicate IsTrimChar(c: char) {
    c == ' ' || c == '\t' || c == '\n' || c == '\r' || c == '\0' || c == '\U{000B}'
  }

  function TrimLeft(s: string): (r: string)
    ensures |r| <= |s| && r == s[|s| - |r|..]
    ensures forall i :: 0 <= i < |s| - |r| ==> IsTrimChar(s[i])
    ensures r == [] || !IsTrimChar(r[0])
  {
    if s != [] && IsTrimChar(s[0]) then TrimLeft(s[1..]) else s
  }

  function TrimRight(s: string): (r: string)
    ensures |r| <= |s| && r == s[..|r|]
    ensures forall i :: |r| <= i < |s| ==> IsTrimChar(s[i])
    ensures r == [] || !IsTrimChar(r[|r| - 1])
  {
    if s != [] && IsTrimChar(s[|s| - 1]) then TrimRight(s[..|s| - 1]) else s
  }

  /** trim($s): the middle part of `s` left after stripping trim characters at both ends. */
  function Trim(s: string): string
  {
    TrimRight(TrimLeft(s))
  }

  /**
   * What trim() leaves is a piece of the string whose ends are not trim characters, and it
   * is empty exactly when the string is made of trim characters only.
   */
  lemma TrimProperties(s: string)
    ensures var r := Trim(s);
      && (r == [] || (!IsTrimChar(r[0]) && !IsTrimChar(r[|r| - 1])))
      && (r == [] <==> forall i :: 0 <= i < |s| ==> IsTrimChar(s[i]))
      && exists k :: OccursAt(s, r, k)
  {
    var l := TrimLeft(s);
    var r := TrimRight(l);
    assert r == l[..|r|] == s[|s| - |l|..][..|r|];
    assert s[|s| - |l|..][..|r|] == s[|s| - |l|..|s| - |l| + |r|];
    assert OccursAt(s, r, |s| - |l|);
  }

  /** A string that neither starts nor ends with a trim character is left as it is. */
  lemma TrimKeeps(s: string)
    requires s != [] && !IsTrimChar(s[0]) && !IsTrimChar(s[|s| - 1])
    ensures Trim(s) == s
  {
    assert TrimLeft(s) == s;
  }

  /** Trimming twice is trimming once. */
  lemma TrimIdempotent(s: string)
    ensures Trim(Trim(s)) == Trim(s)
  {
    var t := Trim(s);
    if t != [] {
      assert TrimLeft(t) == t;
      assert TrimRight(t) == t;
    }
  }

  /** PHP's truth value of a string: only "" and "0" are false (so `empty()` holds of exactly those). */
  predicate Truthy(s: string) {
    s != "" && s != "0"
  }

  predicate OccursAt(s: string, t: string, i: int) {
    0 <= i && i + |t| <= |s| && s[i..i + |t|] == t
  }

  /** strstr($s, $t) !== false: `t` occurs somewhere in `s`. */
  function Contains(s: string, t: string): (b: bool)
    ensures b <==> exists i :: OccursAt(s, t, i)
  {
    if |t| > |s| then false
    else if s[..|t|] == t then assert OccursAt(s, t, 0); true
    else
      var b := Contains(s[1..], t);
      assert forall i :: OccursAt(s[1..], t, i) <==> OccursAt(s, t, i + 1) by {
        forall i ensures OccursAt(s[1..], t, i) <==> OccursAt(s, t, i + 1) {
          if 0 <= i && i + 1 + |t| <= |s| {
            assert s[1..][i..i + |t|] == s[i + 1..i + 1 + |t|];
          }
        }
      }
      assert !OccursAt(s, t, 0);
      assert (exists i :: OccursAt(s, t, i)) ==> exists i :: OccursAt(s[1..], t, i) by {
        if exists i :: OccursAt(s, t, i) {
          var i :| OccursAt(s, t, i);
          assert OccursAt(s[1..], t, i - 1);
        }
      }
      b
  }

  /**
   * The nested helper stringHasString($string, $searchString): a search term whose truth
   * value is false ("" or "0") matches every string; any other term matches exactly the
   * strings it occurs in.
   */
  function StringHasString(s: string, term: string): (b: bool)
    ensures !Truthy(term) ==> b
    ensures Truthy(term) ==> (b <==> exists i :: OccursAt(s, term, i))
  {
    !Truthy(term) || Contains(s, term)
  }

  /** A term that is a piece of the string always matches it. */
  lemma PieceIsFound(a: string, term: string, b: string)
    ensures StringHasString(a + term + b, term)
  {
    assert (a + term + b)[|a|..|a| + |term|] == term;
    assert OccursAt(a + term + b, term, |a|);
  }

  /** explode($sep, $s) for a one-character separator. */
  function Split(s: string, sep: char): (parts: seq<string>)
    ensures |parts| >= 1
    ensures forall k :: 0 <= k < |parts| ==> sep !in parts[k]
  {
    if s == [] then [[]]
    else
      var rest := Split(s[1..], sep);
      if s[0] == sep then [[]] + rest
      else [[s[0]] + rest[0]] + rest[1..]
  }

  /** implode($sep, $parts). */
  function Join(parts: seq<string>, sep: string): string
  {
    if parts == [] then []
    else if |parts| == 1 then parts[0]
    else parts[0] + sep + Join(parts[1..], sep)
  }

  /** Joining the pieces of an explode with the separator gives back the string. */
  lemma {:induction false} JoinSplit(s: string, sep: char)
    ensures Join(Split(s, sep), [sep]) == s
  {
    if s != [] {
      var rest := Split(s[1..], sep);
      JoinSplit(s[1..], sep);
      if s[0] == sep {
        assert Split(s, sep) == [[]] + rest;
        assert ([[]] + rest)[1..] == rest;
      } else {
        var parts := Split(s, sep);
        assert parts == [[s[0]] + rest[0]] + rest[1..];
        if |rest| == 1 {
          assert s == [s[0]] + s[1..];
        } else {
          assert parts[1..] == rest[1..];
          assert Join(rest, [sep]) == rest[0] + [sep] + Join(rest[1..], [sep]);
          assert s == [s[0]] + s[1..];
        }
      }
    }
  }

  lemma {:induction false} SplitNoSeparator(a: string, sep: char)
    requires sep !in a
    ensures Split(a, sep) == [a]
  {
    if a != [] {
      SplitNoSeparator(a[1..], sep);
      assert a == [a[0]] + a[1..];
    }
  }

  lemma {:induction false} SplitAtSeparator(a: string, sep: char, b: string)
    requires sep !in a
    ensures Split(a + [sep] + b, sep) == [a] + Split(b, sep)
  {
    if a == [] {
      assert a + [sep] + b == [sep] + b;
      assert ([sep] + b)[1..] == b;
    } else {
      SplitAtSeparator(a[1..], sep, b);
      assert (a + [sep] + b)[1..] == a[1..] + [sep] + b;
      assert a == [a[0]] + a[1..];
    }
  }

  /** Exploding a join of separator-free pieces gives back the pieces. */
  lemma {:induction false} SplitJoin(parts: seq<string>, sep: char)
    requires |parts| >= 1
    requires forall k :: 0 <= k < |parts| ==> sep !in parts[k]
    ensures Split(Join(parts, [sep]), sep) == parts
  {
    if |parts| == 1 {
      SplitNoSeparator(parts[0], sep);
    } else {
      SplitJoin(parts[1..], sep);
      SplitAtSeparator(parts[0], sep, Join(parts[1..], [sep]));
      assert parts == [parts[0]] + parts[1..];
    }
  }

  /** explode() yields one piece more than there are separators. */
  lemma {:induction false} SplitCount(s: string, sep: char)
    ensures |Split(s, sep)| == multiset(s)[sep] + 1
  {
    if s != [] {
      SplitCount(s[1..], sep);
      assert s == [s[0]] + s[1..];
      assert multiset(s) == multiset{s[0]} + multiset(s[1..]);
    }
  }

  /** str_replace($from, $to, $s) for single characters. */
  function ReplaceChar(s: string, from: char, to: char): (r: string)
    ensures |r| == |s|
    ensures forall i {:trigger r[i]} :: 0 <= i < |s| ==> r[i] == if s[i] == from then to else s[i]
  {
    if s == [] then [] else [if s[0] == from then to else s[0]] + ReplaceChar(s[1..], from, to)
  }

  /** ASCII lower-casing, the case folding str_ireplace() applies. */
  function Lower(c: char): char {
    if 'A' <= c <= 'Z' then (c as int + 32) as char else c
  }

  predicate SameIgnoringCase(s: string, t: string) {
    |s| == |t| && forall i {:trigger Lower(s[i]), Lower(t[i])} :: 0 <= i < |s| ==> Lower(s[i]) == Lower(t[i])
  }

  predicate OccursIgnoringCaseAt(s: string, t: string, i: int) {
    0 <= i && i + |t| <= |s| && SameIgnoringCase(s[i..i + |t|], t)
  }

  /**
   * str_ireplace($needle, '', $s): scans `s` from the left and deletes every
   * non-overlapping case-insensitive occurrence of `needle`; an empty needle changes nothing.
   */
  function RemoveAllIgnoringCase(s: string, needle: string): (r: string)
    ensures |r| <= |s|
    decreases |s|
  {
    if needle == [] || |s| < |needle| then s
    else if SameIgnoringCase(s[..|needle|], needle) then RemoveAllIgnoringCase(s[|needle|..], needle)
    else [s[0]] + RemoveAllIgnoringCase(s[1..], needle)
  }

  /** Removal only deletes: a character absent from `s` is absent from the result. */
  lemma {:induction false} RemovalAddsNothing(s: string, needle: string, c: char)
    requires c !in s
    ensures c !in RemoveAllIgnoringCase(s, needle)
    decreases |s|
  {
    if needle == [] || |s| < |needle| {
    } else if SameIgnoringCase(s[..|needle|], needle) {
      assert forall x :: x in s[|needle|..] ==> x in s;
      RemovalAddsNothing(s[|needle|..], needle, c);
    } else {
      assert s == [s[0]] + s[1..];
      RemovalAddsNothing(s[1..], needle, c);
    }
  }

  /** Without a case-insensitive occurrence of the needle, nothing is removed. */
  lemma {:induction false} NothingToRemove(s: string, needle: string)
    requires forall i :: !OccursIgnoringCaseAt(s, needle, i)
    ensures RemoveAllIgnoringCase(s, needle) == s
  {
    if needle != [] && |s| >= |needle| {
      assert !OccursIgnoringCaseAt(s, needle, 0);
      assert s[0..|needle|] == s[..|needle|];
      forall i ensures !OccursIgnoringCaseAt(s[1..], needle, i) {
        if 0 <= i && i + |needle| <= |s| - 1 {
          assert s[1..][i..i + |needle|] == s[i + 1..i + 1 + |needle|];
          assert !OccursIgnoringCaseAt(s, needle, i + 1);
        }
      }
      NothingToRemove(s[1..], needle);
      assert s == [s[0]] + s[1..];
    }
  }

  /**
   * A leading occurrence is removed together with every later one: a path that starts
   * with the root (in any letter case) loses it, whatever follows.
   */
  lemma LeadingOccurrenceRemoved(root: string, needle: string, rest: string)
    requires needle != [] && SameIgnoringCase(root, needle)
    ensures RemoveAllIgnoringCase(root + rest, needle) == RemoveAllIgnoringCase(rest, needle)
  {
    assert (root + rest)[..|needle|] == root;
    assert (root + rest)[|needle|..] == rest;
  }

  /** No occurrence of the needle starts before position `k`. */
  predicate NoOccurrenceBefore(s: string, needle: string, k: int) {
    forall i :: 0 <= i < k ==> !OccursIgnoringCaseAt(s, needle, i)
  }

  /**
   * The first occurrence is removed wherever it is: the text before it, at positions
   * 0 to `i`, is kept as it is and the scan goes on after it, so every non-overlapping
   * occurrence, left to right, goes.
   */
  lemma MiddleOccurrenceRemoved(s: string, needle: string, i: nat)
    requires needle != [] && OccursIgnoringCaseAt(s, needle, i) && NoOccurrenceBefore(s, needle, i)
    ensures RemoveAllIgnoringCase(s, needle) == s[..i] + RemoveAllIgnoringCase(s[i + |needle|..], needle)
  {
    KeepPrefix(s, needle, 0, i);
    SuffixOccurrenceRemoved(s, needle, i);
    assert s[0..] == s && s[0..i] == s[..i];
  }

  /** No occurrence starts before `i`, so the scan from `j` keeps the text from `j` to `i` as it is. */
  lemma {:induction false} KeepPrefix(s: string, needle: string, j: nat, i: nat)
    requires needle != [] && j <= i && i + |needle| <= |s| && NoOccurrenceBefore(s, needle, i)
    ensures RemoveAllIgnoringCase(s[j..], needle) == s[j..i] + RemoveAllIgnoringCase(s[i..], needle)
    decreases i - j
  {
    if j == i {
      assert s[j..i] == [];
    } else {
      assert !OccursIgnoringCaseAt(s, needle, j);
      SuffixHeadKept(s, needle, j);
      KeepPrefix(s, needle, j + 1, i);
      Cons(s, j, i, RemoveAllIgnoringCase(s[i..], needle));
    }
  }

  /** A suffix whose first character starts no occurrence keeps that character. */
  lemma SuffixHeadKept(s: string, needle: string, j: nat)
    requires needle != [] && j + |needle| <= |s| && !OccursIgnoringCaseAt(s, needle, j)
    ensures RemoveAllIgnoringCase(s[j..], needle) == [s[j]] + RemoveAllIgnoringCase(s[j + 1..], needle)
  {
    assert s[j..][..|needle|] == s[j..j + |needle|];
    assert s[j..][1..] == s[j + 1..];
  }

  /** A suffix that starts with an occurrence loses it. */
  lemma SuffixOccurrenceRemoved(s: string, needle: string, i: nat)
    requires needle != [] && OccursIgnoringCaseAt(s, needle, i)
    ensures RemoveAllIgnoringCase(s[i..], needle) == RemoveAllIgnoringCase(s[i + |needle|..], needle)
  {
    assert s[i..][..|needle|] == s[i..i + |needle|];
    assert s[i..][|needle|..] == s[i + |needle|..];
  }

  lemma Cons(s: string, j: nat, i: nat, tail: string)
    requires j < i <= |s|
    ensures [s[j]] + (s[j + 1..i] + tail) == s[j..i] + tail
  {
    assert [s[j]] + s[j + 1..i] == s[j..i];
  }
}
