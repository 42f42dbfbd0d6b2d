/** The Python `str` operations the search tool relies on: `strip()`,
    `lower()`, the `in` operator, `count`, `endswith`, `join` and, as the
    inverse of `join`, `split`. Characters are restricted to what the ASCII
    forms of these operations do. */
module Strings {

  /** The ASCII characters `str.strip()` removes: space, tab, line feed,
      vertical tab, form feed, carriage return and the separators 0x1C-0x1F. */
  predicate IsSpace(c: char) {
    var n := c as int;
    n == 32 || 9 <= n <= 13 || 28 <= n <= 31
  }

  predicate AllSpace(s: string) {
    forall k :: 0 <= k < |s| ==> IsSpace(s[k])
  }

  /** How many whitespace characters `s` starts with. */
  function LeadingSpaces(s: string): (n: nat)
    ensures n <= |s|
    ensures forall k :: 0 <= k < n ==> IsSpace(s[k])
    ensures n < |s| ==> !IsSpace(s[n])
  {
    if s == [] || !IsSpace(s[0]) then 0
    else
      var n := LeadingSpaces(s[1..]);
      assert forall k :: 1 <= k < n + 1 ==> s[k] == s[1..][k - 1];
      n + 1
  }

  /** How many whitespace characters `s` ends with. */
  function TrailingSpaces(s: string): (n: nat)
    ensures n <= |s|
    ensures forall k :: |s| - n <= k < |s| ==> IsSpace(s[k])
    ensures n < |s| ==> !IsSpace(s[|s| - n - 1])
  {
    if s == [] || !IsSpace(s[|s| - 1]) then 0
    else
      var n := TrailingSpaces(s[..|s| - 1]);
      assert forall k :: |s| - n - 1 <= k < |s| - 1 ==> s[k] == s[..|s| - 1][k];
      n + 1
  }

  /** `s.lstrip()`: drops the leading whitespace and nothing else. */
  function TrimStart(s: string): (r: string)
    ensures |r| <= |s| && r == s[|s| - |r|..]
    ensures r == [] || !IsSpace(r[0])
    ensures r == [] <==> AllSpace(s)
  {
    s[LeadingSpaces(s)..]
  }

  /** `s.rstrip()`: drops the trailing whitespace and nothing else. */
  function TrimEnd(s: string): (r: string)
    ensures |r| <= |s| && r == s[..|r|]
    ensures r == [] || !IsSpace(r[|r| - 1])
    ensures r == [] <==> AllSpace(s)
  {
    s[..|s| - TrailingSpaces(s)]
  }

  /** `s.strip()`: the text between the leading and the trailing whitespace.
      It neither starts nor ends with whitespace, and it is empty exactly
      when `s` is made of whitespace only. */
  function Strip(s: string): (r: string)
    ensures |r| <= |s|
    ensures r == [] || (!IsSpace(r[0]) && !IsSpace(r[|r| - 1]))
    ensures r == [] <==> AllSpace(s)
  {
    TrimEnd(TrimStart(s))
  }

  /** `r` sits in `s` at `i` with only whitespace before and after it. */
  ghost predicate Padded(s: string, r: string, i: int) {
    0 <= i && i + |r| <= |s| && s[i..i + |r|] == r && AllSpace(s[..i]) && AllSpace(s[i + |r|..])
  }

  /** `strip` removes whitespace and nothing else: what it keeps is a
      stretch of `s` with only whitespace around it. */
  lemma StripRemovesSpaces(s: string)
    ensures exists i :: Padded(s, Strip(s), i)
  {
    var i := LeadingSpaces(s);
    var t := s[i..];
    var m := TrailingSpaces(t);
    var r := t[..|t| - m];
    assert r == Strip(s);
    assert s[i..i + |r|] == r;
    forall k | 0 <= k < i ensures IsSpace(s[..i][k]) {
      assert s[..i][k] == s[k];
    }
    var after := s[i + |r|..];
    forall k | 0 <= k < |after| ensures IsSpace(after[k]) {
      assert after[k] == t[|t| - m + k];
    }
    assert Padded(s, r, i);
  }

  /** `c.lower()` for an ASCII character: upper-case letters become lower-case. */
  function LowerChar(c: char): char {
    if 'A' <= c <= 'Z' then (c as int + 32) as char else c
  }

  /** `s.lower()`: every upper-case letter is replaced by its lower-case form,
      every other character is kept, and the length does not change. */
  function Lower(s: string): (r: string)
    ensures |r| == |s|
    ensures forall k :: 0 <= k < |r| ==> !('A' <= r[k] <= 'Z')
    ensures forall k :: 0 <= k < |r| ==> r[k] == s[k] || ('A' <= s[k] <= 'Z' && r[k] as int == s[k] as int + 32)
  {
    seq(|s|, k requires 0 <= k < |s| => LowerChar(s[k]))
  }

  /** `p` occurs in `s` starting at index `i`. */
  predicate OccursAt(s: string, p: string, i: int) {
    0 <= i && i + |p| <= |s| && s[i..i + |p|] == p
  }

  /** Python's `p in s` for strings: `p` is a contiguous part of `s`. */
  ghost predicate IsSubstring(p: string, s: string) {
    exists i :: OccursAt(s, p, i)
  }

  /** The executable test behind `p in s`: try every start position in turn. */
  function Contains(s: string, p: string): bool
    decreases |s|
  {
    if |p| > |s| then false
    else if s[..|p|] == p then true
    else Contains(s[1..], p)
  }

  lemma OccursAtDrop(s: string, p: string, d: nat, i: int)
    requires d <= |s| && 0 <= i
    ensures OccursAt(s[d..], p, i) <==> OccursAt(s, p, i + d)
  {
    if 0 <= i && i + |p| <= |s| - d {
      assert s[d..][i..i + |p|] == s[i + d..i + d + |p|];
    }
  }

  /** `Contains` answers exactly Python's `p in s`. */
  lemma {:induction false} ContainsIff(s: string, p: string)
    ensures Contains(s, p) <==> IsSubstring(p, s)
    decreases |s|
  {
    if |p| > |s| {
      assert forall i :: !OccursAt(s, p, i);
    } else if s[..|p|] == p {
      assert OccursAt(s, p, 0);
    } else {
      ContainsIff(s[1..], p);
      if IsSubstring(p, s[1..]) {
        var i :| OccursAt(s[1..], p, i);
        OccursAtDrop(s, p, 1, i);
      }
      if IsSubstring(p, s) {
        var i :| OccursAt(s, p, i);
        assert i != 0 by { assert s[0..|p|] == s[..|p|]; }
        OccursAtDrop(s, p, 1, i - 1);
        assert OccursAt(s[1..], p, i - 1);
      }
    }
  }

  /** `s.count(p)`: scanning left to right, each occurrence that does not
      overlap the previously counted one is counted. The empty pattern is
      counted once at every position, `|s| + 1` times in all. */
  function Count(s: string, p: string): nat
    decreases |s|
  {
    if p == [] then |s| + 1
    else if |s| < |p| then 0
    else if s[..|p|] == p then 1 + Count(s[|p|..], p)
    else Count(s[1..], p)
  }

  /** Positions `pos` are occurrences of `p` in `s`, in increasing order,
      none overlapping the next. */
  ghost predicate NonOverlapping(s: string, p: string, pos: seq<int>) {
    && (forall k :: 0 <= k < |pos| ==> OccursAt(s, p, pos[k]))
    && (forall i, j :: 0 <= i < j < |pos| ==> pos[i] + |p| <= pos[j])
  }

  function Shift(pos: seq<int>, d: int): (r: seq<int>)
    ensures |r| == |pos| && forall k :: 0 <= k < |r| ==> r[k] == pos[k] + d
  {
    seq(|pos|, k requires 0 <= k < |pos| => pos[k] + d)
  }

  /** The start positions of the occurrences `Count` counts. */
  ghost function Occurrences(s: string, p: string): seq<int>
    requires p != []
    decreases |s|
  {
    if |s| < |p| then []
    else if s[..|p|] == p then [0] + Shift(Occurrences(s[|p|..], p), |p|)
    else Shift(Occurrences(s[1..], p), 1)
  }

  /** Occurrences in a suffix `s[d..]`, moved back by `d`, are occurrences
      in `s` that start at `d` or later. */
  lemma ShiftOccurrences(s: string, p: string, d: nat, tail: seq<int>)
    requires d <= |s| && NonOverlapping(s[d..], p, tail)
    ensures NonOverlapping(s, p, Shift(tail, d))
    ensures forall k :: 0 <= k < |tail| ==> d <= Shift(tail, d)[k]
  {
    var pos := Shift(tail, d);
    forall k | 0 <= k < |pos| ensures OccursAt(s, p, pos[k]) && d <= pos[k] {
      assert OccursAt(s[d..], p, tail[k]);
      OccursAtDrop(s, p, d, tail[k]);
    }
  }

  lemma PrependOccurrence(s: string, p: string, rest: seq<int>)
    requires OccursAt(s, p, 0) && NonOverlapping(s, p, rest)
    requires forall k :: 0 <= k < |rest| ==> |p| <= rest[k]
    ensures NonOverlapping(s, p, [0] + rest)
  {
    var pos := [0] + rest;
    forall k | 0 <= k < |pos| ensures OccursAt(s, p, pos[k]) {
      if k > 0 {
        assert pos[k] == rest[k - 1];
      }
    }
    forall i, j | 0 <= i < j < |pos| ensures pos[i] + |p| <= pos[j] {
      assert pos[j] == rest[j - 1];
      if i > 0 {
        assert pos[i] == rest[i - 1];
      }
    }
  }

  /** The occurrences `Count` counts are there, do not overlap, and there are
      `Count(s, p)` of them. */
  lemma {:induction false} OccurrencesSound(s: string, p: string)
    requires p != []
    ensures |Occurrences(s, p)| == Count(s, p)
    ensures NonOverlapping(s, p, Occurrences(s, p))
    decreases |s|
  {
    if |s| < |p| {
    } else if s[..|p|] == p {
      var tail := Occurrences(s[|p|..], p);
      OccurrencesSound(s[|p|..], p);
      ShiftOccurrences(s, p, |p|, tail);
      assert s[0..|p|] == s[..|p|];
      PrependOccurrence(s, p, Shift(tail, |p|));
    } else {
      OccurrencesSound(s[1..], p);
      ShiftOccurrences(s, p, 1, Occurrences(s[1..], p));
    }
  }

  /** No choice of non-overlapping occurrences has more than `Count(s, p)`
      members: together with `OccurrencesSound`, `s.count(p)` is the largest
      number of non-overlapping occurrences of `p` in `s`. */
  lemma {:induction false} NonOverlappingBound(s: string, p: string, pos: seq<int>)
    requires p != []
    requires NonOverlapping(s, p, pos)
    ensures |pos| <= Count(s, p)
    decreases |s|
  {
    if pos == [] {
    } else if OccursAt(s, p, pos[0]) && s[..|p|] == p {
      var d := |p|;
      var rest := Shift(pos[1..], -d);
      forall k | 0 <= k < |rest| ensures OccursAt(s[d..], p, rest[k]) {
        assert pos[0] + d <= pos[k + 1];
        assert OccursAt(s, p, pos[k + 1]);
        OccursAtDrop(s, p, d, rest[k]);
      }
      forall i, j | 0 <= i < j < |rest| ensures rest[i] + |p| <= rest[j] {
        assert pos[i + 1] + |p| <= pos[j + 1];
      }
      NonOverlappingBound(s[d..], p, rest);
    } else {
      var rest := Shift(pos, -1);
      assert pos[0] != 0 by {
        assert OccursAt(s, p, pos[0]);
        assert s[0..|p|] == s[..|p|];
      }
      forall k | 0 <= k < |rest| ensures OccursAt(s[1..], p, rest[k]) {
        assert OccursAt(s, p, pos[k]);
        if k > 0 {
          assert pos[0] + |p| <= pos[k];
        }
        OccursAtDrop(s, p, 1, rest[k]);
      }
      NonOverlappingBound(s[1..], p, rest);
    }
  }

  /** `s.count(p)` is positive exactly when `p in s`; in particular every
      string counts the empty pattern at least once. */
  lemma CountPositiveIff(s: string, p: string)
    ensures Count(s, p) >= 1 <==> IsSubstring(p, s)
  {
    if p == [] {
      assert OccursAt(s, p, 0);
    } else {
      OccurrencesSound(s, p);
      if Count(s, p) >= 1 {
        assert OccursAt(s, p, Occurrences(s, p)[0]);
      }
      if IsSubstring(p, s) {
        var i :| OccursAt(s, p, i);
        NonOverlappingBound(s, p, [i]);
      }
    }
  }

  /** Python's `s.endswith(suffix)`. */
  predicate EndsWith(s: string, suffix: string) {
    |suffix| <= |s| && s[|s| - |suffix|..] == suffix
  }

  /** Two suffixes of one string: the shorter is a suffix of the longer. */
  lemma SuffixesNest(s: string, a: string, b: string)
    ensures EndsWith(s, a) && EndsWith(s, b) ==> EndsWith(a, b) || EndsWith(b, a)
  {
    if EndsWith(s, a) && EndsWith(s, b) {
      if |a| <= |b| {
        assert b[|b| - |a|..] == s[|s| - |a|..];
      } else {
        assert a[|a| - |b|..] == s[|s| - |b|..];
      }
    }
  }

  /** `sep.join(parts)`: the parts in order with `sep` between neighbours. */
  function JoinWith(sep: string, parts: seq<string>): string
  {
    if parts == [] then []
    else if |parts| == 1 then parts[0]
    else parts[0] + sep + JoinWith(sep, parts[1..])
  }

  /** Every character of a joined string comes from the separator or from
      one of the parts. */
  lemma {:induction false} JoinWithChars(sep: string, parts: seq<string>, c: char)
    ensures c in JoinWith(sep, parts) ==> c in sep || exists i :: 0 <= i < |parts| && c in parts[i]
  {
    if c in JoinWith(sep, parts) && |parts| > 1 {
      var rest := JoinWith(sep, parts[1..]);
      assert JoinWith(sep, parts) == parts[0] + sep + rest;
      if c !in parts[0] && c !in sep {
        assert c in rest;
        JoinWithChars(sep, parts[1..], c);
        var i :| 0 <= i < |parts[1..]| && c in parts[1..][i];
        assert c in parts[i + 1];
      }
    }
  }

  /** `s.split(c)` for a one-character separator: the pieces between the
      separators, so there is always one piece more than there are
      separators, and no piece contains `c`. */
  function Split(s: string, c: char): (pieces: seq<string>)
    ensures |pieces| >= 1
    ensures forall i :: 0 <= i < |pieces| ==> c !in pieces[i]
  {
    if s == [] then [[]]
    else
      var rest := Split(s[1..], c);
      if s[0] == c then [[]] + rest else [[s[0]] + rest[0]] + rest[1..]
  }

  lemma {:induction false} SplitPiece(p: string, c: char, t: string)
    requires c !in p
    ensures Split(p, c) == [p]
    ensures Split(p + [c] + t, c) == [p] + Split(t, c)
  {
    if p != [] {
      SplitPiece(p[1..], c, t);
      assert (p + [c] + t)[1..] == p[1..] + [c] + t;
      assert [p[0]] + p[1..] == p;
    } else {
      assert p + [c] + t == [c] + t;
      assert ([c] + t)[1..] == t;
    }
  }

  /** Splitting a joined string on its one-character separator gives back
      the parts, as long as there is at least one part and none of them
      contains the separator. */
  lemma {:induction false} SplitJoin(parts: seq<string>, c: char)
    requires parts != []
    requires forall i :: 0 <= i < |parts| ==> c !in parts[i]
    ensures Split(JoinWith([c], parts), c) == parts
  {
    if |parts| == 1 {
      SplitPiece(parts[0], c, []);
    } else {
      SplitJoin(parts[1..], c);
      SplitPiece(parts[0], c, JoinWith([c], parts[1..]));
      assert [parts[0]] + parts[1..] == parts;
    }
  }

  /** Splitting text that starts with a stretch free of the separator glues
      that stretch to the first piece. */
  lemma {:induction false} SplitPrefix(pad: string, t: string, c: char)
    requires c !in pad
    ensures Split(pad + t, c) == [pad + Split(t, c)[0]] + Split(t, c)[1..]
  {
    if pad != [] {
      SplitPrefix(pad[1..], t, c);
      assert (pad + t)[1..] == pad[1..] + t;
      assert [pad[0]] + (pad[1..] + Split(t, c)[0]) == pad + Split(t, c)[0];
    } else {
      assert pad + t == t;
      assert pad + Split(t, c)[0] == Split(t, c)[0];
      assert [Split(t, c)[0]] + Split(t, c)[1..] == Split(t, c);
    }
  }

  /** Splitting a string joined with a separator made of `c` followed by
      `pad` on `c` alone gives the first part, then each later part behind
      its `pad`, as long as neither `pad` nor any part contains `c`. */
  lemma {:induction false} SplitJoinPadded(parts: seq<string>, c: char, pad: string)
    requires parts != [] && c !in pad
    requires forall i :: 0 <= i < |parts| ==> c !in parts[i]
    ensures Split(JoinWith([c] + pad, parts), c)
         == [parts[0]] + seq(|parts| - 1, i requires 0 <= i < |parts| - 1 => pad + parts[i + 1])
  {
    var padded := seq(|parts| - 1, i requires 0 <= i < |parts| - 1 => pad + parts[i + 1]);
    if |parts| == 1 {
      SplitPiece(parts[0], c, []);
      assert padded == [];
    } else {
      var rest := JoinWith([c] + pad, parts[1..]);
      SplitJoinPadded(parts[1..], c, pad);
      var tail := seq(|parts[1..]| - 1, i requires 0 <= i < |parts[1..]| - 1 => pad + parts[1..][i + 1]);
      assert Split(rest, c) == [parts[1]] + tail;
      assert JoinWith([c] + pad, parts) == parts[0] + [c] + (pad + rest);
      SplitPiece(parts[0], c, pad + rest);
      SplitPrefix(pad, rest, c);
      assert Split(pad + rest, c) == [pad + parts[1]] + tail;
      assert padded == [pad + parts[1]] + tail;
    }
  }
}
