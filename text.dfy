/**
 * String helpers with Python's semantics: str.strip, str.lower on ASCII,
 * str.replace of one character, character filtering and str.find / str.rfind.
 */
module Text {

  /** The characters Python's str.isspace() accepts (the set str.strip() removes). */
  predicate IsSpace(c: char)
  {
    ('\U{0009}' <= c <= '\U{000D}') || ('\U{001C}' <= c <= '\U{0020}')
    || c == '\U{0085}' || c == '\U{00A0}' || c == '\U{1680}'
    || ('\U{2000}' <= c <= '\U{200A}') || c == '\U{2028}' || c == '\U{2029}'
    || c == '\U{202F}' || c == '\U{205F}' || c == '\U{3000}'
  }

  /** Drops the longest prefix made of characters satisfying `drop`
      (TrimLeftIsSuffix states what it keeps). */
  function TrimLeft(s: string, drop: char -> bool): string
  {
    if s != [] && drop(s[0]) then TrimLeft(s[1..], drop) else s
  }

  /** Drops the longest suffix made of characters satisfying `drop`
      (TrimRightIsPrefix states what it keeps). */
  function TrimRight(s: string, drop: char -> bool): string
  {
    if s != [] && drop(s[|s| - 1]) then TrimRight(s[..|s| - 1], drop) else s
  }

  /** TrimLeft keeps a suffix of s, everything before it is dropped, and the
      suffix does not start with a dropped character. */
  lemma {:induction false} TrimLeftIsSuffix(s: string, drop: char -> bool)
    ensures var r := TrimLeft(s, drop);
      && |r| <= |s| && r == s[|s| - |r|..]
      && (forall k :: 0 <= k < |s| - |r| ==> drop(s[k]))
      && (r == [] || !drop(r[0]))
  {
    if s != [] && drop(s[0]) {
      var t := s[1..];
      TrimLeftIsSuffix(t, drop);
      var r := TrimLeft(t, drop);
      assert TrimLeft(s, drop) == r;
      assert t[|t| - |r|..] == s[|s| - |r|..];
      forall k | 0 <= k < |s| - |r| ensures drop(s[k]) {
        if k > 0 {
          assert s[k] == t[k - 1];
        }
      }
    }
  }

  /** TrimRight keeps a prefix of s, everything after it is dropped, and the
      prefix does not end with a dropped character. */
  lemma {:induction false} TrimRightIsPrefix(s: string, drop: char -> bool)
    ensures var r := TrimRight(s, drop);
      && |r| <= |s| && r == s[..|r|]
      && (forall k :: |r| <= k < |s| ==> drop(s[k]))
      && (r == [] || !drop(r[|r| - 1]))
  {
    if s != [] && drop(s[|s| - 1]) {
      var t := s[..|s| - 1];
      TrimRightIsPrefix(t, drop);
      var r := TrimRight(t, drop);
      assert TrimRight(s, drop) == r;
      assert t[..|r|] == s[..|r|];
      forall k | |r| <= k < |s| ensures drop(s[k]) {
        if k < |s| - 1 {
          assert s[k] == t[k];
        }
      }
    }
  }

  /** Python's s.strip(chars): both ends trimmed, the middle untouched
      (StripTrimsEnds states what it keeps). */
  function Strip(s: string, drop: char -> bool): string
  {
    TrimRight(TrimLeft(s, drop), drop)
  }

  /** Strip keeps the slice s[i..j]: everything before i and from j on is
      dropped, the slice's ends are not, and an empty result means the
      left trim already consumed the whole string. */
  lemma StripIsSlice(s: string, drop: char -> bool) returns (i: nat, j: nat)
    ensures i <= j <= |s| && Strip(s, drop) == s[i..j]
    ensures forall k :: 0 <= k < i ==> drop(s[k])
    ensures forall k :: j <= k < |s| ==> drop(s[k])
    ensures i < j ==> !drop(s[i]) && !drop(s[j - 1])
    ensures i == j ==> i == |s|
  {
    var left := TrimLeft(s, drop);
    TrimLeftIsSuffix(s, drop);
    TrimRightIsPrefix(left, drop);
    var r := TrimRight(left, drop);
    i := |s| - |left|;
    j := i + |r|;
    assert r == left[..|r|];
    assert left[..|r|] == s[i..j];
    forall k | j <= k < |s| ensures drop(s[k]) {
      assert s[k] == left[k - i];
    }
  }

  /** Strip never lengthens, leaves no dropped character at either end, adds
      no character, leaves alone a string with nothing to drop at its ends,
      and empties exactly the strings made only of dropped characters. */
  lemma StripTrimsEnds(s: string, drop: char -> bool)
    ensures var r := Strip(s, drop);
      && |r| <= |s|
      && (r == [] || (!drop(r[0]) && !drop(r[|r| - 1])))
      && (forall c :: c in r ==> c in s)
      && (s == [] || (!drop(s[0]) && !drop(s[|s| - 1])) ==> r == s)
      && (r == [] <==> forall k :: 0 <= k < |s| ==> drop(s[k]))
  {
    var i, j := StripIsSlice(s, drop);
    var r := s[i..j];
    forall c | c in r ensures c in s {
      var k :| 0 <= k < |r| && r[k] == c;
      assert s[i + k] == c;
    }
    if s != [] && !drop(s[0]) && !drop(s[|s| - 1]) {
      assert i == 0 && j == |s|;
      assert r == s;
    }
  }

  /** Keeps exactly the characters satisfying `keep`, in their original order. */
  function Filter(s: string, keep: char -> bool): (r: string)
    ensures |r| <= |s|
    ensures forall k :: 0 <= k < |r| ==> keep(r[k])
    ensures forall c :: c in r <==> c in s && keep(c)
    ensures (forall k :: 0 <= k < |s| ==> keep(s[k])) ==> r == s
  {
    if s == [] then []
    else
      var rest := Filter(s[1..], keep);
      assert forall c :: c in s <==> c == s[0] || c in s[1..];
      if keep(s[0]) then [s[0]] + rest else rest
  }

  /** Filtering one character keeps it exactly when it qualifies; together with
      FilterConcat and Filter("") == "" this pins the result down completely,
      order and multiplicity included. */
  lemma FilterSingle(c: char, keep: char -> bool)
    ensures Filter([c], keep) == if keep(c) then [c] else []
  {
    assert [c][1..] == [];
  }

  /** Filtering distributes over concatenation: the kept characters of `a`
      come first, in their order, then those of `b`. */
  lemma {:induction false} FilterConcat(a: string, b: string, keep: char -> bool)
    ensures Filter(a + b, keep) == Filter(a, keep) + Filter(b, keep)
  {
    if a == [] {
      assert a + b == b;
    } else {
      assert (a + b)[0] == a[0];
      assert (a + b)[1..] == a[1..] + b;
      FilterConcat(a[1..], b, keep);
    }
  }

  /** Nothing is kept from a string none of whose characters qualifies. */
  lemma {:induction false} FilterNone(s: string, keep: char -> bool)
    requires forall k :: 0 <= k < |s| ==> !keep(s[k])
    ensures Filter(s, keep) == []
  {
    if s != [] {
      assert !keep(s[0]);
      FilterNone(s[1..], keep);
    }
  }

  /** ASCII case mapping of one character. */
  function LowerChar(c: char): char
  {
    if 'A' <= c <= 'Z' then (c as int - 'A' as int + 'a' as int) as char else c
  }

  /** Python's s.lower(), restricted to the ASCII letters. */
  function Lower(s: string): (r: string)
    ensures |r| == |s|
    ensures forall k :: 0 <= k < |s| ==> r[k] == LowerChar(s[k])
    ensures forall k :: 0 <= k < |r| ==> !('A' <= r[k] <= 'Z')
  {
    seq(|s|, k requires 0 <= k < |s| => LowerChar(s[k]))
  }

  /** Python's s.replace(a, b) for one-character a and b. */
  function ReplaceChar(s: string, a: char, b: char): (r: string)
    ensures |r| == |s|
    ensures forall k :: 0 <= k < |s| ==> r[k] == if s[k] == a then b else s[k]
    ensures a != b ==> a !in r
  {
    seq(|s|, k requires 0 <= k < |s| => if s[k] == a then b else s[k])
  }

  /** Python's s.find(c): the first index of c, or -1. */
  function Find(s: string, c: char): (i: int)
    ensures -1 <= i < |s|
    ensures i == -1 <==> c !in s
    ensures i >= 0 ==> s[i] == c
    ensures forall k :: 0 <= k < i ==> s[k] != c
  {
    if s == [] then -1
    else if s[0] == c then 0
    else
      var j := Find(s[1..], c);
      if j < 0 then -1 else j + 1
  }

  /** Python's s.rfind(c): the last index of c, or -1. */
  function RFind(s: string, c: char): (i: int)
    ensures -1 <= i < |s|
    ensures i == -1 <==> c !in s
    ensures i >= 0 ==> s[i] == c
    ensures forall k :: i < k < |s| ==> s[k] != c
  {
    if s == [] then -1
    else if s[|s| - 1] == c then |s| - 1
    else RFind(s[..|s| - 1], c)
  }

  /** The first index whose character satisfies `stop`, or |s| when none does. */
  function FirstWhere(s: string, stop: char -> bool): (i: nat)
    ensures i <= |s|
    ensures i < |s| ==> stop(s[i])
    ensures forall k :: 0 <= k < i ==> !stop(s[k])
  {
    if s == [] || stop(s[0]) then 0 else 1 + FirstWhere(s[1..], stop)
  }

  /** Python's s.split(c, 1)[0]: everything before the first c (all of s if none). */
  function Before(s: string, c: char): (r: string)
    ensures c in s ==> r == s[..Find(s, c)]
    ensures c !in s ==> r == s
    ensures c !in r
  {
    var i := Find(s, c);
    if i < 0 then s else s[..i]
  }
}
