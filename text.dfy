/** String operations of the Python 2 built-ins the location plug-in relies on:
    `str.find`, `str.split`, `str.join`, `str.isdigit` and clamped slicing. */
module Text {

  /** `s.find(c)`: the index of the first occurrence of `c` in `s`, or -1. */
  function Find(s: string, c: char): (k: int)
    ensures k == -1 <==> c !in s
    ensures k != -1 ==> 0 <= k < |s| && s[k] == c && c !in s[..k]
  {
    if |s| == 0 then -1
    else if s[0] == c then 0
    else
      var k := Find(s[1..], c);
      if k == -1 then -1 else k + 1
  }

  /** `s.split(d)`: the maximal `d`-free pieces of `s`, in order; empty pieces are kept. */
  function Split(s: string, d: char): (parts: seq<string>)
    ensures |parts| >= 1
    ensures forall i :: 0 <= i < |parts| ==> d !in parts[i]
    decreases |s|
  {
    var k := Find(s, d);
    if k == -1 then [s] else [s[..k]] + Split(s[k + 1..], d)
  }

  /** `d.join(parts)`: the pieces with one `d` between neighbours. */
  function Join(parts: seq<string>, d: char): string
  {
    if |parts| == 0 then ""
    else if |parts| == 1 then parts[0]
    else parts[0] + [d] + Join(parts[1..], d)
  }

  /** Number of occurrences of `c` in `s`. */
  function Occurrences(s: string, c: char): nat
  {
    multiset(s)[c]
  }

  /** `s[:n]` in Python: never out of range, shorter than `n` at the end of `s`. */
  function Take(s: string, n: nat): (t: string)
    ensures |t| <= n && t <= s
    ensures n <= |s| ==> |t| == n
    ensures n > |s| ==> t == s
  {
    if n <= |s| then s[..n] else s
  }

  /** `s[n:]` in Python: empty once `n` is past the end of `s`. */
  function Drop(s: string, n: nat): (t: string)
    ensures Take(s, n) + t == s
  {
    if n <= |s| then s[n..] else ""
  }

  /** `s[i:j]` in Python, for `i <= j`. */
  function Slice(s: string, i: nat, j: nat): (t: string)
    requires i <= j
    ensures |t| <= j - i
    ensures j <= |s| ==> t == s[i..j]
    ensures i <= |s| < j ==> t == s[i..]
    ensures |s| < i ==> t == ""
  {
    Take(Drop(s, i), j - i)
  }

  predicate IsDigit(c: char)
  {
    '0' <= c <= '9'
  }

  /** `s.isdigit()` on a Python 2 byte string: non-empty and every character a decimal digit. */
  predicate IsDigits(s: string)
  {
    |s| > 0 && forall i :: 0 <= i < |s| ==> IsDigit(s[i])
  }

  // ---------------------------------------------------------------------------
  // Lemmas: split and join are inverse to each other, and split yields one
  // piece more than there are delimiters.

  /** Joining the pieces of a split gives back the string. */
  lemma {:induction false} JoinSplit(s: string, d: char)
    ensures Join(Split(s, d), d) == s
    decreases |s|
  {
    var k := Find(s, d);
    if k != -1 {
      var rest := s[k + 1..];
      JoinSplit(rest, d);
      var tail := Split(rest, d);
      assert Split(s, d) == [s[..k]] + tail;
      assert |tail| >= 1;
      assert ([s[..k]] + tail)[1..] == tail;
      assert s == s[..k] + [d] + rest;
    }
  }

  lemma FindAfterDelimiterFree(a: string, d: char, b: string)
    requires d !in a
    ensures Find(a + [d] + b, d) == |a|
    decreases |a|
  {
    if |a| > 0 {
      assert (a + [d] + b)[1..] == a[1..] + [d] + b;
      FindAfterDelimiterFree(a[1..], d, b);
    }
  }

  /** Splitting the join of delimiter-free pieces gives back the pieces. */
  lemma {:induction false} SplitJoin(parts: seq<string>, d: char)
    requires |parts| >= 1
    requires forall i :: 0 <= i < |parts| ==> d !in parts[i]
    ensures Split(Join(parts, d), d) == parts
    decreases |parts|
  {
    if |parts| == 1 {
      assert Join(parts, d) == parts[0];
      assert Find(parts[0], d) == -1;
      assert Split(parts[0], d) == [parts[0]];
    } else {
      var head, tail := parts[0], parts[1..];
      var rest := Join(tail, d);
      var s := head + [d] + rest;
      assert Join(parts, d) == s;
      FindAfterDelimiterFree(head, d, rest);
      assert s[..|head|] == head;
      assert s[|head| + 1..] == rest;
      assert Split(s, d) == [head] + Split(rest, d);
      SplitJoin(tail, d);
      assert parts == [head] + tail;
    }
  }

  /** A string with `n` delimiters splits into `n + 1` pieces. */
  lemma {:induction false} SplitCount(s: string, d: char)
    ensures |Split(s, d)| == Occurrences(s, d) + 1
    decreases |s|
  {
    var k := Find(s, d);
    if k != -1 {
      var rest := s[k + 1..];
      SplitCount(rest, d);
      assert s == s[..k] + [d] + rest;
      assert multiset(s) == multiset(s[..k]) + multiset{d} + multiset(rest);
      assert multiset(s[..k])[d] == 0;
    } else {
      assert multiset(s)[d] == 0;
    }
  }

  /** Joining behind an empty first piece puts one delimiter in front. */
  lemma JoinBehindEmpty(parts: seq<string>, d: char)
    requires |parts| >= 1
    ensures Join([""] + parts, d) == [d] + Join(parts, d)
  {
  }
}
