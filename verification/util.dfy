/** Small shared vocabulary: an optional value and the handful of Python
    string operations the crawler relies on (`str.endswith`, `in` on
    strings, `str.lower`/`str.upper` restricted to ASCII). */
module Util {

  datatype Option<+T> = None | Some(value: T)

  /** Python's `s.endswith(suffix)`. */
  predicate EndsWith(s: string, suffix: string) {
    |suffix| <= |s| && s[|s| - |suffix|..] == suffix
  }

  /** Python's `part in s` for strings: `part` occurs as a contiguous substring. */
  predicate Contains(s: string, part: string)
    decreases |s|
  {
    part <= s || (|s| > 0 && Contains(s[1..], part))
  }

  /** A substring witnessed at offset `i` is found by `Contains`. */
  lemma {:induction false} ContainsAt(s: string, part: string, i: nat)
    requires i + |part| <= |s|
    requires s[i..i + |part|] == part
    ensures Contains(s, part)
    decreases i
  {
    if i == 0 {
      assert s[..|part|] == part;
    } else {
      assert s[1..][i - 1..i - 1 + |part|] == s[i..i + |part|];
      ContainsAt(s[1..], part, i - 1);
    }
  }

  function LowerChar(c: char): char {
    if 'A' <= c <= 'Z' then (c as int + 32) as char else c
  }

  function UpperChar(c: char): char {
    if 'a' <= c <= 'z' then (c as int - 32) as char else c
  }

  /** `str.lower()` on the ASCII range; other characters are kept. */
  function Lower(s: string): (r: string)
    ensures |r| == |s|
    ensures forall i :: 0 <= i < |s| ==> r[i] == LowerChar(s[i])
  {
    seq(|s|, i requires 0 <= i < |s| => LowerChar(s[i]))
  }

  /** `str.upper()` on the ASCII range; other characters are kept. */
  function Upper(s: string): (r: string)
    ensures |r| == |s|
    ensures forall i :: 0 <= i < |s| ==> r[i] == UpperChar(s[i])
  {
    seq(|s|, i requires 0 <= i < |s| => UpperChar(s[i]))
  }

  /** Python's `s.rfind(c)` for a single character: the last index holding
      `c`, or -1 when there is none. */
  function LastIndexOf(s: string, c: char): (r: int)
    ensures -1 <= r < |s|
    ensures r >= 0 ==> s[r] == c
    ensures forall j :: r < j < |s| ==> s[j] != c
    decreases |s|
  {
    if |s| == 0 then -1
    else if s[|s| - 1] == c then |s| - 1
    else LastIndexOf(s[..|s| - 1], c)
  }

  /** Python's `s[1:]`, which is empty rather than an error on "". */
  function DropFirst(s: string): (r: string)
    ensures |s| > 0 ==> s == [s[0]] + r
    ensures |s| == 0 ==> r == ""
  {
    if |s| == 0 then "" else s[1..]
  }

  /** The positions of `xs` whose element satisfies `p`. */
  ghost function Positions<T>(xs: seq<T>, p: T -> bool): set<int> {
    set i | 0 <= i < |xs| && p(xs[i])
  }

  /** Counting positions element by element: the head counts once if it
      satisfies `p`, and the tail's positions shift by one. */
  lemma PositionsSplit<T>(xs: seq<T>, p: T -> bool)
    requires |xs| > 0
    ensures |Positions(xs, p)| == (if p(xs[0]) then 1 else 0) + |Positions(xs[1..], p)|
  {
    var rest := Positions(xs[1..], p);
    var shifted := set i | i in rest :: i + 1;
    assert Positions(xs, p) - {0} == shifted by {
      forall i | i in Positions(xs, p) && i != 0 ensures i in shifted {
        assert xs[1..][i - 1] == xs[i];
        assert i - 1 in rest;
      }
    }
    ShiftedSize(rest);
  }

  /** Shifting a set of positions by one keeps its size. */
  lemma {:induction false} ShiftedSize(s: set<int>)
    ensures |set i | i in s :: i + 1| == |s|
    decreases |s|
  {
    if exists x :: x in s {
      var x :| x in s;
      ShiftedSize(s - {x});
      assert forall i :: i in s <==> i == x || i in s - {x};
      assert (set i | i in s :: i + 1) == (set i | i in s - {x} :: i + 1) + {x + 1};
    } else {
      assert s == {};
    }
  }
}
