/**
 * The array primitives the decorator is built from: JavaScript's
 * `Array.prototype.slice`, `reverse` and `findIndex`, and the two private
 * helpers `last` and `trimEnd` that src/index.js and src/get_last_element.js
 * each define (the two copies are identical, so they are modelled once).
 */
module Lists {
  import opened Wrappers

  /**
   * Normalises a relative index as `slice` does (ECMA-262, section 23.1.3.28):
   * a negative index counts from the end, and the result is clamped to [0, len].
   */
  function RelativeIndex(k: int, len: nat): (r: nat)
    ensures r <= len
    ensures 0 <= k <= len ==> r == k
  {
    if k < 0 then (if len + k < 0 then 0 else len + k)
    else if k > len then len
    else k
  }

  /** `s.slice(start, end)`: the run of `s` between the two normalised indices, or nothing. */
  function Slice<T>(s: seq<T>, start: int, end: int): (r: seq<T>)
    ensures |r| <= |s|
    ensures 0 <= start <= end <= |s| ==> r == s[start..end]
    ensures 0 <= end <= start <= |s| ==> r == []
  {
    var from, to := RelativeIndex(start, |s|), RelativeIndex(end, |s|);
    if from <= to then s[from..to] else []
  }

  /** `last(list)`: the final item, or nothing for an empty list. */
  function Last<T>(list: seq<T>): (r: Option<T>)
    ensures r.None? <==> list == []
    ensures r.Some? ==> r.value == list[|list| - 1]
  {
    if |list| == 0 then None else Some(list[|list| - 1])
  }

  /**
   * `trimEnd(list, n)`: `list.slice(0, list.length - n)`. For `0 <= n <= |list|`
   * this drops the last `n` items; a larger `n` makes the end index negative,
   * which `slice` counts from the end again.
   */
  function TrimEnd<T>(list: seq<T>, n: int := 1): (r: seq<T>)
    ensures r <= list
    ensures 0 <= n <= |list| ==> r == list[..|list| - n] && |r| == |list| - n
    ensures n <= 0 ==> r == list
    ensures n > |list| ==> |r| == if 2 * |list| - n < 0 then 0 else 2 * |list| - n
  {
    Slice(list, 0, |list| - n)
  }

  /** `[...list].reverse()`: a reversed copy. */
  function Reverse<T>(s: seq<T>): (r: seq<T>)
    ensures |r| == |s|
    ensures forall i {:trigger r[i]} :: 0 <= i < |s| ==> r[i] == s[|s| - 1 - i]
  {
    if s == [] then [] else Reverse(s[1..]) + [s[0]]
  }

  /** `s.findIndex(p)`: the first index whose item satisfies `p`, or -1. */
  function FindIndex<T>(s: seq<T>, p: T -> bool): (r: int)
    ensures -1 <= r < |s|
    ensures r >= 0 ==> p(s[r]) && forall j :: 0 <= j < r ==> !p(s[j])
    ensures r == -1 ==> forall j :: 0 <= j < |s| ==> !p(s[j])
  {
    if s == [] then -1
    else if p(s[0]) then 0
    else var k := FindIndex(s[1..], p); if k == -1 then -1 else k + 1
  }

  /** What `last` and `trimEnd` are used for together: they split a non-empty list at its final item. */
  lemma TrimEndLast<T>(list: seq<T>)
    requires list != []
    ensures TrimEnd(list) + [Last(list).value] == list
  {
  }

  /** The documented examples of `last` and `trimEnd`. */
  lemma LastTrimEndExamples()
    ensures Last([1, 2, 3, 4, 5]) == Some(5)
    ensures Last<int>([]) == None
    ensures TrimEnd(['a', 'b', 'c', 'd', 'e'], 1) == ['a', 'b', 'c', 'd']
    ensures TrimEnd(['a', 'b', 'c', 'd', 'e'], 2) == ['a', 'b', 'c']
    ensures TrimEnd(['a', 'b', 'c', 'd', 'e']) == ['a', 'b', 'c', 'd']
  {
    assert ['a', 'b', 'c', 'd', 'e'][..4] == ['a', 'b', 'c', 'd'];
    assert ['a', 'b', 'c', 'd', 'e'][..3] == ['a', 'b', 'c'];
  }
}
