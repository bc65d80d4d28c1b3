/** PHP's `substr($string, $start, $length)` for a non-negative `$length`,
    the only kind the shadow sync decoder passes. */
module PhpString {
  import opened Outcomes

  /** Where reading begins: a non-negative start is taken as is; a negative
      start counts back from the end of the string and is clamped at 0 when
      it reaches back past the beginning. */
  function StartIndex(len: nat, start: int): (k: nat)
    ensures start < 0 ==> k <= len
    ensures start < 0 ==> len - k <= -start
    ensures start < 0 && 0 < k ==> len - k == -start
  {
    if start >= 0 then start
    else if len + start >= 0 then len + start
    else 0
  }

  /** At most `length` characters of `s` from the resolved start index.
      A start past the end of the string gives `false` (`None`), as in PHP 5
      to 7; PHP 8 gives the empty string there instead. */
  function Substr<T>(s: seq<T>, start: int, length: nat): (r: Option<seq<T>>)
    ensures r.None? <==> start > |s|
    ensures r.Some? ==> |r.value| <= length
    ensures r.Some? ==> StartIndex(|s|, start) + |r.value| <= |s|
    ensures r.Some? ==> r.value == s[StartIndex(|s|, start)..StartIndex(|s|, start) + |r.value|]
    ensures (r.Some? && |r.value| == length) <==> StartIndex(|s|, start) + length <= |s|
  {
    var k := StartIndex(|s|, start);
    if k > |s| then None
    else if k + length <= |s| then Some(s[k..k + length])
    else Some(s[k..])
  }

  /** A window that lies inside the string is exactly that slice. */
  lemma SubstrInside<T>(s: seq<T>, start: nat, length: nat)
    requires start + length <= |s|
    ensures Substr(s, start, length) == Some(s[start..start + length])
  {
  }

  /** A negative start no further back than the beginning reads the same
      window as the equivalent non-negative start. */
  lemma SubstrFromEnd<T>(s: seq<T>, back: nat, length: nat)
    requires 0 < back <= |s|
    ensures Substr(s, -(back as int), length) == Substr(s, |s| - back, length)
  {
  }

  /** A negative start that reaches back past the beginning reads from index 0. */
  lemma SubstrClamped<T>(s: seq<T>, back: nat, length: nat)
    requires |s| < back
    ensures Substr(s, -(back as int), length) == Substr(s, 0, length)
  {
  }
}
