/**
 * Count, the counting option type: `-vvv` raises it three times, `--verbose=5` sets it.
 * Count is an int, so it is 64 bits wide and its increment wraps around.
 */
module Counting {
  import opened Wrappers
  import opened Literals

  /** The count after one Scan: the first token when it is an integer, otherwise the old count
      plus one, wrapped to 64 bits. */
  function NextCount(count: int, s: seq<string>): (r: int)
    requires MinInt64 <= count <= MaxInt64
    ensures MinInt64 <= r <= MaxInt64
    ensures |s| > 0 && ParseInt(s[0]).Some? ==> r == ParseInt(s[0]).value
    ensures (|s| == 0 || ParseInt(s[0]).None?) && count < MaxInt64 ==> r == count + 1
    ensures (|s| == 0 || ParseInt(s[0]).None?) && count == MaxInt64 ==> r == MinInt64
  {
    if |s| > 0 && ParseInt(s[0]).Some? then ParseInt(s[0]).value
    else WrapSigned(count + 1, 64)
  }

  /** `n` scans without a number, starting from zero, count to `n`. */
  lemma {:induction false} CountsOccurrences(n: nat)
    requires n <= MaxInt64
    ensures Repeat(0, n) == n
  {
    if n > 0 {
      CountsOccurrences(n - 1);
    }
  }

  /** One scan without a number followed by `n` more is `n + 1` of them. */
  lemma {:induction false} RepeatFront(count: int, n: nat)
    requires MinInt64 <= count <= MaxInt64
    ensures Repeat(NextCount(count, []), n) == Repeat(count, n + 1)
  {
    if n > 0 {
      RepeatFront(count, n - 1);
    }
  }

  /** The count after `n` scans of no token. */
  function Repeat(count: int, n: nat): (r: int)
    requires MinInt64 <= count <= MaxInt64
    ensures MinInt64 <= r <= MaxInt64
  {
    if n == 0 then count else NextCount(Repeat(count, n - 1), [])
  }

  class Count {
    var value: int

    ghost predicate Valid()
      reads this
    {
      MinInt64 <= value <= MaxInt64
    }

    constructor (value: int)
      requires MinInt64 <= value <= MaxInt64
      ensures Valid() && this.value == value
    {
      this.value := value;
    }

    /** Count.Scan: takes the first token as the new count when it is an integer, otherwise
        counts one more occurrence. It never consumes a token and never fails. */
    method Scan(s: seq<string>) returns (n: nat)
      requires Valid()
      modifies this
      ensures Valid() && n == 0
      ensures value == NextCount(old(value), s)
    {
      if 0 < |s| {
        var i := ParseInt(s[0]);
        if i.Some? {
          value := i.value;
          return 0;
        }
      }
      value := WrapSigned(value + 1, 64);
      return 0;
    }
  }
}
