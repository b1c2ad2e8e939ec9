/**
 The small computations of `Main`: normalising the output path argument,
 the size of the hashing pool, and the megabyte figures of the summary line.
 */
module Helpers {

  /** Java's `String.startsWith` for a one-character prefix. */
  predicate StartsWithChar(s: string, c: char)
  {
    |s| > 0 && s[0] == c
  }

  /** The output argument starts with `/` or `.`. */
  predicate Anchored(s: string)
  {
    StartsWithChar(s, '/') || StartsWithChar(s, '.')
  }

  /**
   The output path as `main` uses it: an argument that starts with neither
   `/` nor `.` (the empty one included) gets `./` in front.
   */
  function NormalizeOutputPath(arg: string): (r: string)
    ensures Anchored(r)
    ensures Anchored(arg) ==> r == arg
    ensures !Anchored(arg) ==> r == "./" + arg
  {
    if !StartsWithChar(arg, '/') && !StartsWithChar(arg, '.') then "./" + arg else arg
  }

  /** Normalising twice gives what normalising once gives. */
  lemma NormalizeIdempotent(arg: string)
    ensures NormalizeOutputPath(NormalizeOutputPath(arg)) == NormalizeOutputPath(arg)
  {
  }

  /** The cap on the hashing pool. */
  const ThreadCap: int := 8

  /** `getMaxThreads`: the available processors, but never more than 8. */
  function MaxThreads(availableProcessors: int): (r: int)
    ensures r <= ThreadCap && r <= availableProcessors
    ensures r == ThreadCap || r == availableProcessors
    ensures availableProcessors >= 1 ==> r >= 1
  {
    if availableProcessors > ThreadCap then ThreadCap else availableProcessors
  }

  /** Java's `/` on `long`: the quotient truncated toward zero. */
  function JavaDiv(a: int, b: int): (q: int)
    requires b != 0
    ensures a >= 0 && b > 0 ==> q == a / b
    ensures (a >= 0) == (b > 0) ==> q >= 0
    ensures (a >= 0) != (b > 0) ==> q <= 0
    ensures (if q < 0 then -q else q) == (if a < 0 then -a else a) / (if b < 0 then -b else b)
  {
    var x, y := (if a < 0 then -a else a), (if b < 0 then -b else b);
    QuotientNonNegative(x, y);
    if (a >= 0) == (b > 0) then x / y else -(x / y)
  }

  /** A non-negative number over a positive one gives a non-negative quotient. */
  lemma QuotientNonNegative(x: int, y: int)
    requires x >= 0 && y > 0
    ensures x / y >= 0
  {
  }

  /** `dataRead / 1000L / 1000L`: the bytes read, in whole (decimal) megabytes. */
  function MbRead(dataRead: int): (mb: int)
    ensures dataRead >= 0 ==> mb == dataRead / 1000000
    ensures dataRead >= 0 ==> 0 <= mb * 1000000 <= dataRead < (mb + 1) * 1000000
  {
    JavaDiv(JavaDiv(dataRead, 1000), 1000)
  }

  /**
   The throughput of the summary line: `mbRead` itself when at most one
   second has passed, otherwise `mbRead` over the whole seconds spent. The
   divisor is then at least 1, so there is no division by zero, and the
   figure never exceeds `mbRead`.
   */
  function MbPerSecond(mbRead: int, msSpent: int): (r: int)
    ensures msSpent <= 1000 ==> r == mbRead
    ensures mbRead >= 0 ==> 0 <= r <= mbRead
    ensures mbRead >= 0 && msSpent > 1000 ==> r * (msSpent / 1000) <= mbRead < (r + 1) * (msSpent / 1000)
  {
    if msSpent > 1000 then
      var seconds := JavaDiv(msSpent, 1000);
      assert seconds >= 1;
      QuotientAtMost(mbRead, seconds);
      JavaDiv(mbRead, seconds)
    else mbRead
  }

  /** Dividing a non-negative number by a positive one never makes it larger. */
  lemma QuotientAtMost(a: int, b: int)
    requires b >= 1
    ensures a >= 0 ==> 0 <= JavaDiv(a, b) <= a
  {
    if a >= 0 {
      var q := JavaDiv(a, b);
      assert q * b >= q * 1;
    }
  }
}
