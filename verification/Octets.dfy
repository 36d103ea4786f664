/** Octet strings and the searches the wire layer makes on them. */
module Octets {

  /** One character per octet. Nothing below looks above code 255. */
  type Bytes = string

  const CRLF: Bytes := "\r\n"

  /** The four octets that end a header block start at position `i` of `s`. */
  predicate DelimiterAt(s: Bytes, i: int) {
    && 0 <= i
    && i + 4 <= |s|
    && s[i] == '\r' && s[i + 1] == '\n' && s[i + 2] == '\r' && s[i + 3] == '\n'
  }

  /** The first delimiter at or after `from`, or -1: what `Buffer.indexOf` answers. */
  function FindDelimiter(s: Bytes, from: nat): (at: int)
    ensures at == -1 || (from <= at && DelimiterAt(s, at))
    ensures forall i {:trigger DelimiterAt(s, i)} ::
              from <= i && (at == -1 || i < at) ==> !DelimiterAt(s, i)
    decreases |s| - from
  {
    if from + 4 > |s| then -1
    else if DelimiterAt(s, from) then from
    else FindDelimiter(s, from + 1)
  }

  lemma FindIs(s: Bytes, at: nat)
    requires DelimiterAt(s, at)
    requires forall i {:trigger DelimiterAt(s, i)} :: 0 <= i < at ==> !DelimiterAt(s, i)
    ensures FindDelimiter(s, 0) == at
  {}

  /** Octets in front, none of them beginning a delimiter, shift the first delimiter. */
  lemma FindShifted(s: Bytes, t: Bytes, n: nat)
    requires forall i {:trigger DelimiterAt(s, i)} :: 0 <= i < n ==> !DelimiterAt(s, i)
    requires forall i {:trigger DelimiterAt(t, i)} :: 0 <= i ==> DelimiterAt(s, n + i) == DelimiterAt(t, i)
    requires FindDelimiter(t, 0) >= 0
    ensures FindDelimiter(s, 0) == n + FindDelimiter(t, 0)
  {
    var d := FindDelimiter(t, 0);
    forall i | 0 <= i < n + d ensures !DelimiterAt(s, i) {
      if i >= n {
        var j := i - n;
        assert !DelimiterAt(t, j);
      }
    }
    assert DelimiterAt(t, d);
    FindIs(s, n + d);
  }

  /** The first CR LF pair at or after `from`, or -1. */
  function FindCrlf(s: Bytes, from: nat): (at: int)
    ensures at == -1 || (from <= at && at + 2 <= |s| && s[at] == '\r' && s[at + 1] == '\n')
    ensures forall i | from <= i < (if at == -1 then |s| - 1 else at) :: !(s[i] == '\r' && s[i + 1] == '\n')
    decreases |s| - from
  {
    if from + 2 > |s| then -1
    else if s[from] == '\r' && s[from + 1] == '\n' then from
    else FindCrlf(s, from + 1)
  }

  /** The first position of `c`, or -1. */
  function IndexOf(s: Bytes, c: char): (at: int)
    ensures -1 <= at < |s|
    ensures at >= 0 ==> s[at] == c
    ensures forall i | 0 <= i < (if at == -1 then |s| else at) :: s[i] != c
  {
    IndexFrom(s, c, 0)
  }

  function IndexFrom(s: Bytes, c: char, from: nat): (at: int)
    ensures at == -1 || (from <= at < |s| && s[at] == c)
    ensures forall i | from <= i < (if at == -1 then |s| else at) :: s[i] != c
    decreases |s| - from
  {
    if from >= |s| then -1 else if s[from] == c then from else IndexFrom(s, c, from + 1)
  }

  lemma IndexOfFirst(s: Bytes, c: char, n: nat)
    requires n < |s| && s[n] == c
    requires forall i | 0 <= i < n :: s[i] != c
    ensures IndexOf(s, c) == n
  {}

  /** `split('\r\n')`: always at least one line. */
  function SplitLines(s: Bytes): (lines: seq<Bytes>)
    ensures |lines| >= 1
    decreases |s|
  {
    var at := FindCrlf(s, 0);
    if at == -1 then [s] else [s[..at]] + SplitLines(s[at + 2..])
  }

  /** `lines.join('\r\n')`. */
  function JoinLines(lines: seq<Bytes>): Bytes {
    if lines == [] then []
    else if |lines| == 1 then lines[0]
    else lines[0] + CRLF + JoinLines(lines[1..])
  }

  /** Joining undoes splitting. */
  lemma {:induction false} JoinSplit(s: Bytes)
    ensures JoinLines(SplitLines(s)) == s
    decreases |s|
  {
    var at := FindCrlf(s, 0);
    if at != -1 {
      JoinSplit(s[at + 2..]);
      assert s[..at] + CRLF + s[at + 2..] == s;
      assert SplitLines(s)[1..] == SplitLines(s[at + 2..]);
    }
  }

  /** Concatenation of a list of buffers. */
  function Concat(parts: seq<Bytes>): Bytes {
    if parts == [] then [] else parts[0] + Concat(parts[1..])
  }

  lemma Reassociate(a: Bytes, b: Bytes, c: Bytes)
    ensures (a + b) + c == a + (b + c)
  {}

  lemma TakeDrop(s: Bytes, k: nat)
    requires k <= |s|
    ensures s[..k] + s[k..] == s
  {}

  /** Octets accounted for behind a cut, together with those before it, are all the octets. */
  lemma Account(s: Bytes, k: nat, counted: Bytes, tail: Bytes)
    requires k <= |s| && counted + tail == s[k..]
    ensures (s[..k] + counted) + tail == s
  {
    Reassociate(s[..k], counted, tail);
    TakeDrop(s, k);
  }

  lemma TwoParts(s: Bytes, k: nat)
    requires k <= |s|
    ensures Concat([s[..k], s[k..]]) == s
  {
    var parts := [s[..k], s[k..]];
    assert parts[1..] == [s[k..]];
    assert Concat([s[k..]]) == s[k..] + Concat([]);
    TakeDrop(s, k);
  }

  lemma {:induction false} ConcatAppend(a: seq<Bytes>, b: seq<Bytes>)
    ensures Concat(a + b) == Concat(a) + Concat(b)
  {
    if a == [] {
      assert a + b == b;
    } else {
      assert (a + b)[1..] == a[1..] + b;
      ConcatAppend(a[1..], b);
    }
  }

  lemma ConcatSnoc(a: seq<Bytes>, last: Bytes)
    ensures Concat(a + [last]) == Concat(a) + last
  {
    ConcatAppend(a, [last]);
    assert Concat([last]) == last;
  }

  lemma TakeSnoc(parts: seq<Bytes>, n: nat)
    requires n < |parts|
    ensures Concat(parts[..n + 1]) == Concat(parts[..n]) + parts[n]
  {
    assert parts[..n + 1] == parts[..n] + [parts[n]];
    ConcatSnoc(parts[..n], parts[n]);
  }

  lemma ConcatOfPrefix(parts: seq<Bytes>, n: nat)
    requires n <= |parts|
    ensures Concat(parts[..n]) <= Concat(parts)
  {
    assert parts == parts[..n] + parts[n..];
    ConcatAppend(parts[..n], parts[n..]);
  }

  /** A search started past the last examined position finds what a search from 0 finds. */
  lemma FindResumes(s: Bytes, from: nat)
    requires forall i {:trigger DelimiterAt(s, i)} :: 0 <= i < from ==> !DelimiterAt(s, i)
    ensures FindDelimiter(s, from) == FindDelimiter(s, 0)
  {
    var a, b := FindDelimiter(s, from), FindDelimiter(s, 0);
    if a != -1 { assert DelimiterAt(s, a); }
    if b != -1 { assert DelimiterAt(s, b); }
  }

  /** More input moves a delimiter nowhere; a new one can only end in the new input. */
  lemma FindExtended(s: Bytes, more: Bytes)
    ensures FindDelimiter(s, 0) >= 0 ==> FindDelimiter(s + more, 0) == FindDelimiter(s, 0)
    ensures FindDelimiter(s, 0) == -1 ==>
              FindDelimiter(s + more, 0) == -1 || FindDelimiter(s + more, 0) + 3 >= |s|
  {
    var t := s + more;
    var a, b := FindDelimiter(s, 0), FindDelimiter(t, 0);
    forall i | i + 4 <= |s| ensures DelimiterAt(t, i) == DelimiterAt(s, i) {}
    if a != -1 { assert DelimiterAt(t, a); }
    if b != -1 { assert DelimiterAt(t, b); }
  }

  /** The first delimiter of a prefix is the first of the whole, if the prefix holds it. */
  lemma FindInPrefix(s: Bytes, k: nat)
    requires k <= |s|
    ensures var at := FindDelimiter(s, 0);
            FindDelimiter(s[..k], 0) == if at >= 0 && at + 4 <= k then at else -1
  {
    var p := s[..k];
    var a, b := FindDelimiter(p, 0), FindDelimiter(s, 0);
    forall i | i + 4 <= k ensures DelimiterAt(p, i) == DelimiterAt(s, i) {}
    if a != -1 { assert DelimiterAt(p, a); }
    if b != -1 { assert DelimiterAt(s, b); }
    if b != -1 && b + 4 <= k { assert DelimiterAt(p, b); }
  }
}
