/** Go strings as byte sequences, and the two `strings` package operations
    the handlers use: `strings.Join` and `strings.Replace(s, old, new, -1)`. */
module Bytes {

  /** One byte of a Go string, written as the character with that code so that
      Go string literals can be written as Dafny string literals. Comparing two
      bytes compares their codes, as Go does. */
  type byte = c: char | c as int < 256 witness ' '

  /** A Go `string`: `len` counts its bytes, indexing yields bytes. */
  type Bytes = seq<byte>

  /** Sum of the lengths of all parts. */
  function TotalLength(parts: seq<Bytes>): nat
  {
    if |parts| == 0 then 0 else |parts[0]| + TotalLength(parts[1..])
  }

  /** `strings.Join(parts, sep)`: the parts in order, with `sep` between each
      adjacent pair and nowhere else. */
  function Join(parts: seq<Bytes>, sep: Bytes): (r: Bytes)
    ensures |parts| > 0 ==> parts[0] <= r
    ensures |parts| > 1 ==> parts[0] + sep <= r
  {
    if |parts| == 0 then []
    else if |parts| == 1 then parts[0]
    else parts[0] + sep + Join(parts[1..], sep)
  }

  /** The length of the joined string is the total length of the parts plus
      one separator length for each adjacent pair. */
  lemma {:induction false} JoinLength(parts: seq<Bytes>, sep: Bytes)
    requires |parts| > 0
    ensures |Join(parts, sep)| == TotalLength(parts) + (|parts| - 1) * |sep|
  {
    if |parts| > 1 {
      JoinLength(parts[1..], sep);
    }
  }

  /** Joining a concatenation is joining each half and putting one separator
      between the two results. */
  lemma {:induction false} JoinAppend(a: seq<Bytes>, b: seq<Bytes>, sep: Bytes)
    requires |a| > 0 && |b| > 0
    ensures Join(a + b, sep) == Join(a, sep) + sep + Join(b, sep)
  {
    if |a| == 1 {
      assert (a + b)[1..] == b;
    } else {
      assert (a + b)[1..] == a[1..] + b;
      JoinAppend(a[1..], b, sep);
    }
  }

  /** `pat` occurs in `s` starting at index `i`. */
  predicate OccursAt(s: Bytes, pat: Bytes, i: nat)
  {
    i + |pat| <= |s| && s[i..i + |pat|] == pat
  }

  /** `pat` occurs somewhere in `s`. */
  predicate Contains(s: Bytes, pat: Bytes)
  {
    exists i: nat | i <= |s| :: OccursAt(s, pat, i)
  }

  /** `strings.Replace(s, pat, repl, -1)` for a non-empty `pat`: scanning from
      the left, every occurrence of `pat` is replaced by `repl` and scanning
      resumes after it, so occurrences never overlap. */
  function Replace(s: Bytes, pat: Bytes, repl: Bytes): (r: Bytes)
    requires |pat| > 0
    ensures |repl| <= |pat| ==> |r| <= |s|
    ensures |repl| == |pat| ==> |r| == |s|
    decreases |s|
  {
    if |s| < |pat| then s
    else if s[..|pat|] == pat then repl + Replace(s[|pat|..], pat, repl)
    else [s[0]] + Replace(s[1..], pat, repl)
  }

  /** Replacing a pattern by itself changes nothing. */
  lemma {:induction false} ReplaceSelf(s: Bytes, pat: Bytes)
    requires |pat| > 0
    ensures Replace(s, pat, pat) == s
    decreases |s|
  {
    if |s| < |pat| {
    } else if s[..|pat|] == pat {
      ReplaceSelf(s[|pat|..], pat);
      assert s == s[..|pat|] + s[|pat|..];
    } else {
      ReplaceSelf(s[1..], pat);
      assert s == [s[0]] + s[1..];
    }
  }

  /** When no occurrence of `pat` in `a + b` starts inside `a`, replacing in
      `a + b` leaves `a` as it is and replaces in `b` alone. */
  lemma {:induction false} ReplaceAppend(a: Bytes, b: Bytes, pat: Bytes, repl: Bytes)
    requires |pat| > 0
    requires forall i: nat :: i < |a| ==> !OccursAt(a + b, pat, i)
    ensures Replace(a + b, pat, repl) == a + Replace(b, pat, repl)
    decreases |a|
  {
    var s := a + b;
    if |a| == 0 {
      assert s == b;
    } else if |s| < |pat| {
    } else {
      assert !OccursAt(s, pat, 0);
      assert s[..|pat|] == s[0..0 + |pat|];
      assert s[1..] == a[1..] + b;
      forall i: nat | i < |a[1..]| ensures !OccursAt(a[1..] + b, pat, i) {
        assert !OccursAt(s, pat, i + 1);
        if i + |pat| <= |a[1..] + b| {
          assert (a[1..] + b)[i..i + |pat|] == s[i + 1..i + 1 + |pat|];
        }
      }
      ReplaceAppend(a[1..], b, pat, repl);
      assert a == [a[0]] + a[1..];
    }
  }

  /** A string in which `pat` does not occur is left unchanged. */
  lemma ReplaceAbsent(s: Bytes, pat: Bytes, repl: Bytes)
    requires |pat| > 0 && !Contains(s, pat)
    ensures Replace(s, pat, repl) == s
  {
    var none: Bytes := [];
    assert s + none == s;
    forall i: nat | i < |s| ensures !OccursAt(s + none, pat, i) {
      assert !OccursAt(s, pat, i);
    }
    ReplaceAppend(s, none, pat, repl);
  }
}
