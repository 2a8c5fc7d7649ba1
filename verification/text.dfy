/** String helpers with the semantics of the JavaScript built-ins the source uses.
    Strings are sequences of `char`, which are Unicode scalar values; JavaScript strings are
    sequences of UTF-16 code units, and the two agree on text within the Basic Multilingual Plane. */
module Text {

  /** `s.split(c)` for a one-character separator: never empty, and no part holds the separator. */
  function Split(s: string, c: char): (parts: seq<string>)
    ensures |parts| >= 1
    ensures forall p <- parts :: c !in p
    decreases |s|
  {
    if s == [] then [[]]
    else
      var rest := Split(s[1..], c);
      if s[0] == c then [[]] + rest
      else [[s[0]] + rest[0]] + rest[1..]
  }

  /** `parts.join(c)`. */
  function Join(parts: seq<string>, c: char): string
    decreases |parts|
  {
    if |parts| == 0 then []
    else if |parts| == 1 then parts[0]
    else parts[0] + [c] + Join(parts[1..], c)
  }

  /** Joining the parts of a split restores the string. */
  lemma {:induction false} JoinSplit(s: string, c: char)
    ensures Join(Split(s, c), c) == s
    decreases |s|
  {
    if s != [] {
      var rest := Split(s[1..], c);
      JoinSplit(s[1..], c);
      if s[0] == c {
        assert Split(s, c) == [[]] + rest;
        assert ([[]] + rest)[1..] == rest;
      } else if |rest| == 1 {
        assert Split(s, c) == [[s[0]] + rest[0]];
      } else {
        assert Split(s, c) == [[s[0]] + rest[0]] + rest[1..];
        assert ([[s[0]] + rest[0]] + rest[1..])[1..] == rest[1..];
        assert Join(rest, c) == rest[0] + [c] + Join(rest[1..], c);
      }
    }
  }

  /** A string without the separator splits into itself. */
  lemma {:induction false} SplitNoSeparator(s: string, c: char)
    requires c !in s
    ensures Split(s, c) == [s]
    decreases |s|
  {
    if s != [] {
      SplitNoSeparator(s[1..], c);
      assert [s[0]] + s[1..] == s;
    }
  }

  /** Splitting at the first separator: the head is the text before it, the rest splits on its own. */
  lemma {:induction false} SplitAtFirst(a: string, c: char, b: string)
    requires c !in a
    ensures Split(a + [c] + b, c) == [a] + Split(b, c)
    decreases |a|
  {
    if a == [] {
      assert a + [c] + b == [c] + b;
      assert ([c] + b)[1..] == b;
    } else {
      SplitAtFirst(a[1..], c, b);
      assert (a + [c] + b)[1..] == a[1..] + [c] + b;
      assert [a[0]] + a[1..] == a;
    }
  }

  /** Splitting a join of separator-free parts gives the parts back. */
  lemma {:induction false} SplitJoin(parts: seq<string>, c: char)
    requires |parts| >= 1
    requires forall p <- parts :: c !in p
    ensures Split(Join(parts, c), c) == parts
    decreases |parts|
  {
    if |parts| == 1 {
      SplitNoSeparator(parts[0], c);
    } else {
      assert parts[0] in parts;
      SplitJoin(parts[1..], c);
      SplitAtFirst(parts[0], c, Join(parts[1..], c));
      assert [parts[0]] + parts[1..] == parts;
    }
  }

  /** When the separator occurs, the first part is the text before its first occurrence and the
      remaining parts, re-joined, are the text after it. */
  lemma {:induction false} SplitFirst(s: string, c: char)
    requires c in s
    ensures s == Split(s, c)[0] + [c] + Join(Split(s, c)[1..], c)
    decreases |s|
  {
    if s[0] == c {
      SplitFirstAtHead(s, c);
    } else {
      assert c in s[1..] by {
        var i :| 0 <= i < |s| && s[i] == c;
        assert s[1..][i - 1] == c;
      }
      SplitFirst(s[1..], c);
      SplitFirstPastHead(s, c);
    }
  }

  lemma SplitFirstAtHead(s: string, c: char)
    requires s != [] && s[0] == c
    ensures s == Split(s, c)[0] + [c] + Join(Split(s, c)[1..], c)
  {
    var rest := Split(s[1..], c);
    JoinSplit(s[1..], c);
    assert Split(s, c) == [[]] + rest;
    assert ([[]] + rest)[1..] == rest;
    assert s == [c] + s[1..];
  }

  lemma SplitFirstPastHead(s: string, c: char)
    requires s != [] && s[0] != c
    requires s[1..] == Split(s[1..], c)[0] + [c] + Join(Split(s[1..], c)[1..], c)
    ensures s == Split(s, c)[0] + [c] + Join(Split(s, c)[1..], c)
  {
    var rest := Split(s[1..], c);
    var parts := Split(s, c);
    assert parts == [[s[0]] + rest[0]] + rest[1..];
    assert parts[0] == [s[0]] + rest[0];
    assert parts[1..] == rest[1..];
    assert s == [s[0]] + s[1..];
  }

  /** The shape of a split as the head and the re-joined tail, with and without the separator. */
  lemma SplitHeadTail(s: string, c: char)
    ensures c in s ==> s == Split(s, c)[0] + [c] + Join(Split(s, c)[1..], c)
    ensures c !in s ==> Split(s, c) == [s]
  {
    if c in s { SplitFirst(s, c); } else { SplitNoSeparator(s, c); }
  }

  /** Appending a part to a non-empty join adds one separator. */
  lemma {:induction false} JoinSnoc(parts: seq<string>, x: string, c: char)
    requires |parts| >= 1
    ensures Join(parts + [x], c) == Join(parts, c) + [c] + x
    decreases |parts|
  {
    if |parts| > 1 {
      JoinSnoc(parts[1..], x, c);
      assert (parts + [x])[1..] == parts[1..] + [x];
    }
  }

  /** `s.startsWith(prefix)`. */
  predicate StartsWith(s: string, prefix: string) {
    |prefix| <= |s| && s[..|prefix|] == prefix
  }

  /** `s.endsWith(suffix)`. */
  predicate EndsWith(s: string, suffix: string) {
    |suffix| <= |s| && s[|s| - |suffix|..] == suffix
  }

  /** A string ends with its own last part. */
  lemma EndsWithConcat(a: string, b: string)
    ensures EndsWith(a + b, b)
  {
    assert (a + b)[|a + b| - |b|..] == b;
  }

  /** Number of occurrences of `c` in `s`. */
  function Count(s: string, c: char): nat
    decreases |s|
  {
    if s == [] then 0 else (if s[0] == c then 1 else 0) + Count(s[1..], c)
  }

  /** `toLowerCase` on one character, restricted to the ASCII letters. */
  function LowerChar(c: char): char {
    if 'A' <= c <= 'Z' then (c as int + 32) as char else c
  }

  /** `s.toLowerCase()` as an ASCII mapping: same length, and spaces stay exactly where they were. */
  function Lower(s: string): (r: string)
    ensures |r| == |s|
    ensures forall i :: 0 <= i < |s| ==> (r[i] == ' ' <==> s[i] == ' ')
    ensures forall i :: 0 <= i < |s| ==> !('A' <= r[i] <= 'Z')
  {
    seq(|s|, i requires 0 <= i < |s| => LowerChar(s[i]))
  }
}
