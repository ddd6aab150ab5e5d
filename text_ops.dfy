/**
 * The Python string operations the scanner relies on, written out so that
 * their edge cases are explicit: `sep.join(parts)`, `s.split(sep)` with a
 * one-character separator, `s.strip()` with no argument, and
 * `s.replace("\r\n", " ")`.
 */
module TextOps {

  /** Python's `str.isspace()` for one character: the characters `strip()` removes. */
  predicate IsSpace(c: char) {
    || ('\t' <= c <= '\r')
    || ('\U{1c}' <= c <= '\U{1f}')
    || c == ' ' || c == '\U{85}' || c == '\U{a0}' || c == '\U{1680}'
    || ('\U{2000}' <= c <= '\U{200a}')
    || c == '\U{2028}' || c == '\U{2029}' || c == '\U{202f}' || c == '\U{205f}' || c == '\U{3000}'
  }

  // ---------------------------------------------------------------------------
  // join

  /** `[sep].join(parts)`: the parts in order, one separator between neighbours. */
  function Join(parts: seq<string>, sep: char): (r: string)
    ensures |parts| > 0 ==> parts[0] <= r
  {
    if |parts| == 0 then ""
    else if |parts| == 1 then parts[0]
    else parts[0] + [sep] + Join(parts[1..], sep)
  }

  /** A joined text is empty exactly when there is nothing to join or the one part is empty. */
  lemma {:induction false} JoinEmptyIff(parts: seq<string>, sep: char)
    ensures Join(parts, sep) == "" <==> (|parts| == 0 || (|parts| == 1 && parts[0] == ""))
  {
    if |parts| > 1 {
      assert |Join(parts, sep)| >= |parts[0] + [sep]| > 0;
    }
  }

  /** Every part, and every separator between them, is counted once in the joined length. */
  lemma {:induction false} JoinLength(parts: seq<string>, sep: char)
    requires |parts| > 0
    ensures |Join(parts, sep)| == TotalLength(parts) + |parts| - 1
  {
    if |parts| > 1 {
      JoinLength(parts[1..], sep);
    }
  }

  function TotalLength(parts: seq<string>): nat {
    if |parts| == 0 then 0 else |parts[0]| + TotalLength(parts[1..])
  }

  // ---------------------------------------------------------------------------
  // split

  /** Number of occurrences of `c` in `s`. */
  function Occurrences(s: string, c: char): nat {
    if |s| == 0 then 0 else (if s[0] == c then 1 else 0) + Occurrences(s[1..], c)
  }

  /**
   * `s.split(sep)` for a one-character separator: never empty (`"".split(",")`
   * is `[""]`), one field more than there are separators, and no field holds
   * the separator.
   */
  function Split(s: string, sep: char): (r: seq<string>)
    ensures |r| == Occurrences(s, sep) + 1
    ensures forall k :: 0 <= k < |r| ==> sep !in r[k]
  {
    if |s| == 0 then [""]
    else if s[0] == sep then [""] + Split(s[1..], sep)
    else
      var rest := Split(s[1..], sep);
      [[s[0]] + rest[0]] + rest[1..]
  }

  /** Joining the fields of a split with the same separator gives the text back. */
  lemma {:induction false} JoinSplit(s: string, sep: char)
    ensures Join(Split(s, sep), sep) == s
  {
    if |s| > 0 {
      var rest := Split(s[1..], sep);
      JoinSplit(s[1..], sep);
      if s[0] == sep {
        assert Split(s, sep) == [""] + rest;
        if |rest| == 1 {
          assert Join(Split(s, sep), sep) == "" + [sep] + rest[0];
        } else {
          assert Join(Split(s, sep), sep) == "" + [sep] + Join(rest, sep);
        }
      } else {
        var fields := Split(s, sep);
        assert fields == [[s[0]] + rest[0]] + rest[1..];
        if |rest| == 1 {
          assert Join(fields, sep) == [s[0]] + rest[0];
        } else {
          assert fields[1..] == rest[1..];
          assert Join(rest, sep) == rest[0] + [sep] + Join(rest[1..], sep);
          assert Join(fields, sep) == [s[0]] + rest[0] + [sep] + Join(rest[1..], sep);
        }
      }
    }
  }

  /** A text without the separator is one field. */
  lemma {:induction false} SplitWithoutSeparator(s: string, sep: char)
    requires sep !in s
    ensures Split(s, sep) == [s]
  {
    if |s| > 0 {
      SplitWithoutSeparator(s[1..], sep);
      assert [s[0]] + s[1..] == s;
    }
  }

  /** A separator splits off everything before it as one field, when no separator comes earlier. */
  lemma {:induction false} SplitAtSeparator(x: string, sep: char, y: string)
    requires sep !in x
    ensures Split(x + [sep] + y, sep) == [x] + Split(y, sep)
  {
    if |x| == 0 {
      assert x + [sep] + y == [sep] + y;
      assert ([sep] + y)[1..] == y;
    } else {
      assert (x + [sep] + y)[1..] == x[1..] + [sep] + y;
      SplitAtSeparator(x[1..], sep, y);
      assert [x[0]] + x[1..] == x;
    }
  }

  /** Splitting a join of separator-free parts gives the parts back. */
  lemma {:induction false} SplitJoin(parts: seq<string>, sep: char)
    requires |parts| > 0
    requires forall k :: 0 <= k < |parts| ==> sep !in parts[k]
    ensures Split(Join(parts, sep), sep) == parts
  {
    if |parts| == 1 {
      SplitWithoutSeparator(parts[0], sep);
    } else {
      SplitJoin(parts[1..], sep);
      SplitAtSeparator(parts[0], sep, Join(parts[1..], sep));
      assert [parts[0]] + parts[1..] == parts;
    }
  }

  // ---------------------------------------------------------------------------
  // strip

  /** The first position at or after `i` that does not hold whitespace, or the end of `s`. */
  function SkipSpaces(s: string, i: nat): (n: nat)
    requires i <= |s|
    ensures i <= n <= |s|
    ensures forall k :: i <= k < n ==> IsSpace(s[k])
    ensures n == |s| || !IsSpace(s[n])
    decreases |s| - i
  {
    if i < |s| && IsSpace(s[i]) then SkipSpaces(s, i + 1) else i
  }

  /** Scanning back from `j` towards `lo`: the position just after the last non-whitespace character, or `lo`. */
  function TrimEnd(s: string, lo: nat, j: nat): (n: nat)
    requires lo <= j <= |s|
    ensures lo <= n <= j
    ensures forall k :: n <= k < j ==> IsSpace(s[k])
    ensures n == lo || !IsSpace(s[n - 1])
    decreases j
  {
    if j > lo && IsSpace(s[j - 1]) then TrimEnd(s, lo, j - 1) else j
  }

  /**
   * `s.strip()`: the one contiguous piece of `s` left after dropping the
   * leading and the trailing whitespace. Everything dropped is whitespace and
   * the piece neither starts nor ends with whitespace.
   */
  function Strip(s: string): (r: string)
    ensures var lo := SkipSpaces(s, 0); var hi := TrimEnd(s, lo, |s|);
            && r == s[lo..hi]
            && (forall k :: 0 <= k < lo ==> IsSpace(s[k]))
            && (forall k :: hi <= k < |s| ==> IsSpace(s[k]))
    ensures |r| == 0 || (!IsSpace(r[0]) && !IsSpace(r[|r| - 1]))
  {
    var lo := SkipSpaces(s, 0);
    s[lo..TrimEnd(s, lo, |s|)]
  }

  /** Stripping twice is stripping once. */
  lemma StripIdempotent(s: string)
    ensures Strip(Strip(s)) == Strip(s)
  {
    var r := Strip(s);
    assert SkipSpaces(r, 0) == 0;
    assert TrimEnd(r, 0, |r|) == |r|;
    assert r[0..|r|] == r;
  }

  // ---------------------------------------------------------------------------
  // replace("\r\n", " ")

  /** `s` holds a carriage return directly followed by a line feed. */
  predicate HasCrLf(s: string) {
    exists i :: 0 <= i < |s| - 1 && s[i] == '\r' && s[i + 1] == '\n'
  }

  /**
   * `s.replace("\r\n", " ")`: scanning from the left, each CR LF pair becomes
   * one space and every other character is kept. The result holds no CR LF
   * and is the input exactly when the input held none.
   */
  function ReplaceCrLf(s: string): string {
    if |s| >= 2 && s[0] == '\r' && s[1] == '\n' then " " + ReplaceCrLf(s[2..])
    else if |s| == 0 then ""
    else [s[0]] + ReplaceCrLf(s[1..])
  }

  /**
   * The result holds no CR LF, is no longer than the input, starts like the
   * input or with a space, and holds only characters of the input or spaces.
   */
  lemma {:induction false} ReplaceCrLfShape(s: string)
    ensures var r := ReplaceCrLf(s);
            && !HasCrLf(r)
            && (|s| > 0 ==> |r| > 0 && (r[0] == s[0] || r[0] == ' '))
            && |r| <= |s|
            && (forall c :: c in r ==> c in s || c == ' ')
  {
    if |s| >= 2 && s[0] == '\r' && s[1] == '\n' {
      var rest := ReplaceCrLf(s[2..]);
      ReplaceCrLfShape(s[2..]);
      assert forall i :: 1 <= i < |" " + rest| ==> (" " + rest)[i] == rest[i - 1];
    } else if |s| > 0 {
      var rest := ReplaceCrLf(s[1..]);
      ReplaceCrLfShape(s[1..]);
      assert forall i :: 1 <= i < |[s[0]] + rest| ==> ([s[0]] + rest)[i] == rest[i - 1];
      assert s[0] == '\r' && |rest| > 0 ==> rest[0] != '\n';
    }
  }

  /** A text without CR LF is left as it is. */
  lemma {:induction false} ReplaceCrLfIdentity(s: string)
    requires !HasCrLf(s)
    ensures ReplaceCrLf(s) == s
  {
    if |s| > 0 {
      assert !(|s| >= 2 && s[0] == '\r' && s[1] == '\n');
      ReplaceCrLfIdentity(s[1..]);
    }
  }

  /** A CR LF at the front becomes one space. */
  lemma ReplaceCrLfPairFirst(t: string)
    ensures ReplaceCrLf("\r\n" + t) == " " + ReplaceCrLf(t)
  {
    assert ("\r\n" + t)[2..] == t;
  }

  /** Any other first character is kept as it is. */
  lemma ReplaceCrLfKeepFirst(c: char, t: string)
    requires !(c == '\r' && |t| > 0 && t[0] == '\n')
    ensures ReplaceCrLf([c] + t) == [c] + ReplaceCrLf(t)
  {
    assert ([c] + t)[1..] == t;
  }

  /** The inductive step of `ReplaceCrLfAtPair` for text that starts with a CR LF. */
  lemma ReplaceCrLfAtPairAfterPair(t: string, y: string)
    requires ReplaceCrLf(t + "\r\n" + y) == ReplaceCrLf(t) + " " + ReplaceCrLf(y)
    ensures ReplaceCrLf(("\r\n" + t) + "\r\n" + y) == ReplaceCrLf("\r\n" + t) + " " + ReplaceCrLf(y)
  {
    assert ("\r\n" + t) + "\r\n" + y == "\r\n" + (t + "\r\n" + y);
    ReplaceCrLfPairFirst(t + "\r\n" + y);
    ReplaceCrLfPairFirst(t);
  }

  /** The inductive step of `ReplaceCrLfAtPair` for text whose first character is kept. */
  lemma ReplaceCrLfAtPairAfterKept(c: char, t: string, y: string)
    requires !(c == '\r' && |t| > 0 && t[0] == '\n')
    requires ReplaceCrLf(t + "\r\n" + y) == ReplaceCrLf(t) + " " + ReplaceCrLf(y)
    ensures ReplaceCrLf(([c] + t) + "\r\n" + y) == ReplaceCrLf([c] + t) + " " + ReplaceCrLf(y)
  {
    assert ([c] + t) + "\r\n" + y == [c] + (t + "\r\n" + y);
    ReplaceCrLfKeepFirst(c, t + "\r\n" + y);
    ReplaceCrLfKeepFirst(c, t);
  }

  /**
   * The pair itself: text around a CR LF is replaced on each side on its own,
   * and the pair becomes exactly one space. With `ReplaceCrLfIdentity` this
   * fixes the result for every input.
   */
  lemma {:induction false} ReplaceCrLfAtPair(x: string, y: string)
    ensures ReplaceCrLf(x + "\r\n" + y) == ReplaceCrLf(x) + " " + ReplaceCrLf(y)
    decreases |x|
  {
    if |x| == 0 {
      assert x + "\r\n" + y == "\r\n" + y;
      ReplaceCrLfPairFirst(y);
    } else if |x| >= 2 && x[0] == '\r' && x[1] == '\n' {
      ReplaceCrLfAtPair(x[2..], y);
      assert x == "\r\n" + x[2..];
      ReplaceCrLfAtPairAfterPair(x[2..], y);
    } else {
      ReplaceCrLfAtPair(x[1..], y);
      assert x == [x[0]] + x[1..];
      ReplaceCrLfAtPairAfterKept(x[0], x[1..], y);
    }
  }

  /** Replacing twice is replacing once. */
  lemma ReplaceCrLfIdempotent(s: string)
    ensures ReplaceCrLf(ReplaceCrLf(s)) == ReplaceCrLf(s)
  {
    ReplaceCrLfShape(s);
    ReplaceCrLfIdentity(ReplaceCrLf(s));
  }
}
