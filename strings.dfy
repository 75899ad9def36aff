/** The few Python `str` operations the database core relies on, restricted to ASCII:
    `split` on a one-character separator, `join`, `strip`, `lower`, `isdigit` and
    `isidentifier`. */
module Strings {

  /** Characters `str.strip()` removes, within ASCII: space, tab, line feed,
      vertical tab, form feed, carriage return and the separators 0x1C-0x1F. */
  predicate IsSpace(ch: char)
  {
    var n := ch as int;
    n == 32 || 9 <= n <= 13 || 28 <= n <= 31
  }

  predicate IsDigit(ch: char)
  {
    '0' <= ch <= '9'
  }

  predicate IsLetter(ch: char)
  {
    'a' <= ch <= 'z' || 'A' <= ch <= 'Z'
  }

  /** `s.isdigit()`: true of a non-empty string of decimal digits only. Such text
      has no whitespace at its ends and does not start with a letter. */
  predicate IsDigits(s: string)
    ensures IsDigits(s) ==> s != [] && Tight(s) && !IsLetter(s[0])
  {
    |s| > 0 && forall i :: 0 <= i < |s| ==> IsDigit(s[i])
  }

  /** `s.isidentifier()`: a letter or underscore, then letters, digits or underscores.
      An identifier does not start with a digit, has no whitespace at its ends and
      holds no punctuation or line break. */
  predicate IsIdentifier(s: string)
    ensures IsIdentifier(s) ==> s != [] && !IsDigit(s[0]) && Tight(s)
    ensures IsIdentifier(s) ==> ':' !in s && '=' !in s && ',' !in s && '\n' !in s
  {
    |s| > 0 && (IsLetter(s[0]) || s[0] == '_') &&
    forall i :: 1 <= i < |s| ==> IsLetter(s[i]) || IsDigit(s[i]) || s[i] == '_'
  }

  function LowerChar(ch: char): char
  {
    if 'A' <= ch <= 'Z' then (ch as int + 32) as char else ch
  }

  /** `s.lower()`: the same length, no upper-case letter left, and every character
      that is not an upper-case letter kept in its place. */
  function Lower(s: string): (r: string)
    ensures |r| == |s|
    ensures forall i :: 0 <= i < |r| ==> !('A' <= r[i] <= 'Z')
    ensures forall i :: 0 <= i < |s| && !('A' <= s[i] <= 'Z') ==> r[i] == s[i]
    ensures forall i :: 0 <= i < |s| && IsLetter(s[i]) ==> IsLetter(r[i])
  {
    seq(|s|, i requires 0 <= i < |s| => LowerChar(s[i]))
  }

  /** Number of occurrences of `c` in `s`. */
  function Count(s: string, c: char): nat
  {
    if s == [] then 0 else (if s[0] == c then 1 else 0) + Count(s[1..], c)
  }

  lemma {:induction false} CountZero(s: string, c: char)
    ensures Count(s, c) == 0 <==> c !in s
  {
    if s != [] {
      CountZero(s[1..], c);
      assert s == [s[0]] + s[1..];
    }
  }

  /** `s.split(c)`: the maximal pieces between separators, in order; there is one
      piece more than there are separators, and no piece holds the separator. */
  function Split(s: string, c: char): (parts: seq<string>)
    ensures |parts| == Count(s, c) + 1
    ensures forall i :: 0 <= i < |parts| ==> c !in parts[i]
  {
    if s == [] then [[]]
    else
      var rest := Split(s[1..], c);
      if s[0] == c then [[]] + rest
      else [[s[0]] + rest[0]] + rest[1..]
  }

  /** `sep.join(parts)`: empty for no parts, otherwise text that starts with the
      first part and ends with the last. */
  function Join(parts: seq<string>, sep: string): (r: string)
    ensures parts == [] ==> r == []
    ensures parts != [] ==> parts[0] <= r
  {
    if |parts| == 0 then []
    else if |parts| == 1 then parts[0]
    else parts[0] + sep + Join(parts[1..], sep)
  }

  /** Prepending to the first piece prepends to the joined text. */
  lemma JoinPrepend(a: string, b: string, t: seq<string>, sep: string)
    ensures Join([a + b] + t, sep) == a + Join([b] + t, sep)
  {
    if |t| > 0 {
      assert ([a + b] + t)[1..] == t;
      assert ([b] + t)[1..] == t;
    }
  }

  /** Joining the pieces of a split with the separator gives back the text. */
  lemma {:induction false} JoinSplit(s: string, c: char)
    ensures Join(Split(s, c), [c]) == s
  {
    if s != [] {
      var rest := Split(s[1..], c);
      JoinSplit(s[1..], c);
      if s[0] == c {
        assert ([[]] + rest)[1..] == rest;
      } else {
        JoinPrepend([s[0]], rest[0], rest[1..], [c]);
        assert [rest[0]] + rest[1..] == rest;
      }
    }
  }

  /** Splitting text whose head holds no separator extends the first piece. */
  lemma {:induction false} SplitPrefix(a: string, b: string, c: char)
    requires c !in a
    ensures Split(a + b, c) == [a + Split(b, c)[0]] + Split(b, c)[1..]
  {
    var sb := Split(b, c);
    if a == [] {
      assert a + b == b;
      assert a + sb[0] == sb[0];
      assert [sb[0]] + sb[1..] == sb;
    } else {
      SplitPrefix(a[1..], b, c);
      assert (a + b)[1..] == a[1..] + b;
      var rest := Split(a[1..] + b, c);
      assert rest[0] == a[1..] + sb[0] && rest[1..] == sb[1..];
      assert (a + b)[0] == a[0] && a[0] != c;
      assert [a[0]] + (a[1..] + sb[0]) == a + sb[0];
    }
  }

  /** Splitting joined pieces that hold no separator gives back the pieces. */
  lemma {:induction false} SplitJoin(parts: seq<string>, c: char)
    requires |parts| >= 1
    requires forall i :: 0 <= i < |parts| ==> c !in parts[i]
    ensures Split(Join(parts, [c]), c) == parts
  {
    if |parts| == 1 {
      SplitPrefix(parts[0], [], c);
      assert parts[0] + [] == parts[0];
    } else {
      var tail := Join(parts[1..], [c]);
      SplitJoin(parts[1..], c);
      assert Join(parts, [c]) == parts[0] + ([c] + tail);
      SplitPrefix(parts[0], [c] + tail, c);
      assert ([c] + tail)[1..] == tail;
      assert Split([c] + tail, c) == [[]] + parts[1..];
      assert parts[0] + [] == parts[0];
      assert [parts[0]] + parts[1..] == parts;
    }
  }

  /** Leading whitespace removed: a suffix of `s` whose removed prefix is all
      whitespace and whose first character, if any, is not. */
  function TrimStart(s: string): (r: string)
    ensures |r| <= |s| && r == s[|s| - |r|..]
    ensures forall i :: 0 <= i < |s| - |r| ==> IsSpace(s[i])
    ensures r != [] ==> !IsSpace(r[0])
  {
    if s != [] && IsSpace(s[0]) then TrimStart(s[1..]) else s
  }

  /** Trailing whitespace removed: a prefix of `s` whose removed suffix is all
      whitespace and whose last character, if any, is not. */
  function TrimEnd(s: string): (r: string)
    ensures |r| <= |s| && r == s[..|r|]
    ensures forall i :: |r| <= i < |s| ==> IsSpace(s[i])
    ensures r != [] ==> !IsSpace(r[|r| - 1])
  {
    if s != [] && IsSpace(s[|s| - 1]) then TrimEnd(s[..|s| - 1]) else s
  }

  /** `s.strip()`: no whitespace at either end, nothing longer than `s`, and empty
      exactly when `s` is all whitespace. */
  function Strip(s: string): (r: string)
    ensures Tight(r) && |r| <= |s|
    ensures r == [] <==> forall j :: 0 <= j < |s| ==> IsSpace(s[j])
  {
    TrimEnd(TrimStart(s))
  }

  /** Text that `strip()` leaves alone: empty, or neither end is whitespace. */
  predicate Tight(t: string)
  {
    t != [] ==> !IsSpace(t[0]) && !IsSpace(t[|t| - 1])
  }

  /** `strip()` fixes tight text, and removes one space of padding on either side of it. */
  lemma StripPadded(t: string)
    requires Tight(t)
    ensures Strip(t) == t
    ensures Strip([' '] + t) == t
    ensures Strip(t + [' ']) == t
  {
    assert ([' '] + t)[1..] == t;
    if t != [] {
      assert (t + [' '])[0] == t[0];
      assert (t + [' '])[..|t|] == t;
    }
  }
}
