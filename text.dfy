/** The string operations the two scripts rely on: `rsplit('/', 1)[-1]` and
    `os.path.basename`, `str.split` on one character, `os.path.join`, and
    `int()` / `str()` on non-negative decimal numbers. */
module Text {
  import opened Wrappers

  /** Number of occurrences of `c` in `s` (Python's `s.count(c)`). */
  function Count(s: string, c: char): nat
  {
    if s == [] then 0 else (if s[0] == c then 1 else 0) + Count(s[1..], c)
  }

  lemma {:induction false} CountZero(s: string, c: char)
    ensures Count(s, c) == 0 <==> c !in s
  {
    if s != [] {
      CountZero(s[1..], c);
      assert s == [s[0]] + s[1..];
    }
  }

  /** The text after the last '/' of `s`, or all of `s` when it has none:
      both `s.rsplit('/', 1)[-1]` and POSIX `os.path.basename(s)`.
      It is the longest suffix of `s` without a '/'. */
  function LastSegment(s: string): (r: string)
  {
    if s == [] then []
    else if s[|s| - 1] == '/' then []
    else LastSegment(s[..|s| - 1]) + [s[|s| - 1]]
  }

  lemma {:induction false} LastSegmentNoSlash(s: string)
    ensures '/' !in LastSegment(s)
  {
    if s != [] && s[|s| - 1] != '/' {
      LastSegmentNoSlash(s[..|s| - 1]);
    }
  }

  lemma {:induction false} LastSegmentSuffix(s: string)
    ensures |LastSegment(s)| <= |s| && LastSegment(s) == s[|s| - |LastSegment(s)|..]
  {
    if s != [] && s[|s| - 1] != '/' {
      var p, c := s[..|s| - 1], s[|s| - 1];
      assert s == p + [c];
      LastSegmentSuffix(p);
      var r := LastSegment(p);
      assert LastSegment(s) == r + [c];
      var m := |p| - |r|;
      assert s[m..] == p[m..] + [c];
    }
  }

  lemma {:induction false} LastSegmentAfterLastSlash(s: string)
    ensures |LastSegment(s)| < |s| ==> s[|s| - |LastSegment(s)| - 1] == '/'
  {
    if s != [] && s[|s| - 1] != '/' {
      var p, c := s[..|s| - 1], s[|s| - 1];
      LastSegmentAfterLastSlash(p);
      var r := LastSegment(p);
      assert |LastSegment(s)| == |r| + 1;
      if |r| < |p| {
        assert s[|p| - |r| - 1] == p[|p| - |r| - 1];
      }
    }
  }

  /** The last segment is the longest suffix without a '/': it has none, it
      ends `s`, and a '/' comes right before it unless it is all of `s`. */
  lemma {:induction false} LastSegmentIsSuffix(s: string)
    ensures '/' !in LastSegment(s)
    ensures |LastSegment(s)| <= |s| && LastSegment(s) == s[|s| - |LastSegment(s)|..]
    ensures |LastSegment(s)| < |s| ==> s[|s| - |LastSegment(s)| - 1] == '/'
  {
    LastSegmentNoSlash(s);
    LastSegmentSuffix(s);
    LastSegmentAfterLastSlash(s);
  }

  /** Appending text without a '/' extends the last segment by that text. */
  lemma {:induction false} LastSegmentAppend(s: string, t: string)
    requires '/' !in t
    ensures LastSegment(s + t) == LastSegment(s) + t
  {
    if t == [] {
      assert s + t == s;
    } else {
      var t' := t[..|t| - 1];
      assert (s + t)[..|s + t| - 1] == s + t';
      assert t == t' + [t[|t| - 1]];
      LastSegmentAppend(s, t');
    }
  }

  /** The segment after a '/' is exactly what follows it. */
  lemma LastSegmentAfterSlash(prefix: string, seg: string)
    requires '/' !in seg
    ensures LastSegment(prefix + "/" + seg) == seg
  {
    LastSegmentAppend(prefix + "/", seg);
  }

  /** Python's `s.split(sep)` for a one-character separator: the pieces
      between the separators, empty pieces included. */
  function Split(s: string, sep: char): (parts: seq<string>)
    ensures |parts| >= 1
  {
    if s == [] then [[]]
    else
      var rest := Split(s[1..], sep);
      if s[0] == sep then [[]] + rest
      else [[s[0]] + rest[0]] + rest[1..]
  }

  /** There is one piece more than there are separators, and no piece holds
      a separator. */
  lemma {:induction false} SplitPieces(s: string, sep: char)
    ensures |Split(s, sep)| == Count(s, sep) + 1
    ensures forall i :: 0 <= i < |Split(s, sep)| ==> sep !in Split(s, sep)[i]
  {
    if s != [] {
      SplitPieces(s[1..], sep);
    }
  }

  /** Python's `sep.join(parts)`. */
  function Join(parts: seq<string>, sep: char): string
    requires |parts| >= 1
  {
    if |parts| == 1 then parts[0] else parts[0] + [sep] + Join(parts[1..], sep)
  }

  /** Joining the pieces of a split gives back the original text. */
  lemma {:induction false} JoinSplit(s: string, sep: char)
    ensures Join(Split(s, sep), sep) == s
  {
    if s != [] {
      var rest := Split(s[1..], sep);
      JoinSplit(s[1..], sep);
      if s[0] == sep {
        assert Split(s, sep)[1..] == rest;
      } else {
        var parts := Split(s, sep);
        if |rest| == 1 {
          assert parts == [[s[0]] + rest[0]];
        } else {
          assert parts[1..] == rest[1..];
          assert Join(rest, sep) == rest[0] + [sep] + Join(rest[1..], sep);
        }
      }
    }
  }

  /** A text with one separator is the two pieces around it. */
  lemma SplitInTwo(s: string, sep: char)
    requires |Split(s, sep)| == 2
    ensures s == Split(s, sep)[0] + [sep] + Split(s, sep)[1]
  {
    var parts := Split(s, sep);
    JoinSplit(s, sep);
    assert parts[1..] == [parts[1]];
  }

  /** The two pieces of a text with one separator: a separator-free prefix,
      the separator, and the rest of the text. */
  lemma SplitTwoPieces(s: string, sep: char)
    requires |Split(s, sep)| == 2
    ensures var p := Split(s, sep);
      sep !in p[0] && |p[0]| < |s| && p[0] == s[..|p[0]|] && s[|p[0]|] == sep && p[1] == s[|p[0]| + 1..]
  {
    SplitInTwo(s, sep);
    SplitPieces(s, sep);
    var p := Split(s, sep);
    assert s[..|p[0]|] == p[0];
    assert s[|p[0]| + 1..] == p[1];
  }

  /** Splitting text that starts with a separator-free piece and a separator. */
  lemma {:induction false} SplitAfterPiece(x: string, sep: char, y: string)
    requires sep !in x
    ensures Split(x + [sep] + y, sep) == [x] + Split(y, sep)
  {
    if x == [] {
      assert x + [sep] + y == [sep] + y;
      assert ([sep] + y)[1..] == y;
    } else {
      assert (x + [sep] + y)[1..] == x[1..] + [sep] + y;
      SplitAfterPiece(x[1..], sep, y);
      assert [x[0]] + x[1..] == x;
    }
  }

  /** A text without the separator splits into itself alone. */
  lemma {:induction false} SplitNoSeparator(x: string, sep: char)
    requires sep !in x
    ensures Split(x, sep) == [x]
  {
    if x != [] {
      SplitNoSeparator(x[1..], sep);
      assert [x[0]] + x[1..] == x;
    }
  }

  /** Splitting a join of separator-free pieces gives back the pieces. */
  lemma {:induction false} SplitJoin(parts: seq<string>, sep: char)
    requires |parts| >= 1
    requires forall i :: 0 <= i < |parts| ==> sep !in parts[i]
    ensures Split(Join(parts, sep), sep) == parts
  {
    if |parts| == 1 {
      SplitNoSeparator(parts[0], sep);
    } else {
      SplitJoin(parts[1..], sep);
      SplitAfterPiece(parts[0], sep, Join(parts[1..], sep));
      assert [parts[0]] + parts[1..] == parts;
    }
  }

  predicate IsDigit(c: char)
  {
    '0' <= c <= '9'
  }

  predicate AllDigits(s: string)
  {
    forall i :: 0 <= i < |s| ==> IsDigit(s[i])
  }

  /** The number a string of decimal digits denotes. */
  function DigitsValue(s: string): nat
    requires AllDigits(s)
  {
    if s == [] then 0
    else DigitsValue(s[..|s| - 1]) * 10 + (s[|s| - 1] as int - '0' as int)
  }

  /** `int(s)` restricted to what a version suffix can be: a non-empty string of
      ASCII digits; anything else is the `ValueError` case. */
  function ParseNat(s: string): Option<nat>
  {
    if s != [] && AllDigits(s) then Some(DigitsValue(s)) else None
  }

  function Digit(d: nat): (c: char)
    requires d < 10
    ensures IsDigit(c) && c as int - '0' as int == d
  {
    ('0' as int + d) as char
  }

  /** `str(n)` for a non-negative integer. */
  function Decimal(n: nat): (s: string)
    ensures s != [] && AllDigits(s)
  {
    if n < 10 then [Digit(n)] else Decimal(n / 10) + [Digit(n % 10)]
  }

  /** `int(str(n)) == n`. */
  lemma {:induction false} ParseDecimal(n: nat)
    ensures ParseNat(Decimal(n)) == Some(n)
  {
    DigitsOfDecimal(n);
  }

  lemma {:induction false} DigitsOfDecimal(n: nat)
    ensures DigitsValue(Decimal(n)) == n
  {
    if n < 10 {
      assert Decimal(n)[..0] == [];
    } else {
      var s := Decimal(n);
      assert s[..|s| - 1] == Decimal(n / 10);
      DigitsOfDecimal(n / 10);
    }
  }

  /** POSIX `os.path.join(dir, name)`: an absolute `name` replaces `dir`;
      otherwise a '/' is put between them unless `dir` is empty or already
      ends in one. */
  function JoinPath(dir: string, name: string): string
  {
    if name != [] && name[0] == '/' then name
    else if dir == [] || dir[|dir| - 1] == '/' then dir + name
    else dir + "/" + name
  }

  /** The basename of a joined path is the name that was joined. */
  lemma JoinPathBasename(dir: string, name: string)
    requires '/' !in name
    ensures LastSegment(JoinPath(dir, name)) == name
  {
    if dir == [] {
      assert JoinPath(dir, name) == name;
      LastSegmentAppend([], name);
    } else if dir[|dir| - 1] == '/' {
      assert dir == dir[..|dir| - 1] + "/";
      LastSegmentAfterSlash(dir[..|dir| - 1], name);
    } else {
      LastSegmentAfterSlash(dir, name);
    }
  }
}
