/**
 * The JavaScript string built-ins the diagnostics panel relies on, over `string`
 * (a sequence of characters): `split` on a one-character separator, `join`,
 * `trim`, `reverse`, `padStart`, `toLowerCase` on the ASCII letters, and the
 * decimal rendering of a natural number. Each comes with the algebra the other
 * modules use: splitting and joining undo each other, reversing twice is the
 * identity.
 */
module Text {

  import opened Common

  /** The characters `String.prototype.trim` and `parseInt` skip: ECMAScript's WhiteSpace and LineTerminator. */
  predicate IsWhitespace(c: char)
  {
    c == '\t' || c == '\n' || c == '\U{000B}' || c == '\U{000C}' || c == '\r' || c == ' ' ||
    c == '\U{00A0}' || c == '\U{1680}' || ('\U{2000}' <= c <= '\U{200A}') ||
    c == '\U{2028}' || c == '\U{2029}' || c == '\U{202F}' || c == '\U{205F}' ||
    c == '\U{3000}' || c == '\U{FEFF}'
  }

  /** `\d` of a JavaScript regular expression without the `u` flag. */
  predicate IsDecimalDigit(c: char)
  {
    '0' <= c <= '9'
  }

  /** `[0-9a-fA-F]` */
  predicate IsHexDigit(c: char)
  {
    IsDecimalDigit(c) || 'a' <= c <= 'f' || 'A' <= c <= 'F'
  }

  /** `[a-zA-Z0-9]` */
  predicate IsAsciiAlnum(c: char)
  {
    IsDecimalDigit(c) || 'a' <= c <= 'z' || 'A' <= c <= 'Z'
  }

  /** Removes the leading white space, as `parseInt` does before reading digits. */
  function TrimStart(s: string): string
  {
    if s != [] && IsWhitespace(s[0]) then TrimStart(s[1..]) else s
  }

  function TrimEnd(s: string): string
  {
    if s != [] && IsWhitespace(s[|s| - 1]) then TrimEnd(s[..|s| - 1]) else s
  }

  /** `String.prototype.trim`: white space removed from both ends. */
  function Trim(s: string): (r: string)
    ensures |r| <= |s|
    ensures r == [] || (!IsWhitespace(r[0]) && !IsWhitespace(r[|r| - 1]))
  {
    TrimStartRemovesWhitespace(s);
    TrimEndRemovesWhitespace(TrimStart(s));
    TrimEnd(TrimStart(s))
  }

  /** `TrimStart` removes a prefix of white space and leaves no white space in front. */
  lemma {:induction false} TrimStartRemovesWhitespace(s: string)
    ensures var r := TrimStart(s);
      |r| <= |s| && r == s[|s| - |r|..] && (r == [] || !IsWhitespace(r[0])) &&
      forall i :: 0 <= i < |s| - |r| ==> IsWhitespace(s[i])
  {
    if s != [] && IsWhitespace(s[0]) {
      var t := s[1..];
      TrimStartRemovesWhitespace(t);
      var r := TrimStart(t);
      assert TrimStart(s) == r;
      assert t[|t| - |r|..] == s[|s| - |r|..];
      forall i | 1 <= i < |s| - |r| ensures IsWhitespace(s[i]) {
        assert s[i] == t[i - 1];
      }
    }
  }

  /** `TrimEnd` removes a suffix of white space and leaves no white space at the end. */
  lemma {:induction false} TrimEndRemovesWhitespace(s: string)
    ensures var r := TrimEnd(s);
      |r| <= |s| && r == s[..|r|] && (r == [] || !IsWhitespace(r[|r| - 1])) &&
      forall i :: |r| <= i < |s| ==> IsWhitespace(s[i])
  {
    if s != [] && IsWhitespace(s[|s| - 1]) {
      var t := s[..|s| - 1];
      TrimEndRemovesWhitespace(t);
      var r := TrimEnd(t);
      assert TrimEnd(s) == r;
      assert t[..|r|] == s[..|r|];
      forall i | |r| <= i < |s| - 1 ensures IsWhitespace(s[i]) {
        assert s[i] == t[i];
      }
    }
  }

  lemma TrimUnchanged(s: string)
    requires s == [] || (!IsWhitespace(s[0]) && !IsWhitespace(s[|s| - 1]))
    ensures Trim(s) == s
  {
  }

  /**
   * `s.split(sep)` for a one-character separator: the maximal pieces between
   * separators, in order, so that there is always one piece more than there are
   * separators (`"".split(",")` is `[""]`).
   */
  function Split(s: string, sep: char): (r: seq<string>)
    ensures |r| >= 1
    ensures sep in s ==> |r| >= 2
  {
    if s == [] then [[]]
    else
      var rest := Split(s[1..], sep);
      if s[0] == sep then [[]] + rest
      else [[s[0]] + rest[0]] + rest[1..]
  }

  /** `xs.join(sep)`: `[].join(sep)` is `""`, a single element is returned as it is. */
  function Join(xs: seq<string>, sep: string): string
  {
    if |xs| == 0 then []
    else if |xs| == 1 then xs[0]
    else xs[0] + sep + Join(xs[1..], sep)
  }

  /** `xs.reverse()` */
  function Reverse<T>(xs: seq<T>): (r: seq<T>)
    ensures |r| == |xs|
    ensures forall i :: 0 <= i < |xs| ==> r[i] == xs[|xs| - 1 - i]
  {
    if xs == [] then [] else Reverse(xs[1..]) + [xs[0]]
  }

  function Repeat<T>(x: T, n: nat): (r: seq<T>)
    ensures |r| == n && forall i :: 0 <= i < n ==> r[i] == x
  {
    if n == 0 then [] else [x] + Repeat(x, n - 1)
  }

  lemma RepeatGrows<T>(x: T, n: nat)
    ensures Repeat(x, n + 1) == Repeat(x, n) + [x]
  {
  }

  /** `s.padStart(width, fill)` with a one-character fill. */
  function PadStart(s: string, width: nat, fill: char): (r: string)
    ensures |r| == Max(|s|, width)
    ensures r[|r| - |s|..] == s
    ensures forall i :: 0 <= i < |r| - |s| ==> r[i] == fill
  {
    if |s| >= width then s else Repeat(fill, width - |s|) + s
  }

  function LowerChar(c: char): char
  {
    if 'A' <= c <= 'Z' then (c as int - 'A' as int + 'a' as int) as char else c
  }

  /**
   * `toLowerCase` restricted to the ASCII letters. No other character lower-cases
   * to an ASCII letter of "localhost", the one string the model compares it with.
   */
  function LowerAscii(s: string): (r: string)
    ensures |r| == |s| && forall i :: 0 <= i < |s| ==> r[i] == LowerChar(s[i])
  {
    if s == [] then [] else [LowerChar(s[0])] + LowerAscii(s[1..])
  }

  function DigitChar(d: nat): (c: char)
    requires d < 10
    ensures IsDecimalDigit(c) && c as int - '0' as int == d
  {
    ('0' as int + d) as char
  }

  /** The decimal representation of `n`, as `String(n)` writes it: no sign, no leading zero. */
  function DecimalString(n: nat): (r: string)
    ensures |r| >= 1 && forall i :: 0 <= i < |r| ==> IsDecimalDigit(r[i])
    ensures n > 0 ==> r[0] != '0'
  {
    if n < 10 then [DigitChar(n)] else DecimalString(n / 10) + [DigitChar(n % 10)]
  }

  lemma DecimalStringLacks(n: nat, c: char)
    requires !IsDecimalDigit(c)
    ensures c !in DecimalString(n)
  {
  }

  lemma TrimDecimalString(n: nat)
    ensures Trim(DecimalString(n)) == DecimalString(n)
  {
    TrimUnchanged(DecimalString(n));
  }

  // ---------------------------------------------------------------------------
  // Splitting and joining

  lemma {:induction false} SplitPiecesLackSeparator(s: string, sep: char)
    ensures forall i :: 0 <= i < |Split(s, sep)| ==> sep !in Split(s, sep)[i]
  {
    if s != [] {
      SplitPiecesLackSeparator(s[1..], sep);
    }
  }

  lemma {:induction false} SplitWithoutSeparator(s: string, sep: char)
    requires sep !in s
    ensures Split(s, sep) == [s]
  {
    if s != [] {
      assert s[0] in s;
      SplitWithoutSeparator(s[1..], sep);
      assert [s[0]] + s[1..] == s;
    }
  }

  lemma {:induction false} SplitAfterPiece(x: string, sep: char, y: string)
    requires sep !in x
    ensures Split(x + [sep] + y, sep) == [x] + Split(y, sep)
  {
    var s := x + [sep] + y;
    if x == [] {
      assert s[1..] == y;
    } else {
      assert s[1..] == x[1..] + [sep] + y;
      SplitAfterPiece(x[1..], sep, y);
      assert [x[0]] + x[1..] == x;
    }
  }

  /** The first two pieces of `x`, separator, `y`, then nothing or a separator and more, are `x` and `y`. */
  lemma FirstTwoPieces(x: string, y: string, rest: string, sep: char)
    requires sep !in x && sep !in y
    requires rest == [] || rest[0] == sep
    ensures var pieces := Split(x + [sep] + y + rest, sep);
      |pieces| >= 2 && pieces[0] == x && pieces[1] == y
  {
    assert x + [sep] + y + rest == x + [sep] + (y + rest);
    SplitAfterPiece(x, sep, y + rest);
    if rest == [] {
      assert y + rest == y;
      SplitWithoutSeparator(y, sep);
    } else {
      assert y + rest == y + [sep] + rest[1..];
      SplitAfterPiece(y, sep, rest[1..]);
    }
  }

  /** A separator followed by a piece free of separators adds that piece at the end of the split. */
  lemma {:induction false} SplitAppendPiece(s: string, sep: char, t: string)
    requires sep !in t
    ensures Split(s + [sep] + t, sep) == Split(s, sep) + [t]
  {
    if s == [] {
      assert ([] + [sep] + t)[1..] == t;
      SplitWithoutSeparator(t, sep);
    } else {
      assert (s + [sep] + t)[1..] == s[1..] + [sep] + t;
      SplitAppendPiece(s[1..], sep, t);
    }
  }

  /** A split into two or more pieces means the separator occurs. */
  lemma {:induction false} SeparatorOfPieces(s: string, sep: char)
    requires |Split(s, sep)| >= 2
    ensures sep in s
  {
    if s[0] == sep {
      assert s[0] in s;
    } else {
      SeparatorOfPieces(s[1..], sep);
      assert s == [s[0]] + s[1..];
    }
  }

  /** Joining the pieces of a split with the separator gives back the string. */
  lemma {:induction false} JoinSplit(s: string, sep: char)
    ensures Join(Split(s, sep), [sep]) == s
  {
    if s != [] {
      JoinSplit(s[1..], sep);
      var rest := Split(s[1..], sep);
      if s[0] == sep {
        assert Join([[]] + rest, [sep]) == [] + [sep] + Join(rest, [sep]);
      } else if |rest| == 1 {
        assert Split(s, sep) == [[s[0]] + rest[0]];
      } else {
        var r := [[s[0]] + rest[0]] + rest[1..];
        assert r[1..] == rest[1..];
        assert Join(rest, [sep]) == rest[0] + [sep] + Join(rest[1..], [sep]);
      }
    }
  }

  /** Splitting a join gives back the list, provided no element holds the separator. */
  lemma {:induction false} SplitJoin(xs: seq<string>, sep: char)
    requires |xs| >= 1
    requires forall i :: 0 <= i < |xs| ==> sep !in xs[i]
    ensures Split(Join(xs, [sep]), sep) == xs
  {
    if |xs| == 1 {
      SplitWithoutSeparator(xs[0], sep);
    } else {
      SplitJoin(xs[1..], sep);
      SplitAfterPiece(xs[0], sep, Join(xs[1..], [sep]));
      assert [xs[0]] + xs[1..] == xs;
    }
  }

  /** Every character of a string is the separator or a character of one of its pieces. */
  lemma {:induction false} SplitCoversChars(s: string, sep: char, k: nat)
    requires k < |s| && s[k] != sep
    ensures exists i, j :: 0 <= i < |Split(s, sep)| && 0 <= j < |Split(s, sep)[i]| && Split(s, sep)[i][j] == s[k]
  {
    var rest := Split(s[1..], sep);
    if k == 0 {
      assert Split(s, sep)[0][0] == s[0];
    } else {
      SplitCoversChars(s[1..], sep, k - 1);
      var i, j :| 0 <= i < |rest| && 0 <= j < |rest[i]| && rest[i][j] == s[1..][k - 1];
      if s[0] == sep {
        assert Split(s, sep)[i + 1] == rest[i];
      } else if i == 0 {
        assert Split(s, sep)[0][j + 1] == rest[0][j];
      } else {
        assert Split(s, sep)[i] == rest[i];
      }
    }
  }

  lemma ReverseReverse<T>(xs: seq<T>)
    ensures Reverse(Reverse(xs)) == xs
  {
  }
}
