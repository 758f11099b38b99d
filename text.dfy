/**
 * The JavaScript string primitives the bot relies on: `trim`, `split` on one
 * character, `parseInt` without a radix, `includes` and ASCII lower-casing.
 * Strings are sequences of characters; UTF-16 surrogate pairs are not modelled.
 */
module Text {
  import opened Wrappers

  /**
   * White space skipped by `String.prototype.trim` and by `parseInt`: the
   * ECMAScript WhiteSpace characters (tab, vertical tab, form feed, the byte
   * order mark and every Unicode space separator) and LineTerminator
   * characters (line feed, carriage return, line and paragraph separators).
   */
  predicate IsSpace(c: char) {
    c == ' ' || c == '\t' || c == '\n' || c == '\r' || c == '\U{000B}' || c == '\U{000C}'
    || c == '\U{00A0}' || c == '\U{1680}' || ('\U{2000}' <= c <= '\U{200A}')
    || c == '\U{2028}' || c == '\U{2029}' || c == '\U{202F}' || c == '\U{205F}'
    || c == '\U{3000}' || c == '\U{FEFF}'
  }

  /** Removes leading white space. */
  function TrimStart(s: string): (r: string)
    ensures |r| <= |s| && r == s[|s| - |r|..]
    ensures r == [] || !IsSpace(r[0])
    ensures forall i :: 0 <= i < |s| - |r| ==> IsSpace(s[i])
  {
    if s != [] && IsSpace(s[0]) then TrimStart(s[1..]) else s
  }

  /** Removes trailing white space. */
  function TrimEnd(s: string): (r: string)
    ensures |r| <= |s| && r == s[..|r|]
    ensures r == [] || !IsSpace(r[|r| - 1])
    ensures forall i :: |r| <= i < |s| ==> IsSpace(s[i])
  {
    if s != [] && IsSpace(s[|s| - 1]) then TrimEnd(s[..|s| - 1]) else s
  }

  /**
   * `r` is the slice of `s` starting at `i`, and everything in `s` before and
   * after that slice is white space.
   */
  predicate PaddedSlice(s: string, r: string, i: int) {
    0 <= i && i + |r| <= |s| && s[i..i + |r|] == r
    && (forall k :: 0 <= k < i ==> IsSpace(s[k]))
    && (forall k :: i + |r| <= k < |s| ==> IsSpace(s[k]))
  }

  /** `s.trim()`: white space removed at both ends and nowhere else. */
  function Trim(s: string): (r: string)
    ensures exists i :: PaddedSlice(s, r, i)
    ensures r == [] || (!IsSpace(r[0]) && !IsSpace(r[|r| - 1]))
  {
    var t := TrimStart(s);
    var r := TrimEnd(t);
    assert PaddedSlice(s, r, |s| - |t|) by {
      var i := |s| - |t|;
      assert s[i..i + |r|] == t[..|r|];
      forall k | i + |r| <= k < |s|
        ensures IsSpace(s[k])
      {
        assert s[k] == t[k - i];
      }
    }
    r
  }

  /**
   * `trim` removes any run of white space at either end, ASCII or not (an
   * ideographic space U+3000, say), and gives back the text in between.
   */
  lemma TrimDropsPadding(lead: string, s: string, trail: string)
    requires forall i :: 0 <= i < |lead| ==> IsSpace(lead[i])
    requires forall i :: 0 <= i < |trail| ==> IsSpace(trail[i])
    requires s == [] || (!IsSpace(s[0]) && !IsSpace(s[|s| - 1]))
    ensures Trim(lead + s + trail) == s
  {
    assert lead + s + trail == lead + (s + trail);
    TrimStartSkips(lead, s + trail);
    if s == [] {
      assert s + trail == trail + [];
      TrimStartSkips(trail, []);
    } else {
      assert (s + trail)[0] == s[0];
      assert TrimStart(s + trail) == s + trail;
      TrimEndSkips(s, trail);
    }
  }

  lemma {:induction false} TrimStartSkips(lead: string, x: string)
    requires forall i :: 0 <= i < |lead| ==> IsSpace(lead[i])
    ensures TrimStart(lead + x) == TrimStart(x)
  {
    if lead != [] {
      assert IsSpace(lead[0]) && (lead + x)[0] == lead[0];
      assert (lead + x)[1..] == lead[1..] + x;
      assert TrimStart(lead + x) == TrimStart(lead[1..] + x);
      TrimStartSkips(lead[1..], x);
    } else {
      assert lead + x == x;
    }
  }

  lemma {:induction false} TrimEndSkips(x: string, trail: string)
    requires forall i :: 0 <= i < |trail| ==> IsSpace(trail[i])
    ensures TrimEnd(x + trail) == TrimEnd(x)
  {
    if trail != [] {
      var n := |trail|;
      assert IsSpace(trail[n - 1]) && (x + trail)[|x + trail| - 1] == trail[n - 1];
      assert (x + trail)[..|x + trail| - 1] == x + trail[..n - 1];
      assert TrimEnd(x + trail) == TrimEnd(x + trail[..n - 1]);
      TrimEndSkips(x, trail[..n - 1]);
    } else {
      assert x + trail == x;
    }
  }

  /** Trimming twice is trimming once. */
  lemma TrimIdempotent(s: string)
    ensures Trim(Trim(s)) == Trim(s)
  {
    var r := Trim(s);
    assert TrimStart(r) == r;
    assert TrimEnd(r) == r;
  }

  /** A string that neither starts nor ends with white space is left alone. */
  lemma TrimUnpadded(s: string)
    requires s == [] || (!IsSpace(s[0]) && !IsSpace(s[|s| - 1]))
    ensures Trim(s) == s
  {
  }

  /** `s.split(sep)` for a one-character separator: every occurrence splits. */
  function Split(s: string, sep: char): (parts: seq<string>)
    ensures |parts| >= 1
    ensures parts[0] <= s
    ensures forall k :: 0 <= k < |parts| ==> sep !in parts[k]
  {
    if s == [] then [[]]
    else
      var rest := Split(s[1..], sep);
      if s[0] == sep then [[]] + rest else [[s[0]] + rest[0]] + rest[1..]
  }

  /** `parts.join(sep)`. */
  function Join(parts: seq<string>, sep: char): string
  {
    if parts == [] then []
    else if |parts| == 1 then parts[0]
    else parts[0] + [sep] + Join(parts[1..], sep)
  }

  /** Joining the pieces of a split gives the original string back. */
  lemma {:induction false} JoinSplit(s: string, sep: char)
    ensures Join(Split(s, sep), sep) == s
  {
    if s != [] {
      JoinSplit(s[1..], sep);
      var rest := Split(s[1..], sep);
      if s[0] == sep {
        assert Join([[]] + rest, sep) == [sep] + Join(rest, sep);
      } else if |rest| == 1 {
        assert Join([[s[0]] + rest[0]], sep) == [s[0]] + rest[0];
      } else {
        var parts := [[s[0]] + rest[0]] + rest[1..];
        assert parts[1..] == rest[1..];
        assert Join(parts, sep) == [s[0]] + rest[0] + [sep] + Join(rest[1..], sep);
      }
    }
  }

  lemma {:induction false} SplitNoSeparator(p: string, sep: char)
    requires sep !in p
    ensures Split(p, sep) == [p]
  {
    if p != [] {
      SplitNoSeparator(p[1..], sep);
      assert [p[0]] + p[1..] == p;
    }
  }

  lemma {:induction false} SplitAfterPiece(p: string, t: string, sep: char)
    requires sep !in p
    ensures Split(p + [sep] + t, sep) == [p] + Split(t, sep)
  {
    var s := p + [sep] + t;
    if p == [] {
      assert s[1..] == t;
    } else {
      assert s[1..] == p[1..] + [sep] + t;
      SplitAfterPiece(p[1..], t, sep);
      assert [p[0]] + p[1..] == p;
    }
  }

  /** Splitting a join of separator-free pieces gives the pieces back. */
  lemma {:induction false} SplitJoin(parts: seq<string>, sep: char)
    requires |parts| >= 1
    requires forall k :: 0 <= k < |parts| ==> sep !in parts[k]
    ensures Split(Join(parts, sep), sep) == parts
  {
    if |parts| == 1 {
      SplitNoSeparator(parts[0], sep);
    } else {
      SplitAfterPiece(parts[0], Join(parts[1..], sep), sep);
      SplitJoin(parts[1..], sep);
      assert [parts[0]] + parts[1..] == parts;
    }
  }

  /** `s.split(c)[0]`: everything before the first `c`. */
  function BeforeFirst(s: string, c: char): (r: string)
    ensures r <= s && c !in r
    ensures |r| < |s| ==> s[|r|] == c
  {
    if s == [] || s[0] == c then [] else [s[0]] + BeforeFirst(s[1..], c)
  }

  /** `s.split(c)[0]` and BeforeFirst agree. */
  lemma {:induction false} BeforeFirstIsFirstPiece(s: string, c: char)
    ensures Split(s, c)[0] == BeforeFirst(s, c)
  {
    if s != [] && s[0] != c {
      BeforeFirstIsFirstPiece(s[1..], c);
    }
  }

  /** `s.includes(sub)`. */
  predicate Contains(s: string, sub: string)
  {
    sub <= s || (s != [] && Contains(s[1..], sub))
  }

  /** `sub` occurs in `s` starting at position `i`. */
  predicate OccursAt(s: string, sub: string, i: int)
  {
    0 <= i <= |s| - |sub| && s[i..i + |sub|] == sub
  }

  /** Contains holds exactly when `sub` occurs at some position of `s`. */
  lemma {:induction false} ContainsAt(s: string, sub: string)
    ensures Contains(s, sub) <==> exists i :: OccursAt(s, sub, i)
  {
    if sub <= s {
      assert OccursAt(s, sub, 0);
    } else if s != [] {
      ContainsAt(s[1..], sub);
      if exists i :: OccursAt(s, sub, i) {
        var i :| OccursAt(s, sub, i);
        assert i != 0;
        assert OccursAt(s[1..], sub, i - 1);
      }
      if exists j :: OccursAt(s[1..], sub, j) {
        var j :| OccursAt(s[1..], sub, j);
        assert s[j + 1..j + 1 + |sub|] == s[1..][j..j + |sub|];
        assert OccursAt(s, sub, j + 1);
      }
    }
  }

  /** ASCII lower-casing. */
  function LowerAscii(c: char): (r: char)
    ensures 'A' <= c <= 'Z' ==> r as int == c as int + 32
    ensures !('A' <= c <= 'Z') ==> r == c
  {
    if 'A' <= c <= 'Z' then (c as int + 32) as char else c
  }

  /** The value of `c` as a digit (`0`-`9`, then letters from 10), 36 when it is none. */
  function DigitOf(c: char): (d: nat)
    ensures d <= 36
  {
    if '0' <= c <= '9' then c as int - '0' as int
    else if 'a' <= c <= 'z' then c as int - 'a' as int + 10
    else if 'A' <= c <= 'Z' then c as int - 'A' as int + 10
    else 36
  }

  predicate IsDecimalDigit(c: char) {
    DigitOf(c) < 10
  }

  /** The decimal digits are exactly `0` to `9`. */
  lemma DecimalDigitRange(c: char)
    ensures IsDecimalDigit(c) <==> '0' <= c <= '9'
  {
  }

  /** The longest prefix of `s` made of digits of the given radix. */
  function DigitPrefix(s: string, radix: nat): (r: string)
    ensures r <= s
    ensures forall i :: 0 <= i < |r| ==> DigitOf(r[i]) < radix
    ensures |r| < |s| ==> DigitOf(s[|r|]) >= radix
  {
    if s != [] && DigitOf(s[0]) < radix then [s[0]] + DigitPrefix(s[1..], radix) else []
  }

  /** The number a digit string denotes in the given radix. */
  function DigitsValue(ds: string, radix: nat): nat
    requires forall i :: 0 <= i < |ds| ==> DigitOf(ds[i]) < radix
  {
    if ds == [] then 0 else DigitsValue(ds[..|ds| - 1], radix) * radix + DigitOf(ds[|ds| - 1])
  }

  /**
   * `parseInt(s)` without a radix: leading white space, an optional sign, an
   * optional `0x` prefix selecting radix 16, then the longest run of digits.
   * None stands for `NaN` (no digit at all).
   */
  function ParseInt(s: string): (r: Option<int>)
  {
    var t := TrimStart(s);
    if t != [] && t[0] == '-' then
      (match ParseUnsigned(t[1..]) case None => None case Some(n) => Some(-(n as int)))
    else if t != [] && t[0] == '+' then ParseUnsigned(t[1..])
    else ParseUnsigned(t)
  }

  /** The part of `parseInt` after the sign. */
  function ParseUnsigned(u: string): (r: Option<nat>)
  {
    if |u| >= 2 && u[0] == '0' && (u[1] == 'x' || u[1] == 'X') then ParseDigits(u[2..], 16)
    else ParseDigits(u, 10)
  }

  /** The longest run of digits of `radix` at the start of `u`, or None when there is none. */
  function ParseDigits(u: string, radix: nat): (r: Option<nat>)
  {
    var ds := DigitPrefix(u, radix);
    if ds == [] then None else Some(DigitsValue(ds, radix))
  }

  /** A plain run of decimal digits parses to its decimal value. */
  lemma ParseIntDigits(ds: string)
    requires ds != []
    requires forall i :: 0 <= i < |ds| ==> DigitOf(ds[i]) < 10
    ensures ParseInt(ds) == Some(DigitsValue(ds, 10) as int)
  {
    if |ds| >= 2 {
      DecimalDigit(ds[1]);
    }
    PlainDecimal(ds);
    DigitPrefixAll(ds, 10);
    assert ParseDigits(ds, 10) == Some(DigitsValue(ds, 10));
  }

  /** A string that opens with a decimal digit has no sign and no white space; unless it opens with `0x`, it is read in base 10. */
  lemma PlainDecimal(ds: string)
    requires ds != [] && DigitOf(ds[0]) < 10
    requires !(|ds| >= 2 && ds[0] == '0' && (ds[1] == 'x' || ds[1] == 'X'))
    ensures ParseInt(ds) == ParseDigits(ds, 10)
  {
    DecimalDigit(ds[0]);
    assert TrimStart(ds) == ds;
    assert ParseUnsigned(ds) == ParseDigits(ds, 10);
  }

  /** A decimal digit is neither white space, nor a sign, nor the `x` of a `0x` prefix. */
  lemma DecimalDigit(c: char)
    requires DigitOf(c) < 10
    ensures '0' <= c <= '9' && !IsSpace(c) && c != '-' && c != '+' && c != 'x' && c != 'X'
  {
  }

  lemma {:induction false} DigitPrefixAll(ds: string, radix: nat)
    requires forall i :: 0 <= i < |ds| ==> DigitOf(ds[i]) < radix
    ensures DigitPrefix(ds, radix) == ds
  {
    if ds != [] {
      DigitPrefixAll(ds[1..], radix);
      assert [ds[0]] + ds[1..] == ds;
    }
  }

  /** Parsing stops at the first character that is not a digit. */
  lemma ParseIntStopsAtNonDigit(ds: string, rest: string)
    requires ds != []
    requires forall i :: 0 <= i < |ds| ==> DigitOf(ds[i]) < 10
    requires rest == [] || DigitOf(rest[0]) >= 10
    requires !(ds == "0" && rest != [] && (rest[0] == 'x' || rest[0] == 'X'))
    ensures ParseInt(ds + rest) == Some(DigitsValue(ds, 10) as int)
  {
    var s := ds + rest;
    assert s[0] == ds[0];
    if |s| >= 2 && |ds| >= 2 {
      DecimalDigit(ds[1]);
      assert s[1] == ds[1];
    } else if |s| >= 2 && ds[0] == '0' {
      assert ds == "0";
      assert s[1] == rest[0];
    }
    PlainDecimal(s);
    DigitPrefixStops(ds, rest);
  }

  lemma {:induction false} DigitPrefixStops(ds: string, rest: string)
    requires forall i :: 0 <= i < |ds| ==> DigitOf(ds[i]) < 10
    requires rest == [] || DigitOf(rest[0]) >= 10
    ensures DigitPrefix(ds + rest, 10) == ds
  {
    if ds == [] {
      assert ds + rest == rest;
    } else {
      assert (ds + rest)[1..] == ds[1..] + rest;
      DigitPrefixStops(ds[1..], rest);
      assert [ds[0]] + ds[1..] == ds;
    }
  }
}
