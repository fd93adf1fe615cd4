/** The JavaScript built-ins that the converter and the chat page rely on,
    stated on Dafny strings and sequences: `split`, `join`, `toLowerCase`,
    `trim`, `slice`, `String(n)` and `parseInt`. */
module JsBuiltins {
  import opened Wrappers

  /** The WhiteSpace and LineTerminator code points of ECMAScript, the set
      that `trim` removes and `parseInt` skips. */
  predicate IsWhitespace(c: char) {
    var u := c as int;
    u == 0x09 || u == 0x0A || u == 0x0B || u == 0x0C || u == 0x0D || u == 0x20
    || u == 0xA0 || u == 0x1680 || (0x2000 <= u <= 0x200A) || u == 0x2028
    || u == 0x2029 || u == 0x202F || u == 0x205F || u == 0x3000 || u == 0xFEFF
  }

  predicate IsDigit(c: char) {
    '0' <= c <= '9'
  }

  function Last<T>(s: seq<T>): T
    requires |s| > 0
  {
    s[|s| - 1]
  }

  // ---------------------------------------------------------------- toLowerCase

  /** Lower-casing of one character; only the ASCII letters are mapped. */
  function LowerChar(c: char): char {
    if 'A' <= c <= 'Z' then (c as int + 32) as char else c
  }

  function ToLower(s: string): string {
    seq(|s|, i requires 0 <= i < |s| => LowerChar(s[i]))
  }

  function LowerAll(parts: seq<string>): seq<string> {
    seq(|parts|, i requires 0 <= i < |parts| => ToLower(parts[i]))
  }

  // ---------------------------------------------------------------- split and join

  /** `s.split(sep)` for a one-character separator: the maximal runs of
      characters between separators, so `n` separators give `n + 1` parts. */
  function Split(s: string, sep: char): (parts: seq<string>)
    ensures |parts| >= 1
  {
    if |s| == 0 then [""]
    else
      var rest := Split(s[1..], sep);
      if s[0] == sep then [""] + rest
      else [[s[0]] + rest[0]] + rest[1..]
  }

  /** No part holds the separator, and there is a single part exactly when
      the string has no separator. */
  lemma {:induction false} SplitPartsAreSeparatorFree(s: string, sep: char)
    ensures forall i :: 0 <= i < |Split(s, sep)| ==> sep !in Split(s, sep)[i]
    ensures |Split(s, sep)| == 1 <==> sep !in s
  {
    if |s| > 0 {
      var rest := Split(s[1..], sep);
      SplitPartsAreSeparatorFree(s[1..], sep);
      assert s == [s[0]] + s[1..];
      if s[0] != sep {
        assert sep !in [s[0]] + rest[0];
      }
    }
  }

  /** `parts.join(sep)`. */
  function Join(parts: seq<string>, sep: string): string {
    if |parts| == 0 then ""
    else if |parts| == 1 then parts[0]
    else parts[0] + sep + Join(parts[1..], sep)
  }

  /** Joining the parts of a split with the same separator gives back the string. */
  lemma {:induction false} JoinSplit(s: string, sep: char)
    ensures Join(Split(s, sep), [sep]) == s
  {
    if |s| > 0 {
      var rest := Split(s[1..], sep);
      JoinSplit(s[1..], sep);
      if s[0] == sep {
        assert ([""] + rest)[1..] == rest;
      } else if |rest| > 1 {
        var parts := [[s[0]] + rest[0]] + rest[1..];
        assert parts[1..] == rest[1..];
        assert Join(rest, [sep]) == rest[0] + [sep] + Join(rest[1..], [sep]);
      }
    }
  }

  lemma {:induction false} SplitSeparated(x: string, sep: char, t: string)
    requires sep !in x
    ensures Split(x + [sep] + t, sep) == [x] + Split(t, sep)
  {
    var s := x + [sep] + t;
    if |x| == 0 {
      assert s[1..] == t;
    } else {
      assert s[1..] == x[1..] + [sep] + t;
      SplitSeparated(x[1..], sep, t);
      assert [x[0]] + x[1..] == x;
    }
  }

  /** Splitting the join of separator-free parts gives back the parts. */
  lemma {:induction false} SplitJoin(parts: seq<string>, sep: char)
    requires |parts| >= 1
    requires forall i :: 0 <= i < |parts| ==> sep !in parts[i]
    ensures Split(Join(parts, [sep]), sep) == parts
  {
    if |parts| == 1 {
      var p := Split(parts[0], sep);
      JoinSplit(parts[0], sep);
    } else {
      SplitJoin(parts[1..], sep);
      SplitSeparated(parts[0], sep, Join(parts[1..], [sep]));
    }
  }

  /** The last part of a split is the suffix after the last separator, or
      the whole string when there is no separator. */
  lemma LastPart(s: string, sep: char)
    ensures var t := Last(Split(s, sep));
      && |t| <= |s| && s[|s| - |t|..] == t
      && (sep !in s ==> t == s)
      && (sep in s ==> |t| < |s| && s[|s| - |t| - 1] == sep)
  {
    LastPartIsSuffix(s, sep);
    if sep in s {
      LastPartAfterSeparator(s, sep);
    } else {
      LastPartWithoutSeparator(s, sep);
    }
  }

  lemma LastPartWithoutSeparator(s: string, sep: char)
    requires sep !in s
    ensures Last(Split(s, sep)) == s
  {
    SplitPartsAreSeparatorFree(s, sep);
    JoinSplit(s, sep);
  }

  lemma {:induction false} LastPartIsSuffix(s: string, sep: char)
    ensures var t := Last(Split(s, sep)); |t| <= |s| && s[|s| - |t|..] == t
  {
    if |s| > 0 {
      var tail := s[1..];
      var rest := Split(tail, sep);
      var u := Last(rest);
      LastPartIsSuffix(tail, sep);
      LastOfSplit(s, sep);
      if s[0] != sep && |rest| == 1 {
        SplitPartsAreSeparatorFree(tail, sep);
        LastPartWithoutSeparator(tail, sep);
        assert s == [s[0]] + tail;
      } else {
        assert tail[|tail| - |u|..] == s[|s| - |u|..];
      }
    }
  }

  lemma {:induction false} LastPartAfterSeparator(s: string, sep: char)
    requires sep in s
    ensures var t := Last(Split(s, sep)); |t| < |s| && s[|s| - |t| - 1] == sep
  {
    var tail := s[1..];
    var rest := Split(tail, sep);
    var u := Last(rest);
    LastOfSplit(s, sep);
    SplitPartsAreSeparatorFree(tail, sep);
    if sep in tail {
      LastPartAfterSeparator(tail, sep);
      assert tail[|tail| - |u| - 1] == s[|s| - |u| - 1];
    } else {
      assert s == [s[0]] + tail;
      LastPartWithoutSeparator(tail, sep);
    }
  }

  /** The last part of a split, in terms of the split of the tail: the first
      character joins it only when it is not a separator and the tail has none. */
  lemma LastOfSplit(s: string, sep: char)
    requires |s| > 0
    ensures var rest := Split(s[1..], sep);
      Last(Split(s, sep)) == if s[0] != sep && |rest| == 1 then [s[0]] + Last(rest) else Last(rest)
  {
  }

  /** Splitting on a character that is not a letter commutes with lower-casing. */
  lemma {:induction false} SplitToLower(s: string, sep: char)
    requires !('A' <= sep <= 'Z') && !('a' <= sep <= 'z')
    ensures Split(ToLower(s), sep) == LowerAll(Split(s, sep))
  {
    if |s| > 0 {
      var tail := s[1..];
      var rest := Split(tail, sep);
      SplitToLower(tail, sep);
      var lowered := ToLower(s);
      assert lowered[0] == LowerChar(s[0]) && lowered[1..] == ToLower(tail);
      assert Split(lowered, sep) ==
        if LowerChar(s[0]) == sep then [""] + LowerAll(rest)
        else [[LowerChar(s[0])] + LowerAll(rest)[0]] + LowerAll(rest)[1..];
      assert (LowerChar(s[0]) == sep) == (s[0] == sep);
      if s[0] == sep {
        assert Split(s, sep) == [""] + rest;
        assert ToLower("") == "";
        LowerAllCons("", rest);
      } else {
        assert Split(s, sep) == [[s[0]] + rest[0]] + rest[1..];
        ToLowerCons(s[0], rest[0]);
        LowerAllCons([s[0]] + rest[0], rest[1..]);
        assert rest == [rest[0]] + rest[1..];
        LowerAllCons(rest[0], rest[1..]);
      }
    }
  }

  lemma ToLowerCons(c: char, t: string)
    ensures ToLower([c] + t) == [LowerChar(c)] + ToLower(t)
  {
  }

  lemma LowerAllCons(p: string, ps: seq<string>)
    ensures LowerAll([p] + ps) == [ToLower(p)] + LowerAll(ps)
  {
  }

  // ---------------------------------------------------------------- slice

  /** The position `slice` uses for an argument: negative values count from the end. */
  function RelativeIndex(i: int, len: nat): (k: nat)
    ensures k <= len
    ensures 0 <= i <= len ==> k == i
    ensures -(len as int) <= i < 0 ==> k == len as int + i
    ensures i < -(len as int) ==> k == 0
    ensures i > len ==> k == len
  {
    if i < 0 then (if len + i < 0 then 0 else len + i)
    else if i > len then len
    else i
  }

  /** `s.slice(start, end)`. */
  function Slice<T>(s: seq<T>, start: int, end: int): (r: seq<T>)
  {
    var from := RelativeIndex(start, |s|);
    var to := RelativeIndex(end, |s|);
    if to <= from then [] else s[from..to]
  }

  /** A slice is never longer than its sequence; an in-range slice is the
      subsequence, and `slice(-n)` keeps the last `n` elements, or all of them
      when there are fewer. */
  lemma SliceOfRange<T>(s: seq<T>, start: int, end: int)
    ensures |Slice(s, start, end)| <= |s|
    ensures 0 <= start <= end <= |s| ==> Slice(s, start, end) == s[start..end]
    ensures -|s| <= start < 0 && end == |s| ==> Slice(s, start, end) == s[|s| + start..]
    ensures start < -|s| && end == |s| ==> Slice(s, start, end) == s
  {
  }

  // ---------------------------------------------------------------- trim

  function TrimStart(s: string): string {
    if |s| > 0 && IsWhitespace(s[0]) then TrimStart(s[1..]) else s
  }

  function TrimEnd(s: string): string {
    if |s| > 0 && IsWhitespace(s[|s| - 1]) then TrimEnd(s[..|s| - 1]) else s
  }

  /** `s.trim()`. */
  function Trim(s: string): string {
    TrimEnd(TrimStart(s))
  }

  /** Trimming the start keeps a suffix: everything removed is white space,
      and what is kept starts with a character that is not. */
  lemma {:induction false} TrimStartDropsLeadingWhitespace(s: string)
    ensures var r := TrimStart(s);
      && |r| <= |s| && r == s[|s| - |r|..]
      && (forall i :: 0 <= i < |s| - |r| ==> IsWhitespace(s[i]))
      && (|r| > 0 ==> !IsWhitespace(r[0]))
  {
    if |s| > 0 && IsWhitespace(s[0]) {
      TrimStartDropsLeadingWhitespace(s[1..]);
      var r := TrimStart(s[1..]);
      assert s[1..][|s| - 1 - |r|..] == s[|s| - |r|..];
    }
  }

  /** Trimming the end keeps a prefix: everything removed is white space,
      and what is kept ends with a character that is not. */
  lemma {:induction false} TrimEndDropsTrailingWhitespace(s: string)
    ensures var r := TrimEnd(s);
      && |r| <= |s| && r == s[..|r|]
      && (forall i :: |r| <= i < |s| ==> IsWhitespace(s[i]))
      && (|r| > 0 ==> !IsWhitespace(r[|r| - 1]))
  {
    if |s| > 0 && IsWhitespace(s[|s| - 1]) {
      TrimEndDropsTrailingWhitespace(s[..|s| - 1]);
      var r := TrimEnd(s[..|s| - 1]);
      assert s[..|s| - 1][..|r|] == s[..|r|];
    }
  }

  /** `trim()` never lengthens, and its result starts and ends with a
      character that is not white space unless it is empty. */
  lemma TrimKeepsInnerText(s: string)
    ensures |Trim(s)| <= |s|
    ensures |Trim(s)| > 0 ==> !IsWhitespace(Trim(s)[0]) && !IsWhitespace(Trim(s)[|Trim(s)| - 1])
  {
    var t := TrimStart(s);
    TrimStartDropsLeadingWhitespace(s);
    TrimEndDropsTrailingWhitespace(t);
    var r := TrimEnd(t);
    if |r| > 0 {
      assert r[0] == t[0];
    }
  }

  /** `s.trim()` is empty exactly when every character of `s` is white space. */
  lemma TrimEmptyIff(s: string)
    ensures Trim(s) == "" <==> forall i :: 0 <= i < |s| ==> IsWhitespace(s[i])
  {
    var t := TrimStart(s);
    TrimStartDropsLeadingWhitespace(s);
    TrimEndDropsTrailingWhitespace(t);
    if !forall i :: 0 <= i < |s| ==> IsWhitespace(s[i]) {
      var k :| 0 <= k < |s| && !IsWhitespace(s[k]);
      assert |s| - |t| <= k;
      assert t[k - (|s| - |t|)] == s[k];
    }
  }

  // ---------------------------------------------------------------- String(n) and parseInt

  function DigitValue(c: char): nat
    requires IsDigit(c)
  {
    c as int - '0' as int
  }

  function DigitChar(d: nat): (c: char)
    requires d < 10
    ensures IsDigit(c) && DigitValue(c) == d
  {
    ('0' as int + d) as char
  }

  /** `String(n)` for a natural number: its decimal digits, most significant first. */
  function NatToString(n: nat): (s: string)
    ensures |s| >= 1
    ensures forall i :: 0 <= i < |s| ==> IsDigit(s[i])
  {
    if n < 10 then [DigitChar(n)] else NatToString(n / 10) + [DigitChar(n % 10)]
  }

  /** The number a non-empty run of decimal digits denotes. */
  function DecimalValue(digits: string): nat
    requires forall i :: 0 <= i < |digits| ==> IsDigit(digits[i])
  {
    if |digits| == 0 then 0
    else DecimalValue(digits[..|digits| - 1]) * 10 + DigitValue(digits[|digits| - 1])
  }

  /** The longest prefix of `s` made of decimal digits. */
  function LeadingDigits(s: string): (d: string)
    ensures |d| <= |s| && d == s[..|d|]
    ensures forall i :: 0 <= i < |d| ==> IsDigit(d[i])
    ensures |d| < |s| ==> !IsDigit(s[|d|])
  {
    if |s| > 0 && IsDigit(s[0]) then [s[0]] + LeadingDigits(s[1..]) else ""
  }

  /** `parseInt(s)` without a radix: leading white space is skipped, then an
      optional sign and the longest run of decimal digits are read; `None`
      stands for `NaN`. */
  function ParseInt(s: string): (r: Option<int>)
    ensures |s| > 0 && !IsWhitespace(s[0]) && !IsDigit(s[0]) && s[0] != '-' && s[0] != '+' ==> r.None?
  {
    var t := TrimStart(s);
    var signed := |t| > 0 && (t[0] == '-' || t[0] == '+');
    var digits := LeadingDigits(if signed then t[1..] else t);
    if |digits| == 0 then None
    else if signed && t[0] == '-' then Some(-(DecimalValue(digits) as int))
    else Some(DecimalValue(digits))
  }

  lemma {:induction false} DecimalValueOfNatToString(n: nat)
    ensures DecimalValue(NatToString(n)) == n
  {
    if n >= 10 {
      DecimalValueOfNatToString(n / 10);
      var s := NatToString(n);
      assert s[..|s| - 1] == NatToString(n / 10);
    }
  }

  /** `parseInt(String(n)) === n`: the count written by the chunked save is read back. */
  lemma ParseIntOfNatToString(n: nat)
    ensures ParseInt(NatToString(n)) == Some(n)
  {
    var s := NatToString(n);
    assert !IsWhitespace(s[0]);
    assert TrimStart(s) == s;
    assert LeadingDigits(s) == s;
    DecimalValueOfNatToString(n);
  }

  /** Distinct numbers have distinct decimal representations. */
  lemma NatToStringInjective(i: nat, j: nat)
    requires NatToString(i) == NatToString(j)
    ensures i == j
  {
    ParseIntOfNatToString(i);
    ParseIntOfNatToString(j);
  }
}
