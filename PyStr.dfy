/**
 * Models of the Python built-ins on `str` and on sequences that the core
 * relies on: `str.split(sep)`, `sep.join`, `str.strip()`, `str.lower()`,
 * the substring test `t in s`, slicing `s[lo:hi]` and `int(s)`.
 */
module PyStr {
  import opened Wrappers

  /** Python's `str.isspace()` for one character (the whitespace `str.strip()` removes). */
  predicate IsSpace(c: char) {
    || c == ' '
    || '\t' <= c <= '\r'
    || '\U{1c}' <= c <= '\U{1f}'
    || c == '\U{85}' || c == '\U{a0}' || c == '\U{1680}'
    || '\U{2000}' <= c <= '\U{200a}'
    || c == '\U{2028}' || c == '\U{2029}' || c == '\U{202f}' || c == '\U{205f}' || c == '\U{3000}'
  }

  /**
   * The whitespace `int(s)` skips around its digits: ASCII characters count
   * only when they are C `isspace` characters, so the ASCII separators
   * U+001C..U+001F, which `str.strip()` removes, are not skipped here.
   */
  predicate IsIntSpace(c: char) {
    IsSpace(c) && !('\U{1c}' <= c <= '\U{1f}')
  }

  // ---------------------------------------------------------------------
  // str.split(sep) and sep.join(parts) for a one-character separator
  // ---------------------------------------------------------------------

  /** `s.split(sep)`: every occurrence of `sep` ends a field; empty fields are kept. */
  function Split(s: string, sep: char): (parts: seq<string>)
    ensures |parts| >= 1
  {
    if s == [] then [""]
    else
      var rest := Split(s[1..], sep);
      if s[0] == sep then [""] + rest
      else [[s[0]] + rest[0]] + rest[1..]
  }

  /** `sep.join(parts)`. */
  function Join(parts: seq<string>, sep: char): string
  {
    if parts == [] then ""
    else if |parts| == 1 then parts[0]
    else parts[0] + [sep] + Join(parts[1..], sep)
  }

  /** `s.split(sep)[0]`: the characters before the first separator. */
  function FirstField(s: string, sep: char): string
  {
    if s == [] || s[0] == sep then [] else [s[0]] + FirstField(s[1..], sep)
  }

  /** The text after the first separator, if `s` has one. */
  function AfterSep(s: string, sep: char): Option<string>
  {
    if s == [] then None else if s[0] == sep then Some(s[1..]) else AfterSep(s[1..], sep)
  }

  /**
   * The first two fields of a split, read without splitting: the first field
   * is what precedes the first separator, there is a second field exactly
   * when there is a separator, and it is the first field of what follows.
   */
  lemma {:induction false} SplitFirstFields(s: string, sep: char)
    ensures Split(s, sep)[0] == FirstField(s, sep)
    ensures |Split(s, sep)| >= 2 <==> AfterSep(s, sep).Some?
    ensures AfterSep(s, sep).Some? ==> Split(s, sep)[1] == FirstField(AfterSep(s, sep).value, sep)
  {
    if s != [] && s[0] != sep {
      SplitFirstFields(s[1..], sep);
    } else if s != [] {
      SplitFirstFields(s[1..], sep);
    }
  }

  /** Without a separator the whole string is the first field and nothing follows. */
  lemma {:induction false} NoSepFields(s: string, sep: char)
    requires sep !in s
    ensures FirstField(s, sep) == s && AfterSep(s, sep) == None
  {
    if s != [] {
      assert s[0] != sep && sep !in s[1..] by { assert s == [s[0]] + s[1..]; }
      NoSepFields(s[1..], sep);
    }
  }

  /** The first field ends at the first separator, and the rest follows it. */
  lemma {:induction false} FieldsAtSep(x: string, y: string, sep: char)
    requires sep !in x
    ensures FirstField(x + [sep] + y, sep) == x && AfterSep(x + [sep] + y, sep) == Some(y)
  {
    if x == [] {
      assert x + [sep] + y == [sep] + y;
    } else {
      assert x[0] != sep && sep !in x[1..] by { assert x == [x[0]] + x[1..]; }
      assert (x + [sep] + y)[1..] == x[1..] + [sep] + y;
      FieldsAtSep(x[1..], y, sep);
    }
  }

  /** No field that `Split` returns contains the separator. */
  lemma {:induction false} SplitFieldsHaveNoSep(s: string, sep: char)
    ensures forall k :: 0 <= k < |Split(s, sep)| ==> sep !in Split(s, sep)[k]
  {
    if s != [] {
      SplitFieldsHaveNoSep(s[1..], sep);
    }
  }

  /** Joining the fields of a split with the same separator gives back the string. */
  lemma {:induction false} JoinSplit(s: string, sep: char)
    ensures Join(Split(s, sep), sep) == s
  {
    if s != [] {
      var rest := Split(s[1..], sep);
      JoinSplit(s[1..], sep);
      if s[0] == sep {
        assert Split(s, sep) == [""] + rest;
      } else if |rest| > 1 {
        assert Join(rest, sep) == rest[0] + [sep] + Join(rest[1..], sep);
        assert ([[s[0]] + rest[0]] + rest[1..])[1..] == rest[1..];
      }
    }
  }

  /** A string without the separator splits into itself alone. */
  lemma {:induction false} SplitWithoutSep(s: string, sep: char)
    requires sep !in s
    ensures Split(s, sep) == [s]
  {
    if s != [] {
      assert s[0] != sep && sep !in s[1..] by { assert s == [s[0]] + s[1..]; }
      SplitWithoutSep(s[1..], sep);
    }
  }

  /** Splitting at one occurrence of the separator splits both sides independently. */
  lemma {:induction false} SplitAtSep(x: string, y: string, sep: char)
    ensures Split(x + [sep] + y, sep) == Split(x, sep) + Split(y, sep)
  {
    if x == [] {
      assert x + [sep] + y == [sep] + y;
    } else {
      assert (x + [sep] + y)[1..] == x[1..] + [sep] + y;
      SplitAtSep(x[1..], y, sep);
    }
  }

  /** Fields that do not contain the separator survive a join followed by a split. */
  lemma {:induction false} SplitJoin(parts: seq<string>, sep: char)
    requires |parts| >= 1
    requires forall k :: 0 <= k < |parts| ==> sep !in parts[k]
    ensures Split(Join(parts, sep), sep) == parts
  {
    if |parts| == 1 {
      SplitWithoutSep(parts[0], sep);
    } else {
      SplitJoin(parts[1..], sep);
      SplitWithoutSep(parts[0], sep);
      SplitAtSep(parts[0], Join(parts[1..], sep), sep);
    }
  }

  /** Appending one more field to a non-empty join adds the separator and the field. */
  lemma {:induction false} JoinSnoc(parts: seq<string>, w: string, sep: char)
    requires |parts| >= 1
    ensures Join(parts + [w], sep) == Join(parts, sep) + [sep] + w
  {
    if |parts| > 1 {
      assert (parts + [w])[1..] == parts[1..] + [w];
      JoinSnoc(parts[1..], w, sep);
    }
  }

  /** Joining non-empty fields starts with the first field's first character and ends with the last field's last one. */
  lemma {:induction false} JoinEnds(parts: seq<string>, sep: char)
    requires |parts| >= 1
    requires forall k :: 0 <= k < |parts| ==> parts[k] != []
    ensures var j := Join(parts, sep); var last := parts[|parts| - 1];
      j != [] && j[0] == parts[0][0] && j[|j| - 1] == last[|last| - 1]
  {
    if |parts| > 1 {
      JoinEnds(parts[1..], sep);
    }
  }

  // ---------------------------------------------------------------------
  // str.strip()
  // ---------------------------------------------------------------------

  /** Removes the leading characters that satisfy `ws`. */
  function StripLeft(s: string, ws: char -> bool): (r: string)
    ensures |r| <= |s| && r == s[|s| - |r|..]
    ensures forall k :: 0 <= k < |s| - |r| ==> ws(s[k])
    ensures r == [] || !ws(r[0])
  {
    if s != [] && ws(s[0]) then StripLeft(s[1..], ws) else s
  }

  /** Removes the trailing characters that satisfy `ws`. */
  function StripRight(s: string, ws: char -> bool): (r: string)
    ensures |r| <= |s| && r == s[..|r|]
    ensures forall k :: |r| <= k < |s| ==> ws(s[k])
    ensures r == [] || !ws(r[|r| - 1])
  {
    if s != [] && ws(s[|s| - 1]) then StripRight(s[..|s| - 1], ws) else s
  }

  /** Every character of `s` that `ws` does not skip survives stripping both ends. */
  lemma StripKeeps(s: string, ws: char -> bool)
    ensures forall k :: 0 <= k < |s| && !ws(s[k]) ==> s[k] in StripRight(StripLeft(s, ws), ws)
  {
    forall k | 0 <= k < |s| && !ws(s[k])
      ensures s[k] in StripRight(StripLeft(s, ws), ws)
    {
      StripKeepsAt(s, ws, k);
    }
  }

  /** Where a character that `ws` does not skip lands after stripping both ends. */
  lemma StripKeepsAt(s: string, ws: char -> bool, k: int)
    requires 0 <= k < |s| && !ws(s[k])
    ensures var l := StripLeft(s, ws); var p := |s| - |l|;
      p <= k < p + |StripRight(l, ws)| && StripRight(l, ws)[k - p] == s[k]
  {
    var l := StripLeft(s, ws);
    var p := |s| - |l|;
    assert p <= k;
    assert l[k - p] == s[k];
  }

  /**
   * `s.strip()`: no whitespace is left at either end, a string without
   * whitespace at its ends is unchanged, and one of only whitespace becomes
   * empty.
   */
  function Strip(s: string): (r: string)
    ensures |r| <= |s|
    ensures r == [] || (!IsSpace(r[0]) && !IsSpace(r[|r| - 1]))
    ensures (s == [] || (!IsSpace(s[0]) && !IsSpace(s[|s| - 1]))) ==> r == s
    ensures (forall k :: 0 <= k < |s| ==> IsSpace(s[k])) ==> r == []
  {
    StripRight(StripLeft(s, IsSpace), IsSpace)
  }

  // ---------------------------------------------------------------------
  // str.lower() and the substring test
  // ---------------------------------------------------------------------

  /** Lower-cases the ASCII capitals and keeps every other character. */
  function LowerChar(c: char): char
  {
    if 'A' <= c <= 'Z' then (c as int + 32) as char else c
  }

  /** `s.lower()`, on the ASCII letters. */
  function Lower(s: string): (r: string)
    ensures |r| == |s|
    ensures forall k :: 0 <= k < |s| ==> r[k] == LowerChar(s[k])
  {
    if s == [] then [] else [LowerChar(s[0])] + Lower(s[1..])
  }

  /** Lower-casing twice is lower-casing once. */
  lemma LowerIdempotent(s: string)
    ensures Lower(Lower(s)) == Lower(s)
  {
  }

  /** Lower-casing works character by character, so it distributes over concatenation. */
  lemma LowerConcat(s: string, t: string)
    ensures Lower(s + t) == Lower(s) + Lower(t)
  {
  }

  /** `t` occurs in `s` starting at index `i`. */
  predicate MatchAt(s: string, t: string, i: int)
  {
    0 <= i && i + |t| <= |s| && s[i..i + |t|] == t
  }

  /** Python's `t in s` on strings: `t` is a prefix of `s` or occurs in its tail. */
  predicate Contains(s: string, t: string)
    ensures t == [] ==> Contains(s, t)
    ensures Contains(s, t) ==> |t| <= |s|
  {
    (|t| <= |s| && s[..|t|] == t) || (s != [] && Contains(s[1..], t))
  }

  /** `t in s` holds exactly when `t` occurs at some index of `s`. */
  lemma {:induction false} ContainsIffMatch(s: string, t: string)
    ensures Contains(s, t) <==> exists i :: MatchAt(s, t, i)
  {
    if Contains(s, t) {
      if |t| <= |s| && s[..|t|] == t {
        assert MatchAt(s, t, 0);
      } else {
        ContainsIffMatch(s[1..], t);
        var i :| MatchAt(s[1..], t, i);
        assert s[i + 1..i + 1 + |t|] == s[1..][i..i + |t|];
        assert MatchAt(s, t, i + 1);
      }
    }
    if exists i :: MatchAt(s, t, i) {
      var i :| MatchAt(s, t, i);
      if i > 0 {
        assert s[1..][i - 1..i - 1 + |t|] == s[i..i + |t|];
        assert MatchAt(s[1..], t, i - 1);
        ContainsIffMatch(s[1..], t);
      }
    }
  }

  /** A substring of `u` is a substring of every string that contains `u`. */
  lemma ContainsInfix(p: string, u: string, q: string, t: string)
    requires Contains(u, t)
    ensures Contains(p + u + q, t)
  {
    ContainsIffMatch(u, t);
    var i :| MatchAt(u, t, i);
    assert (p + u + q)[|p| + i..|p| + i + |t|] == u[i..i + |t|];
    assert MatchAt(p + u + q, t, |p| + i);
    ContainsIffMatch(p + u + q, t);
  }

  // ---------------------------------------------------------------------
  // Slicing s[lo:hi]
  // ---------------------------------------------------------------------

  /** Where a slice bound lands: a negative bound counts from the end, then both are clamped. */
  function SliceBound(i: int, n: nat): (r: nat)
    ensures r <= n
    ensures 0 <= i ==> r == if i <= n then i else n
    ensures i < 0 ==> r == if 0 <= n + i then n + i else 0
  {
    if i < 0 then (if n + i < 0 then 0 else n + i)
    else if i > n then n
    else i
  }

  /** `s[lo:hi]`. */
  function Slice<T>(s: seq<T>, lo: int, hi: int): (r: seq<T>)
    ensures 0 <= lo && 0 <= hi ==>
      var a, b := if lo <= |s| then lo else |s|, if hi <= |s| then hi else |s|;
      |r| == (if a <= b then b - a else 0) && forall k :: 0 <= k < |r| ==> r[k] == s[lo + k]
  {
    var a, b := SliceBound(lo, |s|), SliceBound(hi, |s|);
    if a < b then s[a..b] else []
  }

  // ---------------------------------------------------------------------
  // int(s)
  // ---------------------------------------------------------------------

  predicate IsDigitChar(c: char) {
    '0' <= c <= '9'
  }

  predicate AllDigits(s: string) {
    forall k :: 0 <= k < |s| ==> IsDigitChar(s[k])
  }

  /** The value of a string of decimal digits, most significant first. */
  function DigitsValue(ds: string): nat
    requires AllDigits(ds)
  {
    if ds == [] then 0
    else DigitsValue(ds[..|ds| - 1]) * 10 + (ds[|ds| - 1] as int - '0' as int)
  }

  /**
   * The text `int()` reads once whitespace is stripped: an optional sign and
   * at least one ASCII digit.
   */
  function ParseSigned(t: string): (r: Option<int>)
    ensures r.Some? ==> t != [] && forall c :: c in t ==> IsDigitChar(c) || c == '-' || c == '+'
    ensures r.Some? && IsDigitChar(t[0]) ==> r.value >= 0
  {
    var signed := |t| > 0 && (t[0] == '-' || t[0] == '+');
    var body := if signed then t[1..] else t;
    if body != [] && AllDigits(body) then
      assert forall k :: 1 <= k < |t| ==> t[k] == body[if signed then k - 1 else k];
      Some(if signed && t[0] == '-' then -(DigitsValue(body) as int) else DigitsValue(body))
    else None
  }

  /** An optional sign and at least one digit are read as the signed value of the digits. */
  lemma ParseSignedDigits(sgn: string, ds: string)
    requires sgn == "" || sgn == "+" || sgn == "-"
    requires ds != [] && AllDigits(ds)
    ensures ParseSigned(sgn + ds) == Some(if sgn == "-" then -(DigitsValue(ds) as int) else DigitsValue(ds))
  {
    if sgn == "" {
      assert sgn + ds == ds;
      assert IsDigitChar(ds[0]);
    } else {
      assert (sgn + ds)[1..] == ds;
    }
  }

  /** Only an optional sign followed by at least one digit is accepted. */
  lemma ParseSignedShape(t: string) returns (sgn: string, ds: string)
    requires ParseSigned(t).Some?
    ensures sgn == "" || sgn == "+" || sgn == "-"
    ensures ds != [] && AllDigits(ds) && t == sgn + ds
  {
    if t[0] == '-' || t[0] == '+' {
      sgn, ds := [t[0]], t[1..];
    } else {
      sgn, ds := "", t;
    }
  }

  /**
   * `int(s)` in base 10: optional surrounding whitespace, an optional sign and
   * at least one ASCII digit; `None` where Python raises ValueError.
   */
  function ParseInt(s: string): (r: Option<int>)
    ensures r.Some? ==> forall k :: 0 <= k < |s| ==>
      IsIntSpace(s[k]) || IsDigitChar(s[k]) || s[k] == '-' || s[k] == '+'
  {
    StripKeeps(s, IsIntSpace);
    ParseSigned(StripRight(StripLeft(s, IsIntSpace), IsIntSpace))
  }

  /** Text with no whitespace at its ends is read by `ParseSigned` as it stands. */
  lemma ParseIntUnpadded(s: string)
    requires s != [] && !IsIntSpace(s[0]) && !IsIntSpace(s[|s| - 1])
    ensures ParseInt(s) == ParseSigned(s)
  {
    assert StripLeft(s, IsIntSpace) == s;
    assert StripRight(s, IsIntSpace) == s;
  }

  /** A minus sign gives a negative number: `int("-1") == -1`. */
  lemma ParseIntNegative()
    ensures ParseInt("-1") == Some(-1)
  {
    ParseIntUnpadded("-1");
    ParseSignedDigits("-", "1");
    assert "-" + "1" == "-1";
  }

  /** Leading zeros are read: `int("07") == 7`. */
  lemma ParseIntLeadingZeros()
    ensures ParseInt("07") == Some(7)
  {
    ParseIntUnpadded("07");
    assert DigitsValue("07") == 7 by {
      assert "07"[..1] == "0";
      assert "0"[..0] == "";
    }
    ParseSignedDigits("", "07");
    assert "" + "07" == "07";
  }

  /** A sign without digits raises ValueError. */
  lemma ParseIntLoneSign()
    ensures ParseInt("+") == None
  {
    var t := "+";
    assert ParseSigned(t) == None by {
      assert t[0] == '+' && t[1..] == [];
    }
    ParseIntUnpadded(t);
  }

  /** A sign inside the digits raises ValueError. */
  lemma ParseIntInnerSign()
    ensures ParseInt("1-2") == None
  {
    ParseIntUnpadded("1-2");
    assert !IsDigitChar("1-2"[1]);
  }

  /** Two signs raise ValueError. */
  lemma ParseIntDoubleSign()
    ensures ParseInt("--1") == None
  {
    ParseIntUnpadded("--1");
    assert "--1"[1..][0] == '-';
  }

  /** `str(n)` for a natural number. */
  function DecimalString(n: nat): (r: string)
    ensures r != [] && AllDigits(r)
  {
    if n < 10 then ['0' + n as char]
    else DecimalString(n / 10) + ['0' + (n % 10) as char]
  }

  lemma {:induction false} DigitsValueOfDecimalString(n: nat)
    ensures DigitsValue(DecimalString(n)) == n
  {
    if n >= 10 {
      var r := DecimalString(n);
      assert r[..|r| - 1] == DecimalString(n / 10);
      DigitsValueOfDecimalString(n / 10);
    }
  }

  /** `int(str(n)) == n`, also with surrounding whitespace. */
  lemma ParseIntOfDecimalString(n: nat, pre: string, post: string)
    requires forall k :: 0 <= k < |pre| ==> IsIntSpace(pre[k])
    requires forall k :: 0 <= k < |post| ==> IsIntSpace(post[k])
    ensures ParseInt(pre + DecimalString(n) + post) == Some(n)
  {
    var d := DecimalString(n);
    assert pre + d + post == pre + (d + post);
    DigitIsNotSpace(d[0]);
    DigitIsNotSpace(d[|d| - 1]);
    StripLeftSkips(pre, d + post, IsIntSpace);
    StripRightSkips(d, post, IsIntSpace);
    ParseIntOfDigits(n);
  }

  /** `int(str(n)) == n`. */
  lemma ParseIntOfDigits(n: nat)
    ensures ParseInt(DecimalString(n)) == Some(n)
  {
    var d := DecimalString(n);
    DigitIsNotSpace(d[0]);
    DigitIsNotSpace(d[|d| - 1]);
    assert StripLeft(d, IsIntSpace) == d;
    assert StripRight(d, IsIntSpace) == d;
    assert !(d[0] == '-' || d[0] == '+') by { assert IsDigitChar(d[0]); }
    DigitsValueOfDecimalString(n);
  }

  /** `(" " + s).strip()` is `s` when `s` neither starts nor ends with whitespace. */
  lemma StripLeadingSpace(s: string)
    requires s != [] && !IsSpace(s[0]) && !IsSpace(s[|s| - 1])
    ensures Strip(" " + s) == s
  {
    StripLeftSkips(" ", s, IsSpace);
  }

  lemma DigitIsNotSpace(c: char)
    requires IsDigitChar(c)
    ensures !IsIntSpace(c) && !IsSpace(c)
  {
  }

  lemma {:induction false} StripLeftSkips(w: string, s: string, ws: char -> bool)
    requires forall k :: 0 <= k < |w| ==> ws(w[k])
    requires s == [] || !ws(s[0])
    ensures StripLeft(w + s, ws) == s
  {
    if w != [] {
      assert (w + s)[1..] == w[1..] + s;
      StripLeftSkips(w[1..], s, ws);
    }
  }

  lemma {:induction false} StripRightSkips(s: string, w: string, ws: char -> bool)
    requires forall k :: 0 <= k < |w| ==> ws(w[k])
    requires s == [] || !ws(s[|s| - 1])
    ensures StripRight(s + w, ws) == s
  {
    if w != [] {
      assert (s + w)[..|s + w| - 1] == s + w[..|w| - 1];
      StripRightSkips(s, w[..|w| - 1], ws);
    }
  }
}
