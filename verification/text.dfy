/** The string operations the scheduling scripts lean on, written out:
    digit filtering, decimal rendering, Python's `str.strip()`,
    `str.split(sep)`, substring search, ASCII lower-casing and `int(str)`. */
module Text {
  import opened Base

  predicate IsDigit(c: char) {
    '0' <= c <= '9'
  }

  predicate AllDigits(s: string) {
    forall i :: 0 <= i < |s| ==> IsDigit(s[i])
  }

  function DigitValue(c: char): (v: nat)
    requires IsDigit(c)
    ensures v < 10
  {
    c as int - '0' as int
  }

  function DigitChar(v: nat): (c: char)
    requires v < 10
    ensures IsDigit(c) && DigitValue(c) == v
  {
    ('0' as int + v) as char
  }

  /** `''.join(filter(str.isdigit, s))`: the digits of `s`, in order. */
  function Digits(s: string): (r: string)
    ensures AllDigits(r)
    ensures |r| <= |s|
    ensures r == [] <==> forall i :: 0 <= i < |s| ==> !IsDigit(s[i])
    ensures AllDigits(s) ==> r == s
  {
    if s == [] then []
    else
      assert AllDigits(s) ==> AllDigits(s[1..]);
      (if IsDigit(s[0]) then [s[0]] else []) + Digits(s[1..])
  }

  lemma {:induction false} DigitsConcat(a: string, b: string)
    ensures Digits(a + b) == Digits(a) + Digits(b)
    decreases |a|
  {
    if a == [] {
      assert a + b == b;
    } else {
      var head := if IsDigit(a[0]) then [a[0]] else [];
      assert (a + b)[0] == a[0];
      assert (a + b)[1..] == a[1..] + b;
      assert Digits(a + b) == head + Digits(a[1..] + b);
      assert Digits(a) == head + Digits(a[1..]);
      DigitsConcat(a[1..], b);
      assert head + (Digits(a[1..]) + Digits(b)) == (head + Digits(a[1..])) + Digits(b);
    }
  }

  /** The value of a string of decimal digits (Python's `int` on such a string). */
  function DecimalValue(s: string): nat
    requires AllDigits(s)
    decreases |s|
  {
    if s == [] then 0
    else DecimalValue(s[..|s| - 1]) * 10 + DigitValue(s[|s| - 1])
  }

  /** `str(n)` for a non-negative integer: canonical decimal, no leading zero. */
  function NatToString(n: nat): (r: string)
    ensures |r| > 0 && AllDigits(r)
    ensures r[0] == '0' ==> n == 0
    decreases n
  {
    if n < 10 then [DigitChar(n)]
    else NatToString(n / 10) + [DigitChar(n % 10)]
  }

  lemma {:induction false} DecimalValueOfNatToString(n: nat)
    ensures DecimalValue(NatToString(n)) == n
    decreases n
  {
    var s := NatToString(n);
    if n < 10 {
      assert s[..|s| - 1] == [];
    } else {
      assert s[..|s| - 1] == NatToString(n / 10);
      DecimalValueOfNatToString(n / 10);
    }
  }

  /** `str(i)` for any integer. */
  function IntToString(i: int): (r: string)
    ensures |r| > 0
    ensures i >= 0 ==> r == NatToString(i)
    ensures i < 0 ==> r == "-" + NatToString(-i)
  {
    if i < 0 then "-" + NatToString(-i) else NatToString(i)
  }

  /** Characters for which Python's `str.isspace()` holds; `str.strip()`
      with no argument removes exactly these. */
  predicate IsSpace(c: char) {
    var k := c as int;
    (0x09 <= k <= 0x0D) || (0x1C <= k <= 0x20) || k == 0x85 || k == 0xA0
    || k == 0x1680 || (0x2000 <= k <= 0x200A) || k == 0x2028 || k == 0x2029
    || k == 0x202F || k == 0x205F || k == 0x3000
  }

  /** Which white space a strip removes: `str.strip()` removes every
      character `str.isspace()` accepts; `int()` skips the same characters
      around a number except the ASCII separators U+001C to U+001F. */
  datatype Blanks = StrBlanks | IntBlanks

  /** A character the given kind of strip removes. */
  predicate IsBlank(b: Blanks, c: char) {
    IsSpace(c) && (b == IntBlanks ==> !(0x1C <= c as int <= 0x1F))
  }

  /** `s.lstrip()` for `StrBlanks`; the white space `int()` skips before a number for `IntBlanks`. */
  function StripLeft(b: Blanks, s: string): (r: string)
    ensures |r| <= |s|
    decreases |s|
  {
    if s != [] && IsBlank(b, s[0]) then StripLeft(b, s[1..]) else s
  }

  /** `lstrip()` removes the leading white space and nothing else. */
  lemma {:induction false} StripLeftSpec(b: Blanks, s: string)
    ensures var r := StripLeft(b, s);
            && r == s[|s| - |r|..]
            && (forall k :: 0 <= k < |s| - |r| ==> IsBlank(b, s[k]))
            && (r == [] || !IsBlank(b, r[0]))
    decreases |s|
  {
    if s != [] && IsBlank(b, s[0]) {
      StripLeftSpec(b, s[1..]);
    }
  }

  /** `s.rstrip()` for `StrBlanks`; the white space `int()` skips after a number for `IntBlanks`. */
  function StripRight(b: Blanks, s: string): (r: string)
    ensures |r| <= |s|
    decreases |s|
  {
    if s != [] && IsBlank(b, s[|s| - 1]) then StripRight(b, s[..|s| - 1]) else s
  }

  /** `rstrip()` removes the trailing white space and nothing else. */
  lemma {:induction false} StripRightSpec(b: Blanks, s: string)
    ensures var r := StripRight(b, s);
            && r == s[..|r|]
            && (forall k :: |r| <= k < |s| ==> IsBlank(b, s[k]))
            && (r == [] || !IsBlank(b, r[|r| - 1]))
    decreases |s|
  {
    if s != [] && IsBlank(b, s[|s| - 1]) {
      StripRightSpec(b, s[..|s| - 1]);
    }
  }

  /** `s.strip()` for `StrBlanks`; what `int()` reads of `s` for `IntBlanks`. */
  function Strip(b: Blanks, s: string): (r: string)
    ensures |r| <= |s|
  {
    StripRight(b, StripLeft(b, s))
  }

  /** What `strip()` leaves neither starts nor ends with white space. */
  lemma StripSpec(b: Blanks, s: string)
    ensures var r := Strip(b, s);
            r == [] || (!IsBlank(b, r[0]) && !IsBlank(b, r[|r| - 1]))
  {
    var l := StripLeft(b, s);
    StripLeftSpec(b, s);
    StripRightSpec(b, l);
    var r := StripRight(b, l);
    if r != [] {
      assert r[0] == l[0];
    }
  }

  /** A string that neither starts nor ends with white space is left alone by `strip()`. */
  lemma StripUnchanged(b: Blanks, s: string)
    requires s == [] || (!IsBlank(b, s[0]) && !IsBlank(b, s[|s| - 1]))
    ensures Strip(b, s) == s
  {
    if s != [] {
      var l := StripLeft(b, s);
      assert !IsBlank(b, s[0]);
      assert l == s;
      assert !IsBlank(b, l[|l| - 1]);
    }
  }

  /** Every character is white space. */
  predicate AllBlank(b: Blanks, s: string) {
    forall k :: 0 <= k < |s| ==> IsBlank(b, s[k])
  }

  /** `lstrip()` removes leading white space up to the first other character. */
  lemma {:induction false} StripLeftPadded(b: Blanks, pre: string, x: string)
    requires AllBlank(b, pre) && x != [] && !IsBlank(b, x[0])
    ensures StripLeft(b, pre + x) == x
    decreases |pre|
  {
    if pre == [] {
      assert pre + x == x;
    } else {
      assert (pre + x)[0] == pre[0];
      assert (pre + x)[1..] == pre[1..] + x;
      StripLeftPadded(b, pre[1..], x);
    }
  }

  /** `rstrip()` removes trailing white space back to the last other character. */
  lemma {:induction false} StripRightPadded(b: Blanks, x: string, post: string)
    requires AllBlank(b, post) && x != [] && !IsBlank(b, x[|x| - 1])
    ensures StripRight(b, x + post) == x
    decreases |post|
  {
    if post == [] {
      assert x + post == x;
    } else {
      var s := x + post;
      assert s[|s| - 1] == post[|post| - 1];
      assert s[..|s| - 1] == x + post[..|post| - 1];
      StripRightPadded(b, x, post[..|post| - 1]);
    }
  }

  /** `strip()` removes exactly the white space around a text that neither
      starts nor ends with white space. */
  lemma StripPadded(b: Blanks, pre: string, t: string, post: string)
    requires AllBlank(b, pre) && AllBlank(b, post)
    requires t != [] && !IsBlank(b, t[0]) && !IsBlank(b, t[|t| - 1])
    ensures Strip(b, pre + t + post) == t
  {
    assert pre + t + post == pre + (t + post);
    assert (t + post)[0] == t[0];
    StripLeftPadded(b, pre, t + post);
    StripRightPadded(b, t, post);
  }

  lemma DigitsOfSpaces(b: Blanks, s: string)
    requires forall k :: 0 <= k < |s| ==> IsBlank(b, s[k])
    ensures Digits(s) == []
  {
    forall k | 0 <= k < |s|
      ensures !IsDigit(s[k])
    {
      assert IsBlank(b, s[k]);
    }
  }

  lemma StripLeftKeepsDigits(b: Blanks, s: string)
    ensures Digits(StripLeft(b, s)) == Digits(s)
  {
    var l := StripLeft(b, s);
    StripLeftSpec(b, s);
    var cut := |s| - |l|;
    assert s == s[..cut] + l;
    DigitsConcat(s[..cut], l);
    DigitsOfSpaces(b, s[..cut]);
  }

  lemma StripRightKeepsDigits(b: Blanks, s: string)
    ensures Digits(StripRight(b, s)) == Digits(s)
  {
    var r := StripRight(b, s);
    StripRightSpec(b, s);
    assert s == r + s[|r|..];
    DigitsConcat(r, s[|r|..]);
    DigitsOfSpaces(b, s[|r|..]);
  }

  /** Stripping never removes a digit. */
  lemma StripKeepsDigits(b: Blanks, s: string)
    ensures Digits(Strip(b, s)) == Digits(s)
  {
    StripLeftKeepsDigits(b, s);
    StripRightKeepsDigits(b, StripLeft(b, s));
  }

  /** `s.split(sep)` for a one-character separator: never empty, and the
      pieces hold no separator. */
  function Split(s: string, sep: char): (pieces: seq<string>)
    ensures |pieces| >= 1
    ensures forall k :: 0 <= k < |pieces| ==> sep !in pieces[k]
    decreases |s|
  {
    if s == [] then [[]]
    else
      var rest := Split(s[1..], sep);
      if s[0] == sep then [[]] + rest
      else [[s[0]] + rest[0]] + rest[1..]
  }

  /** `sep.join(pieces)`. */
  function Join(pieces: seq<string>, sep: char): string
    decreases |pieces|
  {
    if |pieces| == 0 then []
    else if |pieces| == 1 then pieces[0]
    else pieces[0] + [sep] + Join(pieces[1..], sep)
  }

  /** Splitting loses nothing: joining the pieces rebuilds the string. */
  lemma {:induction false} JoinSplit(s: string, sep: char)
    ensures Join(Split(s, sep), sep) == s
    decreases |s|
  {
    if s != [] {
      var rest := Split(s[1..], sep);
      JoinSplit(s[1..], sep);
      if s[0] == sep {
        assert Split(s, sep) == [[]] + rest;
        assert ([[]] + rest)[1..] == rest;
      } else {
        var p := Split(s, sep);
        assert p == [[s[0]] + rest[0]] + rest[1..];
        if |rest| == 1 {
          assert s == [s[0]] + s[1..];
        } else {
          assert p[1..] == rest[1..];
          assert Join(rest, sep) == rest[0] + [sep] + Join(rest[1..], sep);
          assert s == [s[0]] + s[1..];
        }
      }
    }
  }

  lemma {:induction false} SplitWithoutSeparator(p: string, sep: char)
    requires sep !in p
    ensures Split(p, sep) == [p]
    decreases |p|
  {
    if p != [] {
      assert sep !in p[1..];
      SplitWithoutSeparator(p[1..], sep);
      assert [p[0]] + p[1..] == p;
    }
  }

  lemma {:induction false} SplitAfterPiece(p: string, t: string, sep: char)
    requires sep !in p
    ensures Split(p + [sep] + t, sep) == [p] + Split(t, sep)
    decreases |p|
  {
    var s := p + [sep] + t;
    if p == [] {
      assert s[0] == sep && s[1..] == t;
    } else {
      assert s[0] == p[0];
      assert s[1..] == p[1..] + [sep] + t;
      assert sep !in p[1..];
      SplitAfterPiece(p[1..], t, sep);
      assert [p[0]] + p[1..] == p;
    }
  }

  /** Joining separator-free pieces and splitting again gives the pieces back. */
  lemma {:induction false} SplitJoin(pieces: seq<string>, sep: char)
    requires |pieces| >= 1
    requires forall k :: 0 <= k < |pieces| ==> sep !in pieces[k]
    ensures Split(Join(pieces, sep), sep) == pieces
    decreases |pieces|
  {
    if |pieces| == 1 {
      SplitWithoutSeparator(pieces[0], sep);
    } else {
      SplitJoin(pieces[1..], sep);
      SplitAfterPiece(pieces[0], Join(pieces[1..], sep), sep);
      assert [pieces[0]] + pieces[1..] == pieces;
    }
  }

  predicate OccursAt(s: string, sub: string, i: int) {
    0 <= i && i + |sub| <= |s| && s[i..i + |sub|] == sub
  }

  /** The leftmost occurrence of `sub` in `s` at or after `from`. */
  function IndexFrom(s: string, sub: string, from: nat): (r: Option<nat>)
    ensures r.Some? ==> from <= r.value && OccursAt(s, sub, r.value)
    ensures r.Some? ==> forall j :: from <= j < r.value ==> !OccursAt(s, sub, j)
    ensures r.None? ==> forall j :: from <= j ==> !OccursAt(s, sub, j)
    decreases |s| - from
  {
    if from + |sub| > |s| then None
    else if s[from..from + |sub|] == sub then Some(from)
    else IndexFrom(s, sub, from + 1)
  }

  /** An occurrence with none before it (from `from` on) is the one found. */
  lemma {:induction false} IndexFromFirst(s: string, sub: string, from: nat, i: nat)
    requires from <= i && OccursAt(s, sub, i)
    requires forall j :: from <= j < i ==> !OccursAt(s, sub, j)
    ensures IndexFrom(s, sub, from) == Some(i)
    decreases i - from
  {
    if from < i {
      assert !OccursAt(s, sub, from);
      IndexFromFirst(s, sub, from + 1, i);
    }
  }

  /** A text none of whose characters starts `sub` does not contain it. */
  lemma NoOccurrence(s: string, sub: string)
    requires |sub| > 0
    requires forall k :: 0 <= k < |s| ==> s[k] != sub[0]
    ensures !Contains(s, sub)
  {
    forall i
      ensures !OccursAt(s, sub, i)
    {
      if 0 <= i && i + |sub| <= |s| {
        assert s[i..i + |sub|][0] == s[i];
      }
    }
  }

  /** `s.find(sub)` as an option: the leftmost occurrence. */
  function IndexOf(s: string, sub: string): Option<nat> {
    IndexFrom(s, sub, 0)
  }

  /** Python's `sub in s` on strings. */
  function Contains(s: string, sub: string): (r: bool)
    ensures r <==> exists i :: OccursAt(s, sub, i)
  {
    IndexOf(s, sub).Some?
  }

  /** `s.split(sep)[0]`: everything before the first `sep`, or all of `s`. */
  function BeforeFirst(s: string, sep: string): (r: string)
    ensures |r| <= |s| && r == s[..|r|]
    ensures !Contains(s, sep) ==> r == s
    ensures Contains(s, sep) ==> OccursAt(s, sep, |r|)
  {
    match IndexOf(s, sep)
    case None => s
    case Some(i) => s[..i]
  }

  /** Everything after the first `sep`, or None when `s` holds no `sep`;
      `s.split(sep)[1]` is `BeforeFirst` of this. */
  function AfterFirst(s: string, sep: string): (r: Option<string>)
    ensures r.None? <==> !Contains(s, sep)
    ensures r.Some? ==> exists i :: OccursAt(s, sep, i) && r.value == s[i + |sep|..]
  {
    match IndexOf(s, sep)
    case None => None
    case Some(i) => Some(s[i + |sep|..])
  }

  /** `str.lower()` on ASCII letters; every other character is kept. */
  function Lower(s: string): (r: string)
    ensures |r| == |s|
    ensures forall i :: 0 <= i < |s| ==> ('A' <= s[i] <= 'Z' ==> r[i] as int == s[i] as int + 32)
    ensures forall i :: 0 <= i < |s| ==> (!('A' <= s[i] <= 'Z') ==> r[i] == s[i])
    decreases |s|
  {
    if s == [] then []
    else
      var c := s[0];
      [if 'A' <= c <= 'Z' then (c as int + 32) as char else c] + Lower(s[1..])
  }

  /** The body `int()` accepts after the sign: digits, with single
      underscores allowed between two digits. */
  predicate WellGrouped(b: string) {
    && |b| > 0
    && IsDigit(b[0])
    && forall i :: 0 <= i < |b| ==> (IsDigit(b[i]) || (b[i] == '_' && i + 1 < |b| && IsDigit(b[i + 1])))
  }

  /** Python's `int(s)` on a string: surrounding white space, an optional
      sign, then a well-grouped run of digits; None stands for ValueError. */
  function ParseInt(s: string): (r: Option<int>)
    ensures r.Some? ==> var t := Strip(IntBlanks, s); t != [] && Digits(t) != []
  {
    var t := Strip(IntBlanks, s);
    if |t| > 0 && (t[0] == '+' || t[0] == '-') then
      var body := t[1..];
      if WellGrouped(body) then
        DigitsConcat([t[0]], body);
        assert t == [t[0]] + body;
        var v: int := DecimalValue(Digits(body));
        Some(if t[0] == '-' then -v else v)
      else None
    else if WellGrouped(t) then Some(DecimalValue(Digits(t)))
    else None
  }

  /** `int(str(n)) == n` for every integer. */
  lemma ParseIntOfIntToString(n: int)
    ensures ParseInt(IntToString(n)) == Some(n)
  {
    var s := IntToString(n);
    var m: nat := if n < 0 then -n else n;
    var digits := NatToString(m);
    assert !IsBlank(IntBlanks, s[|s| - 1]) by {
      assert s[|s| - 1] == digits[|digits| - 1];
      assert IsDigit(digits[|digits| - 1]);
    }
    StripUnchanged(IntBlanks, s);
    DecimalValueOfNatToString(m);
    if n < 0 {
      assert s[1..] == digits;
    } else {
      assert s == digits;
      assert IsDigit(s[0]);
    }
  }
}
