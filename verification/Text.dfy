/**
 Text operations of Go's `strings` and `strconv` packages, as the repository uses them:
 splitting and joining, trimming, decimal numbers and their range checks.
 */
module Text {
  import opened Prelude

  const TWO_64: int := 0x1_0000_0000_0000_0000
  const TWO_63: int := 0x8000_0000_0000_0000

  // ----- Splitting on one character -----

  function Split(s: string, sep: char): (parts: seq<string>)
    ensures |parts| >= 1
  {
    if s == [] then [""]
    else if s[0] == sep then [""] + Split(s[1..], sep)
    else
      var rest := Split(s[1..], sep);
      [[s[0]] + rest[0]] + rest[1..]
  }

  function Join(parts: seq<string>, sep: char): string
    requires |parts| >= 1
  {
    if |parts| == 1 then parts[0] else parts[0] + [sep] + Join(parts[1..], sep)
  }

  predicate Free(parts: seq<string>, sep: char) {
    forall i :: 0 <= i < |parts| ==> sep !in parts[i]
  }

  lemma {:induction false} JoinSplit(s: string, sep: char)
    ensures Join(Split(s, sep), sep) == s
    ensures Free(Split(s, sep), sep)
  {
    if s != [] {
      JoinSplit(s[1..], sep);
      var rest := Split(s[1..], sep);
      if s[0] == sep {
        assert Split(s, sep)[1..] == rest;
      } else {
        assert Split(s, sep)[1..] == rest[1..];
        assert s == [s[0]] + s[1..];
      }
    }
  }

  lemma {:induction false} SplitFree(s: string, sep: char)
    requires sep !in s
    ensures Split(s, sep) == [s]
  {
    if s != [] {
      SplitFree(s[1..], sep);
      assert s == [s[0]] + s[1..];
    }
  }

  lemma {:induction false} SplitConcat(a: string, b: string, sep: char)
    ensures Split(a + [sep] + b, sep) == Split(a, sep) + Split(b, sep)
  {
    if a == [] {
      assert a + [sep] + b == [sep] + b;
    } else {
      assert (a + [sep] + b)[1..] == a[1..] + [sep] + b;
      SplitConcat(a[1..], b, sep);
    }
  }

  lemma {:induction false} JoinConcat(a: seq<string>, b: seq<string>, sep: char)
    requires |a| >= 1 && |b| >= 1
    ensures Join(a + b, sep) == Join(a, sep) + [sep] + Join(b, sep)
  {
    if |a| == 1 {
      assert (a + b)[1..] == b;
    } else {
      assert (a + b)[1..] == a[1..] + b;
      JoinConcat(a[1..], b, sep);
      assert (a + b)[0] + [sep] + (Join(a[1..], sep) + [sep] + Join(b, sep))
          == (a[0] + [sep] + Join(a[1..], sep)) + [sep] + Join(b, sep);
    }
  }

  lemma {:induction false} SplitJoin(parts: seq<string>, sep: char)
    requires |parts| >= 1 && Free(parts, sep)
    ensures Split(Join(parts, sep), sep) == parts
  {
    SplitFree(parts[0], sep);
    if |parts| > 1 {
      SplitJoin(parts[1..], sep);
      SplitConcat(parts[0], Join(parts[1..], sep), sep);
    }
  }

  // ----- First and last index -----

  function IndexFrom(s: string, c: char, from: nat): (i: nat)
    requires from <= |s|
    ensures from <= i <= |s| && (i < |s| ==> s[i] == c)
    ensures forall k :: from <= k < i ==> s[k] != c
    decreases |s| - from
  {
    if from == |s| || s[from] == c then from else IndexFrom(s, c, from + 1)
  }

  /** `strings.IndexByte`, with the length of the text when the character is absent. */
  function IndexOf(s: string, c: char): (i: nat)
    ensures i <= |s| && (i < |s| ==> s[i] == c)
    ensures forall k :: 0 <= k < i ==> s[k] != c
  {
    IndexFrom(s, c, 0)
  }

  lemma IndexOfConcat(a: string, c: char, b: string)
    requires c !in a
    ensures IndexOf(a + [c] + b, c) == |a|
  {
    var s := a + [c] + b;
    assert s[|a|] == c;
    assert forall k :: 0 <= k < |a| ==> s[k] == a[k];
  }

  function LastIndexBefore(s: string, c: char, n: nat): (i: int)
    requires n <= |s|
    ensures -1 <= i < n && (i >= 0 ==> s[i] == c)
    ensures forall k :: i < k < n ==> s[k] != c
  {
    if n == 0 then -1 else if s[n - 1] == c then n - 1 else LastIndexBefore(s, c, n - 1)
  }

  /** `strings.LastIndex` for a one-character needle. */
  function LastIndexOf(s: string, c: char): (i: int)
    ensures -1 <= i < |s| && (i >= 0 ==> s[i] == c)
    ensures forall k :: i < k < |s| ==> s[k] != c
  {
    LastIndexBefore(s, c, |s|)
  }

  lemma LastIndexOfConcat(a: string, c: char, b: string)
    requires c !in b
    ensures LastIndexOf(a + [c] + b, c) == |a|
  {
    var s := a + [c] + b;
    assert s[|a|] == c;
    assert forall k :: |a| < k < |s| ==> s[k] == b[k - |a| - 1];
  }

  /** `strings.Cut` on a one-character separator. */
  function Cut(s: string, sep: char): (r: Option<(string, string)>)
    ensures r.Some? <==> sep in s
    ensures r.Some? ==> s == r.value.0 + [sep] + r.value.1 && sep !in r.value.0
  {
    var i := IndexOf(s, sep);
    if i == |s| then None else Some((s[..i], s[i + 1..]))
  }

  lemma CutConcat(a: string, sep: char, b: string)
    requires sep !in a
    ensures Cut(a + [sep] + b, sep) == Some((a, b))
  {
    IndexOfConcat(a, sep, b);
    assert (a + [sep] + b)[..|a|] == a && (a + [sep] + b)[|a| + 1..] == b;
  }

  predicate HasSuffix(s: string, suffix: string) {
    |suffix| <= |s| && s[|s| - |suffix|..] == suffix
  }

  predicate HasPrefix(s: string, prefix: string) {
    |prefix| <= |s| && s[..|prefix|] == prefix
  }

  // ----- White space -----

  /** `unicode.IsSpace`. */
  predicate IsSpace(c: char) {
    || c in "\t\n\r "
    || c == '\U{000B}' || c == '\U{000C}' || c == '\U{0085}' || c == '\U{00A0}' || c == '\U{1680}'
    || '\U{2000}' <= c <= '\U{200A}'
    || c == '\U{2028}' || c == '\U{2029}' || c == '\U{202F}' || c == '\U{205F}' || c == '\U{3000}'
  }

  function TrimLeft(s: string): (t: string)
    ensures t == [] || !IsSpace(t[0])
  {
    if s != [] && IsSpace(s[0]) then TrimLeft(s[1..]) else s
  }

  function TrimRight(s: string): (t: string)
    ensures t == [] || !IsSpace(t[|t| - 1])
    ensures t <= s
  {
    if s != [] && IsSpace(s[|s| - 1]) then TrimRight(s[..|s| - 1]) else s
  }

  /** `strings.TrimSpace`. */
  function TrimSpace(s: string): string {
    TrimRight(TrimLeft(s))
  }

  /** A text with no white space at either end. */
  predicate Trimmed(s: string) {
    s == [] || (!IsSpace(s[0]) && !IsSpace(s[|s| - 1]))
  }

  lemma TrimmedStays(t: string)
    requires Trimmed(t)
    ensures TrimSpace(t) == t
  {
  }

  predicate AllSpace(s: string) {
    forall i :: 0 <= i < |s| ==> IsSpace(s[i])
  }

  lemma {:induction false} TrimLeftPad(pad: string, s: string)
    requires AllSpace(pad) && (s == [] || !IsSpace(s[0]))
    ensures TrimLeft(pad + s) == s
  {
    if pad == [] {
      assert pad + s == s;
    } else {
      assert (pad + s)[1..] == pad[1..] + s;
      TrimLeftPad(pad[1..], s);
    }
  }

  lemma {:induction false} TrimRightPad(s: string, pad: string)
    requires AllSpace(pad) && (s == [] || !IsSpace(s[|s| - 1]))
    ensures TrimRight(s + pad) == s
  {
    if pad == [] {
      assert s + pad == s;
    } else {
      assert (s + pad)[..|s + pad| - 1] == s + pad[..|pad| - 1];
      TrimRightPad(s, pad[..|pad| - 1]);
    }
  }

  /** Trimming removes the white space at both ends and nothing else. */
  lemma TrimSpaceExactly(a: string, t: string, b: string)
    requires AllSpace(a) && AllSpace(b) && Trimmed(t)
    ensures TrimSpace(a + t + b) == t
  {
    if t == [] {
      assert a + t + b == (a + b) + [];
      TrimLeftPad(a + b, []);
    } else {
      assert a + t + b == a + (t + b) && (t + b)[0] == t[0];
      TrimLeftPad(a, t + b);
      TrimRightPad(t, b);
    }
  }

  /** `strings.Fields(s)[0]`, or the empty text when there is no field. */
  function FirstField(s: string): string {
    LeadingWord(TrimLeft(s))
  }

  function LeadingWord(s: string): (w: string)
    ensures w <= s
  {
    if s == [] || IsSpace(s[0]) then [] else [s[0]] + LeadingWord(s[1..])
  }

  lemma {:induction false} LeadingWordOf(w: string, rest: string)
    requires forall i :: 0 <= i < |w| ==> !IsSpace(w[i])
    requires rest == [] || IsSpace(rest[0])
    ensures LeadingWord(w + rest) == w
  {
    if w == [] {
      assert w + rest == rest;
    } else {
      assert (w + rest)[1..] == w[1..] + rest;
      LeadingWordOf(w[1..], rest);
    }
  }

  // ----- Decimal numbers -----

  predicate IsDigit(c: char) { '0' <= c <= '9' }

  function DigitOf(c: char): (d: nat)
    requires IsDigit(c)
    ensures d < 10
  {
    c as int - '0' as int
  }

  function DigitChar(d: nat): (c: char)
    requires d < 10
    ensures IsDigit(c) && DigitOf(c) == d
  {
    ('0' as int + d) as char
  }

  predicate AllDigits(s: string) {
    forall i :: 0 <= i < |s| ==> IsDigit(s[i])
  }

  function DecimalValue(s: string): nat
    requires AllDigits(s)
  {
    if s == [] then 0 else DecimalValue(s[..|s| - 1]) * 10 + DigitOf(s[|s| - 1])
  }

  /** The shortest decimal text of a number, as `%d` prints it. */
  function Decimal(n: nat): (s: string)
    ensures s != [] && AllDigits(s)
    ensures DecimalValue(s) == n
  {
    if n < 10 then [DigitChar(n)]
    else
      var s := Decimal(n / 10) + [DigitChar(n % 10)];
      assert s[..|s| - 1] == Decimal(n / 10);
      s
  }

  lemma NoSpaceInDigits(s: string)
    requires AllDigits(s)
    ensures forall i :: 0 <= i < |s| ==> !IsSpace(s[i])
  {
  }

  datatype UintResult = Parsed(n: nat) | OutOfRange | BadSyntax

  /**
   `strconv.ParseUint(s, 10, 64)`.  Digits are read left to right, so a number that is
   already too large is reported as such even when a later character is not a digit.
   */
  function ParseUint64(s: string): UintResult {
    if s == [] then BadSyntax else ScanUint(s, 0)
  }

  function ScanUint(s: string, acc: nat): UintResult
    decreases |s|
  {
    if s == [] then Parsed(acc)
    else if !IsDigit(s[0]) then BadSyntax
    else
      var next := acc * 10 + DigitOf(s[0]);
      if next >= TWO_64 then OutOfRange else ScanUint(s[1..], next)
  }

  lemma {:induction false} ScanDigits(done: string, rest: string)
    requires AllDigits(done) && AllDigits(rest) && DecimalValue(done) < TWO_64
    ensures AllDigits(done + rest)
    ensures ScanUint(rest, DecimalValue(done))
         == if DecimalValue(done + rest) < TWO_64 then Parsed(DecimalValue(done + rest)) else OutOfRange
    decreases |rest|
  {
    if rest == [] {
      assert done + rest == done;
    } else {
      var more := done + [rest[0]];
      assert more[..|more| - 1] == done;
      assert done + rest == more + rest[1..];
      if DecimalValue(more) < TWO_64 {
        ScanDigits(more, rest[1..]);
      } else {
        ValueGrows(more, rest[1..]);
      }
    }
  }

  lemma {:induction false} ValueGrows(a: string, b: string)
    requires AllDigits(a) && AllDigits(b)
    ensures AllDigits(a + b) && DecimalValue(a) <= DecimalValue(a + b)
    decreases |b|
  {
    if b == [] {
      assert a + b == a;
    } else {
      var init := b[..|b| - 1];
      ValueGrows(a, init);
      assert (a + b)[..|a + b| - 1] == a + init;
    }
  }

  lemma {:induction false} ScanAccepts(s: string, acc: nat)
    ensures ScanUint(s, acc).Parsed? ==> AllDigits(s)
    decreases |s|
  {
    if s != [] && IsDigit(s[0]) {
      ScanAccepts(s[1..], acc * 10 + DigitOf(s[0]));
    }
  }

  /** What `ParseUint` accepts, said without its loop. */
  lemma ParseUintExact(s: string, n: nat)
    ensures ParseUint64(s) == Parsed(n) <==> s != [] && AllDigits(s) && DecimalValue(s) == n && n < TWO_64
    ensures s != [] && AllDigits(s) && DecimalValue(s) >= TWO_64 ==> ParseUint64(s) == OutOfRange
  {
    ScanAccepts(s, 0);
    if AllDigits(s) {
      ScanDigits("", s);
      assert "" + s == s;
    }
  }

  /** `strconv.Atoi` on a 64-bit platform. */
  function Atoi(s: string): Option<int> {
    var signed := s != [] && (s[0] == '-' || s[0] == '+');
    var digits := if signed then s[1..] else s;
    if digits == [] || !AllDigits(digits) then None
    else
      var n: int := DecimalValue(digits);
      if signed && s[0] == '-' then
        if n <= TWO_63 then Some(-n) else None
      else if n < TWO_63 then Some(n)
      else None
  }

  /** A decimal number with at most one sign in front, in the range of int64. */
  predicate Int64Text(s: string, n: int) {
    && -TWO_63 <= n < TWO_63
    && (|| (s != [] && AllDigits(s) && n == DecimalValue(s))
        || (|s| > 1 && s[0] == '+' && AllDigits(s[1..]) && n == DecimalValue(s[1..]))
        || (|s| > 1 && s[0] == '-' && AllDigits(s[1..]) && -n == DecimalValue(s[1..])))
  }

  lemma AtoiExactly(s: string, n: int)
    ensures Atoi(s) == Some(n) <==> Int64Text(s, n)
  {
    hide DecimalValue;
    if s != [] && AllDigits(s) {
      assert IsDigit(s[0]);
    }
  }

  /** A number's text consists of digits and signs. */
  lemma Int64Chars(s: string, n: int, c: char)
    requires Int64Text(s, n) && !IsDigit(c) && c !in "+-"
    ensures c !in s
  {
    hide DecimalValue;
    if |s| > 1 && s[0] in "+-" {
      assert forall i :: 1 <= i < |s| ==> s[i] == s[1..][i - 1];
    }
  }

  /** `%d` of a signed number. */
  function DecimalInt(n: int): string {
    if n < 0 then "-" + Decimal(-n) else Decimal(n)
  }

  lemma AtoiRoundTrip(n: int)
    requires -TWO_63 <= n < TWO_63
    ensures Atoi(DecimalInt(n)) == Some(n)
  {
    if n < 0 {
      assert DecimalInt(n)[1..] == Decimal(-n);
    } else {
      assert IsDigit(Decimal(n)[0]);
    }
  }

  lemma DecimalIntChars(n: int, c: char)
    requires !IsDigit(c) && c != '-'
    ensures c !in DecimalInt(n)
    ensures DecimalInt(n) != [] && Trimmed(DecimalInt(n))
  {
    var s := Decimal(if n < 0 then -n else n);
    assert forall i :: 0 <= i < |s| ==> IsDigit(s[i]);
    assert IsDigit(s[|s| - 1]);
  }

  // ----- Letter case (ASCII) -----

  function LowerChar(c: char): char {
    if 'A' <= c <= 'Z' then (c as int + 32) as char else c
  }

  function UpperChar(c: char): char {
    if 'a' <= c <= 'z' then (c as int - 32) as char else c
  }

  function ToLower(s: string): (t: string)
    ensures |t| == |s| && forall i :: 0 <= i < |s| ==> t[i] == LowerChar(s[i])
  {
    seq(|s|, i requires 0 <= i < |s| => LowerChar(s[i]))
  }

  function ToUpper(s: string): (t: string)
    ensures |t| == |s| && forall i :: 0 <= i < |s| ==> t[i] == UpperChar(s[i])
  {
    seq(|s|, i requires 0 <= i < |s| => UpperChar(s[i]))
  }

  lemma LowerOfUpper(s: string)
    ensures ToLower(ToUpper(s)) == ToLower(s)
  {
    assert forall i :: 0 <= i < |s| ==> LowerChar(UpperChar(s[i])) == LowerChar(s[i]);
  }

  /** `strings.EqualFold` against a text whose letters fold only within ASCII. */
  predicate EqualFold(s: string, t: string) {
    ToLower(s) == ToLower(t)
  }
}
