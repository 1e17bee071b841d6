/** The handful of Go standard-library string routines the datapath code relies on:
    `strings.IndexByte`, `strings.Index`, `strings.Split` (with its inverse `strings.Join`)
    and `strconv.ParseInt` in base 10. Strings are sequences of characters; every
    character the modelled code compares against is ASCII, so byte and character
    indexing agree.
 */
module Strings {
  import opened Wrappers

  /** `strings.IndexByte(s, c)`: index of the first `c` in `s`, or -1. */
  function IndexByte(s: string, c: char): (i: int)
    ensures -1 <= i < |s|
    ensures i == -1 <==> c !in s
    ensures 0 <= i ==> s[i] == c && c !in s[..i]
  {
    if |s| == 0 then -1
    else if s[0] == c then 0
    else
      var k := IndexByte(s[1..], c);
      assert s[1..][..k + 1] == s[1..k + 2] by { assert k + 1 <= |s[1..]|; }
      if k < 0 then -1 else k + 1
  }

  /** `sep` occurs in `s` starting at index `j`. */
  predicate OccursAt<T(==)>(s: seq<T>, sep: seq<T>, j: int) {
    0 <= j && j + |sep| <= |s| && s[j..j + |sep|] == sep
  }

  /** `sep` occurs nowhere in `s`. */
  predicate Free<T(==)>(s: seq<T>, sep: seq<T>) {
    forall j | 0 <= j <= |s| :: !OccursAt(s, sep, j)
  }

  /** `strings.Index(s, sep)`: start of the first occurrence of `sep` in `s`, or -1. */
  function Find<T(==)>(s: seq<T>, sep: seq<T>): (i: int)
    requires |sep| > 0
    ensures i == -1 || OccursAt(s, sep, i)
    ensures forall j :: 0 <= j && (i == -1 || j < i) ==> !OccursAt(s, sep, j)
    decreases |s|
  {
    if |s| < |sep| then -1
    else if s[..|sep|] == sep then 0
    else
      var k := Find(s[1..], sep);
      ShiftOccurrence(s, sep);
      assert !OccursAt(s, sep, 0) by { assert s[0..|sep|] == s[..|sep|]; }
      if k < 0 then -1 else k + 1
  }

  /** Occurrences in the tail `s[1..]` are the occurrences in `s` shifted by one. */
  lemma ShiftOccurrence<T>(s: seq<T>, sep: seq<T>)
    requires |s| > 0
    ensures forall j :: 1 <= j ==> (OccursAt(s, sep, j) <==> OccursAt(s[1..], sep, j - 1))
  {
    forall j | 1 <= j
      ensures OccursAt(s, sep, j) <==> OccursAt(s[1..], sep, j - 1)
    {
      if j + |sep| <= |s| {
        assert s[1..][j - 1..j - 1 + |sep|] == s[j..j + |sep|];
      }
    }
  }

  /** No occurrence of `sep` lies wholly inside a prefix that ends before the first one. */
  lemma PrefixBeforeFirstIsFree<T>(s: seq<T>, sep: seq<T>, i: int)
    requires |sep| > 0
    requires 0 <= i <= |s|
    requires forall j :: 0 <= j < i ==> !OccursAt(s, sep, j)
    ensures Free(s[..i], sep)
  {
    forall j | OccursAt(s[..i], sep, j)
      ensures false
    {
      assert s[..i][j..j + |sep|] == s[j..j + |sep|];
      assert OccursAt(s, sep, j);
    }
  }

  /** `strings.Join(parts, sep)`. */
  function Join<T>(parts: seq<seq<T>>, sep: seq<T>): seq<T> {
    if |parts| == 0 then []
    else if |parts| == 1 then parts[0]
    else parts[0] + sep + Join(parts[1..], sep)
  }

  /** `strings.Split(s, sep)` for a non-empty separator: the pieces between the
      successive leftmost occurrences of `sep`. The result is never empty. */
  function Split<T(==)>(s: seq<T>, sep: seq<T>): (parts: seq<seq<T>>)
    requires |sep| > 0
    ensures |parts| >= 1
    decreases |s|
  {
    var i := Find(s, sep);
    if i < 0 then [s]
    else [s[..i]] + Split(s[i + |sep|..], sep)
  }

  /** Joining the pieces of `Split` back with the separator gives the string that
      was split. */
  lemma {:induction false} SplitJoinsBack<T>(s: seq<T>, sep: seq<T>)
    requires |sep| > 0
    ensures Join(Split(s, sep), sep) == s
    decreases |s|
  {
    var i := Find(s, sep);
    if i >= 0 {
      var head, tail := s[..i], s[i + |sep|..];
      var rest := Split(tail, sep);
      SplitJoinsBack(tail, sep);
      assert Join(rest, sep) == tail;
      assert Split(s, sep) == [head] + rest;
      assert |rest| >= 1 && ([head] + rest)[0] == head && ([head] + rest)[1..] == rest;
      assert Join([head] + rest, sep) == head + sep + tail;
      assert s[i..i + |sep|] == sep;
      assert s == head + sep + tail by {
        assert s == s[..i] + s[i..i + |sep|] + s[i + |sep|..];
      }
    }
  }

  /** None of the pieces of `Split` contains the separator. */
  lemma {:induction false} SplitPiecesFree<T>(s: seq<T>, sep: seq<T>)
    requires |sep| > 0
    ensures forall k :: 0 <= k < |Split(s, sep)| ==> Free(Split(s, sep)[k], sep)
    decreases |s|
  {
    var i := Find(s, sep);
    if i < 0 {
      PrefixBeforeFirstIsFree(s, sep, |s|);
      assert s[..|s|] == s;
    } else {
      PrefixBeforeFirstIsFree(s, sep, i);
      SplitPiecesFree(s[i + |sep|..], sep);
    }
  }

  /** With a one-element separator, `Split` also inverts `Join`: pieces free of the
      separator come back exactly. */
  lemma {:induction false} SplitJoin<T>(parts: seq<seq<T>>, c: T)
    requires |parts| >= 1
    requires forall k :: 0 <= k < |parts| ==> c !in parts[k]
    ensures Split(Join(parts, [c]), [c]) == parts
  {
    var p := parts[0];
    forall j | 0 <= j < |p|
      ensures !OccursAt(p, [c], j)
    {
      assert p[j..j + 1] == [p[j]];
    }
    if |parts| > 1 {
      var s := Join(parts, [c]);
      assert s == p + [c] + Join(parts[1..], [c]);
      assert s[|p|..|p| + 1] == [c];
      forall j | 0 <= j < |p|
        ensures !OccursAt(s, [c], j)
      {
        assert s[j] == p[j];
        assert s[j..j + 1] == [p[j]];
      }
      assert OccursAt(s, [c], |p|);
      assert Find(s, [c]) == |p|;
      assert s[..|p|] == p;
      assert s[|p| + 1..] == Join(parts[1..], [c]);
      SplitJoin(parts[1..], c);
    }
  }

  predicate IsDigit(c: char) {
    '0' <= c <= '9'
  }

  predicate AllDigits(s: string) {
    forall k :: 0 <= k < |s| ==> IsDigit(s[k])
  }

  /** Value of a string of decimal digits, most significant first. */
  function DecimalValue(s: string): nat
    requires AllDigits(s)
  {
    if |s| == 0 then 0
    else DecimalValue(s[..|s| - 1]) * 10 + (s[|s| - 1] - '0') as nat
  }

  /** The canonical decimal rendering of a natural number (no sign, no leading zero). */
  function FormatNat(n: nat): (s: string)
    ensures |s| >= 1 && AllDigits(s)
    ensures |s| > 1 ==> s[0] != '0'
  {
    if n < 10 then [('0' as int + n) as char]
    else FormatNat(n / 10) + [('0' as int + n % 10) as char]
  }

  /** `strconv.FormatInt(n, 10)`. */
  function FormatInt(n: int): string {
    if n < 0 then "-" + FormatNat(-n) else FormatNat(n)
  }

  /** The integer widths `strconv.ParseInt` is asked for in the modelled code. */
  datatype BitSize = Bits16 | Bits64

  function MinInt(b: BitSize): int {
    match b
    case Bits16 => -0x8000
    case Bits64 => -0x8000_0000_0000_0000
  }

  function MaxInt(b: BitSize): int {
    match b
    case Bits16 => 0x7fff
    case Bits64 => 0x7fff_ffff_ffff_ffff
  }

  /** The largest value `strconv.ParseUint` accepts at a width: all bits set. */
  function MaxUint(b: BitSize): nat {
    match b
    case Bits16 => 0xffff
    case Bits64 => 0xffff_ffff_ffff_ffff
  }

  /** The two failures `strconv.ParseInt` reports. */
  datatype NumError = ErrSyntax | ErrRange

  /** The text after one optional leading sign. */
  function Body(s: string): string {
    if |s| > 0 && (s[0] == '+' || s[0] == '-') then s[1..] else s
  }

  /** `s` is an optionally signed, non-empty run of decimal digits. */
  predicate IsDecimal(s: string) {
    |Body(s)| > 0 && AllDigits(Body(s))
  }

  /** The integer an optionally signed decimal denotes: a leading `-` negates the
      digits' value, a leading `+` is dropped, and `-0` is zero. */
  function SignedValue(s: string): int
    requires IsDecimal(s)
  {
    if s[0] == '-' then -(DecimalValue(s[1..]) as int)
    else if s[0] == '+' then DecimalValue(s[1..]) as int
    else DecimalValue(s) as int
  }

  /** Some leading run of digits of `s` already has a value above `max`: there the
      digit loop of `strconv.ParseUint` stops with a range error, whatever follows. */
  predicate Overflows(s: string, max: nat) {
    exists k :: 0 < k <= |s| && AllDigits(s[..k]) && DecimalValue(s[..k]) > max
  }

  /** The digit loop of `strconv.ParseUint` in base 10. `n` is the value of the
      digits read so far. A non-digit is a syntax error, and a digit that takes the
      value above `max` is a range error at once. */
  function ScanDigits(s: string, n: nat, max: nat): Result<nat, NumError>
    decreases |s|
  {
    if |s| == 0 then Ok(n)
    else if !IsDigit(s[0]) then Err(ErrSyntax)
    else
      var n1 := n * 10 + (s[0] - '0') as nat;
      if n1 > max then Err(ErrRange) else ScanDigits(s[1..], n1, max)
  }

  /** `strconv.ParseUint(s, 10, bitSize)`. */
  function ParseUint(s: string, b: BitSize): Result<nat, NumError> {
    if |s| == 0 then Err(ErrSyntax) else ScanDigits(s, 0, MaxUint(b))
  }

  /** `strconv.ParseInt(s, 10, bitSize)`: one sign is stripped, the rest is parsed
      unsigned (its errors pass through), and the signed range is checked. */
  function ParseInt(s: string, b: BitSize): Result<int, NumError> {
    if |s| == 0 then Err(ErrSyntax)
    else
      var neg := s[0] == '-';
      match ParseUint(Body(s), b)
      case Err(e) => Err(e)
      case Ok(u) =>
        if !neg && u > MaxInt(b) then Err(ErrRange)
        else if neg && u > -MinInt(b) then Err(ErrRange)
        else Ok(if neg then -(u as int) else u as int)
  }

  /** The digit loop, resumed after an all-digit prefix `p` that has not overflowed,
      ends in a range error exactly when some leading digit run of `p + s` overflows,
      otherwise in a syntax error exactly when a non-digit follows, and otherwise
      with the value of `p + s`. */
  lemma {:induction false} ScanDigitsSpec(p: string, s: string, max: nat)
    requires AllDigits(p) && !Overflows(p, max)
    ensures ScanDigits(s, DecimalValue(p), max) ==
      if Overflows(p + s, max) then Err(ErrRange)
      else if !AllDigits(p + s) then Err(ErrSyntax)
      else Ok(DecimalValue(p + s))
    decreases |s|
  {
    var t := p + s;
    if |s| == 0 {
      assert t == p;
    } else if !IsDigit(s[0]) {
      assert t[|p|] == s[0];
      forall k | |p| < k <= |t| && AllDigits(t[..k])
        ensures false
      {
      }
      forall k | 0 < k <= |t| && AllDigits(t[..k])
        ensures DecimalValue(t[..k]) <= max
      {
        assert t[..k] == p[..k];
      }
    } else {
      var q := p + [s[0]];
      assert q[..|q| - 1] == p;
      assert AllDigits(q);
      assert t[..|q|] == q;
      if DecimalValue(q) <= max {
        forall k | 0 < k <= |q| && AllDigits(q[..k])
          ensures DecimalValue(q[..k]) <= max
        {
          if k <= |p| {
            assert q[..k] == p[..k];
          } else {
            assert q[..k] == q;
          }
        }
        ScanDigitsSpec(q, s[1..], max);
        assert q + s[1..] == t;
      }
    }
  }

  /** `strconv.ParseUint` in base 10: a range error as soon as a leading digit run
      exceeds the width, else a syntax error for an empty or non-digit text, else the
      value of the digits. */
  lemma ParseUintSpec(s: string, b: BitSize)
    ensures ParseUint(s, b) ==
      if Overflows(s, MaxUint(b)) then Err(ErrRange)
      else if |s| == 0 || !AllDigits(s) then Err(ErrSyntax)
      else Ok(DecimalValue(s))
  {
    if |s| > 0 {
      ScanDigitsSpec("", s, MaxUint(b));
      assert "" + s == s;
    }
  }

  /** Dropping trailing digits never increases the value of a decimal; a step of
      `ParseIntAccepts`. */
  lemma {:induction false} PrefixValueBound(u: string, k: nat)
    requires AllDigits(u) && k <= |u|
    ensures DecimalValue(u[..k]) <= DecimalValue(u)
    decreases |u|
  {
    if k < |u| {
      var v := u[..|u| - 1];
      assert v[..k] == u[..k];
      PrefixValueBound(v, k);
    } else {
      assert u[..k] == u;
    }
  }

  lemma {:induction false} DecimalValueOfFormat(n: nat)
    ensures DecimalValue(FormatNat(n)) == n
  {
    if n >= 10 {
      var s := FormatNat(n);
      assert s[..|s| - 1] == FormatNat(n / 10);
      DecimalValueOfFormat(n / 10);
    }
  }

  /** Parsing inverts `FormatInt` on every integer of the requested width. */
  lemma ParseFormat(n: int, b: BitSize)
    requires MinInt(b) <= n <= MaxInt(b)
    ensures ParseInt(FormatInt(n), b) == Ok(n)
  {
    var s := FormatInt(n);
    if n < 0 {
      DecimalValueOfFormat(-n);
      assert s[0] == '-';
      assert s[1..] == FormatNat(-n);
    } else {
      DecimalValueOfFormat(n);
      assert s == FormatNat(n);
      assert s[0] != '-' && s[0] != '+';
    }
    assert IsDecimal(s) && SignedValue(s) == n;
    ParseIntAccepts(s, b);
  }

  /** Parsing succeeds exactly on decimal strings whose value fits the width, and
      then yields that value. Leading zeros and an explicit `+` are accepted. A range
      error is reported for a decimal out of range, and also as soon as the leading
      digits after the sign exceed the unsigned width, even when a non-digit follows;
      anything else is a syntax error. */
  lemma ParseIntAccepts(s: string, b: BitSize)
    ensures ParseInt(s, b).Ok? <==> IsDecimal(s) && MinInt(b) <= SignedValue(s) <= MaxInt(b)
    ensures ParseInt(s, b).Ok? ==> ParseInt(s, b).value == SignedValue(s)
    ensures IsDecimal(s) && !(MinInt(b) <= SignedValue(s) <= MaxInt(b)) ==> ParseInt(s, b) == Err(ErrRange)
    ensures Overflows(Body(s), MaxUint(b)) ==> ParseInt(s, b) == Err(ErrRange)
    ensures !IsDecimal(s) && !Overflows(Body(s), MaxUint(b)) ==> ParseInt(s, b) == Err(ErrSyntax)
  {
    var body := Body(s);
    ParseUintSpec(body, b);
    if IsDecimal(s) && DecimalValue(body) <= MaxUint(b) {
      forall k | 0 < k <= |body| && AllDigits(body[..k])
        ensures DecimalValue(body[..k]) <= MaxUint(b)
      {
        PrefixValueBound(body, k);
      }
    }
  }
}
