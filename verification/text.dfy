/** The pieces of Rust's `str` API the range parser uses: `find` for one
    character, `split('.')`, and `parse::<u8>`. Strings are `seq<char>`, so
    `Find` returns a character index, which differs from Rust's byte index
    when a non-ASCII character precedes the match; the prefix and suffix it
    splits off are the same either way. */
module Text {
  import opened Wrappers

  /** Rust's `u8`. */
  type u8 = x: int | 0 <= x < 256

  /** The one failure value: every way a range string can be rejected,
      including the integer-parse failures the parser forwards with `?`. */
  datatype ParseError = Malformed

  predicate IsAsciiDigit(c: char) {
    '0' <= c <= '9'
  }

  predicate AllDigits(s: string) {
    forall i :: 0 <= i < |s| ==> IsAsciiDigit(s[i])
  }

  function DigitValue(c: char): (d: nat)
    requires IsAsciiDigit(c)
    ensures d < 10
  {
    (c as int) - ('0' as int)
  }

  function DigitChar(d: nat): (c: char)
    requires d < 10
    ensures IsAsciiDigit(c) && DigitValue(c) == d
  {
    (('0' as int) + d) as char
  }

  /** `str::find` for a single character: the index of its first occurrence. */
  function Find(s: string, c: char): (r: Option<nat>)
    ensures r.Some? ==> r.value < |s| && s[r.value] == c && c !in s[..r.value]
    ensures r.None? <==> c !in s
  {
    if |s| == 0 then None
    else if s[0] == c then Some(0)
    else
      match Find(s[1..], c)
      case None => None
      case Some(i) =>
        assert s[..i + 1] == [s[0]] + s[1..][..i];
        Some(i + 1)
  }

  /** The pieces joined back with '.', the inverse of `Split`. */
  function Join(parts: seq<string>): string
    requires |parts| >= 1
  {
    if |parts| == 1 then parts[0] else parts[0] + "." + Join(parts[1..])
  }

  /** `str::split('.')`: always at least one piece, empty pieces kept. */
  function Split(s: string): (parts: seq<string>)
    ensures |parts| >= 1
    ensures forall i :: 0 <= i < |parts| ==> '.' !in parts[i]
    ensures Join(parts) == s
  {
    if |s| == 0 then [""]
    else
      var rest := Split(s[1..]);
      if s[0] == '.' then
        assert ([""] + rest)[1..] == rest;
        [""] + rest
      else
        var parts := [[s[0]] + rest[0]] + rest[1..];
        assert parts[1..] == rest[1..];
        assert '.' !in parts[0] by {
          forall k | 0 <= k < |parts[0]| ensures parts[0][k] != '.' {
            if k > 0 { assert parts[0][k] == rest[0][k - 1]; }
          }
        }
        if |rest| == 1 then parts
        else
          assert Join(rest) == rest[0] + "." + Join(rest[1..]);
          assert Join(parts) == [s[0]] + rest[0] + "." + Join(rest[1..]);
          assert [s[0]] + s[1..] == s;
          parts
  }

  /** A piece free of dots is glued to the first piece of what follows it. */
  lemma {:induction false} SplitAfterPlain(p: string, s: string)
    requires '.' !in p
    ensures Split(p + s) == [p + Split(s)[0]] + Split(s)[1..]
    decreases |p|
  {
    if |p| == 0 {
      assert p + s == s;
      assert p + Split(s)[0] == Split(s)[0];
      assert Split(s) == [Split(s)[0]] + Split(s)[1..];
    } else {
      assert (p + s)[1..] == p[1..] + s;
      assert (p + s)[0] == p[0];
      SplitAfterPlain(p[1..], s);
      assert [p[0]] + (p[1..] + Split(s)[0]) == p + Split(s)[0];
    }
  }

  lemma SplitAfterDot(s: string)
    ensures Split("." + s) == [""] + Split(s)
  {
    assert ("." + s)[1..] == s;
  }

  /** Splitting undoes joining for dot-free pieces. */
  lemma {:induction false} SplitJoin(parts: seq<string>)
    requires |parts| >= 1
    requires forall i :: 0 <= i < |parts| ==> '.' !in parts[i]
    ensures Split(Join(parts)) == parts
    decreases |parts|
  {
    if |parts| == 1 {
      SplitAfterPlain(parts[0], "");
      assert parts[0] + "" == parts[0];
    } else {
      var tail := Join(parts[1..]);
      assert Join(parts) == parts[0] + ("." + tail);
      SplitAfterPlain(parts[0], "." + tail);
      SplitAfterDot(tail);
      SplitJoin(parts[1..]);
      assert parts[0] + "" == parts[0];
      assert parts == [parts[0]] + parts[1..];
    }
  }

  /** The value of a run of decimal digits, most significant first. */
  function DigitsValue(s: string): nat
    requires AllDigits(s)
  {
    if |s| == 0 then 0
    else 10 * DigitsValue(s[..|s| - 1]) + DigitValue(s[|s| - 1])
  }

  /** The decimal numeral of `n`, without leading zeros. */
  function Decimal(n: nat): (s: string)
    ensures |s| >= 1 && AllDigits(s)
    ensures DigitsValue(s) == n
  {
    if n < 10 then [DigitChar(n)]
    else
      var s := Decimal(n / 10) + [DigitChar(n % 10)];
      assert s[..|s| - 1] == Decimal(n / 10);
      s
  }

  /** Rust's `str::parse::<u8>`: an optional leading '+', then at least one
      ASCII digit; leading zeros are allowed and a value above 255 fails. */
  function ParseU8(s: string): (r: Result<u8, ParseError>)
    ensures r.Success? ==> |s| >= 1 && (s[0] == '+' || IsAsciiDigit(s[0]))
    ensures r.Success? ==> forall i :: 1 <= i < |s| ==> IsAsciiDigit(s[i])
    ensures r.Success? ==> IsAsciiDigit(s[|s| - 1])
  {
    if |s| == 0 then Failure(Malformed)
    else
      var digits := if s[0] == '+' then s[1..] else s;
      if |digits| == 0 || !AllDigits(digits) then Failure(Malformed)
      else if DigitsValue(digits) > 255 then Failure(Malformed)
      else
        assert forall i :: 1 <= i < |s| ==> IsAsciiDigit(s[i]) by {
          forall i | 1 <= i < |s| ensures IsAsciiDigit(s[i]) {
            if s[0] == '+' { assert s[i] == digits[i - 1]; } else { assert s[i] == digits[i]; }
          }
        }
        Success(DigitsValue(digits))
  }

  /** On a non-empty run of digits, with or without a leading '+', the parse
      succeeds exactly when the value fits in a u8, and yields that value.
      With the shape constraints of `ParseU8` this fixes every result. */
  lemma ParseU8Digits(d: string)
    requires |d| >= 1 && AllDigits(d)
    ensures ParseU8("+" + d) == ParseU8(d)
    ensures ParseU8(d).Success? <==> DigitsValue(d) <= 255
    ensures ParseU8(d).Success? ==> ParseU8(d).value == DigitsValue(d)
  {
    assert ("+" + d)[1..] == d;
    assert d[0] != '+';
  }

  /** A u8 written in decimal parses back to itself, also behind a '+'. */
  lemma ParseU8Decimal(n: u8)
    ensures ParseU8(Decimal(n)) == Success(n)
    ensures ParseU8("+" + Decimal(n)) == Success(n)
  {
    var d := Decimal(n);
    assert ("+" + d)[1..] == d;
  }

  /** A numeral whose value exceeds 255 is rejected, however it is written. */
  lemma ParseU8Overflow(digits: string)
    requires |digits| >= 1 && AllDigits(digits) && DigitsValue(digits) > 255
    ensures ParseU8(digits).Failure?
    ensures ParseU8("+" + digits).Failure?
  {
    assert ("+" + digits)[1..] == digits;
  }

  function Zeros(k: nat): (z: string)
    ensures |z| == k && AllDigits(z)
  {
    if k == 0 then "" else Zeros(k - 1) + "0"
  }

  lemma {:induction false} ZerosValue(k: nat)
    ensures DigitsValue(Zeros(k)) == 0
  {
    if k > 0 {
      assert Zeros(k)[..k - 1] == Zeros(k - 1);
      ZerosValue(k - 1);
    }
  }

  /** Leading zeros do not change the value of a numeral. */
  lemma {:induction false} LeadingZerosValue(k: nat, d: string)
    requires AllDigits(d)
    ensures AllDigits(Zeros(k) + d)
    ensures DigitsValue(Zeros(k) + d) == DigitsValue(d)
    decreases |d|
  {
    var s := Zeros(k) + d;
    assert AllDigits(s) by {
      forall i | 0 <= i < |s| ensures IsAsciiDigit(s[i]) {
        if i < k { assert s[i] == Zeros(k)[i]; } else { assert s[i] == d[i - k]; }
      }
    }
    if |d| == 0 {
      assert s == Zeros(k);
      ZerosValue(k);
    } else {
      var d' := d[..|d| - 1];
      assert s[..|s| - 1] == Zeros(k) + d';
      LeadingZerosValue(k, d');
    }
  }

  /** `parse::<u8>` accepts leading zeros in front of a u8 numeral. */
  lemma ParseU8LeadingZeros(k: nat, n: u8)
    ensures ParseU8(Zeros(k) + Decimal(n)) == Success(n)
  {
    LeadingZerosValue(k, Decimal(n));
    var s := Zeros(k) + Decimal(n);
    assert s[0] != '+' by {
      if k > 0 { assert s[0] == Zeros(k)[0]; } else { assert s[0] == Decimal(n)[0]; }
    }
  }
}
