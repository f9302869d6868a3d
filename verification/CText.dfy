/** The pieces of the C string library that the programs lean on: NUL-terminated
    strings inside byte buffers, decimal printing and atoi.

    A byte is modelled as a `char` and a buffer as a `string`.  No definition
    depends on how many different bytes there are. */
module CText {

  const NUL: char := '\0'
  const CRLF: string := "\r\n"

  /** What a C string function sees in a buffer: the bytes before the first NUL. */
  function CStr(buf: string): (s: string)
    ensures s <= buf && NUL !in s
    ensures |s| < |buf| ==> buf[|s|] == NUL
  {
    if buf == "" || buf[0] == NUL then "" else [buf[0]] + CStr(buf[1..])
  }

  lemma CStrOfTerminated(s: string, tail: string)
    requires NUL !in s
    requires tail == "" || tail[0] == NUL
    ensures CStr(s + tail) == s
  {
    var buf, t := s + tail, CStr(s + tail);
    assert forall i :: 0 <= i < |s| ==> buf[i] == s[i] != NUL;
    assert |s| < |buf| ==> buf[|s|] == NUL;
    assert t == buf[..|s|];
  }

  lemma CStrStopsAt(buf: string, n: nat)
    requires n <= |buf| && NUL !in buf[..n]
    requires n == |buf| || buf[n] == NUL
    ensures CStr(buf) == buf[..n]
  {
    assert buf == buf[..n] + buf[n..];
    CStrOfTerminated(buf[..n], buf[n..]);
  }

  lemma {:induction false} CStrDrop(buf: string, n: nat)
    requires n <= |CStr(buf)|
    ensures CStr(buf[n..]) == CStr(buf)[n..]
  {
    if n > 0 {
      CStrDrop(buf[1..], n - 1);
      assert buf[1..][n - 1..] == buf[n..];
    }
  }

  /** `n` zero bytes, as calloc and bzero leave them. */
  function Zeros(n: nat): (z: string)
    ensures |z| == n && forall i :: 0 <= i < n ==> z[i] == NUL
  {
    seq(n, i => NUL)
  }

  /** A buffer after `text` has been stored at its start. */
  function Overwrite(buf: string, text: string): (r: string)
    requires |text| <= |buf|
    ensures |r| == |buf| && text <= r && r[|text|..] == buf[|text|..]
  {
    text + buf[|text|..]
  }

  // ----- decimal numbers -----

  predicate IsDigit(c: char) { '0' <= c <= '9' }

  function DigitChar(d: nat): (c: char)
    requires d < 10
    ensures IsDigit(c) && DigitValue(c) == d
  {
    "0123456789"[d]
  }

  function DigitValue(c: char): (d: nat)
    requires IsDigit(c)
    ensures d < 10
  {
    c as int - '0' as int
  }

  /** What printf("%i") and printf("%u") print for a non-negative number. */
  function Decimal(n: nat): (s: string)
    ensures |s| >= 1 && forall i :: 0 <= i < |s| ==> IsDigit(s[i])
  {
    if n < 10 then [DigitChar(n)] else Decimal(n / 10) + [DigitChar(n % 10)]
  }

  /** The digit loop of atoi, with the value read so far. */
  function ReadDigits(s: string, acc: nat): nat {
    if s == "" || !IsDigit(s[0]) then acc else ReadDigits(s[1..], 10 * acc + DigitValue(s[0]))
  }

  predicate IsSpace(c: char) { c == ' ' || '\t' <= c <= '\r' }

  /** atoi: white space, an optional sign, then digits up to the first other byte. */
  function Atoi(s: string): int {
    if s != "" && IsSpace(s[0]) then Atoi(s[1..])
    else if s != "" && s[0] == '-' then 0 - ReadDigits(s[1..], 0)
    else if s != "" && s[0] == '+' then ReadDigits(s[1..], 0)
    else ReadDigits(s, 0)
  }

  lemma {:induction false} ReadDecimal(n: nat, rest: string)
    ensures ReadDigits(Decimal(n) + rest, 0) == ReadDigits(rest, n)
  {
    if n < 10 {
      var s := Decimal(n) + rest;
      assert s[1..] == rest;
    } else {
      var d := [DigitChar(n % 10)];
      assert Decimal(n) + rest == Decimal(n / 10) + (d + rest);
      ReadDecimal(n / 10, d + rest);
      assert (d + rest)[1..] == rest;
    }
  }

  lemma AtoiOfDigits(s: string)
    requires s != "" && IsDigit(s[0])
    ensures Atoi(s) == ReadDigits(s, 0)
  {
  }

  lemma AtoiOfDecimal(n: nat, rest: string)
    ensures Atoi(Decimal(n) + rest) == ReadDigits(rest, n)
  {
    assert IsDigit(Decimal(n)[0]);
    AtoiOfDigits(Decimal(n) + rest);
    ReadDecimal(n, rest);
  }

  lemma DigitsChange(n: nat, rest: string)
    ensures rest == "" || !IsDigit(rest[0]) ==> ReadDigits(rest, n) == n
    ensures rest != "" && IsDigit(rest[0]) ==> ReadDigits(rest, n) >= 10 * n
  {
    if rest != "" && IsDigit(rest[0]) {
      ReadDigitsGrows(rest[1..], 10 * n + DigitValue(rest[0]));
    }
  }

  /** atoi inverts decimal printing when no further digit follows; a digit that follows
      makes the number at least ten times as large. */
  lemma AtoiInvertsDecimal(n: nat, rest: string)
    ensures rest == "" || !IsDigit(rest[0]) ==> Atoi(Decimal(n) + rest) == n
    ensures rest != "" && IsDigit(rest[0]) ==> Atoi(Decimal(n) + rest) >= 10 * n
  {
    AtoiOfDecimal(n, rest);
    DigitsChange(n, rest);
  }

  lemma {:induction false} ReadDigitsGrows(s: string, acc: nat)
    ensures ReadDigits(s, acc) >= acc
  {
    if s != "" && IsDigit(s[0]) {
      ReadDigitsGrows(s[1..], 10 * acc + DigitValue(s[0]));
    }
  }

  function Pow10(k: nat): (p: nat)
    ensures p > 0
  {
    if k == 0 then 1 else 10 * Pow10(k - 1)
  }

  // ----- which character is which digit -----

  /** The printed digits are the decimal ones, most significant first. */
  lemma DecimalDigits(n: nat)
    ensures var s := Decimal(n);
            && s[|s| - 1] as int == '0' as int + n % 10
            && if n < 10 then |s| == 1 else s[..|s| - 1] == Decimal(n / 10)
  {
  }

  predicate Digits(s: string) { forall i :: 0 <= i < |s| ==> '0' <= s[i] <= '9' }

  /** The number a string of decimal digits stands for. */
  function Value(s: string): nat
    requires Digits(s)
  {
    if s == "" then 0 else 10 * Value(s[..|s| - 1]) + (s[|s| - 1] as int - '0' as int)
  }

  predicate Blanks(s: string) { forall i :: 0 <= i < |s| ==> s[i] in " \t\n\U{0B}\U{0C}\r" }

  lemma {:induction false} ReadDigitsValue(done: string, s: string, rest: string)
    requires Digits(done) && Digits(s) && (rest == "" || !('0' <= rest[0] <= '9'))
    ensures ReadDigits(s + rest, Value(done)) == Value(done + s)
    decreases s
  {
    if s == "" {
      assert s + rest == rest && done + s == done;
    } else {
      var next := done + [s[0]];
      assert (s + rest)[0] == s[0] && (s + rest)[1..] == s[1..] + rest;
      assert next[..|next| - 1] == done && next + s[1..] == done + s;
      ReadDigitsValue(next, s[1..], rest);
    }
  }

  lemma {:induction false} AtoiSkipsBlanks(lead: string, s: string)
    requires Blanks(lead)
    ensures Atoi(lead + s) == Atoi(s)
  {
    if lead == "" {
      assert lead + s == s;
    } else {
      assert (lead + s)[0] == lead[0] && (lead + s)[1..] == lead[1..] + s;
      AtoiSkipsBlanks(lead[1..], s);
    }
  }

  lemma UnsignedValue(digits: string, rest: string)
    requires Digits(digits) && (rest == "" || !('0' <= rest[0] <= '9'))
    ensures ReadDigits(digits + rest, 0) == Value(digits)
  {
    assert "" + digits == digits;
    ReadDigitsValue("", digits, rest);
  }

  lemma SignedValue(sign: string, digits: string, rest: string)
    requires sign in ["", "+", "-"] && Digits(digits) && (rest == "" || !('0' <= rest[0] <= '9'))
    requires digits != "" || sign != "" || rest == "" || rest[0] !in " \t\n\U{0B}\U{0C}\r+-"
    ensures Atoi(sign + (digits + rest)) == if sign == "-" then 0 - Value(digits) else Value(digits)
  {
    var s := digits + rest;
    UnsignedValue(digits, rest);
    if sign == "" {
      assert sign + s == s;
    } else {
      assert (sign + s)[0] == sign[0] && (sign + s)[1..] == s;
    }
  }

  /** atoi reads any blanks, a sign or none, and the decimal digits up to the first other
      character; without digits the number is 0. */
  lemma AtoiReads(lead: string, sign: string, digits: string, rest: string)
    requires Blanks(lead) && sign in ["", "+", "-"] && Digits(digits)
    requires rest == "" || !('0' <= rest[0] <= '9')
    requires digits != "" || sign != "" || rest == "" || rest[0] !in " \t\n\U{0B}\U{0C}\r+-"
    ensures Atoi(lead + (sign + (digits + rest))) == if sign == "-" then 0 - Value(digits) else Value(digits)
  {
    AtoiSkipsBlanks(lead, sign + (digits + rest));
    SignedValue(sign, digits, rest);
  }

  /** What a C int can hold.  For a text that names any other number atoi is undefined. */
  const INT_LIMIT: int := 0x8000_0000

  predicate FitsInt(n: int) { -INT_LIMIT <= n < INT_LIMIT }

  lemma OneMoreDigit(acc: nat, d: nat, p: nat)
    requires d < 10
    ensures (10 * acc + d + 1) * p <= (acc + 1) * (10 * p)
  {
    assert (acc + 1) * (10 * p) == (10 * acc + d + 1) * p + (9 - d) * p;
  }

  lemma {:induction false} ReadDigitsBound(s: string, acc: nat)
    ensures ReadDigits(s, acc) < (acc + 1) * Pow10(|s|)
  {
    if s == "" || !IsDigit(s[0]) {
      assert (acc + 1) * Pow10(|s|) == (acc + 1) + (acc + 1) * (Pow10(|s|) - 1);
    } else {
      ReadDigitsBound(s[1..], 10 * acc + DigitValue(s[0]));
      OneMoreDigit(acc, DigitValue(s[0]), Pow10(|s| - 1));
    }
  }

  lemma {:induction false} Pow10Grows(j: nat, k: nat)
    requires j <= k
    ensures Pow10(j) <= Pow10(k)
  {
    if j < k {
      Pow10Grows(j, k - 1);
    }
  }

  lemma {:induction false} AtoiBound(s: string)
    ensures Atoi(s) < Pow10(|s|) && 0 < Atoi(s) + Pow10(|s|)
  {
    if s == "" {
    } else if IsSpace(s[0]) {
      AtoiBound(s[1..]);
    } else {
      ReadDigitsBound(s[1..], 0);
      ReadDigitsBound(s, 0);
    }
  }

  /** Any text of at most nine characters is a number that fits a C int. */
  lemma NineCharsFit(s: string)
    requires |s| <= 9
    ensures -1_000_000_000 < Atoi(s) < 1_000_000_000
  {
    AtoiBound(s);
    Pow10Grows(|s|, 9);
    PowersOfTen();
  }

  lemma {:induction false} DecimalLength(n: nat, k: nat)
    requires k >= 1
    ensures |Decimal(n)| <= k <==> n < Pow10(k)
  {
    if k == 1 {
      assert Pow10(1) == 10 * Pow10(0);
    } else if n >= 10 {
      DecimalLength(n / 10, k - 1);
      assert n / 10 < Pow10(k - 1) <==> n < 10 * Pow10(k - 1);
    } else {
      assert Pow10(k) == 10 * Pow10(k - 1) >= 10;
    }
  }

  // ----- the ten-byte size field -----

  /** snprintf(message, 100, "%i", size): the digits and a NUL over the old bytes. */
  function PrintSize(message: string, size: nat): (r: string)
    requires |Decimal(size)| < |message|
    ensures |r| == |message|
  {
    Overwrite(message, Decimal(size) + [NUL])
  }

  /** The ten bytes of `message` that go out as the size field. */
  function SizeField(message: string, size: nat): (f: string)
    requires |message| == 100 && size < Pow10(10)
    ensures |f| == 10
  {
    DecimalLength(size, 10);
    PrintSize(message, size)[..10]
  }

  /** A number of at most nine digits takes its own NUL along; one of ten fills the field. */
  lemma SizeFieldShape(message: string, size: nat)
    requires |message| == 100 && size < Pow10(10)
    ensures var digits, field := Decimal(size), SizeField(message, size);
            if size < Pow10(9) then
              |digits| < 10 && field[..|digits|] == digits && field[|digits|] == NUL
            else
              field == digits
  {
    DecimalLength(size, 10);
    DecimalLength(size, 9);
    var digits, field := Decimal(size), SizeField(message, size);
    assert field[..|digits|] == digits;
  }

  lemma ShortFieldReads(field: string, size: nat, pad: string)
    requires |Decimal(size)| < |field| && field[..|Decimal(size)|] == Decimal(size) && field[|Decimal(size)|] == NUL
    ensures Atoi(field + pad) == size && CStr(field + pad) == Decimal(size)
  {
    var digits := Decimal(size);
    var rest := field[|digits|..] + pad;
    assert field == field[..|digits|] + field[|digits|..];
    assert field + pad == digits + rest;
    AtoiInvertsDecimal(size, rest);
    assert forall i :: 0 <= i < |digits| ==> IsDigit(digits[i]);
    CStrOfTerminated(digits, rest);
  }

  /** Decoding the field in a buffer whose later bytes are `pad` gives the size back
      exactly when the number is short enough to carry its own NUL, or `pad` does not
      start with a digit; otherwise the digits name no C int at all.  What `message` held
      before plays no part. */
  lemma SizeFieldRoundTrip(message: string, size: nat, pad: string)
    requires |message| == 100 && size < INT_LIMIT
    ensures size < Pow10(10)
    ensures var good := size < Pow10(9) || pad == "" || !IsDigit(pad[0]);
            var n := Atoi(SizeField(message, size) + pad);
            if good then n == size else n >= Pow10(10) && !FitsInt(n)
  {
    PowersOfTen();
    SizeFieldShape(message, size);
    if size < Pow10(9) {
      ShortFieldReads(SizeField(message, size), size, pad);
    } else {
      AtoiInvertsDecimal(size, pad);
    }
  }

  /** The ten bytes announce the size `n`: its digits, and a NUL if there is room for one. */
  predicate FieldFor(f: string, n: nat) {
    && |f| == 10
    && var digits := Decimal(n);
       if |digits| < 10 then f[..|digits|] == digits && f[|digits|] == NUL else f == digits
  }

  lemma FieldWritten(junk: string, n: nat)
    requires |junk| == 100 && n < Pow10(10)
    ensures FieldFor(SizeField(junk, n), n)
  {
    DecimalLength(n, 9);
    DecimalLength(n, 10);
    SizeFieldShape(junk, n);
  }

  lemma PowersOfTen()
    ensures Pow10(9) == 1_000_000_000 && Pow10(10) == 10_000_000_000
  {
    assert Pow10(3) == 1000 by { assert Pow10(2) == 100 by { assert Pow10(1) == 10; } }
    assert Pow10(6) == 1_000_000 by { assert Pow10(5) == 100_000 by { assert Pow10(4) == 10_000; } }
    assert Pow10(9) == 1_000_000_000 by { assert Pow10(8) == 100_000_000 by { assert Pow10(7) == 10_000_000; } }
  }
}
