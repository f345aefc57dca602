/** The encoded password hash of internal/auth/password.go:73-118. */
module PasswordHash {
  import opened Basics
  import opened Bytes
  import P = Pbkdf2

  // ----- Base64, the standard alphabet without padding (section 4 of RFC 4648) -----

  function Digit(v: int): (c: char)
    requires 0 <= v < 64
    ensures Value(c) == v && c != '$'
  {
    if v < 26 then 'A' + v as char
    else if v < 52 then 'a' + (v - 26) as char
    else if v < 62 then '0' + (v - 52) as char
    else if v == 62 then '+'
    else '/'
  }

  /** The six bits of a digit; -1 outside the alphabet. */
  function Value(c: char): (v: int)
    ensures -1 <= v < 64
  {
    if 'A' <= c <= 'Z' then (c - 'A') as int
    else if 'a' <= c <= 'z' then (c - 'a') as int + 26
    else if '0' <= c <= '9' then (c - '0') as int + 52
    else if c == '+' then 62
    else if c == '/' then 63
    else -1
  }

  /** Three octets as four digits. */
  function Quantum(a: byte, b: byte, c: byte): (s: string)
    ensures |s| == 4
  {
    [Digit(a / 4), Digit(a % 4 * 16 + b / 16), Digit(b % 16 * 4 + c / 64), Digit(c % 64)]
  }

  function EncodeBase64(s: seq<byte>): string {
    if s == [] then ""
    else if |s| == 1 then Quantum(s[0], 0, 0)[..2]
    else if |s| == 2 then Quantum(s[0], s[1], 0)[..3]
    else Quantum(s[0], s[1], s[2]) + EncodeBase64(s[3..])
  }

  /** The decoder passes over line breaks, as Go's does. */
  function DropBreaks(s: string): string {
    if s == "" then "" else (if s[0] == '\r' || s[0] == '\n' then "" else [s[0]]) + DropBreaks(s[1..])
  }

  /** Quanta of four digits, and a last one of two or three; left-over bits are not checked. */
  function Quanta(s: string): Option<seq<byte>> {
    if s == "" then Some([])
    else if |s| == 1 || Value(s[0]) < 0 || Value(s[1]) < 0 then None
    else if (|s| > 2 && Value(s[2]) < 0) || (|s| > 3 && Value(s[3]) < 0) then None
    else
      var first := Value(s[0]) * 4 + Value(s[1]) / 16;
      if |s| == 2 then Some([first])
      else
        var second := Value(s[1]) % 16 * 16 + Value(s[2]) / 4;
        if |s| == 3 then Some([first, second])
        else
          var third := Value(s[2]) % 4 * 64 + Value(s[3]);
          var rest := Quanta(s[4..]);
          if rest.None? then None else Some([first, second, third] + rest.value)
  }

  function DecodeBase64(s: string): Option<seq<byte>> {
    Quanta(DropBreaks(s))
  }

  predicate InAlphabet(s: string) {
    forall c <- s :: Value(c) >= 0
  }

  lemma {:induction false} EncodedInAlphabet(s: seq<byte>)
    ensures InAlphabet(EncodeBase64(s))
  {
    hide Value, Digit;
    if |s| >= 3 { EncodedInAlphabet(s[3..]); }
  }

  lemma {:induction false} NoBreaksInAlphabet(s: string)
    requires InAlphabet(s)
    ensures DropBreaks(s) == s
  {
    if s != "" {
      assert Value(s[0]) >= 0;
      NoBreaksInAlphabet(s[1..]);
    }
  }

  /** 24 bits as three octets and as four sixes. */
  lemma SixesAndOctets(a: byte, b: byte, c: byte)
    ensures var w := a % 4 * 16 + b / 16; 0 <= w < 64 && a / 4 * 4 + w / 16 == a && w % 16 == b / 16
    ensures var x := b % 16 * 4 + c / 64; 0 <= x < 64 && b / 16 * 16 + x / 4 == b && x % 4 * 64 + c % 64 == c
  {}

  lemma FourDigits(v: int, w: int, x: int, y: int, more: string)
    requires 0 <= v < 64 && 0 <= w < 64 && 0 <= x < 64 && 0 <= y < 64 && Quanta(more).Some?
    ensures Quanta([Digit(v), Digit(w), Digit(x), Digit(y)] + more)
      == Some([v * 4 + w / 16, w % 16 * 16 + x / 4, x % 4 * 64 + y] + Quanta(more).value)
  {
    hide Digit, Value;
    var s := [Digit(v), Digit(w), Digit(x), Digit(y)] + more;
    assert s[4..] == more && s[0] == Digit(v) && s[1] == Digit(w) && s[2] == Digit(x) && s[3] == Digit(y);
  }

  lemma FullQuantum(a: byte, b: byte, c: byte, more: string)
    requires Quanta(more).Some?
    ensures Quanta(Quantum(a, b, c) + more) == Some([a, b, c] + Quanta(more).value)
  {
    hide Digit, Value, Quanta;
    SixesAndOctets(a, b, c);
    FourDigits(a / 4, a % 4 * 16 + b / 16, b % 16 * 4 + c / 64, c % 64, more);
  }

  lemma ShortQuantum(a: byte, b: byte)
    ensures Quanta(Quantum(a, 0, 0)[..2]) == Some([a]) && Quanta(Quantum(a, b, 0)[..3]) == Some([a, b])
  {
    hide Digit, Value;
    SixesAndOctets(a, b, 0);
    SixesAndOctets(a, 0, 0);
  }

  lemma {:induction false} QuantaUndoEncode(s: seq<byte>)
    ensures Quanta(EncodeBase64(s)) == Some(s)
  {
    hide Digit, Value, Quantum;
    if |s| >= 3 {
      QuantaUndoEncode(s[3..]);
      hide Quanta;
      FullQuantum(s[0], s[1], s[2], EncodeBase64(s[3..]));
      assert s == [s[0], s[1], s[2]] + s[3..];
    } else if |s| == 2 {
      ShortQuantum(s[0], s[1]);
      assert s == [s[0], s[1]];
    } else if |s| == 1 {
      ShortQuantum(s[0], 0);
      assert s == [s[0]];
    }
  }

  lemma Base64RoundTrip(s: seq<byte>)
    ensures DecodeBase64(EncodeBase64(s)) == Some(s)
  {
    EncodedInAlphabet(s);
    NoBreaksInAlphabet(EncodeBase64(s));
    QuantaUndoEncode(s);
  }

  // ----- The same in bits -----

  const ALPHABET := CAPITALS + LETTERS + DIGITS + "+/"

  lemma DigitIs(v: int)
    requires 0 <= v < 64
    ensures Digit(v) == ALPHABET[v]
  {
    LettersAre();
    CapitalsAre();
    DigitsAre();
  }

  /** 24 bits as four sixes. */
  lemma Sixes(a: byte, b: byte, c: byte)
    ensures var n := 0x1_0000 * a as int + 0x100 * b as int + c as int;
      && n / 0x4_0000 == a / 4 && n / 0x1000 % 64 == a % 4 * 16 + b / 16
      && n / 64 % 64 == b % 16 * 4 + c / 64 && n % 64 == c % 64 && 0 <= n < 0x100_0000
  {
    var n := 0x1_0000 * a as int + 0x100 * b as int + c as int;
    assert n / 64 == 0x400 * a as int + 4 * b as int + c / 64;
    assert n / 0x1000 == 16 * a as int + b / 16;
  }

  /** The 24 bits of three octets as four digits, the highest six first. */
  function FourDigitsOf(a: byte, b: byte, c: byte): (s: string)
    ensures |s| == 4
  {
    var n := 0x1_0000 * a as int + 0x100 * b as int + c as int;
    Sixes(a, b, c);
    [ALPHABET[n / 0x4_0000], ALPHABET[n / 0x1000 % 64], ALPHABET[n / 64 % 64], ALPHABET[n % 64]]
  }

  lemma DigitsOf(a: byte, b: byte, c: byte)
    ensures FourDigitsOf(a, b, c) == Quantum(a, b, c)
  {
    hide Digit;
    Sixes(a, b, c);
    DigitIs(a / 4);
    DigitIs(a % 4 * 16 + b / 16);
    DigitIs(b % 16 * 4 + c / 64);
    DigitIs(c % 64);
  }

  /** Three octets at a time, six bits to a digit; one or two at the end are filled up with zero
      bits, and nothing pads the last digits. */
  lemma EncodesBits(s: seq<byte>)
    ensures EncodeBase64(s) ==
      if |s| == 0 then ""
      else if |s| == 1 then FourDigitsOf(s[0], 0, 0)[..2]
      else if |s| == 2 then FourDigitsOf(s[0], s[1], 0)[..3]
      else FourDigitsOf(s[0], s[1], s[2]) + EncodeBase64(s[3..])
  {
    hide Quantum, FourDigitsOf;
    if s != [] { DigitsOf(s[0], if |s| > 1 then s[1] else 0, if |s| > 2 then s[2] else 0); }
  }

  /** A character the decoder passes over, wherever it stands. */
  lemma {:induction false} BreakIsPassed(a: string, c: char, b: string)
    requires c == '\r' || c == '\n'
    ensures DecodeBase64(a + [c] + b) == DecodeBase64(a + b)
  {
    DropAppend(a + [c], b);
    DropAppend(a, [c]);
    DropAppend(a, b);
    assert [c][1..] == "" && DropBreaks([c]) == "" + DropBreaks("");
    assert DropBreaks(a) + "" == DropBreaks(a);
  }

  lemma {:induction false} DropAppend(a: string, b: string)
    ensures DropBreaks(a + b) == DropBreaks(a) + DropBreaks(b)
  {
    if a == "" {
      assert a + b == b;
    } else {
      assert (a + b)[0] == a[0] && (a + b)[1..] == a[1..] + b;
      DropAppend(a[1..], b);
    }
  }

  /** Any other character outside the alphabet spoils the whole. */
  lemma {:induction false} ForeignSpoils(s: string, i: nat)
    requires i < |s| && s[i] !in ALPHABET && s[i] != '\r' && s[i] != '\n'
    ensures DecodeBase64(s) == None
  {
    DropsOnly(s, i);
    var d := DropBreaks(s);
    var k :| 0 <= k < |d| && d[k] == s[i];
    NotInAlphabet(s[i]);
    QuantaSpoilt(d, k);
  }

  lemma NotInAlphabet(c: char)
    ensures Value(c) < 0 <==> c !in ALPHABET
  {
    Runs(c);
  }

  lemma {:induction false} DropsOnly(s: string, i: nat)
    requires i < |s| && s[i] != '\r' && s[i] != '\n'
    ensures s[i] in DropBreaks(s)
  {
    if i > 0 { DropsOnly(s[1..], i - 1); }
  }

  lemma {:induction false} QuantaSpoilt(s: string, k: nat)
    requires k < |s| && Value(s[k]) < 0
    ensures Quanta(s) == None
  {
    hide Value;
    if k >= 4 { QuantaSpoilt(s[4..], k - 4); }
  }

  // ----- Decimal -----

  /** `%d`. */
  function FormatInt(n: int): string {
    if n < 0 then "-" + Decimal(-n) else Decimal(n)
  }

  predicate AllDigits(s: string) {
    forall i :: 0 <= i < |s| ==> '0' <= s[i] <= '9'
  }

  function DecimalValue(s: string): nat
    requires AllDigits(s)
  {
    if s == "" then 0 else DecimalValue(s[..|s| - 1]) * 10 + (s[|s| - 1] - '0') as int
  }

  /** `strconv.Atoi` on a 64-bit machine: an optional sign, then digits; None on anything else
      and outside the range of int. */
  function Atoi(s: string): Option<int> {
    var digits := if s != "" && (s[0] == '+' || s[0] == '-') then s[1..] else s;
    if digits == "" || !AllDigits(digits) then None
    else
      var n: int := if s[0] == '-' then 0 - DecimalValue(digits) else DecimalValue(digits);
      if IsInt64(n) then Some(n) else None
  }

  predicate IsInt64(n: int) {
    -0x8000_0000_0000_0000 <= n < 0x8000_0000_0000_0000
  }

  lemma ValueOfLonger(s: string, d: nat)
    requires AllDigits(s) && d < 10
    ensures var longer := s + ['0' + d as char]; AllDigits(longer) && DecimalValue(longer) == DecimalValue(s) * 10 + d
  {
    var c := '0' + d as char;
    assert '0' <= c <= '9' && (c - '0') as int == d;
    assert (s + [c])[..|s|] == s;
  }

  lemma {:induction false} DecimalRoundTrip(n: nat)
    ensures Decimal(n) != "" && AllDigits(Decimal(n)) && DecimalValue(Decimal(n)) == n
  {
    hide AllDigits, DecimalValue;
    var most := if n < 10 then "" else Decimal(n / 10);
    if n < 10 {
      NoDigits();
    } else {
      DecimalRoundTrip(n / 10);
    }
    ValueOfLonger(most, n % 10);
    assert Decimal(n) == most + ['0' + (n % 10) as char];
  }

  lemma NoDigits()
    ensures AllDigits("") && DecimalValue("") == 0
  {}

  lemma AtoiUndoesFormat(n: int)
    requires IsInt64(n)
    ensures Atoi(FormatInt(n)) == Some(n)
  {
    var m := if n < 0 then -n else n;
    DecimalRoundTrip(m);
    if n < 0 { assert FormatInt(n)[1..] == Decimal(m); }
  }

  /** Decimal digits, each worth ten times what is behind it. */
  lemma DecimalPlaces(s: string, d: nat)
    requires AllDigits(s) && d < 10
    ensures AllDigits(s + [DIGITS[d]]) && DecimalValue(s + [DIGITS[d]]) == 10 * DecimalValue(s) + d
    ensures DecimalValue("") == 0
  {
    hide AllDigits, DecimalValue;
    DigitsAre();
    NoDigits();
    ValueOfLonger(s, d);
  }

  lemma AllDigitsAre(s: string)
    ensures AllDigits(s) <==> forall i :: 0 <= i < |s| ==> s[i] in DIGITS
  {
    forall i | 0 <= i < |s| ensures '0' <= s[i] <= '9' <==> s[i] in DIGITS {
      Runs(s[i]);
    }
  }

  /** A count reads as what it says, with a sign or without, if it fits 64 bits. */
  lemma AtoiReads(sign: string, digits: string)
    requires sign in {"", "+", "-"} && digits != "" && AllDigits(digits)
    ensures var n: int := if sign == "-" then 0 - DecimalValue(digits) else DecimalValue(digits);
      Atoi(sign + digits) ==
        if -0x8000_0000_0000_0000 <= n <= 0x7fff_ffff_ffff_ffff then Some(n) else None
  {
    hide DecimalValue;
    var s := sign + digits;
    if sign == "" {
      assert s == digits && '0' <= s[0] <= '9';
    } else {
      assert s[1..] == digits && s[0] == sign[0];
    }
  }

  /** A sign or none, and digits. */
  predicate IsCount(s: string, sign: string, digits: string) {
    && sign in {"", "+", "-"} && digits != "" && (forall i :: 0 <= i < |digits| ==> digits[i] in DIGITS)
    && s == sign + digits
  }

  /** Nothing else reads as a count. */
  lemma AtoiRefuses(s: string)
    requires Atoi(s).Some?
    ensures exists sign, digits :: IsCount(s, sign, digits)
  {
    hide DecimalValue, IsInt64, AllDigits;
    var signed := s != "" && (s[0] == '+' || s[0] == '-');
    var sign, digits := if signed then s[..1] else "", if signed then s[1..] else s;
    AllDigitsAre(digits);
    if signed { assert sign == [s[0]]; }
    assert s == sign + digits;
    assert IsCount(s, sign, digits);
  }

  // ----- Fields -----

  /** `strings.Split(s, "$")`. */
  function Split(s: string): (parts: seq<string>)
    ensures |parts| >= 1
  {
    if s == "" then [""]
    else
      var rest := Split(s[1..]);
      if s[0] == '$' then [""] + rest else [[s[0]] + rest[0]] + rest[1..]
  }

  lemma {:induction false} SplitField(field: string, rest: string)
    requires '$' !in field
    ensures Split(field + "$" + rest) == [field] + Split(rest)
  {
    var s := field + "$" + rest;
    if field == "" {
      assert s[1..] == rest;
    } else {
      SplitField(field[1..], rest);
      assert s[1..] == field[1..] + "$" + rest;
      assert s[0] == field[0] && field[0] in field;
      assert [field[0]] + field[1..] == field;
    }
  }

  lemma {:induction false} SplitLast(field: string)
    requires '$' !in field
    ensures Split(field) == [field]
  {
    if field != "" {
      assert field[0] in field;
      SplitLast(field[1..]);
      assert [field[0]] + field[1..] == field;
    }
  }

  // ----- Hashes -----

  const SCHEME := "pbkdf2-sha256"
  const KEY_LEN := 32

  /** The encoded form: scheme, iteration count, salt and key between dollar signs. */
  function Fields(iter: int, salt: seq<byte>, key: seq<byte>): string {
    SCHEME + "$" + (FormatInt(iter) + "$" + (EncodeBase64(salt) + "$" + EncodeBase64(key)))
  }

  ghost function Derived(hmac: P.Prf, password: seq<byte>, salt: seq<byte>, iter: int, keyLen: nat): seq<byte>
    requires P.FixedLength(hmac)
  {
    P.DerivedKey(hmac, password, salt, if iter < 1 then 1 else iter, keyLen)
  }

  method EncodeHash(hmac: P.Prf, password: seq<byte>, salt: seq<byte>, iter: int) returns (encoded: string)
    requires P.FixedLength(hmac)
    ensures encoded == Fields(iter, salt, P.DerivedKey(hmac, password, salt, if iter < 1 then 1 else iter, 32))
  {
    var dk := P.Pbkdf2Sha256(hmac, password, salt, iter, KEY_LEN);
    encoded := Fields(iter, salt, dk);
  }

  datatype Verdict = Accepted | MalformedHash | BadIterationCount | BadSaltEncoding | BadKeyEncoding | Mismatch

  /** What the verdict on an encoded hash rests on: how it reads, and the derived key. */
  ghost function Judge(hmac: P.Prf, encoded: string, password: seq<byte>): Verdict
    requires P.FixedLength(hmac)
  {
    var parts := Split(encoded);
    if |parts| != 4 || parts[0] != SCHEME then MalformedHash
    else
      var iter, salt, want := Atoi(parts[1]), DecodeBase64(parts[2]), DecodeBase64(parts[3]);
      if iter.None? || iter.value < 1 then BadIterationCount
      else if salt.None? then BadSaltEncoding
      else if want.None? then BadKeyEncoding
      else if Derived(hmac, password, salt.value, iter.value, |want.value|) == want.value then Accepted
      else Mismatch
  }

  /** `VerifyPassword`. */
  method VerifyPassword(hmac: P.Prf, encoded: string, password: seq<byte>) returns (verdict: Verdict)
    requires P.FixedLength(hmac)
    ensures verdict == Judge(hmac, encoded, password)
  {
    var parts := Split(encoded);
    if |parts| != 4 || parts[0] != SCHEME { return MalformedHash; }
    var iter := Atoi(parts[1]);
    if iter.None? || iter.value < 1 { return BadIterationCount; }
    var salt := DecodeBase64(parts[2]);
    if salt.None? { return BadSaltEncoding; }
    var want := DecodeBase64(parts[3]);
    if want.None? { return BadKeyEncoding; }
    var got := P.Pbkdf2Sha256(hmac, password, salt.value, iter.value, |want.value|);
    if got != want.value { return Mismatch; }
    return Accepted;
  }

  /** The fields of an encoded hash read back as they were written. */
  lemma FieldsReadBack(iter: int, salt: seq<byte>, key: seq<byte>)
    requires IsInt64(iter)
    ensures var parts := Split(Fields(iter, salt, key));
      && |parts| == 4 && parts[0] == SCHEME
      && Atoi(parts[1]) == Some(iter) && DecodeBase64(parts[2]) == Some(salt) && DecodeBase64(parts[3]) == Some(key)
  {
    hide Atoi, DecodeBase64, EncodeBase64, FormatInt, Split;
    NoDollarInNumber(iter);
    NoDollarInBase64(salt);
    NoDollarInBase64(key);
    AtoiUndoesFormat(iter);
    Base64RoundTrip(salt);
    Base64RoundTrip(key);
    var tail := EncodeBase64(salt) + "$" + EncodeBase64(key);
    SplitField(SCHEME, FormatInt(iter) + "$" + tail);
    SplitField(FormatInt(iter), tail);
    SplitField(EncodeBase64(salt), EncodeBase64(key));
    SplitLast(EncodeBase64(key));
  }

  lemma NoDollarInBase64(s: seq<byte>)
    ensures '$' !in EncodeBase64(s)
  {
    EncodedInAlphabet(s);
  }

  lemma NoDollarInNumber(n: int)
    ensures '$' !in FormatInt(n)
  {
    hide Decimal, DecimalValue;
    var digits := Decimal(if n < 0 then -n else n);
    DecimalRoundTrip(if n < 0 then -n else n);
    assert FormatInt(n) == if n < 0 then "-" + digits else digits;
  }

  /** A password is accepted against the encoded hash of another exactly when the two derive
      the same key, if the count is at least 1; below that the encoded hash is refused. In
      particular every hash made with at least one iteration accepts its own password. */
  lemma AcceptsExactly(hmac: P.Prf, made: seq<byte>, tried: seq<byte>, salt: seq<byte>, iter: int)
    requires P.FixedLength(hmac) && IsInt64(iter)
    ensures var verdict := Judge(hmac, Fields(iter, salt, Derived(hmac, made, salt, iter, KEY_LEN)), tried);
      if iter < 1 then verdict == BadIterationCount
      else if Derived(hmac, made, salt, iter, KEY_LEN) == Derived(hmac, tried, salt, iter, KEY_LEN)
      then verdict == Accepted
      else verdict == Mismatch
  {
    hide P.FixedLength, P.DerivedKey, Fields, Split, Atoi, DecodeBase64;
    FieldsReadBack(iter, salt, Derived(hmac, made, salt, iter, KEY_LEN));
  }

  // ----- The verdict, from the text of the hash -----

  lemma {:induction false} PartsAreDollars(s: string)
    ensures |Split(s)| == multiset(s)['$'] + 1
  {
    if s != "" {
      PartsAreDollars(s[1..]);
      assert s == [s[0]] + s[1..];
      assert multiset(s) == multiset([s[0]]) + multiset(s[1..]);
    }
  }

  /** A hash without exactly three dollar signs is malformed. */
  lemma JudgesParts(hmac: P.Prf, encoded: string, password: seq<byte>)
    requires P.FixedLength(hmac) && multiset(encoded)['$'] != 3
    ensures Judge(hmac, encoded, password) == MalformedHash
  {
    PartsAreDollars(encoded);
  }

  /** One with three: by its four parts, in their order. */
  lemma JudgesFields(hmac: P.Prf, scheme: string, count: string, salt: string, key: string, password: seq<byte>)
    requires P.FixedLength(hmac) && '$' !in scheme && '$' !in count && '$' !in salt && '$' !in key
    ensures var iter, s, want := Atoi(count), DecodeBase64(salt), DecodeBase64(key);
      Judge(hmac, scheme + "$" + (count + "$" + (salt + "$" + key)), password) ==
        if scheme != "pbkdf2-sha256" then MalformedHash
        else if iter.None? || iter.value <= 0 then BadIterationCount
        else if s.None? then BadSaltEncoding
        else if want.None? then BadKeyEncoding
        else if P.DerivedKey(hmac, password, s.value, iter.value, |want.value|) == want.value then Accepted
        else Mismatch
  {
    hide P.FixedLength, P.DerivedKey, Split, Atoi, DecodeBase64;
    SplitField(scheme, count + "$" + (salt + "$" + key));
    SplitField(count, salt + "$" + key);
    SplitField(salt, key);
    SplitLast(key);
  }

  /** The text of a fresh hash. */
  lemma FieldsWritten(iter: nat, salt: seq<byte>, key: seq<byte>)
    ensures Fields(iter, salt, key) ==
      "pbkdf2-sha256$" + Decimal(iter) + "$" + EncodeBase64(salt) + "$" + EncodeBase64(key)
  {
    hide EncodeBase64, Decimal;
  }
}
