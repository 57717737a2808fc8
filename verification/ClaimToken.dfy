/** The slot claim credential: base64url(payload) "." base64url(MAC), payload "slot|expiry|email". The MAC is
    any function of key and payload. */
module ClaimToken {
  import opened Options
  import opened Text

  type Mac = (Bytes, Bytes) -> Bytes

  // ----- Decimal integers: fmt's %d, strconv.Atoi and ParseInt -----

  const MIN_INT64: int := -0x8000_0000_0000_0000
  const MAX_INT64: int := 0x7FFF_FFFF_FFFF_FFFF

  function Digit(d: nat): Byte
    requires d < 10
  {
    ('0' as int + d) as char
  }

  function PrintNat(n: nat): Bytes {
    if n < 10 then [Digit(n)] else PrintNat(n / 10) + [Digit(n % 10)]
  }

  function PrintInt(n: int): Bytes {
    if n < 0 then ['-'] + PrintNat(-n) else PrintNat(n)
  }

  predicate AllDigits(s: Bytes) {
    forall k :: 0 <= k < |s| ==> '0' <= s[k] <= '9'
  }

  function NatValue(s: Bytes): nat
    requires AllDigits(s)
  {
    if s == [] then 0 else NatValue(s[..|s| - 1]) * 10 + (s[|s| - 1] as int - '0' as int)
  }

  // Atoi and ParseInt(s, 10, 64): an optional sign, at least one digit, and a 64-bit result.
  function ParseInt(s: Bytes): Option<int> {
    var negative := s != [] && s[0] == '-';
    var digits := if s != [] && (s[0] == '-' || s[0] == '+') then s[1..] else s;
    if digits == [] || !AllDigits(digits) then None
    else
      var n: int := if negative then 0 - NatValue(digits) else NatValue(digits);
      if MIN_INT64 <= n <= MAX_INT64 then Some(n) else None
  }

  lemma {:induction false} PrintNatParses(n: nat)
    ensures PrintNat(n) != [] && AllDigits(PrintNat(n)) && NatValue(PrintNat(n)) == n
    decreases n
  {
    if n >= 10 {
      PrintNatParses(n / 10);
      var s := PrintNat(n);
      assert s[..|s| - 1] == PrintNat(n / 10);
    } else {
      assert PrintNat(n)[..0] == [];
    }
  }

  lemma DigitsParse(s: Bytes)
    requires s != [] && AllDigits(s)
    ensures NatValue(s) <= MAX_INT64 ==> ParseInt(s) == Some(NatValue(s))
    ensures MIN_INT64 <= -(NatValue(s) as int) ==> ParseInt(['-'] + s) == Some(-(NatValue(s) as int))
    ensures '|' !in s && '|' !in ['-'] + s
  {
    assert '0' <= s[0] <= '9';
    assert (['-'] + s)[1..] == s;
  }

  lemma PrintIntParses(n: int)
    requires MIN_INT64 <= n <= MAX_INT64
    ensures ParseInt(PrintInt(n)) == Some(n)
    ensures '|' !in PrintInt(n)
  {
    var m := if n < 0 then -n else n;
    PrintNatParses(m);
    DigitsParse(PrintNat(m));
  }

  function Zeros(n: nat): Bytes {
    if n == 0 then [] else ['0'] + Zeros(n - 1)
  }

  lemma {:induction false} OneMoreZero(n: nat)
    ensures Zeros(n + 1) == Zeros(n) + ['0']
  {
    if n > 0 {
      OneMoreZero(n - 1);
      assert Zeros(n + 1) == ['0'] + (Zeros(n - 1) + ['0']);
    }
  }

  // Digits are the decimal form of their value, after zeros.
  lemma {:induction false} DigitsAreDecimal(s: Bytes) returns (zeros: nat)
    requires s != [] && AllDigits(s)
    ensures s == Zeros(zeros) + PrintNat(NatValue(s))
    decreases |s|
  {
    var front, c := s[..|s| - 1], s[|s| - 1];
    var d := c as int - '0' as int;
    assert s == front + [c] && Digit(d) == c;
    if front == [] {
      zeros := 0;
    } else {
      var n := NatValue(front);
      zeros := DigitsAreDecimal(front);
      if n == 0 {
        assert PrintNat(0) == ['0'];
        OneMoreZero(zeros);
        zeros := zeros + 1;
      } else {
        assert (n * 10 + d) / 10 == n && (n * 10 + d) % 10 == d;
        assert Zeros(zeros) + PrintNat(n) + [c] == Zeros(zeros) + (PrintNat(n) + [c]);
      }
    }
  }

  /** A text is read as a number only if it is a sign or none, zeros or none, and the decimal form of the number. */
  lemma OnlyIntegersParse(s: Bytes) returns (sign: Bytes, zeros: nat)
    requires ParseInt(s).Some?
    ensures sign in {[], ['+'], ['-']} && (if sign == ['-'] then ParseInt(s).value <= 0 else ParseInt(s).value >= 0)
    ensures s == sign + Zeros(zeros) + PrintNat(if sign == ['-'] then -ParseInt(s).value else ParseInt(s).value)
  {
    if s[0] == '-' || s[0] == '+' {
      sign := [s[0]];
      zeros := DigitsAreDecimal(s[1..]);
      assert s == sign + s[1..];
      Reassociate(sign, Zeros(zeros), PrintNat(NatValue(s[1..])));
    } else {
      sign := [];
      zeros := DigitsAreDecimal(s);
      Reassociate(sign, Zeros(zeros), PrintNat(NatValue(s)));
    }
  }

  // ----- base64.RawURLEncoding -----

  function Symbol(v: nat): Byte
    requires v < 64
  {
    if v < 26 then ('A' as int + v) as char
    else if v < 52 then ('a' as int + v - 26) as char
    else if v < 62 then ('0' as int + v - 52) as char
    else if v == 62 then '-' else '_'
  }

  function ValueOf(c: Byte): (v: Option<nat>)
    ensures v.Some? ==> v.value < 64
  {
    if 'A' <= c <= 'Z' then Some(c as int - 'A' as int)
    else if 'a' <= c <= 'z' then Some(c as int - 'a' as int + 26)
    else if '0' <= c <= '9' then Some(c as int - '0' as int + 52)
    else if c == '-' then Some(62) else if c == '_' then Some(63) else None
  }

  type Sextet = v: nat | v < 64

  // The input bits, six at a time; the last sextet is filled up with zero bits.
  function Sextets(b: Bytes): seq<Sextet> {
    if b == [] then []
    else if |b| == 1 then
      var x := b[0] as int;
      [x / 4, x % 4 * 16]
    else if |b| == 2 then
      var x, y := b[0] as int, b[1] as int;
      [x / 4, x % 4 * 16 + y / 16, y % 16 * 4]
    else
      var x, y, z := b[0] as int, b[1] as int, b[2] as int;
      [x / 4, x % 4 * 16 + y / 16, y % 16 * 4 + z / 64, z % 64] + Sextets(b[3..])
  }

  function Symbols(vs: seq<Sextet>): Bytes {
    if vs == [] then [] else [Symbol(vs[0])] + Symbols(vs[1..])
  }

  function EncodeBase64(b: Bytes): Bytes {
    Symbols(Sextets(b))
  }

  // The decoder skips line breaks wherever they stand.
  function SkipBreaks(s: Bytes): Bytes {
    if s == [] then []
    else (if s[0] == '\r' || s[0] == '\n' then [] else [s[0]]) + SkipBreaks(s[1..])
  }

  function Values(s: Bytes): Option<seq<Sextet>> {
    if s == [] then Some([])
    else
      var v, rest := ValueOf(s[0]), Values(s[1..]);
      if v.None? || rest.None? then None else Some([v.value] + rest.value)
  }

  // Unpadded groups of four; unused low bits of the last sextet are ignored.
  function Pack(vs: seq<Sextet>): Option<Bytes> {
    if vs == [] then Some([])
    else if |vs| == 1 then None
    else
      var p: int, q: int := vs[0], vs[1];
      var x := (p * 4 + q / 16) as char;
      if |vs| == 2 then Some([x])
      else
        var r: int := vs[2];
        var y := (q % 16 * 16 + r / 4) as char;
        if |vs| == 3 then Some([x, y])
        else
          var t: int, rest := vs[3], Pack(vs[4..]);
          if rest.None? then None else Some([x, y, (r % 4 * 64 + t) as char] + rest.value)
  }

  function DecodeBase64(s: Bytes): Option<Bytes> {
    var vs := Values(SkipBreaks(s));
    if vs.None? then None else Pack(vs.value)
  }

  lemma {:induction false} SymbolsRoundTrip(vs: seq<Sextet>)
    ensures Values(Symbols(vs)) == Some(vs)
    decreases |vs|
  {
    if vs != [] {
      SymbolsRoundTrip(vs[1..]);
      assert Symbols(vs)[1..] == Symbols(vs[1..]);
      assert vs == [vs[0]] + vs[1..];
    }
  }

  lemma {:induction false} PackRoundTrip(b: Bytes)
    ensures Pack(Sextets(b)) == Some(b)
    decreases |b|
  {
    if |b| >= 3 {
      PackRoundTrip(b[3..]);
      assert Sextets(b)[4..] == Sextets(b[3..]);
      assert b == [b[0], b[1], b[2]] + b[3..];
    } else if |b| == 2 {
      assert b == [b[0], b[1]];
    } else if |b| == 1 {
      assert b == [b[0]];
    }
  }

  lemma {:induction false} SymbolsArePlain(vs: seq<Sextet>)
    ensures forall k :: 0 <= k < |Symbols(vs)| ==> Symbols(vs)[k] != '.' && Symbols(vs)[k] != '\r' && Symbols(vs)[k] != '\n'
    decreases |vs|
  {
    if vs != [] {
      SymbolsArePlain(vs[1..]);
    }
  }

  lemma {:induction false} NothingToSkip(s: Bytes)
    requires forall k :: 0 <= k < |s| ==> s[k] != '\r' && s[k] != '\n'
    ensures SkipBreaks(s) == s
    decreases |s|
  {
    if s != [] {
      NothingToSkip(s[1..]);
    }
  }

  /** RawURLEncoding: decoding inverts encoding on every byte string. */
  lemma Base64RoundTrip(b: Bytes)
    ensures DecodeBase64(EncodeBase64(b)) == Some(b)
  {
    SymbolsArePlain(Sextets(b));
    NothingToSkip(EncodeBase64(b));
    SymbolsRoundTrip(Sextets(b));
    PackRoundTrip(b);
  }

  // ----- Signing and verifying -----

  // strings.Cut
  function Cut(s: Bytes, sep: Byte): Option<(Bytes, Bytes)> {
    if s == [] then None
    else if s[0] == sep then Some(([], s[1..]))
    else
      var rest := Cut(s[1..], sep);
      if rest.None? then None else Some(([s[0]] + rest.value.0, rest.value.1))
  }

  lemma {:induction false} CutAtFirst(a: Bytes, sep: Byte, b: Bytes)
    requires sep !in a
    ensures Cut(a + [sep] + b, sep) == Some((a, b))
    decreases |a|
  {
    var s := a + [sep] + b;
    if a == [] {
      assert s[1..] == b;
    } else {
      CutAtFirst(a[1..], sep, b);
      assert s[1..] == a[1..] + [sep] + b;
      assert a == [a[0]] + a[1..];
    }
  }

  lemma {:induction false} CutSplits(s: Bytes, sep: Byte)
    ensures Cut(s, sep).Some? ==> s == Cut(s, sep).value.0 + [sep] + Cut(s, sep).value.1
    decreases |s|
  {
    if s != [] {
      CutSplits(s[1..], sep);
      assert s == [s[0]] + s[1..];
    }
  }

  // Times are nanoseconds; Unix() floors to seconds.
  const SECOND: int := 1_000_000_000
  const CLAIM_TTL: int := 12 * 3600 * SECOND

  function Unix(t: int): int {
    t / SECOND
  }

  function Payload(slot: int, expires: int, email: Bytes): Bytes {
    PrintInt(slot) + ['|'] + PrintInt(expires) + ['|'] + email
  }

  function Sign(mac: Mac, normalize: Bytes -> Bytes, key: Bytes, slot: int, email: Bytes, now: int): Bytes {
    var payload := Payload(slot, Unix(now + CLAIM_TTL), normalize(email));
    EncodeBase64(payload) + ['.'] + EncodeBase64(mac(key, payload))
  }

  // SplitN(payload, "|", 3) and the checks on its parts.
  function ReadPayload(payload: Bytes, now: int): Option<(int, Bytes)> {
    var first := Cut(payload, '|');
    if first.None? then None
    else
      var second := Cut(first.value.1, '|');
      if second.None? then None
      else
        var slot, expires := ParseInt(first.value.0), ParseInt(second.value.0);
        var email := second.value.1;
        if slot.None? || expires.None? || email == [] || Unix(now) > expires.value then None
        else Some((slot.value, email))
  }

  function Verify(mac: Mac, key: Bytes, raw: Bytes, now: int): Option<(int, Bytes)> {
    var parts := Cut(raw, '.');
    if parts.None? then None
    else
      var payload, sig := DecodeBase64(parts.value.0), DecodeBase64(parts.value.1);
      if payload.None? || sig.None? || sig.value != mac(key, payload.value) then None
      else ReadPayload(payload.value, now)
  }

  lemma PayloadParts(slot: int, expires: int, email: Bytes) returns (rest: Bytes)
    requires MIN_INT64 <= slot <= MAX_INT64 && MIN_INT64 <= expires <= MAX_INT64
    ensures Cut(Payload(slot, expires, email), '|') == Some((PrintInt(slot), rest))
    ensures Cut(rest, '|') == Some((PrintInt(expires), email))
  {
    PrintIntParses(slot);
    PrintIntParses(expires);
    var a, b := PrintInt(slot), PrintInt(expires);
    rest := b + ['|'] + email;
    assert a + ['|'] + b + ['|'] + email == a + ['|'] + rest;
    CutAtFirst(a, '|', rest);
    CutAtFirst(b, '|', email);
  }

  lemma PayloadReads(slot: int, expires: int, email: Bytes, now: int)
    requires MIN_INT64 <= slot <= MAX_INT64 && MIN_INT64 <= expires <= MAX_INT64
    ensures ReadPayload(Payload(slot, expires, email), now)
         == if email == [] || Unix(now) > expires then None else Some((slot, email))
  {
    PrintIntParses(slot);
    PrintIntParses(expires);
    var rest := PayloadParts(slot, expires, email);
  }

  /** A signed claim verifies to its slot and its normalised email, whatever characters that email holds, exactly
      while it is not empty and the current second is at most the second of issue plus 12 hours. */
  lemma VerifyAfterSign(mac: Mac, normalize: Bytes -> Bytes, key: Bytes, slot: int, email: Bytes, issued: int, now: int)
    requires MIN_INT64 <= slot <= MAX_INT64 && MIN_INT64 <= Unix(issued + CLAIM_TTL) <= MAX_INT64
    ensures Verify(mac, key, Sign(mac, normalize, key, slot, email, issued), now)
         == if normalize(email) != [] && Unix(now) <= Unix(issued) + 12 * 3600 then Some((slot, normalize(email))) else None
  {
    var payload := Payload(slot, Unix(issued + CLAIM_TTL), normalize(email));
    var sig := mac(key, payload);
    SymbolsArePlain(Sextets(payload));
    CutAtFirst(EncodeBase64(payload), '.', EncodeBase64(sig));
    Base64RoundTrip(payload);
    Base64RoundTrip(sig);
    PayloadReads(slot, Unix(issued + CLAIM_TTL), normalize(email), now);
  }

  /** To the nanosecond: a claim outlives its 12 hours by whatever is left of the second it was issued in. */
  lemma LastAcceptedInstant(mac: Mac, normalize: Bytes -> Bytes, key: Bytes, slot: int, email: Bytes, issued: int, now: int)
    requires MIN_INT64 <= slot <= MAX_INT64 && MIN_INT64 <= Unix(issued + CLAIM_TTL) <= MAX_INT64
    requires normalize(email) != []
    ensures Verify(mac, key, Sign(mac, normalize, key, slot, email, issued), now).Some?
       <==> now <= issued + CLAIM_TTL + (SECOND - 1 - issued % SECOND)
  {
    VerifyAfterSign(mac, normalize, key, slot, email, issued, now);
    LastSecond(issued, now);
  }

  lemma LastSecond(issued: int, now: int)
    ensures Unix(now) <= Unix(issued) + 12 * 3600 <==> now <= issued + CLAIM_TTL + (SECOND - 1 - issued % SECOND)
  {}

  /** Every accepted token carries a payload with its MAC under the key, and that payload spells what the caller
      is told. */
  lemma AcceptedTokensWereMacked(mac: Mac, key: Bytes, raw: Bytes, now: int) returns (p: Bytes, s: Bytes, payload: Bytes)
    requires Verify(mac, key, raw, now).Some?
    ensures raw == p + ['.'] + s && DecodeBase64(p) == Some(payload) && DecodeBase64(s) == Some(mac(key, payload))
    ensures ReadPayload(payload, now) == Verify(mac, key, raw, now)
  {
    p, s := Cut(raw, '.').value.0, Cut(raw, '.').value.1;
    CutSplits(raw, '.');
    payload := DecodeBase64(p).value;
  }

  /** Such a payload is a slot number, a second not yet past and an email that is not empty, and nothing else. */
  lemma AcceptedPayload(payload: Bytes, now: int) returns (a: Bytes, b: Bytes)
    requires ReadPayload(payload, now).Some?
    ensures var (slot, email) := ReadPayload(payload, now).value;
      && payload == a + ['|'] + (b + ['|'] + email) && email != []
      && ParseInt(a) == Some(slot) && ParseInt(b).Some? && ParseInt(b).value * SECOND + SECOND > now
  {
    var first := Cut(payload, '|').value;
    CutSplits(payload, '|');
    CutSplits(first.1, '|');
    a, b := first.0, Cut(first.1, '|').value.0;
  }

  /** One credential cannot be read as another: with equal payloads, slot, expiry and email are equal. */
  lemma PayloadIsInjective(slot: int, expires: int, email: Bytes, slot': int, expires': int, email': Bytes)
    requires MIN_INT64 <= slot <= MAX_INT64 && MIN_INT64 <= expires <= MAX_INT64
    requires MIN_INT64 <= slot' <= MAX_INT64 && MIN_INT64 <= expires' <= MAX_INT64
    requires Payload(slot, expires, email) == Payload(slot', expires', email')
    ensures slot == slot' && expires == expires' && email == email'
  {
    PrintIntParses(slot);
    PrintIntParses(slot');
    PrintIntParses(expires);
    PrintIntParses(expires');
    var rest := PayloadParts(slot, expires, email);
    var rest' := PayloadParts(slot', expires', email');
  }
}
