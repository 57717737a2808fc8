/** The base64url of the claim token against section 5 of RFC 4648: the same bits, in its alphabet. */
module Base64Url {
  import opened Text
  import opened ClaimToken

  // The number a sequence of digits spells in a base, after `acc` has been read.
  function Number(digits: seq<nat>, base: nat, acc: nat): nat
    decreases |digits|
  {
    if digits == [] then acc else Number(digits[1..], base, acc * base + digits[0])
  }

  function Octets(b: Bytes): (r: seq<nat>)
    ensures |r| == |b|
  {
    seq(|b|, i requires 0 <= i < |b| => b[i] as nat)
  }

  function SixBits(b: Bytes): (r: seq<nat>)
  {
    var vs := Sextets(b);
    seq(|vs|, i requires 0 <= i < |vs| => vs[i] as nat)
  }

  lemma ReadOne(x: nat, rest: seq<nat>, base: nat, acc: nat, acc': nat)
    requires acc' == acc * base + x
    ensures Number([x] + rest, base, acc) == Number(rest, base, acc')
  {
    assert ([x] + rest)[1..] == rest;
  }

  lemma ReadThree(x: nat, y: nat, z: nat, rest: seq<nat>, acc: nat)
    ensures Number([x, y, z] + rest, 256, acc) == Number(rest, 256, ((acc * 256 + x) * 256 + y) * 256 + z)
  {
    var a1 := acc * 256 + x;
    var a2 := a1 * 256 + y;
    ReadOne(x, [y, z] + rest, 256, acc, a1);
    ReadOne(y, [z] + rest, 256, a1, a2);
    ReadOne(z, rest, 256, a2, a2 * 256 + z);
    assert [x, y, z] + rest == [x] + ([y, z] + rest) && [y, z] + rest == [y] + ([z] + rest);
  }

  lemma ReadFour(p: nat, q: nat, r: nat, t: nat, rest: seq<nat>, acc: nat)
    ensures Number([p, q, r, t] + rest, 64, acc) == Number(rest, 64, (((acc * 64 + p) * 64 + q) * 64 + r) * 64 + t)
  {
    var a1 := acc * 64 + p;
    var a2 := a1 * 64 + q;
    var a3 := a2 * 64 + r;
    ReadOne(p, [q, r, t] + rest, 64, acc, a1);
    ReadOne(q, [r, t] + rest, 64, a1, a2);
    ReadOne(r, [t] + rest, 64, a2, a3);
    ReadOne(t, rest, 64, a3, a3 * 64 + t);
    assert [p, q, r, t] + rest == [p] + ([q, r, t] + rest) && [q, r, t] + rest == [q] + ([r, t] + rest);
    assert [r, t] + rest == [r] + ([t] + rest);
  }

  lemma SameBits(x: nat, y: nat, z: nat, acc: nat)
    requires x < 256 && y < 256 && z < 256
    ensures (((acc * 64 + x / 4) * 64 + (x % 4 * 16 + y / 16)) * 64 + (y % 16 * 4 + z / 64)) * 64 + z % 64
         == ((acc * 256 + x) * 256 + y) * 256 + z
  {}

  lemma ThreeBytes(b: Bytes, acc: nat)
    requires |b| >= 3
    ensures exists acc': nat ::
      Number(Octets(b), 256, acc) == Number(Octets(b[3..]), 256, acc') && Number(SixBits(b), 64, acc) == Number(SixBits(b[3..]), 64, acc')
  {
    var x, y, z := b[0] as nat, b[1] as nat, b[2] as nat;
    assert Octets(b) == [x, y, z] + Octets(b[3..]);
    assert SixBits(b) == [x / 4, x % 4 * 16 + y / 16, y % 16 * 4 + z / 64, z % 64] + SixBits(b[3..]);
    ReadThree(x, y, z, Octets(b[3..]), acc);
    ReadFour(x / 4, x % 4 * 16 + y / 16, y % 16 * 4 + z / 64, z % 64, SixBits(b[3..]), acc);
    SameBits(x, y, z, acc);
  }

  /** The six-bit groups are the bits of the bytes, in order, filled up with zero bits to a whole group. */
  lemma {:induction false} GroupsAreTheBits(b: Bytes, acc: nat)
    ensures |SixBits(b)| == (|b| * 8 + 5) / 6
    ensures Number(SixBits(b), 64, acc) == Number(Octets(b), 256, acc) * (if |b| % 3 == 0 then 1 else if |b| % 3 == 1 then 16 else 4)
    decreases |b|
  {
    if |b| >= 3 {
      ThreeBytes(b, acc);
      var acc': nat :| Number(Octets(b), 256, acc) == Number(Octets(b[3..]), 256, acc')
                       && Number(SixBits(b), 64, acc) == Number(SixBits(b[3..]), 64, acc');
      GroupsAreTheBits(b[3..], acc');
    } else if |b| == 2 {
      TwoBytes(b, b[0] as nat, b[1] as nat, acc);
    } else if |b| == 1 {
      OneByte(b, b[0] as nat, acc);
    }
  }

  lemma TwoBytes(b: Bytes, x: nat, y: nat, acc: nat)
    requires |b| == 2 && x == b[0] as nat && y == b[1] as nat
    ensures |SixBits(b)| == 3 && Number(SixBits(b), 64, acc) == Number(Octets(b), 256, acc) * 4
  {
    var p, q, r := x / 4, x % 4 * 16 + y / 16, y % 16 * 4;
    var a1, o1 := acc * 64 + p, acc * 256 + x;
    var a2 := a1 * 64 + q;
    ReadOne(p, [q, r], 64, acc, a1);
    ReadOne(q, [r], 64, a1, a2);
    ReadOne(r, [], 64, a2, a2 * 64 + r);
    ReadOne(x, [y], 256, acc, o1);
    ReadOne(y, [], 256, o1, o1 * 256 + y);
    assert SixBits(b) == [p] + [q, r] && [q, r] == [q] + [r] && [r] == [r] + [];
    assert Octets(b) == [x] + [y] && [y] == [y] + [];
  }

  lemma OneByte(b: Bytes, x: nat, acc: nat)
    requires |b| == 1 && x == b[0] as nat
    ensures |SixBits(b)| == 2 && Number(SixBits(b), 64, acc) == Number(Octets(b), 256, acc) * 16
  {
    var p, q := x / 4, x % 4 * 16;
    ReadOne(p, [q], 64, acc, acc * 64 + p);
    ReadOne(q, [], 64, acc * 64 + p, (acc * 64 + p) * 64 + q);
    ReadOne(x, [], 256, acc, acc * 256 + x);
    assert SixBits(b) == [p] + [q] && [q] == [q] + [];
    assert Octets(b) == [x] + [];
  }

  function Letters(first: char, n: nat): (r: string)
    requires first < '\U{0080}' && n <= 26
    ensures |r| == n
  {
    seq(n, i requires 0 <= i < n => (first as int + i) as char)
  }

  // Table 2 of RFC 4648: A to Z, a to z, 0 to 9, and two signs that need no escaping in a URL.
  function Alphabet(): string {
    Letters('A', 26) + Letters('a', 26) + Letters('0', 10) + "-_"
  }

  lemma SymbolIsListed(v: nat)
    requires v < 64
    ensures |Alphabet()| == 64 && Symbol(v) == Alphabet()[v]
  {}

  /** The text is those groups in the alphabet of the standard, one character each, without padding. */
  lemma {:induction false} EncodedInAlphabet(vs: seq<Sextet>)
    ensures |Alphabet()| == 64 && |Symbols(vs)| == |vs| && forall k :: 0 <= k < |vs| ==> Symbols(vs)[k] == Alphabet()[vs[k]]
    decreases |vs|
  {
    SymbolIsListed(0);
    if vs != [] {
      SymbolIsListed(vs[0]);
      EncodedInAlphabet(vs[1..]);
    }
  }
}
