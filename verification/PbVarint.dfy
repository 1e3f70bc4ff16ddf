/** Which 32-bit varints the parser gets right (nanopb: pb_decode.c, pb_decode_varint32_eof). */
module PbVarints {
  import opened Wrappers
  import opened Coding
  import opened PbDecoder

  // ----- what a varint stands for -----

  // The varint at the front of `b` has `n` bytes: the last one is the first without a mark.
  ghost predicate Ends(b: Bytes, n: nat) {
    0 < n <= |b| && b[n - 1] < 128 && forall i :: 0 <= i < n - 1 ==> b[i] >= 128
  }

  // The right answer: a value below 2^32 as it is, the low half of a negative number sign-extended
  // to 64 bits, and nothing for any other value. The value is the sum of the seven-bit groups.
  function Intended(b: Bytes, n: nat): Option<(nat, Bytes)>
    requires n <= |b|
  {
    var v := Scaled(b, n);
    if v < TWO_32 then Some((v, b[n..]))
    else if TWO_64 - 0x8000_0000 <= v < TWO_64 then Some((v % TWO_32, b[n..]))
    else None
  }

  // ----- the condition, on the bytes -----

  function Group(b: Bytes, i: nat): (g: nat)
    requires i < |b|
    ensures g < 128
  {
    b[i] % 128
  }

  // Bits 32 to 34 and everything behind the fifth byte are zero.
  ghost predicate ZeroFill(b: Bytes, n: nat)
    requires 5 < n <= |b|
  {
    Group(b, 4) < 16 && forall i :: 5 <= i < n ==> Group(b, i) == 0
  }

  // Bits 31 to 63 are ones, and everything behind them is zero.
  ghost predicate SignFill(b: Bytes, n: nat)
    requires 5 < n <= |b|
  {
    && n >= 10 && Group(b, 4) >= 120 && (forall i :: 5 <= i < 9 ==> Group(b, i) == 127) && Group(b, 9) == 1
    && forall i :: 10 <= i < n ==> Group(b, i) == 0
  }

  // The j-th byte, its position wrapped, sets bit 31.
  ghost predicate SetsTopBit(b: Bytes, j: nat)
    requires j < |b|
  {
    25 <= BitPosition(j) < 32 && Group(b, j) / Power2(31 - BitPosition(j)) % 2 == 1
  }

  // Bit 31 of what is collected in front of the k-th byte: from the fifth byte or from a wrapped one.
  ghost predicate TopBit(b: Bytes, k: nat)
    requires 5 <= k <= |b|
  {
    Group(b, 4) / 8 % 2 == 1 || exists j :: 5 <= j < k && SetsTopBit(b, j)
  }

  function SignByte(k: nat): Byte {
    if BitPosition(k) < 63 then 0xFF else 0x01
  }

  // The k-th byte is past bit 31, not zero, and not what a sign extension has there.
  ghost predicate Refused(b: Bytes, k: nat)
    requires 5 <= k < |b|
  {
    BitPosition(k) >= 32 && Group(b, k) != 0 && !(TopBit(b, k) && b[k] == SignByte(k))
  }

  // The last byte stands at bit 28 and has bits beyond bit 31.
  ghost predicate BadEnd(b: Bytes, n: nat)
    requires 0 < n <= |b|
  {
    BitPosition(n) == 35 && b[n - 1] / 16 % 8 != 0
  }

  ghost predicate Rejected(b: Bytes, n: nat)
    requires 5 < n <= |b|
  {
    BadEnd(b, n) || exists k :: 5 <= k < n && Refused(b, k)
  }

  // Up to five bytes, all. Beyond that: zero padding of any length; a sign extension of exactly ten
  // bytes; and of the rest, whose value fits neither way, the rejected ones.
  ghost predicate Right(b: Bytes, n: nat)
    requires 0 < n <= |b|
  {
    n <= 5 || ZeroFill(b, n) || if SignFill(b, n) then n == 10 else Rejected(b, n)
  }

  // ----- the loop, byte by byte -----

  // The bits collected from the first `k` bytes.
  function Collected(b: Bytes, k: nat): nat
    requires k <= |b|
  {
    if k == 0 then 0
    else if BitPosition(k - 1) >= 32 then Collected(b, k - 1)
    else BitOr(Collected(b, k - 1), ShiftLeft32(Group(b, k - 1), BitPosition(k - 1)))
  }

  ghost predicate BadByte(b: Bytes, k: nat)
    requires k < |b|
  {
    && BitPosition(k) >= 32 && Group(b, k) != 0
    && (Collected(b, k) / 0x8000_0000 == 0 || b[k] != SignByte(k))
  }

  ghost predicate BadFrom(b: Bytes, k: nat, n: nat)
    requires n <= |b|
  {
    exists j :: k <= j < n && BadByte(b, j)
  }

  lemma OneTurn(b: Bytes, k: nat)
    requires k < |b|
    ensures var r := Varint32Rest(b[k..], Collected(b, k), k);
            if BadByte(b, k) then r == None
            else if b[k] >= 128 then r == Varint32Rest(b[k + 1..], Collected(b, k + 1), k + 1)
            else r == if BitPosition(k + 1) == 35 && b[k] / 16 % 8 != 0 then None
                      else Some((Collected(b, k + 1), b[k + 1..]))
  {
    assert b[k..][0] == b[k] && b[k..][1..] == b[k + 1..];
    hide BitOr, ShiftLeft32, BitPosition;
  }

  lemma {:induction false} AllTurns(b: Bytes, n: nat, k: nat)
    requires Ends(b, n) && k < n
    ensures Varint32Rest(b[k..], Collected(b, k), k) ==
              if BadFrom(b, k, n) || BadEnd(b, n) then None else Some((Collected(b, n), b[n..]))
    decreases n - k
  {
    hide Varint32Rest, Collected, BitPosition, BadByte;
    OneTurn(b, k);
    if k + 1 < n {
      AllTurns(b, n, k + 1);
      assert BadFrom(b, k, n) <==> BadByte(b, k) || BadFrom(b, k + 1, n);
    } else {
      assert BadFrom(b, k, n) <==> BadByte(b, k);
    }
  }

  lemma FirstGroup(b: Bytes)
    requires b != []
    ensures Collected(b, 1) == Group(b, 0) == b[0] % 128
  {
    assert Collected(b, 0) == 0 && BitPosition(0) == 0 && Power2(0) == 1;
    assert ShiftLeft32(Group(b, 0), 0) == Group(b, 0);
  }

  lemma OneByte(b: Bytes)
    requires b != []
    ensures !BadEnd(b, 1) && !BadFrom(b, 1, 1)
  {
  }

  // The decoder in closed form.
  lemma Varint32Loops(b: Bytes, n: nat)
    requires Ends(b, n)
    ensures Varint32(b) == if BadFrom(b, 1, n) || BadEnd(b, n) then None else Some((Collected(b, n), b[n..]))
  {
    hide Varint32Rest, Collected, BitPosition, BadByte, BadEnd, BadFrom, Group;
    FirstGroup(b);
    BytesOfGroups(b[0]);
    OneByte(b);
    if n > 1 {
      AllTurns(b, n, 1);
    }
  }

  // Bytes that run out before the last one of the varint are no varint.
  lemma {:induction false} MarkedOnly(b: Bytes, result: nat, k: nat)
    requires forall i :: 0 <= i < |b| ==> b[i] >= 128
    ensures Varint32Rest(b, result, k) == None
    decreases |b|
  {
    hide BitPosition, BitOr, ShiftLeft32;
    if b != [] {
      MarkedOnly(b[1..], result, k + 1);
      MarkedOnly(b[1..], BitOr(result, ShiftLeft32(b[0] % 128, BitPosition(k))), k + 1);
    }
  }

  lemma UnendedIsNothing(b: Bytes)
    requires forall i :: 0 <= i < |b| ==> b[i] >= 128
    ensures Varint32(b) == None
  {
    if b != [] {
      MarkedOnly(b[1..], b[0] - 128, 1);
    }
  }

  // ----- arithmetic -----

  lemma Scales(a: nat, p: nat)
    ensures a * (2 * p) == 2 * (a * p)
  {
  }

  lemma ShiftIsProduct(low: nat, pos: nat)
    requires low * Power2(pos) < TWO_32
    ensures ShiftLeft32(low, pos) == low * Power2(pos)
  {
    hide Power2;
  }

  lemma {:induction false} PowersAgree(k: nat)
    ensures Power128(k) == Power2(7 * k)
  {
    if k > 0 {
      PowersAgree(k - 1);
      var n := 7 * (k - 1);
      assert Power2(n + 1) == 2 * Power2(n) && Power2(n + 2) == 2 * Power2(n + 1) && Power2(n + 3) == 2 * Power2(n + 2);
      assert Power2(n + 4) == 2 * Power2(n + 3) && Power2(n + 5) == 2 * Power2(n + 4);
      assert Power2(n + 6) == 2 * Power2(n + 5) && Power2(n + 7) == 2 * Power2(n + 6);
    }
  }

  // Bits above those of `r` are or-ed in by adding them.
  lemma {:induction false} OrIsSum(n: nat, r: nat, pos: nat)
    requires r < Power2(pos)
    ensures BitOr(r, n * Power2(pos)) == r + n * Power2(pos)
  {
    if r > 0 && n > 0 {
      var half := n * Power2(pos - 1);
      assert n * Power2(pos) == 2 * half by {
        Scales(n, Power2(pos - 1));
      }
      OrIsSum(n, r / 2, pos - 1);
    }
  }

  lemma HalfOfOr(a: nat, b: nat)
    ensures BitOr(a, b) / 2 == BitOr(a / 2, b / 2)
  {
  }

  lemma Halves(a: nat, p: nat)
    requires p > 0
    ensures a / (2 * p) == a / 2 / p
  {
    var q, r := a / 2 / p, a / 2 % p;
    assert a == 2 * (a / 2) + a % 2 && a / 2 == p * q + r;
    assert a == (2 * p) * q + (2 * r + a % 2) by {
      Scales(q, p);
    }
    QuotientIs(a, 2 * p, q, 2 * r + a % 2);
  }

  lemma QuotientIs(a: nat, p: nat, q: nat, r: nat)
    requires a == p * q + r && r < p
    ensures a / p == q && a % p == r
  {
    var q', r' := a / p, a % p;
    assert a == p * q' + r';
    if q' > q {
      Larger(p, q, q');
    } else if q' < q {
      Larger(p, q', q);
    }
  }

  lemma Larger(p: nat, q: nat, q': nat)
    requires q' > q
    ensures p * q' >= p * q + p
  {
    var d := q' - q - 1;
    assert q' == q + 1 + d;
    Expands(p, q, d);
  }

  lemma Expands(p: nat, q: nat, d: nat)
    ensures p * (q + 1 + d) == p * q + p + p * d && p * d >= 0
  {
  }

  // n >> m.
  function ShiftRight(n: nat, m: nat): nat {
    if m == 0 then n else ShiftRight(n / 2, m - 1)
  }

  lemma {:induction false} ShiftRightDivides(n: nat, m: nat)
    ensures ShiftRight(n, m) == n / Power2(m)
  {
    if m > 0 {
      ShiftRightDivides(n / 2, m - 1);
      Halves(n, Power2(m - 1));
    }
  }

  // Or-ing commutes with dropping low bits.
  lemma {:induction false} OrShiftsRight(a: nat, b: nat, m: nat)
    ensures ShiftRight(BitOr(a, b), m) == BitOr(ShiftRight(a, m), ShiftRight(b, m))
  {
    if m > 0 {
      OrShiftsRight(a / 2, b / 2, m - 1);
      HalfOfOr(a, b);
      hide BitOr;
    }
  }

  // ----- what is collected -----

  lemma FirstFive()
    ensures BitPosition(0) == 0 && BitPosition(1) == 7 && BitPosition(2) == 14 && BitPosition(3) == 21
    ensures BitPosition(4) == 28 && BitPosition(5) == 35
  {
  }

  // The k-th group fits above those in front of it.
  lemma GroupIsAbove(b: Bytes, k: nat, r: nat, g: nat)
    requires k < 4 && r < Power128(k) && g < 128
    ensures BitOr(r, ShiftLeft32(g, BitPosition(k))) == r + g * Power128(k) < Power128(k + 1) <= 0x1000_0000
  {
    FirstFive();
    SmallPowers();
    PowersAgree(k);
    assert BitPosition(k) == 7 * k;
    Below(g, r, Power128(k));
    hide Power2, Power128, BitOr, BitPosition;
    ShiftIsProduct(g, 7 * k);
    OrIsSum(g, r, 7 * k);
  }

  lemma Below(g: nat, r: nat, p: nat)
    requires g < 128 && r < p
    ensures r + g * p < 128 * p
  {
    assert 127 * p == g * p + (127 - g) * p;
  }

  lemma SmallPowers()
    ensures Power128(0) == 1 && Power128(1) == 0x80 && Power128(2) == 0x4000 && Power128(3) == 0x20_0000
    ensures Power128(4) == 0x1000_0000 && Power128(5) == 0x8_0000_0000
  {
    assert Power128(0) == 1;
    assert Power128(1) == 128 * Power128(0);
    assert Power128(2) == 128 * Power128(1);
    assert Power128(3) == 128 * Power128(2);
    assert Power128(4) == 128 * Power128(3);
    assert Power128(5) == 128 * Power128(4);
  }

  lemma {:induction false} GroupsAdd(b: Bytes, k: nat)
    requires k <= 4 && k <= |b|
    ensures Collected(b, k) == Scaled(b, k) < Power128(k)
  {
    if k > 0 {
      GroupsAdd(b, k - 1);
      GroupIsAbove(b, k - 1, Scaled(b, k - 1), Group(b, k - 1));
      FirstFive();
      hide BitPosition, BitOr, ShiftLeft32, Power128;
    }
  }

  lemma FifthGroup(g: nat, r: nat)
    requires g < 128 && r < 0x1000_0000
    ensures BitOr(r, ShiftLeft32(g, 28)) == r + g % 16 * 0x1000_0000
  {
    SmallPowers();
    PowersAgree(4);
    assert g * 0x1000_0000 % TWO_32 == g % 16 * 0x1000_0000;
    OrIsSum(g % 16, r, 28);
    hide BitOr, Power2, Power128;
  }

  // Five bytes: the fifth gives its low four bits.
  lemma FiveCollected(b: Bytes)
    requires |b| >= 5
    ensures Scaled(b, 4) < 0x1000_0000 && Scaled(b, 5) == Scaled(b, 4) + Group(b, 4) * 0x1000_0000
    ensures Collected(b, 5) == Scaled(b, 4) + Group(b, 4) % 16 * 0x1000_0000
  {
    GroupsAdd(b, 4);
    FirstFive();
    SmallPowers();
    FifthGroup(Group(b, 4), Scaled(b, 4));
    hide BitPosition, BitOr, ShiftLeft32, Power128;
  }

  // ----- at most five bytes -----

  lemma ShortNotBad(b: Bytes, n: nat)
    requires n <= 5 && n <= |b|
    ensures !BadFrom(b, 1, n)
  {
    forall j | 1 <= j < n ensures !BadByte(b, j) {
      assert BitPosition(j) == 7 * j;
    }
  }

  lemma ShortEnd(b: Bytes, n: nat)
    requires Ends(b, n) && n <= 5
    ensures BadEnd(b, n) <==> n == 5 && Group(b, 4) >= 16
  {
    FirstFive();
    assert BitPosition(n) == 7 * n;
    hide BitPosition;
  }

  lemma ShortCollected(b: Bytes, n: nat)
    requires 0 < n <= 5 && n <= |b|
    ensures Scaled(b, n) < 0x8_0000_0000
    ensures if n == 5 && Group(b, 4) >= 16 then Scaled(b, n) >= TWO_32 else Scaled(b, n) == Collected(b, n) < TWO_32
  {
    hide Scaled, Collected, Power128, Group;
    if n < 5 {
      GroupsAdd(b, n);
      PowerGrows(n);
    } else {
      FiveCollected(b);
      FiveGroups(Scaled(b, 4), Group(b, 4));
    }
  }

  lemma FiveGroups(low: nat, g: nat)
    requires low < 0x1000_0000 && g < 128
    ensures low + g * 0x1000_0000 < 0x8_0000_0000
    ensures if g < 16 then g % 16 == g && low + g * 0x1000_0000 < TWO_32 else low + g * 0x1000_0000 >= TWO_32
  {
  }

  lemma ShortIntended(b: Bytes, n: nat)
    requires n <= |b| && Scaled(b, n) < 0x8_0000_0000
    ensures Intended(b, n) == if Scaled(b, n) < TWO_32 then Some((Scaled(b, n), b[n..])) else None
  {
    hide Scaled;
  }

  // Up to five bytes the answer is the value if it is below 2^32, and none otherwise.
  lemma ShortIsRight(b: Bytes, n: nat)
    requires Ends(b, n) && n <= 5
    ensures Varint32(b) == Intended(b, n) == if Scaled(b, n) < TWO_32 then Some((Scaled(b, n), b[n..])) else None
  {
    assert 0 < n <= |b|;
    hide *;
    Varint32Loops(b, n);
    ShortNotBad(b, n);
    ShortEnd(b, n);
    ShortCollected(b, n);
    ShortIntended(b, n);
  }

  lemma PowerGrows(n: nat)
    requires n <= 4
    ensures Power128(n) <= 0x1000_0000
  {
    SmallPowers();
    assert n == 0 || n == 1 || n == 2 || n == 3 || n == 4;
  }

  // ----- bit 31 -----

  lemma OrIsZero(a: nat, b: nat)
    ensures BitOr(a, b) == 0 <==> a == 0 && b == 0
  {
  }

  lemma PowerTable()
    ensures Power2(0) == 1 && Power2(1) == 2 && Power2(2) == 4 && Power2(3) == 8 && Power2(4) == 16
    ensures Power2(5) == 32 && Power2(6) == 64 && Power2(24) == 0x100_0000 && Power2(25) == 0x200_0000
    ensures Power2(26) == 0x400_0000 && Power2(27) == 0x800_0000 && Power2(28) == 0x1000_0000
    ensures Power2(29) == 0x2000_0000 && Power2(30) == 0x4000_0000 && Power2(31) == 0x8000_0000
  {
    PowersAgree(3);
    SmallPowers();
    assert Power2(0) == 1 && Power2(1) == 2 * Power2(0) && Power2(2) == 2 * Power2(1) && Power2(3) == 2 * Power2(2);
    assert Power2(4) == 2 * Power2(3) && Power2(5) == 2 * Power2(4) && Power2(6) == 2 * Power2(5);
    assert Power2(22) == 2 * Power2(21) && Power2(23) == 2 * Power2(22) && Power2(24) == 2 * Power2(23);
    assert Power2(25) == 2 * Power2(24) && Power2(26) == 2 * Power2(25) && Power2(27) == 2 * Power2(26);
    assert Power2(28) == 2 * Power2(27) && Power2(29) == 2 * Power2(28) && Power2(30) == 2 * Power2(29);
    assert Power2(31) == 2 * Power2(30);
  }

  lemma {:induction false} PowersGrow(m: nat, n: nat)
    requires m <= n
    ensures Power2(m) <= Power2(n)
    decreases n - m
  {
    if m < n {
      PowersGrow(m, n - 1);
    }
  }

  // The bit of a shifted group that lands on bit 31, if one does.
  lemma ShiftedTop(g: nat, pos: nat)
    requires g < 128 && pos < 32
    ensures ShiftLeft32(g, pos) / 0x8000_0000 != 0 <==> 25 <= pos && g / Power2(31 - pos) % 2 == 1
  {
    hide Power2;
    PowerTable();
    if pos < 25 {
      PowersGrow(pos, 24);
      SmallProduct(g, Power2(pos));
      SmallTop(g * Power2(pos));
    } else {
      assert pos == 25 || pos == 26 || pos == 27 || pos == 28 || pos == 29 || pos == 30 || pos == 31;
      TopOfProduct(g);
    }
  }

  lemma SmallTop(v: nat)
    requires v < 0x8000_0000
    ensures v % TWO_32 / 0x8000_0000 == 0
  {
  }

  lemma SmallProduct(g: nat, p: nat)
    requires g < 128 && p <= 0x100_0000
    ensures g * p < 0x8000_0000
  {
    assert g * p <= g * 0x100_0000;
  }

  lemma TopOfProduct(g: nat)
    requires g < 128
    ensures g * 0x200_0000 % TWO_32 / 0x8000_0000 != 0 <==> g / 64 % 2 == 1
    ensures g * 0x400_0000 % TWO_32 / 0x8000_0000 != 0 <==> g / 32 % 2 == 1
    ensures g * 0x800_0000 % TWO_32 / 0x8000_0000 != 0 <==> g / 16 % 2 == 1
    ensures g * 0x1000_0000 % TWO_32 / 0x8000_0000 != 0 <==> g / 8 % 2 == 1
    ensures g * 0x2000_0000 % TWO_32 / 0x8000_0000 != 0 <==> g / 4 % 2 == 1
    ensures g * 0x4000_0000 % TWO_32 / 0x8000_0000 != 0 <==> g / 2 % 2 == 1
    ensures g * 0x8000_0000 % TWO_32 / 0x8000_0000 != 0 <==> g / 1 % 2 == 1
  {
    TopOf(g, 0x200_0000, 64);
    TopOf(g, 0x400_0000, 32);
    TopOf(g, 0x800_0000, 16);
    TopOf(g, 0x1000_0000, 8);
    TopOf(g, 0x2000_0000, 4);
    TopOf(g, 0x4000_0000, 2);
    TopOf(g, 0x8000_0000, 1);
  }

  lemma TopOf(g: nat, c: nat, d: nat)
    requires c * d == 0x8000_0000 && d > 0
    ensures g * c % TWO_32 / 0x8000_0000 != 0 <==> g / d % 2 == 1
  {
    var q, r := g / d, g % d;
    assert g == d * q + r;
    Expand(d, q, r, c);
    TopBits(q, r * c);
  }

  lemma Expand(d: nat, q: nat, r: nat, c: nat)
    requires c * d == 0x8000_0000 && r < d
    ensures (d * q + r) * c == 0x8000_0000 * q + r * c && r * c < 0x8000_0000
  {
    assert (d * q + r) * c == (c * d) * q + r * c;
    assert c > 0 && r * c < d * c;
  }

  lemma TopBits(q: nat, low: nat)
    requires low < 0x8000_0000
    ensures (0x8000_0000 * q + low) % TWO_32 / 0x8000_0000 == q % 2
  {
    var a, e := q / 2, q % 2;
    assert 0x8000_0000 * q + low == TWO_32 * a + (0x8000_0000 * e + low);
  }

  lemma OrTop(a: nat, b: nat)
    ensures BitOr(a, b) / 0x8000_0000 != 0 <==> a / 0x8000_0000 != 0 || b / 0x8000_0000 != 0
  {
    PowerTable();
    hide Power2, BitOr, ShiftRight;
    OrShiftsRight(a, b, 31);
    ShiftRightDivides(a, 31);
    ShiftRightDivides(b, 31);
    ShiftRightDivides(BitOr(a, b), 31);
    OrIsZero(ShiftRight(a, 31), ShiftRight(b, 31));
  }

  lemma FifthTop(low: nat, g: nat)
    requires low < 0x1000_0000 && g < 128
    ensures (low + g % 16 * 0x1000_0000) / 0x8000_0000 != 0 <==> g / 8 % 2 == 1
  {
  }

  lemma {:induction false} TopBitIs(b: Bytes, k: nat)
    requires 5 <= k <= |b|
    ensures Collected(b, k) / 0x8000_0000 != 0 <==> TopBit(b, k)
    decreases k
  {
    hide BitOr, ShiftLeft32, Power2, BitPosition, Group;
    if k == 5 {
      FiveCollected(b);
      FifthTop(Scaled(b, 4), Group(b, 4));
      hide Collected;
    } else {
      TopBitIs(b, k - 1);
      var g, pos := Group(b, k - 1), BitPosition(k - 1);
      assert TopBit(b, k) <==> TopBit(b, k - 1) || SetsTopBit(b, k - 1);
      hide TopBit;
      if pos < 32 {
        OrTop(Collected(b, k - 1), ShiftLeft32(g, pos));
        ShiftedTop(g, pos);
      }
    }
  }

  // ----- the value of a long varint -----

  lemma {:induction false} PowersMultiply(j: nat, k: nat)
    ensures Power128(j + k) == Power128(j) * Power128(k)
  {
    if j > 0 {
      PowersMultiply(j - 1, k);
      Reassociate(Power128(j - 1), Power128(k));
    }
  }

  lemma Reassociate(p: nat, q: nat)
    ensures 128 * (p * q) == 128 * p * q
  {
  }

  lemma {:induction false} ScaledSplits(b: Bytes, k: nat, n: nat)
    requires k <= n <= |b|
    ensures Scaled(b, n) == Scaled(b, k) + Power128(k) * Scaled(b[k..], n - k)
    decreases n - k
  {
    if k < n {
      ScaledSplits(b, k, n - 1);
      PowersMultiply(k, n - 1 - k);
      assert b[k..][n - 1 - k] == b[n - 1];
      Distributes(Power128(k), Scaled(b[k..], n - 1 - k), b[n - 1] % 128, Power128(n - 1 - k));
      hide Power128;
    }
  }

  lemma Distributes(p: nat, s: nat, g: nat, q: nat)
    ensures p * (s + g * q) == p * s + g * (p * q)
  {
  }

  // The i-th group of a varint of `n` bytes.
  function GroupAt(b: Bytes, n: nat, i: nat): nat
    requires n <= |b|
  {
    if i < n then Group(b, i) else 0
  }

  // Values are equal exactly when all groups are.
  lemma {:induction false} SameGroups(b: Bytes, n: nat, c: Bytes, m: nat)
    requires n <= |b| && m <= |c|
    ensures Scaled(b, n) == Scaled(c, m) <==> forall i: nat :: GroupAt(b, n, i) == GroupAt(c, m, i)
    decreases n + m
  {
    if n > 0 || m > 0 {
      var b', n', c', m' := Rest(b, n), Less(n), Rest(c, m), Less(m);
      SameGroups(b', n', c', m');
      RestValue(b, n);
      RestValue(c, m);
      hide Scaled;
      forall i: nat ensures GroupAt(b', n', i) == GroupAt(b, n, i + 1) && GroupAt(c', m', i) == GroupAt(c, m, i + 1) {
      }
      if forall i: nat :: GroupAt(b', n', i) == GroupAt(c', m', i) {
        forall i: nat | i > 0 ensures GroupAt(b, n, i) == GroupAt(c, m, i) {
          assert GroupAt(b', n', i - 1) == GroupAt(c', m', i - 1);
        }
      }
    }
  }

  function Rest(b: Bytes, n: nat): Bytes
    requires n <= |b|
  {
    if n > 0 then b[1..] else b
  }

  function Less(n: nat): nat {
    if n > 0 then n - 1 else 0
  }

  lemma RestValue(b: Bytes, n: nat)
    requires n <= |b|
    ensures Scaled(b, n) == GroupAt(b, n, 0) + 128 * Scaled(Rest(b, n), Less(n))
  {
    if n > 0 {
      ScaledTail(b, n);
    }
  }

  lemma ZeroTail(b: Bytes, n: nat)
    requires 5 < n <= |b|
    ensures Scaled(b[5..], n - 5) == 0 <==> forall i :: 5 <= i < n ==> Group(b, i) == 0
  {
    var c, m := b[5..], n - 5;
    SameGroups(c, m, [], 0);
    assert Scaled([], 0) == 0;
    hide Scaled;
    if forall i: nat :: GroupAt(c, m, i) == GroupAt([], 0, i) {
      forall i | 5 <= i < n ensures Group(b, i) == 0 {
        assert GroupAt(c, m, i - 5) == GroupAt([], 0, i - 5);
      }
    }
    if forall i :: 5 <= i < n ==> Group(b, i) == 0 {
      forall i: nat ensures GroupAt(c, m, i) == GroupAt([], 0, i) {
        assert i < m ==> Group(c, i) == Group(b, i + 5);
      }
    }
  }

  const SIGN_TAIL: Bytes := [127, 127, 127, 127, 1]

  lemma SignTailValue()
    ensures Scaled(SIGN_TAIL, 5) == 0x1FFF_FFFF
  {
    SmallPowers();
    var b := SIGN_TAIL;
    assert Scaled(b, 1) == 127 && Scaled(b, 2) == 127 + 127 * 0x80 && Scaled(b, 3) == Scaled(b, 2) + 127 * 0x4000;
    assert Scaled(b, 4) == Scaled(b, 3) + 127 * 0x20_0000 && Scaled(b, 5) == Scaled(b, 4) + 0x1000_0000;
  }

  lemma SignTail(b: Bytes, n: nat)
    requires 5 < n <= |b| && Group(b, 4) >= 120
    ensures Scaled(b[5..], n - 5) == 0x1FFF_FFFF <==> SignFill(b, n)
  {
    var c, m, s := b[5..], n - 5, SIGN_TAIL;
    SignTailValue();
    SameGroups(c, m, s, 5);
    hide Scaled;
    if forall i: nat :: GroupAt(c, m, i) == GroupAt(s, 5, i) {
      assert GroupAt(c, m, 4) == GroupAt(s, 5, 4);
      forall i | 5 <= i < n ensures Group(b, i) == GroupAt(s, 5, i - 5) {
        assert GroupAt(c, m, i - 5) == GroupAt(s, 5, i - 5);
      }
    }
    if SignFill(b, n) {
      forall i: nat ensures GroupAt(c, m, i) == GroupAt(s, 5, i) {
        assert i < m ==> Group(c, i) == Group(b, i + 5);
      }
    }
  }

  lemma Classified(low: nat, g: nat, w: nat)
    requires low < 0x1000_0000 && g < 128
    ensures var v := low + g * 0x1000_0000 + 0x8_0000_0000 * w;
            && (v < TWO_32 <==> w == 0 && g < 16)
            && (TWO_64 - 0x8000_0000 <= v < TWO_64 <==> w == 0x1FFF_FFFF && g >= 120)
            && v % TWO_32 == low + g % 16 * 0x1000_0000
  {
    var v, low32 := low + g * 0x1000_0000 + 0x8_0000_0000 * w, low + g % 16 * 0x1000_0000;
    assert g == 16 * (g / 16) + g % 16;
    assert v == TWO_32 * (g / 16 + 8 * w) + low32;
    QuotientIs(v, TWO_32, g / 16 + 8 * w, low32);
  }

  // The right answer for more than five bytes.
  lemma LongIntended(b: Bytes, n: nat)
    requires 5 < n <= |b|
    ensures Intended(b, n) == if ZeroFill(b, n) || SignFill(b, n) then Some((Collected(b, 5), b[n..])) else None
    ensures ZeroFill(b, n) <==> Scaled(b, n) < TWO_32
    ensures SignFill(b, n) <==> TWO_64 - 0x8000_0000 <= Scaled(b, n) < TWO_64
  {
    hide Scaled, Collected, Power128, GroupAt;
    ScaledSplits(b, 5, n);
    SmallPowers();
    FiveCollected(b);
    Classified(Scaled(b, 4), Group(b, 4), Scaled(b[5..], n - 5));
    ZeroTail(b, n);
    if Group(b, 4) >= 120 {
      SignTail(b, n);
    }
    hide Group;
  }

  // ----- the answer for more than five bytes -----

  lemma RefusedIsBad(b: Bytes, n: nat)
    requires 5 < n <= |b|
    ensures BadFrom(b, 1, n) || BadEnd(b, n) <==> Rejected(b, n)
  {
    hide Collected, BitPosition, Group, TopBit, BadEnd;
    ShortNotBad(b, 5);
    forall k | 5 <= k < n ensures BadByte(b, k) <==> Refused(b, k) {
      TopBitIs(b, k);
    }
    hide BadByte, Refused;
    if BadFrom(b, 1, n) {
      var j :| 1 <= j < n && BadByte(b, j);
      assert j >= 5;
      assert Refused(b, j);
    }
    if k :| 5 <= k < n && Refused(b, k) {
      assert BadByte(b, k);
    }
  }

  // Nothing is collected from zero groups, nor past bit 31.
  lemma {:induction false} NothingMore(b: Bytes, k: nat)
    requires 5 <= k <= |b|
    requires forall j :: 5 <= j < k ==> Group(b, j) == 0 || BitPosition(j) >= 32
    ensures Collected(b, k) == Collected(b, 5)
    decreases k
  {
    hide BitPosition, Group;
    if k > 5 {
      NothingMore(b, k - 1);
      if BitPosition(k - 1) < 32 {
        NothingShifted(BitPosition(k - 1));
        OrNothing(Collected(b, k - 1));
        hide ShiftLeft32, BitOr;
      }
    }
  }

  lemma NothingShifted(pos: nat)
    ensures ShiftLeft32(0, pos) == 0
  {
  }

  lemma OrNothing(a: nat)
    ensures BitOr(a, 0) == a
  {
  }

  // The decoder in closed form: rejected, or what was collected.
  lemma LongVarint32(b: Bytes, n: nat)
    requires Ends(b, n) && n > 5
    ensures Varint32(b) == if Rejected(b, n) then None else Some((Collected(b, n), b[n..]))
  {
    assert 5 < n <= |b|;
    hide *;
    Varint32Loops(b, n);
    RefusedIsBad(b, n);
  }

  lemma BytesOfGroups(x: Byte)
    ensures x < 128 ==> x % 128 == x
    ensures x >= 128 ==> x % 128 == x - 128
  {
  }

  lemma ZeroFillPasses(b: Bytes, n: nat)
    requires Ends(b, n) && n > 5 && ZeroFill(b, n)
    ensures !Rejected(b, n) && Collected(b, n) == Collected(b, 5)
  {
    hide BitPosition, Collected, TopBit;
    NothingMore(b, n);
    assert Group(b, n - 1) == 0;
    BytesOfGroups(b[n - 1]);
    assert b[n - 1] == 0;
    hide Group;
  }

  lemma SignFillPasses(b: Bytes)
    requires Ends(b, 10) && SignFill(b, 10)
    ensures !Rejected(b, 10) && Collected(b, 10) == Collected(b, 5)
  {
    FillPositions();
    hide BitPosition, Collected;
    forall j | 5 <= j < 10 ensures b[j] == SignByte(j) && BitPosition(j) >= 32 {
      BytesOfGroups(b[j]);
      assert Group(b, j) == if j < 9 then 127 else 1;
      assert j == 5 || j == 6 || j == 7 || j == 8 || j == 9;
    }
    TopOfSign(Group(b, 4));
    hide Group, SignByte;
    NothingMore(b, 10);
  }

  lemma TopOfSign(g: nat)
    requires 120 <= g < 128
    ensures g / 8 % 2 == 1
  {
  }

  lemma FillPositions()
    ensures BitPosition(5) == 35 && BitPosition(6) == 42 && BitPosition(7) == 49 && BitPosition(8) == 56
    ensures BitPosition(9) == 63 && BitPosition(10) == 70
  {
  }

  // A sign extension followed by padding is refused at its tenth byte.
  lemma PaddedSignIsRejected(b: Bytes, n: nat)
    requires Ends(b, n) && n > 10 && SignFill(b, n)
    ensures Rejected(b, n)
  {
    FillPositions();
    hide BitPosition, TopBit;
    BytesOfGroups(b[9]);
    assert Refused(b, 9);
  }

  lemma SignFillIsLong(b: Bytes, n: nat)
    requires 5 < n <= |b| && SignFill(b, n)
    ensures n >= 10
  {
  }

  // The decoder's answer is the right one for exactly these varints.
  lemma Varint32IsRight(b: Bytes, n: nat)
    requires Ends(b, n)
    ensures Varint32(b) == Intended(b, n) <==> Right(b, n)
  {
    if n <= 5 {
      ShortIsRight(b, n);
    } else {
      LongVarint32(b, n);
      LongIntended(b, n);
      hide Varint32, Intended, Collected, Rejected, ZeroFill, SignFill;
      if ZeroFill(b, n) {
        ZeroFillPasses(b, n);
      } else if SignFill(b, n) && n == 10 {
        SignFillPasses(b);
      } else if SignFill(b, n) {
        SignFillIsLong(b, n);
        PaddedSignIsRejected(b, n);
      }
    }
  }

  lemma AllRight(b: Bytes)
    ensures forall n :: Ends(b, n) && Right(b, n) ==> Varint32(b) == Intended(b, n)
  {
    forall n | Ends(b, n) && Right(b, n) ensures Varint32(b) == Intended(b, n) {
      Varint32IsRight(b, n);
    }
  }

  // ----- what a printer writes -----

  lemma {:induction false} VarintEnds(v: nat, rest: Bytes)
    ensures Ends(Varint(v) + rest, |Varint(v)|)
  {
    if v >= 128 {
      VarintEnds(v / 128, rest);
      var b, c := Varint(v) + rest, Varint(v / 128) + rest;
      assert b == [128 + v % 128] + c;
    }
  }

  lemma Varint32Back(v: nat, rest: Bytes)
    requires v < TWO_32
    ensures Varint32(Varint(v) + rest) == Some((v, rest))
  {
    var b, n := Varint(v) + rest, |Varint(v)|;
    VarintEnds(v, rest);
    SmallPowers();
    VarintRoundTrip(v, rest, 5);
    ParseByIndex(b, 5, n - 1);
    assert b[n..] == rest;
    hide Varint, ParseVarint, Scaled, Power128, Varint32;
    ShortIsRight(b, n);
  }

  // ----- varints it gets wrong -----

  lemma WrongAnswer(b: Bytes, n: nat)
    requires Ends(b, n) && n > 5 && !Rejected(b, n) && !ZeroFill(b, n) && !SignFill(b, n)
    ensures Varint32(b) == Some((Collected(b, n), b[n..])) && Intended(b, n) == None
  {
    LongVarint32(b, n);
    LongIntended(b, n);
    hide Varint32, Collected, Rejected, ZeroFill, SignFill, Intended;
  }

  lemma {:induction false} ZerosScaled(b: Bytes, k: nat)
    requires k <= |b| && forall i :: 0 <= i < k ==> b[i] == 0x80
    ensures Scaled(b, k) == 0
  {
    if k > 0 {
      ZerosScaled(b, k - 1);
      assert b[k - 1] % 128 == 0;
      hide Power128;
    }
  }

  lemma ZerosCollected(b: Bytes)
    requires |b| >= 5 && forall i :: 0 <= i < 4 ==> b[i] == 0x80
    ensures Collected(b, 5) == Group(b, 4) % 16 * 0x1000_0000
  {
    hide Collected, Scaled, Group;
    FiveCollected(b);
    ZerosScaled(b, 4);
  }

  // Bits 32 to 34, in the fifth byte, are shifted out: 7 * 2^32 passes as 0.
  lemma FifthByteIsCut(b: Bytes)
    requires b == [0x80, 0x80, 0x80, 0x80, 0xF0, 0x00]
    ensures Varint32(b) == Some((0, [])) && Intended(b, 6) == None
  {
    hide Varint32, Collected, Intended, TopBit, BitPosition;
    FillPositions();
    assert Group(b, 4) == 0x70 && Group(b, 5) == 0;
    assert !Rejected(b, 6);
    WrongAnswer(b, 6);
    ZerosCollected(b);
    NothingMore(b, 6);
  }

  // Ones, then zeros: neither a sign extension nor padding, and accepted.
  lemma MixedFillPasses(b: Bytes)
    requires b == [0x80, 0x80, 0x80, 0x80, 0xF8, 0xFF, 0x00]
    ensures Varint32(b) == Some((0x8000_0000, [])) && Intended(b, 7) == None
  {
    hide Varint32, Collected, Intended, BitPosition;
    FillPositions();
    assert Group(b, 4) == 0x78 && Group(b, 5) == 0x7F && Group(b, 6) == 0;
    assert TopBit(b, 5);
    hide TopBit;
    assert !Refused(b, 5) && !Refused(b, 6);
    assert !Rejected(b, 7);
    WrongAnswer(b, 7);
    ZerosCollected(b);
    NothingMore(b, 7);
  }

  // A varint of 38 bytes: the position of the last one has wrapped to 3.
  lemma PaddedVarintWraps(b: Bytes)
    requires |b| == 38 && b[37] == 1 && forall i :: 0 <= i < 37 ==> b[i] == 0x80
    ensures Varint32(b) == Some((8, [])) && Intended(b, 38) == None
  {
    WrappedPositions();
    hide Varint32, Intended, BitPosition, TopBit;
    forall i | 0 <= i < 37 ensures Group(b, i) == 0 {
    }
    assert !Rejected(b, 38) && Group(b, 37) == 1;
    WrongAnswer(b, 38);
    LastLands(b);
  }

  lemma WrappedPositions()
    ensures BitPosition(37) == 3 && BitPosition(38) == 10
  {
  }

  lemma LastLands(b: Bytes)
    requires |b| == 38 && b[37] == 1 && forall i :: 0 <= i < 37 ==> b[i] == 0x80
    ensures Collected(b, 38) == 8
  {
    hide BitPosition, ShiftLeft32, Power2, BitOr, Collected;
    WrappedPositions();
    assert forall i :: 0 <= i < 37 ==> Group(b, i) == 0;
    assert Group(b, 37) == 1;
    hide Group;
    ZerosCollected(b);
    NothingMore(b, 37);
    LastShifted();
    OneMore(b, 37);
  }

  lemma OneMore(b: Bytes, k: nat)
    requires k < |b| && BitPosition(k) < 32
    ensures Collected(b, k + 1) == BitOr(Collected(b, k), ShiftLeft32(Group(b, k), BitPosition(k)))
  {
  }

  lemma LastShifted()
    ensures BitOr(0, ShiftLeft32(1, 3)) == 8
  {
    PowerTable();
    hide Power2;
  }

  // A negative number with a byte of padding: refused, although its value is one.
  lemma PaddedSignIsLost(b: Bytes)
    requires b == [0x80, 0x80, 0x80, 0x80, 0xF8, 0xFF, 0xFF, 0xFF, 0xFF, 0x81, 0x00]
    ensures Varint32(b) == None && Intended(b, 11) == Some((0x8000_0000, []))
  {
    hide Varint32, Collected, Intended, BitPosition, Rejected, ZeroFill;
    assert Group(b, 4) == 0x78 && Group(b, 9) == 1 && Group(b, 10) == 0;
    assert forall i :: 5 <= i < 9 ==> b[i] == 0xFF && Group(b, i) == 0x7F;
    hide Group;
    assert SignFill(b, 11) && b[11..] == [] && 0x78 % 16 == 8;
    LongVarint32(b, 11);
    LongIntended(b, 11);
    ZerosCollected(b);
    PaddedSignIsRejected(b, 11);
  }
}
