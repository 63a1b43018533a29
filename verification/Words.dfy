/** 16- and 32-bit words as bytes, in network order and in a host's own order. */
module Words {
  import opened Bits

  type Byte = x: int | 0 <= x < 256

  type Word = x: int | 0 <= x < 0x1_0000_0000

  type Half = x: int | 0 <= x < 0x1_0000

  function Low(x: nat): Byte { x % 0x100 }

  function BeBytes(x: Word): seq<Byte> {
    [Low(x / 0x100_0000), Low(x / 0x1_0000), Low(x / 0x100), Low(x)]
  }

  function BeValue(b: seq<Byte>): Word
    requires |b| == 4
  {
    ((b[0] as int * 0x100 + b[1]) * 0x100 + b[2]) * 0x100 + b[3]
  }

  /** The bytes of a word in the host's own order. */
  function NeBytes(x: Word, little: bool): seq<Byte> {
    var b := BeBytes(x);
    if little then [b[3], b[2], b[1], b[0]] else b
  }

  function BeHalf(x: Half): seq<Byte> {
    [Low(x / 0x100), Low(x)]
  }

  function NeHalf(x: Half, little: bool): seq<Byte> {
    if little then [Low(x), Low(x / 0x100)] else BeHalf(x)
  }

  function AndBytes(x: seq<Byte>, y: seq<Byte>): (r: seq<Byte>)
    requires |x| == |y|
    ensures |r| == |x|
  {
    seq(|x|, i requires 0 <= i < |x| => AndOf(x[i], y[i]))
  }

  function AndOf(x: Byte, y: Byte): Byte {
    AndBound(x, y);
    And(x, y)
  }

  lemma BytewiseDivision(x: nat)
    ensures x / 0x1_0000 == x / 0x100 / 0x100 && x / 0x100_0000 == x / 0x1_0000 / 0x100
  {
  }

  lemma BeRoundTrip(x: Word)
    ensures BeValue(BeBytes(x)) == x
  {
    BytewiseDivision(x);
    var a, b, c := x / 0x100_0000, x / 0x1_0000, x / 0x100;
    assert x == 0x100 * c + Low(x);
    assert c == 0x100 * b + Low(c);
    assert b == 0x100 * a + Low(b);
    assert a == Low(a);
  }

  lemma SplitByte(high: nat, low: Byte)
    ensures (high * 0x100 + low) / 0x100 == high && Low(high * 0x100 + low) == low
  {
  }

  lemma ValueRoundTrip(b: seq<Byte>)
    requires |b| == 4
    ensures BeBytes(BeValue(b)) == b
  {
    var v: nat := BeValue(b);
    var high: nat := b[0] as int * 0x100 + b[1];
    BytewiseDivision(v);
    SplitByte(high * 0x100 + b[2], b[3]);
    SplitByte(high, b[2]);
    SplitByte(b[0], b[1]);
    assert v / 0x100 == high * 0x100 + b[2] && v / 0x1_0000 == high && v / 0x100_0000 == b[0];
    assert Low(v) == b[3] && Low(v / 0x100) == b[2] && Low(v / 0x1_0000) == b[1] && Low(b[0]) == b[0];
  }

  lemma AndAppendByte(h: nat, l: nat, h': nat, l': nat)
    requires l < 0x100 && l' < 0x100
    ensures And(0x100 * h + l, 0x100 * h' + l') == 0x100 * And(h, h') + And(l, l')
  {
    var x, y := 0x100 * h + l, 0x100 * h' + l';
    assert x / 0x100 == h && x % 0x100 == l && y / 0x100 == h' && y % 0x100 == l';
    AndByte(x, y);
  }

  lemma AndValues(a: seq<Byte>, b: seq<Byte>)
    requires |a| == 4 && |b| == 4
    ensures And(BeValue(a), BeValue(b)) == BeValue(AndBytes(a, b))
  {
    AndAppendByte(a[0], a[1], b[0], b[1]);
    var p: nat, q: nat := 0x100 * a[0] as int + a[1], 0x100 * b[0] as int + b[1];
    AndAppendByte(p, a[2], q, b[2]);
    AndAppendByte(0x100 * p + a[2], a[3], 0x100 * q + b[2], b[3]);
  }

  /** ANDing the bytes of two words gives the bytes of their AND. */
  lemma AndWordBytes(x: Word, y: Word)
    ensures And(x, y) < 0x1_0000_0000
    ensures AndBytes(BeBytes(x), BeBytes(y)) == BeBytes(And(x, y))
  {
    BeRoundTrip(x);
    BeRoundTrip(y);
    AndBound(x, y);
    AndValues(BeBytes(x), BeBytes(y));
    ValueRoundTrip(AndBytes(BeBytes(x), BeBytes(y)));
  }

  lemma ZeroBytes(x: Word, little: bool)
    ensures NeBytes(x, little) == [0, 0, 0, 0] <==> x == 0
  {
    BeRoundTrip(x);
  }

  /** The same in the host's own order, whichever that is. */
  lemma AndNeBytes(x: Word, y: Word, little: bool)
    ensures And(x, y) < 0x1_0000_0000
    ensures AndBytes(NeBytes(x, little), NeBytes(y, little)) == NeBytes(And(x, y), little)
  {
    AndWordBytes(x, y);
    var a, b := BeBytes(x), BeBytes(y);
    if little {
      assert AndBytes(a, b) == [AndOf(a[0], b[0]), AndOf(a[1], b[1]), AndOf(a[2], b[2]), AndOf(a[3], b[3])];
      assert AndBytes(NeBytes(x, little), NeBytes(y, little)) ==
             [AndOf(a[3], b[3]), AndOf(a[2], b[2]), AndOf(a[1], b[1]), AndOf(a[0], b[0])];
    }
  }
}
