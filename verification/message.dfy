/** The byte format in which messages are packed: a header of four 32-bit words in
    little-endian order, the data, and zero bytes up to a multiple of four. */
module Messages {
  import opened Sequences

  type Byte = x: int | 0 <= x < 256

  datatype Message = Message(kind: int, id: int, channel: int, data: seq<Byte>) {
    /** The fields fit the header's 32-bit integers. */
    predicate Fits() {
      Int32(kind) && Int32(id) && Int32(channel) && Int32(|data|)
    }
  }

  const HEADER: nat := 16

  predicate Int32(x: int) {
    -0x8000_0000 <= x < 0x8000_0000
  }

  function Word(x: int): (w: seq<Byte>)
    ensures |w| == 4
  {
    var u := x % 0x1_0000_0000;
    [u % 0x100, u / 0x100 % 0x100, u / 0x1_0000 % 0x100, u / 0x100_0000]
  }

  function FromWord(w: seq<Byte>): (x: int)
    requires |w| == 4
    ensures Int32(x)
  {
    var u := w[0] as int + 0x100 * (w[1] as int) + 0x1_0000 * (w[2] as int) + 0x100_0000 * (w[3] as int);
    if u >= 0x8000_0000 then u - 0x1_0000_0000 else u
  }

  lemma WordRoundTrip(x: int)
    requires Int32(x)
    ensures FromWord(Word(x)) == x
  {
    var u := x % 0x1_0000_0000;
    assert u == if x < 0 then x + 0x1_0000_0000 else x;
    assert u / 0x100 == u / 0x1_0000 * 0x100 + u / 0x100 % 0x100;
    assert u / 0x1_0000 == u / 0x100_0000 * 0x100 + u / 0x1_0000 % 0x100;
  }

  /** Rounding up to a multiple of four. */
  function Aligned(n: nat): (a: nat)
    ensures n <= a < n + 4 && a % 4 == 0
  {
    (n + 3) / 4 * 4
  }

  function Zeros(n: nat): (z: seq<Byte>)
    ensures |z| == n && forall i :: 0 <= i < n ==> z[i] == 0
  {
    if n == 0 then [] else Zeros(n - 1) + [0]
  }

  function Header(m: Message): (h: seq<Byte>)
    ensures |h| == HEADER
  {
    Word(m.kind) + Word(m.id) + Word(|m.data|) + Word(m.channel)
  }

  function Size(m: Message): (n: nat)
    ensures n % 4 == 0 && n >= HEADER
  {
    HEADER + Aligned(|m.data|)
  }

  function Encode(m: Message): (b: seq<Byte>)
    ensures |b| == Size(m)
  {
    Header(m) + m.data + Zeros(Aligned(|m.data|) - |m.data|)
  }

  /** The layout, byte by byte: a 32-bit word has its low byte first, and negative numbers are stored
      as their two's complement. */
  lemma WordLayout(x: int)
    requires Int32(x)
    ensures var w := Word(x);
            w[0] as int + 0x100 * w[1] as int + 0x1_0000 * w[2] as int + 0x100_0000 * w[3] as int
            == if x < 0 then x + 0x1_0000_0000 else x
  {
    var u := x % 0x1_0000_0000;
    assert u == if x < 0 then x + 0x1_0000_0000 else x;
    assert u / 0x100 == u / 0x1_0000 * 0x100 + u / 0x100 % 0x100;
    assert u / 0x1_0000 == u / 0x100_0000 * 0x100 + u / 0x1_0000 % 0x100;
  }

  /** Kind, id, size and channel come first, in this order, then the data, then zero bytes up to the next
      multiple of four. */
  lemma Layout(m: Message)
    ensures var b := Encode(m);
            && |b| % 4 == 0 && 16 + |m.data| <= |b| < 16 + |m.data| + 4
            && b[..4] == Word(m.kind) && b[4..8] == Word(m.id)
            && b[8..12] == Word(|m.data|) && b[12..16] == Word(m.channel)
            && b[16..16 + |m.data|] == m.data
            && forall i :: 16 + |m.data| <= i < |b| ==> b[i] == 0
  {
    var b, z := Encode(m), Zeros(Aligned(|m.data|) - |m.data|);
    assert b == Header(m) + m.data + z;
    assert b[..4] == Header(m)[..4] && b[4..8] == Header(m)[4..8];
    assert b[8..12] == Header(m)[8..12] && b[12..16] == Header(m)[12..16];
    assert forall i :: 16 + |m.data| <= i < |b| ==> b[i] == z[i - 16 - |m.data|];
  }

  predicate AllFit(ms: seq<Message>) {
    forall i :: 0 <= i < |ms| ==> ms[i].Fits()
  }

  lemma MultiplesAdd(a: nat, b: nat)
    requires a % 4 == 0 && b % 4 == 0
    ensures (a + b) % 4 == 0
  {
  }

  function SizeAll(ms: seq<Message>): (n: nat)
    ensures n % 4 == 0
  {
    if ms == [] then 0
    else
      MultiplesAdd(SizeAll(ms[..|ms| - 1]), Size(ms[|ms| - 1]));
      SizeAll(ms[..|ms| - 1]) + Size(ms[|ms| - 1])
  }

  function EncodeAll(ms: seq<Message>): (b: seq<Byte>)
    ensures |b| == SizeAll(ms)
  {
    if ms == [] then [] else EncodeAll(ms[..|ms| - 1]) + Encode(ms[|ms| - 1])
  }

  lemma EncodeAllLast(ms: seq<Message>, m: Message)
    ensures EncodeAll(ms + [m]) == EncodeAll(ms) + Encode(m)
  {
    assert (ms + [m])[..|ms + [m]| - 1] == ms;
  }

  lemma {:induction false} EncodeAllAppend(a: seq<Message>, b: seq<Message>)
    ensures EncodeAll(a + b) == EncodeAll(a) + EncodeAll(b)
  {
    if b == [] {
      assert a + b == a;
    } else {
      var c, m := b[..|b| - 1], b[|b| - 1];
      EncodeAllAppend(a, c);
      EncodeAllLast(a + c, m);
      SplitLast(b);
      Associates(a, c, [m]);
      calc {
        EncodeAll(a + b);
        EncodeAll(a + c) + Encode(m);
        EncodeAll(a) + EncodeAll(c) + Encode(m);
        { Associates(EncodeAll(a), EncodeAll(c), Encode(m)); }
        EncodeAll(a) + (EncodeAll(c) + Encode(m));
      }
    }
  }

  /** Reading messages off a byte string, header by header. */
  function Parse(b: seq<Byte>): seq<Message> {
    if |b| < HEADER then []
    else
      var size := FromWord(b[8..12]);
      if size < 0 || HEADER + Aligned(size) > |b| then []
      else
        [Message(FromWord(b[..4]), FromWord(b[4..8]), FromWord(b[12..16]), b[HEADER..HEADER + size])]
        + Parse(b[HEADER + Aligned(size)..])
  }

  lemma ParseFirst(m: Message, rest: seq<Byte>)
    requires m.Fits()
    ensures Parse(Encode(m) + rest) == [m] + Parse(rest)
  {
    var b := Encode(m) + rest;
    HeaderFields(m);
    assert b[..4] == Header(m)[..4] && b[4..8] == Header(m)[4..8];
    assert b[8..12] == Header(m)[8..12] && b[12..16] == Header(m)[12..16];
    assert b[HEADER..HEADER + |m.data|] == m.data;
    assert b[Size(m)..] == rest;
  }

  lemma HeaderFields(m: Message)
    requires m.Fits()
    ensures FromWord(Header(m)[..4]) == m.kind && FromWord(Header(m)[4..8]) == m.id
    ensures FromWord(Header(m)[8..12]) == |m.data| && FromWord(Header(m)[12..16]) == m.channel
  {
    assert Header(m)[..4] == Word(m.kind) && Header(m)[4..8] == Word(m.id);
    assert Header(m)[8..12] == Word(|m.data|) && Header(m)[12..16] == Word(m.channel);
    WordRoundTrip(m.kind);
    WordRoundTrip(m.id);
    WordRoundTrip(|m.data|);
    WordRoundTrip(m.channel);
  }

  /** What was packed is what is parsed. */
  lemma {:induction false} ParseEncodeAll(ms: seq<Message>)
    requires AllFit(ms)
    ensures Parse(EncodeAll(ms)) == ms
  {
    if ms == [] {
    } else {
      var tail := ms[1..];
      ParseEncodeAll(tail);
      EncodeAllAppend([ms[0]], tail);
      assert ms == [ms[0]] + tail;
      assert [ms[0]][..0] == [];
      assert EncodeAll([ms[0]]) == Encode(ms[0]);
      ParseFirst(ms[0], EncodeAll(tail));
    }
  }
}
