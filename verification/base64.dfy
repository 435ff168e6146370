/** The hand-written base64 encoder of the HTML report (section 4 of RFC 4648).
    Shifts and masks on u32 are written as division and remainder by powers of two. */
module Base64 {

  newtype byte = x: int | 0 <= x < 256

  const UPPER: string := "ABCDEFGHIJKLMNOPQRSTUVWXYZ"
  const LOWER: string := "abcdefghijklmnopqrstuvwxyz"
  const DIGITS: string := "0123456789"
  const ALPHABET: string := UPPER + LOWER + DIGITS + "+/"

  /** The symbol of a six-bit value, by table 1 of the standard. */
  function Symbol(v: nat): char
    requires v < 64
  {
    if v < 26 then ('A' as int + v) as char
    else if v < 52 then ('a' as int + (v - 26)) as char
    else if v < 62 then ('0' as int + (v - 52)) as char
    else if v == 62 then '+'
    else '/'
  }

  /** Three bytes, read as four groups of six bits. */
  function Quantum(b0: byte, b1: byte, b2: byte): (q: string)
    ensures |q| == 4
  {
    var x, y, z := b0 as nat, b1 as nat, b2 as nat;
    [Symbol(x / 4), Symbol(x % 4 * 16 + y / 16), Symbol(y % 16 * 4 + z / 64), Symbol(z % 64)]
  }

  /** The standard's encoding, three bytes at a time. */
  function Encoded(data: seq<byte>): string {
    if |data| == 0 then ""
    else if |data| == 1 then Quantum(data[0], 0, 0)[..2] + "=="
    else if |data| == 2 then Quantum(data[0], data[1], 0)[..3] + "="
    else Quantum(data[0], data[1], data[2]) + Encoded(data[3..])
  }

  // ----- the encoder -----

  lemma AlphabetSize()
    ensures |UPPER| == 26 && |LOWER| == 26 && |DIGITS| == 10 && |ALPHABET| == 64
  {
  }

  lemma UpperAt(i: nat)
    requires i < 26
    ensures UPPER[i] as int == 'A' as int + i
  {
  }

  lemma LowerAt(i: nat)
    requires i < 26
    ensures LOWER[i] as int == 'a' as int + i
  {
  }

  lemma DigitAt(i: nat)
    requires i < 10
    ensures DIGITS[i] as int == '0' as int + i
  {
  }

  /** The encoder's alphabet is the table of the standard. */
  lemma AlphabetIsTable(v: nat)
    requires v < 64
    ensures v < |ALPHABET| && ALPHABET[v] == Symbol(v)
  {
    AlphabetSize();
    hide UPPER, LOWER, DIGITS;
    if v < 26 {
      UpperAt(v);
    } else if v < 52 {
      LowerAt(v - 26);
    } else if v < 62 {
      DigitAt(v - 52);
    }
  }

  /** Three bytes side by side in one word. */
  function Join(b0: byte, b1: byte, b2: byte): nat {
    b0 as nat * 0x1_0000 + b1 as nat * 0x100 + b2 as nat
  }

  lemma Split64(q: int, r: int)
    requires 0 <= r < 64
    ensures (64 * q + r) / 64 == q && (64 * q + r) % 64 == r
  {
  }

  lemma Split4096(q: int, r: int)
    requires 0 <= r < 0x1000
    ensures (0x1000 * q + r) / 0x1000 == q
  {
  }

  lemma Split262144(q: int, r: int)
    requires 0 <= r < 0x4_0000
    ensures (0x4_0000 * q + r) / 0x4_0000 == q
  {
  }

  lemma FirstSextet(x: nat, y: nat, z: nat)
    requires x < 256 && y < 256 && z < 256
    ensures (x * 0x1_0000 + y * 0x100 + z) / 0x4_0000 % 64 == x / 4
  {
    var q, r := x / 4, x % 4;
    Split262144(q, r * 0x1_0000 + y * 0x100 + z);
    Split64(0, q);
  }

  lemma SecondSextet(x: nat, y: nat, z: nat)
    requires x < 256 && y < 256 && z < 256
    ensures (x * 0x1_0000 + y * 0x100 + z) / 0x1000 % 64 == x % 4 * 16 + y / 16
  {
    var q, r, s, t := x / 4, x % 4, y / 16, y % 16;
    Split4096(64 * q + (r * 16 + s), t * 0x100 + z);
    Split64(q, r * 16 + s);
  }

  lemma ThirdSextet(x: nat, y: nat, z: nat)
    requires x < 256 && y < 256 && z < 256
    ensures (x * 0x1_0000 + y * 0x100 + z) / 0x40 % 64 == y % 16 * 4 + z / 64
  {
    var q, r, s, t := y / 16, y % 16, z / 64, z % 64;
    Split64(64 * (x * 16 + q) + (r * 4 + s), t);
    Split64(x * 16 + q, r * 4 + s);
  }

  lemma FourthSextet(x: nat, y: nat, z: nat)
    ensures (x * 0x1_0000 + y * 0x100 + z) % 64 == z % 64
  {
    var q, r := z / 64, z % 64;
    Split64(x * 1024 + y * 4 + q, r);
  }

  /** Shifting the word by eighteen, twelve, six and no bits gives the four groups. */
  lemma JoinSextets(b0: byte, b1: byte, b2: byte)
    ensures var n, q := Join(b0, b1, b2), Quantum(b0, b1, b2);
      && Symbol(n / 0x4_0000 % 64) == q[0] && Symbol(n / 0x1000 % 64) == q[1]
      && Symbol(n / 0x40 % 64) == q[2] && Symbol(n % 64) == q[3]
  {
    hide Symbol;
    FirstSextet(b0 as int, b1 as int, b2 as int);
    SecondSextet(b0 as int, b1 as int, b2 as int);
    ThirdSextet(b0 as int, b1 as int, b2 as int);
    FourthSextet(b0 as int, b1 as int, b2 as int);
  }

  class Output {
    var text: string

    constructor ()
      ensures text == ""
    {
      text := "";
    }

    method PushSextet(shifted: nat)
      modifies this
      ensures text == old(text) + [Symbol(shifted % 64)]
    {
      AlphabetIsTable(shifted % 64);
      hide Symbol, ALPHABET;
      text := text + [ALPHABET[shifted % 64]];
    }

    method PushQuantum(b0: byte, b1: byte, b2: byte)
      modifies this
      ensures text == old(text) + Quantum(b0, b1, b2)
    {
      JoinSextets(b0, b1, b2);
      hide Symbol, Quantum, Join;
      var n := Join(b0, b1, b2);
      PushSextet(n / 0x4_0000);
      PushSextet(n / 0x1000);
      PushSextet(n / 0x40);
      PushSextet(n);
    }

    /** The one or two bytes left over, padded. */
    method PushTail(rest: seq<byte>)
      requires |rest| < 3
      modifies this
      ensures text == old(text) + Encoded(rest)
    {
      hide Symbol, Quantum, Join;
      if |rest| == 1 {
        var n := Join(rest[0], 0, 0);
        JoinSextets(rest[0], 0, 0);
        PushSextet(n / 0x4_0000);
        PushSextet(n / 0x1000);
        text := text + "==";
      } else if |rest| == 2 {
        var n := Join(rest[0], rest[1], 0);
        JoinSextets(rest[0], rest[1], 0);
        PushSextet(n / 0x4_0000);
        PushSextet(n / 0x1000);
        PushSextet(n / 0x40);
        text := text + "=";
      }
    }
  }

  method Encode(data: seq<byte>) returns (text: string)
    ensures text == Encoded(data)
  {
    hide Quantum;
    var out := new Output();
    var i := 0;
    while i + 3 <= |data|
      invariant 0 <= i <= |data| && out.text + Encoded(data[i..]) == Encoded(data) && fresh(out)
      decreases |data| - i
    {
      ghost var before := out.text;
      out.PushQuantum(data[i], data[i + 1], data[i + 2]);
      assert data[i..][3..] == data[i + 3..];
      assert out.text + Encoded(data[i + 3..]) == before + Encoded(data[i..]);
      i := i + 3;
    }
    out.PushTail(data[i..]);
    text := out.text;
  }

  // ----- an independent decoder -----

  /** A symbol's six-bit value, from the table of the standard. */
  function Value(c: char): (v: int)
    ensures -1 <= v < 64
  {
    if 'A' <= c <= 'Z' then c as int - 'A' as int
    else if 'a' <= c <= 'z' then c as int - 'a' as int + 26
    else if '0' <= c <= '9' then c as int - '0' as int + 52
    else if c == '+' then 62
    else if c == '/' then 63
    else -1
  }

  datatype Decoded = Bytes(data: seq<byte>) | Malformed

  function Cons(head: seq<byte>, tail: Decoded): Decoded {
    match tail
    case Bytes(rest) => Bytes(head + rest)
    case Malformed => Malformed
  }

  /** Strict: the last quantum may be padded, and its unused bits must be zero. */
  function Decode(text: string): Decoded {
    if text == "" then Bytes([])
    else if |text| < 4 || Value(text[0]) < 0 || Value(text[1]) < 0 then Malformed
    else
      var v0, v1 := Value(text[0]), Value(text[1]);
      var b0 := (v0 * 4 + v1 / 16) as byte;
      if text[2..] == "==" then
        if v1 % 16 == 0 then Bytes([b0]) else Malformed
      else if Value(text[2]) < 0 then Malformed
      else
        var v2 := Value(text[2]);
        var b1 := (v1 % 16 * 16 + v2 / 4) as byte;
        if text[3..] == "=" then
          if v2 % 4 == 0 then Bytes([b0, b1]) else Malformed
        else if Value(text[3]) < 0 then Malformed
        else Cons([b0, b1, (v2 % 4 * 64 + Value(text[3])) as byte], Decode(text[4..]))
  }

  /** A symbol's value is the one it stands for. */
  lemma SymbolValue(v: nat)
    requires v < 64
    ensures Value(Symbol(v)) == v && Symbol(v) != '='
  {
  }

  /** The four values of a quantum, put back together. */
  lemma QuantumValues(b0: byte, b1: byte, b2: byte)
    ensures var q := Quantum(b0, b1, b2);
      var v0, v1, v2, v3 := Value(q[0]), Value(q[1]), Value(q[2]), Value(q[3]);
      && v0 >= 0 && v1 >= 0 && v2 >= 0 && v3 >= 0 && q[2] != '=' && q[3] != '='
      && v0 * 4 + v1 / 16 == b0 as int && v1 % 16 * 16 + v2 / 4 == b1 as int && v2 % 4 * 64 + v3 == b2 as int
      && (b1 == 0 ==> v1 % 16 == 0) && (b2 == 0 ==> v2 % 4 == 0)
  {
    hide Symbol, Value;
    var x, y, z := b0 as nat, b1 as nat, b2 as nat;
    SymbolValue(x / 4);
    SymbolValue(x % 4 * 16 + y / 16);
    SymbolValue(y % 16 * 4 + z / 64);
    SymbolValue(z % 64);
  }

  lemma DecodeOne(b0: byte)
    ensures Decode(Quantum(b0, 0, 0)[..2] + "==") == Bytes([b0])
  {
    hide Quantum, Value;
    QuantumValues(b0, 0, 0);
    var text := Quantum(b0, 0, 0)[..2] + "==";
    assert text[2..] == "==";
  }

  lemma DecodeTwo(b0: byte, b1: byte)
    ensures Decode(Quantum(b0, b1, 0)[..3] + "=") == Bytes([b0, b1])
  {
    hide Quantum, Value;
    QuantumValues(b0, b1, 0);
    var text := Quantum(b0, b1, 0)[..3] + "=";
    assert text[2] != '=';
    assert text[3..] == "=";
  }

  lemma DecodeThree(b0: byte, b1: byte, b2: byte, tail: string)
    ensures Decode(Quantum(b0, b1, b2) + tail) == Cons([b0, b1, b2], Decode(tail))
  {
    hide Quantum, Value, Cons;
    QuantumValues(b0, b1, b2);
    var text := Quantum(b0, b1, b2) + tail;
    assert text[2] != '=' && text[3] != '=';
    assert text[4..] == tail;
  }

  /** Decoding inverts encoding on every byte sequence. */
  lemma {:induction false} RoundTrip(data: seq<byte>)
    ensures Decode(Encoded(data)) == Bytes(data)
  {
    hide Quantum, Value, Decode;
    if |data| == 0 {
      assert Decode("") == Bytes([]) by { DecodeEmpty(); }
    } else if |data| == 1 {
      DecodeOne(data[0]);
      assert data == [data[0]];
    } else if |data| == 2 {
      DecodeTwo(data[0], data[1]);
      assert data == [data[0], data[1]];
    } else {
      DecodeThree(data[0], data[1], data[2], Encoded(data[3..]));
      RoundTrip(data[3..]);
      assert data == [data[0], data[1], data[2]] + data[3..];
    }
  }

  lemma DecodeEmpty()
    ensures Decode("") == Bytes([])
  {
  }

  /** Different inputs give different texts. */
  lemma EncodedInjective(a: seq<byte>, b: seq<byte>)
    requires Encoded(a) == Encoded(b)
    ensures a == b
  {
    RoundTrip(a);
    RoundTrip(b);
  }

  /** Padding characters at the end of the encoding of n bytes. */
  function Padding(n: nat): nat {
    if n % 3 == 0 then 0 else 3 - n % 3
  }

  lemma OneGroup(n: nat)
    requires n > 2
    ensures Padding(n) == Padding(n - 3) && (n + 2) / 3 * 4 == (n - 3 + 2) / 3 * 4 + 4
  {
  }

  lemma SmallPadding()
    ensures Padding(0) == 0 && Padding(1) == 2 && Padding(2) == 1
    ensures forall n :: Padding(n) <= 2
  {
  }

  /** Four symbols for every started group of three; only alphabet symbols, then the padding. */
  lemma {:induction false} Shape(data: seq<byte>)
    ensures |Encoded(data)| == (|data| + 2) / 3 * 4
    ensures forall i :: 0 <= i < |Encoded(data)| - Padding(|data|) ==> Value(Encoded(data)[i]) >= 0
    ensures forall i :: |Encoded(data)| - Padding(|data|) <= i < |Encoded(data)| ==> Encoded(data)[i] == '='
  {
    hide Value, Quantum, Padding;
    SmallPadding();
    if |data| > 0 {
      var b1 := if |data| > 1 then data[1] else 0;
      var b2 := if |data| > 2 then data[2] else 0;
      QuantumValues(data[0], b1, b2);
      if |data| > 2 {
        Shape(data[3..]);
        OneGroup(|data|);
      }
    }
  }
}
