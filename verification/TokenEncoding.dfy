/** The byte string that is digested into a block key: four big-endian bytes a token. */
module TokenEncoding {
  import opened Common

  /** The low byte of `t >> bits`, as Go's arithmetic shift and `byte` conversion leave it:
      `scale` is two to the power `bits`, and division rounds down for negative tokens too. */
  function ShiftedByte(t: int32, scale: nat): byte
    requires scale > 0
  {
    (t as int) / scale % 256
  }

  function Word(t: int32): seq<byte> {
    [ShiftedByte(t, 0x100_0000), ShiftedByte(t, 0x1_0000), ShiftedByte(t, 0x100), ShiftedByte(t, 1)]
  }

  function Encode(tokens: seq<int32>): seq<byte> {
    if tokens == [] then [] else Encode(tokens[..|tokens| - 1]) + Word(tokens[|tokens| - 1])
  }

  /** Reads a big-endian two's complement word. */
  function ReadWord(w: seq<byte>): int32
    requires |w| == 4
  {
    var u := w[0] as int * 0x100_0000 + w[1] as int * 0x1_0000 + w[2] as int * 0x100 + w[3] as int;
    (if u >= 0x8000_0000 then u - 0x1_0000_0000 else u) as int32
  }

  function Decode(data: seq<byte>): seq<int32> {
    if |data| < 4 then [] else
      Decode(data[..|data| - 4]) + [ReadWord(data[|data| - 4..])]
  }

  lemma WordRoundTrip(t: int32)
    ensures |Word(t)| == 4 && ReadWord(Word(t)) == t
  {
    var u := t as int;
    var q1 := u / 0x100;
    var q2 := q1 / 0x100;
    var q3 := q2 / 0x100;
    assert u / 0x1_0000 == q2 && u / 0x100_0000 == q3;
    assert u == q1 * 0x100 + u % 0x100;
    assert q1 == q2 * 0x100 + q1 % 0x100;
    assert q2 == q3 * 0x100 + q2 % 0x100;
  }

  lemma {:induction false} EncodeRoundTrip(tokens: seq<int32>)
    ensures |Encode(tokens)| == 4 * |tokens|
    ensures Decode(Encode(tokens)) == tokens
  {
    if tokens != [] {
      var rest, last := tokens[..|tokens| - 1], tokens[|tokens| - 1];
      EncodeRoundTrip(rest);
      WordRoundTrip(last);
      var data := Encode(tokens);
      assert data[..|data| - 4] == Encode(rest);
      assert data[|data| - 4..] == Word(last);
    }
  }

  /** Byte by byte: the four bytes of token `i` are its value, the most significant one first, and a negative
      token stands for itself plus two to the 32nd power. */
  lemma {:induction false} EncodedToken(tokens: seq<int32>, i: nat)
    requires i < |tokens|
    ensures |Encode(tokens)| == 4 * |tokens|
    ensures var e, t := Encode(tokens), tokens[i] as int;
            e[4 * i] as int * 0x100_0000 + e[4 * i + 1] as int * 0x1_0000 + e[4 * i + 2] as int * 0x100
              + e[4 * i + 3] as int == if t < 0 then t + 0x1_0000_0000 else t
  {
    var init, last := tokens[..|tokens| - 1], tokens[|tokens| - 1];
    EncodeRoundTrip(tokens);
    EncodeRoundTrip(init);
    if i < |init| {
      EncodedToken(init, i);
    } else {
      WordValue(last);
    }
  }

  lemma WordValue(t: int32)
    ensures var w := Word(t);
            |w| == 4 && w[0] as int * 0x100_0000 + w[1] as int * 0x1_0000 + w[2] as int * 0x100 + w[3] as int
              == if t < 0 then t as int + 0x1_0000_0000 else t as int
  {
    var u := t as int;
    var q1 := u / 0x100;
    var q2 := q1 / 0x100;
    var q3 := q2 / 0x100;
    assert u / 0x1_0000 == q2 && u / 0x100_0000 == q3;
  }

  /** Token sequences of any length and any values: the digested bytes tell them apart. */
  lemma EncodeInjective(a: seq<int32>, b: seq<int32>)
    ensures Encode(a) == Encode(b) <==> a == b
  {
    EncodeRoundTrip(a);
    EncodeRoundTrip(b);
  }

  /** A digest that never maps two of the given byte strings to one key. */
  ghost predicate CollisionFree<K>(digest: seq<byte> -> K, inputs: set<seq<byte>>) {
    forall a, b :: a in inputs && b in inputs && digest(a) == digest(b) ==> a == b
  }

  lemma EncodeStep(tokens: seq<int32>, i: nat)
    requires i < |tokens|
    ensures Encode(tokens[..i + 1]) == Encode(tokens[..i]) + Word(tokens[i])
  {
    assert tokens[..i + 1][..i] == tokens[..i];
  }

  method PutWord(data: array<byte>, at: nat, t: int32)
    requires at + 4 <= data.Length
    modifies data
    ensures data[..at] == old(data[..at])
    ensures data[..at + 4] == old(data[..at]) + Word(t)
  {
    data[at] := ShiftedByte(t, 0x100_0000);
    data[at + 1] := ShiftedByte(t, 0x1_0000);
    data[at + 2] := ShiftedByte(t, 0x100);
    data[at + 3] := ShiftedByte(t, 1);
  }

  method EncodeTokens(tokens: seq<int32>) returns (data: array<byte>)
    ensures fresh(data) && data[..] == Encode(tokens)
  {
    data := new byte[|tokens| * 4](_ => 0);
    for i := 0 to |tokens|
      invariant data[..i * 4] == Encode(tokens[..i])
    {
      EncodeStep(tokens, i);
      PutWord(data, i * 4, tokens[i]);
    }
    assert tokens[..|tokens|] == tokens;
    assert data[..] == data[..|tokens| * 4];
  }
}
