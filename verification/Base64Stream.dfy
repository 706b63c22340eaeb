/** The resumable encoder and decoder (libb64): any chunking of the input gives the same result. */
module Base64Stream {
  import opened Bits
  import opened Base64Spec

  // ---- bit operations of the programs as arithmetic ------------------------------------------

  lemma ByteMasks(f: byte)
    ensures And(f, 0xfc) / 4 == Digit0(f) as int && And(f, 0x03) * 16 == Digit1(f, 0) as int
    ensures And(f, 0xf0) / 16 == f / 16 && And(f, 0x0f) * 4 == Digit2(f, 0) as int
    ensures And(f, 0xc0) / 64 == f / 64 && And(f, 0x3f) == Digit3(f) as int
  {
    Pow2Literals();
    HighMask(f, 2, 8, 0xfc);
    LowIsRemainder(f, 2);
    LowMask(f, 2, 0x03);
    HighMask(f, 4, 8, 0xf0);
    LowIsRemainder(f, 4);
    LowMask(f, 4, 0x0f);
    HighMask(f, 6, 8, 0xc0);
    LowIsRemainder(f, 6);
    LowMask(f, 6, 0x3f);
  }

  lemma SextetMasks(v: sextet)
    ensures And(v, 0x3f) == v && And(v, 0x30) / 16 == v / 16 && And(v, 0x0f) == v % 16
    ensures And(v, 0x3c) / 4 == v / 4 && And(v, 0x03) == v % 4
  {
    Pow2Literals();
    LowMask(v, 6, 0x3f);
    LowOfSmall(v, 6);
    HighMask(v, 4, 6, 0x30);
    LowIsRemainder(v, 4);
    LowMask(v, 4, 0x0f);
    HighMask(v, 2, 6, 0x3c);
    LowIsRemainder(v, 2);
    LowMask(v, 2, 0x03);
  }

  lemma Doubled(x: nat, k: nat)
    requires Multiple(x, k)
    ensures Multiple(2 * x, k + 1)
  {
  }

  lemma Multiples(x: nat)
    ensures Multiple(x * 4, 2) && Multiple(x * 16, 4) && Multiple(x * 64, 6)
  {
    assert Multiple(x, 0);
    hide Multiple;
    Doubled(x, 0);
    Doubled(2 * x, 1);
    Doubled(4 * x, 2);
    Doubled(8 * x, 3);
    Doubled(16 * x, 4);
    Doubled(32 * x, 5);
  }

  /** Or into cleared low bits is addition. */
  lemma OrLow(x: nat, y: nat)
    ensures y < 4 ==> Or(x * 4, y) == x * 4 + y
    ensures y < 16 ==> Or(x * 16, y) == x * 16 + y
    ensures y < 64 ==> Or(x * 64, y) == x * 64 + y
  {
    hide Or, Multiple;
    Pow2Literals();
    Multiples(x);
    if y < 4 { OrDisjoint(x * 4, y, 2); }
    if y < 16 { OrDisjoint(x * 16, y, 4); }
    if y < 64 { OrDisjoint(x * 64, y, 6); }
  }

  // ---- the encoder as a stream --------------------------------------------------------------

  /** The characters that byte `b` completes as the k-th byte of a group, after byte `a`. */
  function Emit(k: nat, a: byte, b: byte): (s: seq<byte>)
    ensures |s| == if k < 2 then 1 else 2
  {
    if k == 0 then [Digit(Digit0(b))]
    else if k == 1 then [Digit(Digit1(a, b))]
    else [Digit(Digit2(a, b)), Digit(Digit3(b))]
  }

  /** The byte before position n, or 0. */
  function Before(d: seq<byte>, n: nat): byte
    requires n <= |d|
  {
    if n == 0 then 0 else d[n - 1]
  }

  /** All characters emitted for the bytes so far. */
  function Emitted(d: seq<byte>): (s: seq<byte>) {
    if d == [] then []
    else
      var n := |d| - 1;
      Emitted(d[..n]) + Emit(n % 3, Before(d, n), d[n])
  }

  /** What the final call adds. */
  function Closing(k: nat, b: byte): (s: seq<byte>) {
    if k == 0 then []
    else if k == 1 then [Digit(Digit1(b, 0)), PAD, PAD]
    else [Digit(Digit2(b, 0)), PAD]
  }

  lemma EmittedSnoc(d: seq<byte>, b: byte)
    ensures Emitted(d + [b]) == Emitted(d) + Emit(|d| % 3, Before(d, |d|), b)
  {
    hide Emit;
    var e, n := d + [b], |d|;
    assert e[..n] == d && e[n] == b && Before(e, n) == Before(d, n);
  }

  lemma {:induction false} EmittedLength(d: seq<byte>)
    ensures |Emitted(d)| == |d| / 3 * 4 + |d| % 3
  {
    hide Digit, Digit0, Digit1, Digit2, Digit3;
    if d != [] { EmittedLength(d[..|d| - 1]); }
  }

  lemma {:induction false} EmittedConcat(x: seq<byte>, y: seq<byte>)
    requires |x| % 3 == 0
    ensures Emitted(x + y) == Emitted(x) + Emitted(y)
    decreases |y|
  {
    hide Emitted, Emit;
    if y == [] {
      NothingEmitted();
      assert x + y == x;
    } else {
      var n := |y| - 1;
      EmittedConcat(x, y[..n]);
      assert x + y == (x + y[..n]) + [y[n]] && y == y[..n] + [y[n]];
      EmittedSnoc(x + y[..n], y[n]);
      EmittedSnoc(y[..n], y[n]);
      SameEmit(x, y[..n], y[n]);
    }
  }

  lemma NothingEmitted()
    ensures Emitted([]) == []
  {
  }

  lemma SameEmit(x: seq<byte>, y: seq<byte>, b: byte)
    requires |x| % 3 == 0
    ensures Emit(|x + y| % 3, Before(x + y, |x + y|), b) == Emit(|y| % 3, Before(y, |y|), b)
  {
    hide Digit, Digit0, Digit1, Digit2, Digit3;
    assert |x + y| % 3 == |y| % 3;
  }

  lemma EmittedUpToThree(a: byte, b: byte, c: byte)
    ensures Emitted([a]) == Emit(0, 0, a)
    ensures Emitted([a, b]) == Emit(0, 0, a) + Emit(1, a, b)
    ensures Emitted([a, b, c]) == Emit(0, 0, a) + Emit(1, a, b) + Emit(2, b, c)
  {
    hide Emit, Emitted;
    NothingEmitted();
    EmittedSnoc([], a);
    EmittedSnoc([a], b);
    EmittedSnoc([a, b], c);
    assert [] + [a] == [a] && [a] + [b] == [a, b] && [a, b] + [c] == [a, b, c];
  }

  lemma ClosedGroups(a: byte, b: byte, c: byte)
    ensures Emit(0, 0, a) + Closing(1, a) == Group([a])
    ensures Emit(0, 0, a) + Emit(1, a, b) + Closing(2, b) == Group([a, b])
    ensures Emit(0, 0, a) + Emit(1, a, b) + Emit(2, b, c) + Closing(0, c) == Group([a, b, c])
  {
    hide Digit, Digit0, Digit1, Digit2, Digit3;
  }

  lemma EmittedGroup(d: seq<byte>)
    requires 1 <= |d| <= 3
    ensures Emitted(d) + Closing(|d| % 3, Before(d, |d|)) == Group(d)
  {
    hide Emitted, Emit, Closing, Group;
    if |d| == 1 {
      EmittedUpToThree(d[0], 0, 0);
      ClosedGroups(d[0], 0, 0);
      assert d == [d[0]];
    } else if |d| == 2 {
      EmittedUpToThree(d[0], d[1], 0);
      ClosedGroups(d[0], d[1], 0);
      assert d == [d[0], d[1]];
    } else {
      EmittedUpToThree(d[0], d[1], d[2]);
      ClosedGroups(d[0], d[1], d[2]);
      assert d == [d[0], d[1], d[2]];
    }
  }

  /** The streamed characters and the final ones together are the encoding. */
  lemma {:induction false} StreamIsEncoding(d: seq<byte>)
    ensures Emitted(d) + Closing(|d| % 3, Before(d, |d|)) == Encode(d)
  {
    hide Digit, Digit0, Digit1, Digit2, Digit3, Group, Emitted;
    if d == [] {
      NothingEmitted();
    } else if |d| <= 3 {
      EmittedGroup(d);
    } else {
      var x, y := d[..3], d[3..];
      StreamIsEncoding(y);
      EmittedGroup(x);
      EmittedConcat(x, y);
      assert d == x + y && |d| % 3 == |y| % 3;
    }
  }

  /** No padding before the final call. */
  lemma {:induction false} NoEarlyPadding(d: seq<byte>)
    ensures PAD !in Emitted(d)
  {
    if d != [] { NoEarlyPadding(d[..|d| - 1]); }
  }

  // ---- the encoder ----------------------------------------------------------------------------

  /** The string of 64 characters, in rows of sixteen. */
  const ALPHABET: seq<string> := ["ABCDEFGHIJKLMNOP", "QRSTUVWXYZabcdef", "ghijklmnopqrstuv", "wxyz0123456789+/"]

  lemma AlphabetIsDigits(v: sextet)
    ensures |ALPHABET| == 4 && |ALPHABET[v / 16]| == 16 && ALPHABET[v / 16][v % 16] as int == Digit(v)
  {
    if v < 16 {
      assert v / 16 == 0;
    } else if v < 32 {
      assert v / 16 == 1;
    } else if v < 48 {
      assert v / 16 == 2;
    } else {
      assert v / 16 == 3;
    }
  }

  /** base64_encode_value */
  method EncodeValue(value: byte) returns (c: byte)
    ensures c == if value > 63 then PAD else Digit(value)
  {
    if value > 63 { return PAD; }
    hide Digit;
    AlphabetIsDigits(value);
    c := ALPHABET[value / 16][value % 16] as int;
  }

  class Encoder {
    var step: nat
    var result: byte

    /** The state after the bytes `d`. */
    ghost predicate After(d: seq<byte>)
      reads this
    {
      && step == |d| % 3
      && (step == 1 ==> result == Digit1(d[|d| - 1], 0))
      && (step == 2 ==> result == Digit2(d[|d| - 1], 0))
    }

    constructor ()
      ensures After([])
    {
      step, result := 0, 0;
    }

    /** One byte in the current step: the characters it completes go to `encoded` from position n. */
    method Consume(fragment: byte, encoded: array<byte>, n: nat, ghost d: seq<byte>) returns (n': nat)
      requires After(d) && n + |Emit(|d| % 3, Before(d, |d|), fragment)| <= encoded.Length
      modifies this, encoded
      ensures After(d + [fragment])
      ensures n' == n + |Emit(|d| % 3, Before(d, |d|), fragment)|
      ensures encoded[..n'] == old(encoded[..n]) + Emit(|d| % 3, Before(d, |d|), fragment)
      ensures encoded[n'..] == old(encoded[n'..])
    {
      hide Digit, Digit0, Digit1, Digit2, Digit3, And, Or;
      n' := n;
      ByteMasks(fragment);
      assert |d + [fragment]| % 3 == (step + 1) % 3;
      if step == 0 {
        result := And(fragment, 0xfc) / 4;
        encoded[n'] := EncodeValue(result);
        n' := n' + 1;
        result := And(fragment, 0x03) * 16;
        step := 1;
      } else if step == 1 {
        CombineOne(d[|d| - 1], fragment);
        result := Or(result, And(fragment, 0xf0) / 16);
        encoded[n'] := EncodeValue(result);
        n' := n' + 1;
        result := And(fragment, 0x0f) * 4;
        step := 2;
      } else {
        CombineTwo(d[|d| - 1], fragment);
        result := Or(result, And(fragment, 0xc0) / 64);
        encoded[n'] := EncodeValue(result);
        n' := n' + 1;
        result := And(fragment, 0x3f);
        encoded[n'] := EncodeValue(result);
        n' := n' + 1;
        step := 0;
      }
    }

    /** base64_encode_update: encode one chunk after the bytes `d`. */
    method Update(data: seq<byte>, encoded: array<byte>, ghost d: seq<byte>) returns (n: nat)
      requires After(d) && |Emitted(d + data)| - |Emitted(d)| <= encoded.Length
      modifies this, encoded
      ensures After(d + data)
      ensures n <= encoded.Length && Emitted(d + data) == Emitted(d) + encoded[..n]
      ensures encoded[n..] == old(encoded[n..])
    {
      hide Emitted, Emit, After;
      n := 0;
      assert d + data[..0] == d;
      for i := 0 to |data|
        invariant n <= encoded.Length
        invariant After(d + data[..i])
        invariant Emitted(d + data[..i]) == Emitted(d) + encoded[..n]
        invariant encoded[n..] == old(encoded[n..])
      {
        ghost var e := d + data[..i];
        EmittedSnoc(e, data[i]);
        assert e + [data[i]] == d + data[..i + 1] && d + data == d + data[..i + 1] + data[i + 1..];
        EmittedGrowth(e + [data[i]], data[i + 1..]);
        ghost var before, k := encoded[..], n;
        n := Consume(data[i], encoded, n, e);
        assert encoded[n..] == before[n..] == before[k..][n - k..];
      }
      assert d + data[..|data|] == d + data;
    }

    /** base64_encode_final: the padded rest of the last group. */
    method Final(encoded: array<byte>, ghost d: seq<byte>) returns (n: nat)
      requires After(d) && encoded.Length >= 3
      modifies encoded
      ensures n <= 3 && encoded[..n] == Closing(|d| % 3, Before(d, |d|))
      ensures encoded[n..] == old(encoded[n..])
    {
      hide Digit, Digit1, Digit2;
      n := 0;
      if step == 1 {
        encoded[n] := EncodeValue(result);
        n := n + 1;
        encoded[n] := PAD;
        n := n + 1;
        encoded[n] := PAD;
        n := n + 1;
      } else if step == 2 {
        encoded[n] := EncodeValue(result);
        n := n + 1;
        encoded[n] := PAD;
        n := n + 1;
      }
    }
  }

  lemma {:induction false} EmittedGrowth(x: seq<byte>, y: seq<byte>)
    ensures |Emitted(x)| <= |Emitted(x + y)| <= |Emitted(x)| + 2 * |y|
    decreases |y|
  {
    hide Emitted, Emit;
    if y == [] {
      assert x + y == x;
    } else {
      var n := |y| - 1;
      EmittedGrowth(x, y[..n]);
      assert x + y == (x + y[..n]) + [y[n]];
      EmittedSnoc(x + y[..n], y[n]);
    }
  }

  /** Encoding chunk by chunk gives the encoding of the whole, however the bytes are cut into chunks. */
  method EncodeChunks(chunks: seq<seq<byte>>) returns (text: seq<byte>)
    ensures text == Encode(Flatten(chunks))
  {
    hide Emitted, Closing, Encode;
    var encoder := new Encoder();
    text := [];
    NothingEmitted();
    for i := 0 to |chunks|
      invariant encoder.After(Flatten(chunks[..i])) && text == Emitted(Flatten(chunks[..i]))
    {
      ghost var d := Flatten(chunks[..i]);
      assert chunks[..i + 1][..i] == chunks[..i];
      var buffer := new byte[2 * |chunks[i]|];
      EmittedGrowth(d, chunks[i]);
      var n := encoder.Update(chunks[i], buffer, d);
      text := text + buffer[..n];
    }
    assert chunks[..|chunks|] == chunks;
    var buffer := new byte[3];
    var n := encoder.Final(buffer, Flatten(chunks));
    text := text + buffer[..n];
    StreamIsEncoding(Flatten(chunks));
  }

  lemma CombineOne(a: byte, b: byte)
    ensures Or(Digit1(a, 0), b / 16) == Digit1(a, b)
  {
    OrLow(a % 4, b / 16);
  }

  lemma CombineTwo(a: byte, b: byte)
    ensures Or(Digit2(a, 0), b / 64) == Digit2(a, b)
  {
    OrLow(a % 16, b / 64);
  }

  // ---- the decoder --------------------------------------------------------------------------

  /** The decoding table, indexed from '+', in rows of sixteen. */
  const DECODING: seq<seq<int>> := [
    [62, -1, -1, -1, 63, 52, 53, 54, 55, 56, 57, 58, 59, 60, 61, -1],
    [-1, -1, -2, -1, -1, -1, 0, 1, 2, 3, 4, 5, 6, 7, 8, 9],
    [10, 11, 12, 13, 14, 15, 16, 17, 18, 19, 20, 21, 22, 23, 24, 25],
    [-1, -1, -1, -1, -1, -1, 26, 27, 28, 29, 30, 31, 32, 33, 34, 35],
    [36, 37, 38, 39, 40, 41, 42, 43, 44, 45, 46, 47, 48, 49, 50, 51]]

  /** A value stored into a signed char. */
  function SignedChar(x: int): (c: int)
    ensures -128 <= c < 128
  {
    (x + 128) % 256 - 128
  }

  lemma TableIsValue(i: nat)
    requires i < 80
    ensures |DECODING| == 5 && |DECODING[i / 16]| == 16
    ensures if Value(i + 43) >= 0 then DECODING[i / 16][i % 16] == Value(i + 43) else DECODING[i / 16][i % 16] < 0
  {
    if i < 16 {
      assert i / 16 == 0;
    } else if i < 32 {
      assert i / 16 == 1;
    } else if i < 48 {
      assert i / 16 == 2;
    } else if i < 64 {
      assert i / 16 == 3;
    } else {
      assert i / 16 == 4;
    }
  }

  /** base64_decode_value on the byte `c`, read as a signed char; negative for every non-alphabet character. */
  method DecodeValue(c: byte) returns (v: int)
    ensures Value(c) >= 0 ==> v == Value(c)
    ensures Value(c) < 0 ==> v < 0
  {
    var valueIn := SignedChar(SignedChar(c) - 43);
    if valueIn < 0 || valueIn >= 80 {
      return -1;
    }
    assert c == valueIn + 43;
    hide Value;
    TableIsValue(valueIn);
    v := DECODING[valueIn / 16][valueIn % 16];
  }

  /** The bits of the next byte that sextet `v` brings as the k-th of its group. */
  function Partial(k: nat, v: sextet): (p: byte) {
    if k == 0 then v as int * 4
    else if k == 1 then v as int % 16 * 16
    else v as int % 4 * 64
  }

  lemma CombinePartial(k: nat, u: sextet, v: sextet)
    requires 1 <= k <= 3
    ensures k == 1 ==> [Or(Partial(0, u), And(v, 0x30) / 16)] == Completed(k, u, v)
    ensures k == 2 ==> [Or(Partial(1, u), And(v, 0x3c) / 4)] == Completed(k, u, v)
    ensures k == 3 ==> [Or(Partial(2, u), And(v, 0x3f))] == Completed(k, u, v)
  {
    hide And, Or;
    SextetMasks(v);
    OrLow(u, v as int / 16);
    OrLow(u as int % 16, v as int / 4);
    OrLow(u as int % 4, v);
  }

  lemma NextPhase(n: nat)
    ensures (n + 1) % 4 == if n % 4 == 3 then 0 else n % 4 + 1
  {
  }

  /** The sextet before position n, or 0. */
  function Previous(s: seq<sextet>, n: nat): sextet
    requires n <= |s|
  {
    if n == 0 then 0 else s[n - 1]
  }

  lemma BytesGain(s: seq<sextet>, v: sextet)
    ensures Bytes(s + [v]) == Bytes(s) + Completed(|s| % 4, Previous(s, |s|), v)
  {
    hide Completed;
    var t, n := s + [v], |s|;
    assert t[..n] == s && t[n] == v && Previous(t, n) == Previous(s, n);
  }

  lemma {:induction false} BytesGrowth(x: seq<sextet>, y: seq<sextet>)
    ensures |Bytes(x)| <= |Bytes(x + y)| <= |Bytes(x)| + |y|
    decreases |y|
  {
    hide Bytes, Completed;
    if y == [] {
      assert x + y == x;
    } else {
      var n := |y| - 1;
      BytesGrowth(x, y[..n]);
      assert x + y == (x + y[..n]) + [y[n]];
      BytesGain(x + y[..n], y[n]);
    }
  }

  /** One alphabet character in step `step`; `out[n]` holds the bits of the unfinished byte. */
  method Advance(step: nat, v: sextet, out: array<byte>, n: nat, ghost s: seq<sextet>) returns (step': nat, n': nat)
    requires step == |s| % 4 && n + |Completed(step, Previous(s, |s|), v)| < out.Length
    requires step != 0 ==> out[n] == Partial(step - 1, Previous(s, |s|))
    modifies out
    ensures step' == |s + [v]| % 4 && n' == n + |Completed(step, Previous(s, |s|), v)|
    ensures out[..n'] == old(out[..n]) + Completed(step, Previous(s, |s|), v)
    ensures step' != 0 ==> out[n'] == Partial(step' - 1, v)
  {
    NextPhase(|s|);
    SextetMasks(v);
    n' := n;
    step' := step + 1;
    hide And, Or, Completed;
    if step == 0 {
      out[n'] := And(v, 0x3f) * 4;
    } else if step == 1 {
      CombinePartial(1, Previous(s, |s|), v);
      out[n'] := Or(out[n'], And(v, 0x30) / 16);
      n' := n' + 1;
      out[n'] := And(v, 0x0f) * 16;
    } else if step == 2 {
      CombinePartial(2, Previous(s, |s|), v);
      out[n'] := Or(out[n'], And(v, 0x3c) / 4);
      n' := n' + 1;
      out[n'] := And(v, 0x03) * 64;
    } else {
      CombinePartial(3, Previous(s, |s|), v);
      out[n'] := Or(out[n'], And(v, 0x3f));
      n' := n' + 1;
      step' := 0;
    }
  }

  class Decoder {
    var step: nat
    var plainchar: byte

    /** The state after the sextets `s`. */
    ghost predicate After(s: seq<sextet>)
      reads this
    {
      step == |s| % 4 && (step != 0 ==> plainchar == Partial(step - 1, Previous(s, |s|)))
    }

    constructor ()
      ensures After([])
    {
      step, plainchar := 0, 0;
    }

    /** base64_decode_block: decode one chunk after the sextets `s`; `out` needs one spare cell. */
    method Block(code: seq<byte>, out: array<byte>, ghost s: seq<sextet>) returns (n: nat)
      requires After(s) && |Bytes(s + Sextets(code))| - |Bytes(s)| < out.Length
      modifies this, out
      ensures After(s + Sextets(code))
      ensures n < out.Length && Bytes(s + Sextets(code)) == Bytes(s) + out[..n]
    {
      hide Bytes, Completed, Partial, Value, Sextets;
      NoSextets();
      BytesGrowth(s, Sextets(code));
      n := 0;
      out[0] := plainchar;
      var current := step;
      assert s + Sextets(code[..0]) == s;
      for i := 0 to |code|
        invariant n < out.Length
        invariant current == |s + Sextets(code[..i])| % 4
        invariant current != 0 ==>
          var t := s + Sextets(code[..i]);
          out[n] == Partial(current - 1, Previous(t, |t|))
        invariant Bytes(s + Sextets(code[..i])) == Bytes(s) + out[..n]
      {
        ghost var t := s + Sextets(code[..i]);
        SextetsSnoc(code[..i], code[i]);
        assert code[..i] + [code[i]] == code[..i + 1];
        var fragment := DecodeValue(code[i]);
        if fragment >= 0 {
          assert s + Sextets(code[..i + 1]) == t + [fragment];
          BytesGain(t, fragment);
          RoomLeft(s, code, i + 1, out.Length);
          current, n := Advance(current, fragment, out, n, t);
        }
      }
      step := current;
      plainchar := out[n];
      assert code[..|code|] == code;
    }
  }

  lemma NoSextets()
    ensures Sextets([]) == []
  {
  }

  lemma SextetsSnoc(code: seq<byte>, c: byte)
    ensures Sextets(code + [c]) == if Value(c) >= 0 then Sextets(code) + [Value(c)] else Sextets(code)
  {
    assert (code + [c])[..|code|] == code;
  }

  /** The bytes completed part of the way are no more than at the end. */
  lemma RoomLeft(s: seq<sextet>, code: seq<byte>, i: nat, length: nat)
    requires i <= |code| && |Bytes(s + Sextets(code))| - |Bytes(s)| < length
    ensures |Bytes(s + Sextets(code[..i]))| - |Bytes(s)| < length
  {
    hide Bytes, Sextets;
    var x, y := s + Sextets(code[..i]), Sextets(code[i..]);
    assert code == code[..i] + code[i..];
    SextetsConcat(code[..i], code[i..]);
    assert s + Sextets(code) == x + y;
    BytesGrowth(x, y);
  }

  /** Decoding chunk by chunk gives the bytes of the whole text, however it is cut into chunks. */
  method DecodeChunks(chunks: seq<seq<byte>>) returns (plain: seq<byte>)
    ensures plain == Bytes(Sextets(Flatten(chunks)))
  {
    hide Bytes, Sextets;
    NoBytes();
    NoSextets();
    var decoder := new Decoder();
    plain := [];
    for i := 0 to |chunks|
      invariant decoder.After(Sextets(Flatten(chunks[..i]))) && plain == Bytes(Sextets(Flatten(chunks[..i])))
    {
      ghost var s := Sextets(Flatten(chunks[..i]));
      assert chunks[..i + 1][..i] == chunks[..i];
      SextetsConcat(Flatten(chunks[..i]), chunks[i]);
      BytesGrowth(s, Sextets(chunks[i]));
      SextetsLength(chunks[i]);
      var out := new byte[|chunks[i]| + 1];
      var n := decoder.Block(chunks[i], out, s);
      plain := plain + out[..n];
    }
    assert chunks[..|chunks|] == chunks;
  }

  lemma {:induction false} SextetsLength(code: seq<byte>)
    ensures |Sextets(code)| <= |code|
  {
    if code != [] { SextetsLength(code[..|code| - 1]); }
  }

  /**
   * Encode in any chunks; cut the text in any other chunks and scatter non-alphabet characters over it:
   * decoding returns the original bytes.
   */
  method ChunkedRoundTrip(dataChunks: seq<seq<byte>>, textChunks: seq<seq<byte>>)
    returns (text: seq<byte>, plain: seq<byte>)
    ensures text == Encode(Flatten(dataChunks))
    ensures Strip(Flatten(textChunks)) == Strip(text) ==> plain == Flatten(dataChunks)
  {
    text := EncodeChunks(dataChunks);
    plain := DecodeChunks(textChunks);
    if Strip(Flatten(textChunks)) == Strip(text) {
      NoiseIsIgnored(Flatten(dataChunks), Flatten(textChunks));
    }
  }
}
