/** The one-shot encoder and decoder; the decoder also works in place over its input. */
module Base64OneShot {
  import opened Bits
  import opened Base64Spec
  import opened Base64Stream

  // ---- encoding -------------------------------------------------------------------------------

  lemma EncodeStep(d: seq<byte>)
    requires |d| >= 3
    ensures Encode(d) == Group(d[..3]) + Encode(d[3..])
  {
    hide Group;
    if |d| == 3 { assert d[..3] == d && d[3..] == []; }
  }

  /** The four characters of a full group, with the shifts and masks of the program. */
  lemma ShiftedGroup(a: byte, b: byte, c: byte)
    ensures a / 4 == Digit0(a) as int
    ensures And(a, 0x03) * 16 + b / 16 == Digit1(a, b) as int
    ensures And(b, 0x0f) * 4 + c / 64 == Digit2(b, c) as int
    ensures And(c, 0x3f) == Digit3(c) as int
  {
    hide And;
    ByteMasks(a);
    ByteMasks(b);
    ByteMasks(c);
  }

  /** Writes the four characters of three bytes at position n. */
  method PutGroup(target: array<byte>, n: nat, a: byte, b: byte, c: byte)
    requires n + 4 <= target.Length
    modifies target
    ensures target[..n + 4] == old(target[..n]) + Group([a, b, c])
  {
    hide And, Digit, Digit0, Digit1, Digit2, Digit3;
    ShiftedGroup(a, b, c);
    var c0 := EncodeValue(a / 4);
    var c1 := EncodeValue(And(a, 0x03) * 16 + b / 16);
    var c2 := EncodeValue(And(b, 0x0f) * 4 + c / 64);
    var c3 := EncodeValue(And(c, 0x3f));
    target[n], target[n + 1], target[n + 2], target[n + 3] := c0, c1, c2, c3;
  }

  /** Writes the padded group of the last one or two bytes at position n. */
  method PutLast(target: array<byte>, n: nat, rest: seq<byte>)
    requires n + 4 <= target.Length && 1 <= |rest| <= 2
    modifies target
    ensures target[..n + 4] == old(target[..n]) + Group(rest)
  {
    hide And, Digit, Digit0, Digit1, Digit2, Digit3;
    var a, b := rest[0], if |rest| == 2 then rest[1] else 0;
    ShiftedGroup(a, b, 0);
    var c0 := EncodeValue(a / 4);
    var c1 := EncodeValue(And(a, 0x03) * 16 + b / 16);
    var c2 := EncodeValue(And(b, 0x0f) * 4);
    target[n], target[n + 1] := c0, c1;
    target[n + 2] := if |rest| == 1 then PAD else c2;
    target[n + 3] := PAD;
  }

  /** b64encode: the encoding, NUL-terminated. None of its three size errors can happen. */
  method B64Encode(src: seq<byte>) returns (target: array<byte>)
    ensures fresh(target)
    ensures target.Length == |Encode(src)| + 1
    ensures target[..] == Encode(src) + [0]
  {
    hide Encode, Group;
    var targsize := (|src| + 2) / 3 * 4 + 1;
    target := new byte[targsize];
    EncodeLength(src);
    var srclength, datalength := |src|, 0;
    ghost var i := 0;
    assert src[0..] == src;
    while 2 < srclength
      invariant 0 <= i <= |src| && srclength == |src| - i
      invariant datalength <= targsize && Encode(src) == target[..datalength] + Encode(src[i..])
    {
      ghost var rest := src[i..];
      EncodeStep(rest);
      assert rest[..3] == [src[i], src[i + 1], src[i + 2]] && rest[3..] == src[i + 3..];
      if datalength + 4 > targsize { assert false; }
      PutGroup(target, datalength, src[|src| - srclength], src[|src| - srclength + 1], src[|src| - srclength + 2]);
      datalength := datalength + 4;
      srclength := srclength - 3;
      i := i + 3;
    }
    EncodeOfRest(src[i..]);
    if srclength != 0 {
      if datalength + 4 > targsize { assert false; }
      PutLast(target, datalength, src[|src| - srclength..]);
      datalength := datalength + 4;
    }
    if datalength >= targsize { assert false; }
    target[datalength] := 0;
  }

  lemma EncodeOfRest(rest: seq<byte>)
    requires |rest| <= 2
    ensures Encode(rest) == if rest == [] then [] else Group(rest)
  {
  }

  // ---- decoding: the table and the packing --------------------------------------------------

  /** pr2six, in rows of sixteen. */
  const PR2SIX: seq<seq<int>> := [
    [64, 64, 64, 64, 64, 64, 64, 64, 64, 64, 64, 64, 64, 64, 64, 64],
    [64, 64, 64, 64, 64, 64, 64, 64, 64, 64, 64, 64, 64, 64, 64, 64],
    [64, 64, 64, 64, 64, 64, 64, 64, 64, 64, 64, 62, 64, 64, 64, 63],
    [52, 53, 54, 55, 56, 57, 58, 59, 60, 61, 64, 64, 64, 64, 64, 64],
    [64, 0, 1, 2, 3, 4, 5, 6, 7, 8, 9, 10, 11, 12, 13, 14],
    [15, 16, 17, 18, 19, 20, 21, 22, 23, 24, 25, 64, 64, 64, 64, 64],
    [64, 26, 27, 28, 29, 30, 31, 32, 33, 34, 35, 36, 37, 38, 39, 40],
    [41, 42, 43, 44, 45, 46, 47, 48, 49, 50, 51, 64, 64, 64, 64, 64]]

  /** The entries from 128 on are all 64. */
  function Pr2Six(c: byte): (v: nat)
    ensures v == if Value(c) >= 0 then Value(c) else 64
  {
    if c >= 128 then 64
    else
      assert |PR2SIX[c / 16]| == 16 && PR2SIX[c / 16][c % 16] == if Value(c) >= 0 then Value(c) else 64
        by { LowRows(c); }
      PR2SIX[c / 16][c % 16]
  }

  lemma LowRows(c: byte)
    requires c < 128
    ensures |PR2SIX[c / 16]| == 16 && PR2SIX[c / 16][c % 16] == if Value(c) >= 0 then Value(c) else 64
  {
    if c < 32 {
      assert c / 16 == 0 || c / 16 == 1;
    } else if c < 48 {
      assert c / 16 == 2;
    } else if c < 64 {
      assert c / 16 == 3;
    } else if c < 80 {
      assert c / 16 == 4;
    } else if c < 96 {
      assert c / 16 == 5;
    } else if c < 112 {
      assert c / 16 == 6;
    } else {
      assert c / 16 == 7;
    }
  }

  /** The three bytes written for four characters. */
  function Pack0(a: byte, b: byte): byte { Or(Pr2Six(a) * 4, Pr2Six(b) / 16) % 256 }
  function Pack1(b: byte, c: byte): byte { Or(Pr2Six(b) * 16, Pr2Six(c) / 4) % 256 }
  function Pack2(c: byte, d: byte): byte { Or(Pr2Six(c) * 64, Pr2Six(d)) % 256 }

  /** They are made of the low eight bits of the shifted values, also where a character is outside the alphabet. */
  lemma PackedBytes(a: byte, b: byte, c: byte, d: byte)
    ensures Pack0(a, b) == Or(Pr2Six(a) * 4, Pr2Six(b) / 16) % 256
    ensures Pack1(b, c) == Or(Pr2Six(b) * 16, Pr2Six(c) / 4) % 256
    ensures Pack2(c, d) == Or(Pr2Six(c) * 64, Pr2Six(d)) % 256
  {
    hide Or, Pr2Six, Value;
  }

  /** All bytes written for the first q quanta of a text. */
  function Packed(x: seq<byte>, q: nat): (d: seq<byte>)
    requires 4 * q <= |x|
    ensures |d| == 3 * q
    decreases q
  {
    if q == 0 then []
    else Quad(x) + Packed(x[4..], q - 1)
  }

  // ---- the decoder --------------------------------------------------------------------------

  /** How many groups of four it takes to hold n characters. */
  function Quanta(n: nat): (q: nat)
    ensures 4 * q - 4 < n <= 4 * q
  {
    (n + 3) / 4
  }

  predicate Blank(c: byte) { c == 32 || c == 9 }

  /** A text in a buffer: blanks up to p, then n alphabet characters, then another character. */
  ghost predicate Text(t: seq<byte>, p: nat, n: nat) {
    && p + n < |t| && p + 4 * Quanta(n) <= |t|
    && (forall k :: 0 <= k < p ==> Blank(t[k])) && !Blank(t[p])
    && (forall k :: p <= k < p + n ==> Value(t[k]) >= 0) && Value(t[p + n]) < 0
  }

  /** How many of the packed bytes the decoder reports; `third` is the last but one character of the last quantum. */
  function Reported(n: nat, third: byte): (len: int) {
    var full := 3 * Quanta(n);
    if n % 4 == 0 then full
    else if Pr2Six(third) > 63 then full - 2
    else full - 1
  }

  /** The cell the length test reads: in place it has been overwritten when there is only one quantum. */
  function LengthCell(t: seq<byte>, p: nat, n: nat, inPlace: bool): byte
    requires p + 4 * Quanta(n) <= |t|
  {
    var q := Quanta(n);
    if q == 0 then 0
    else if inPlace && q == 1 then Pack2(t[p + 2], t[p + 3])
    else t[p + 4 * q - 2]
  }

  /** Three bytes for each quantum, less one or two when the last one is not full. */
  ghost function SeparatelyReported(t: seq<byte>, p: nat, n: nat): int
    requires p + 4 * ((n + 3) / 4) <= |t|
  {
    (n + 3) / 4 * 3 - (if n % 4 == 0 then 0 else if Value(t[p + 4 * ((n + 3) / 4) - 2]) >= 0 then 1 else 2)
  }

  lemma SeparatelyReportedIs(t: seq<byte>, p: nat, n: nat)
    requires p + 4 * Quanta(n) <= |t|
    ensures Quanta(n) == (n + 3) / 4 && Reported(n, LengthCell(t, p, n, false)) == SeparatelyReported(t, p, n)
  {
    hide Value, Pr2Six;
  }

  /** The two scans at the start of b64decode. */
  method Scan(buf: array<byte>, ghost p: nat, ghost n: nat) returns (start: nat, nPrBytes: nat)
    requires Text(buf[..], p, n)
    ensures start == p && nPrBytes == n
  {
    hide Value;
    ghost var t := buf[..];
    start := 0;
    while buf[start] == 32 || buf[start] == 9
      invariant start <= p
      decreases p - start
    {
      assert start < p by { assert Blank(t[start]); }
      start := start + 1;
    }
    assert !Blank(t[start]);
    var i := start;
    while Pr2Six(buf[i]) <= 63
      invariant p <= i <= p + n
      decreases p + n - i
    {
      assert i < p + n by { assert Value(t[i]) >= 0; }
      i := i + 1;
    }
    assert Value(t[i]) < 0;
    nPrBytes := i - start;
  }

  /** One quantum. A write may hit the buffer being read, but only cells before the next one to be read. */
  method UnpackOne(buf: array<byte>, i: nat, plain: array<byte>, o: nat)
    requires i + 4 <= buf.Length && o + 3 <= plain.Length
    requires plain == buf ==> o <= i
    modifies plain
    ensures plain[o] == old(Pack0(buf[i], buf[i + 1]))
    ensures plain[o + 1] == old(Pack1(buf[i + 1], buf[i + 2]))
    ensures plain[o + 2] == old(Pack2(buf[i + 2], buf[i + 3]))
    ensures forall k :: 0 <= k < plain.Length && !(o <= k < o + 3) ==> plain[k] == old(plain[k])
  {
    hide Pack0, Pack1, Pack2;
    plain[o] := Pack0(buf[i], buf[i + 1]);
    plain[o + 1] := Pack1(buf[i + 1], buf[i + 2]);
    plain[o + 2] := Pack2(buf[i + 2], buf[i + 3]);
  }

  lemma {:induction false} PackedAt(x: seq<byte>, quanta: nat, q: nat)
    requires q < quanta && 4 * quanta <= |x|
    ensures Packed(x, quanta)[3 * q] == Pack0(x[4 * q], x[4 * q + 1])
    ensures Packed(x, quanta)[3 * q + 1] == Pack1(x[4 * q + 1], x[4 * q + 2])
    ensures Packed(x, quanta)[3 * q + 2] == Pack2(x[4 * q + 2], x[4 * q + 3])
    decreases quanta
  {
    hide Pack0, Pack1, Pack2;
    var rest := x[4..];
    assert Packed(x, quanta) == Quad(x) + Packed(rest, quanta - 1);
    if q > 0 {
      PackedAt(rest, quanta - 1, q - 1);
      hide Packed, Quad;
      assert forall i :: 3 <= i < 3 * quanta ==> Packed(x, quanta)[i] == Packed(rest, quanta - 1)[i - 3];
      assert forall i :: 4 <= i < |x| ==> x[i] == rest[i - 4];
    }
  }

  /** The main loop: three bytes for every four characters. */
  method Unpack(buf: array<byte>, start: nat, n: nat, plain: array<byte>, base: nat, ghost quanta: nat)
    returns (bufIn: nat)
    requires 4 * quanta - 4 < n <= 4 * quanta
    requires start + 4 * quanta <= buf.Length && base + 3 * quanta <= plain.Length
    requires plain == buf ==> base == start
    modifies plain
    ensures bufIn == start + 4 * quanta
    ensures plain[base..base + 3 * quanta] == Packed(old(buf[start..]), quanta)
    ensures forall k :: base + 3 * quanta <= k < plain.Length ==> plain[k] == old(plain[k])
  {
    hide Pack0, Pack1, Pack2, Packed;
    ghost var x := buf[start..];
    ghost var result := Packed(x, quanta);
    ghost var q := 0;
    bufIn := start;
    var bufOut, nPrBytes: int := base, n;
    while nPrBytes > 0
      invariant 0 <= q <= quanta && nPrBytes == n - 4 * q
      invariant bufIn == start + 4 * q && bufOut == base + 3 * q
      invariant forall k :: 0 <= k < 3 * q ==> plain[base + k] == result[k]
      invariant forall k :: bufOut <= k < plain.Length ==> plain[k] == old(plain[k])
    {
      PackedAt(x, quanta, q);
      assert buf[bufIn] == x[4 * q] && buf[bufIn + 1] == x[4 * q + 1];
      assert buf[bufIn + 2] == x[4 * q + 2] && buf[bufIn + 3] == x[4 * q + 3];
      UnpackOne(buf, bufIn, plain, bufOut);
      bufOut := bufOut + 3;
      bufIn := bufIn + 4;
      nPrBytes := nPrBytes - 4;
      q := q + 1;
    }
    assert plain[base..base + 3 * quanta] == result;
  }

  /** b64decode, separate or in place. */
  method B64Decode(buf: array<byte>, inPlace: bool, ghost p: nat, ghost n: nat)
    returns (plain: array<byte>, base: nat, len: nat)
    requires Text(buf[..], p, n)
    modifies buf
    ensures if inPlace then plain == buf && base == p else fresh(plain) && base == 0 && buf[..] == old(buf[..])
    ensures len == Reported(n, LengthCell(old(buf[..]), p, n, inPlace))
    ensures !inPlace ==> len == SeparatelyReported(old(buf[..]), p, n)
    ensures base + len < plain.Length && len <= 3 * Quanta(n) && plain[base + len] == 0
    ensures plain[base..base + len] == Packed(old(buf[p..]), Quanta(n))[..len]
  {
    hide Pack0, Pack1, Pack2, Packed, Pr2Six, Quanta, Text, LengthCell, Reported;
    ghost var t := buf[..];
    TextBounds(t, p, n);
    SeparatelyReportedIs(t, p, n);
    hide SeparatelyReported;
    ghost var x := buf[p..];
    var start, nPrBytes := Scan(buf, p, n);
    var quanta := Quanta(nPrBytes);
    if inPlace {
      plain, base := buf, start;
    } else {
      plain, base := new byte[quanta * 3 + 1], 0;
    }
    var bufIn := Unpack(buf, start, nPrBytes, plain, base, quanta);
    LengthCellIs(t, p, n, inPlace, buf[..], plain[base..base + 3 * quanta]);
    len := TrimLength(buf, bufIn, nPrBytes);
    EndString(plain, base, len, Packed(x, quanta));
  }

  lemma TextBounds(t: seq<byte>, p: nat, n: nat)
    requires Text(t, p, n)
    ensures p + n < |t| && p + 4 * Quanta(n) <= |t|
  {
  }

  /** The length test: a last quantum that is not full lacks one or two bytes. */
  method TrimLength(buf: array<byte>, bufIn: nat, nPrBytes: nat) returns (len: nat)
    requires bufIn <= buf.Length && (nPrBytes > 0 ==> bufIn >= 2)
    ensures len == Reported(nPrBytes, if nPrBytes > 0 then buf[bufIn - 2] else 0)
    ensures len <= 3 * Quanta(nPrBytes)
  {
    hide Pr2Six;
    len := Quanta(nPrBytes) * 3;
    if nPrBytes % 4 != 0 {
      if Pr2Six(buf[bufIn - 2]) > 63 {
        len := len - 2;
      } else {
        len := len - 1;
      }
    }
  }

  method EndString(plain: array<byte>, base: nat, len: nat, ghost packed: seq<byte>)
    requires len <= |packed| && base + len < plain.Length && base + |packed| <= plain.Length
    requires plain[base..base + |packed|] == packed
    modifies plain
    ensures plain[base + len] == 0 && plain[base..base + len] == packed[..len]
    ensures forall k :: 0 <= k < plain.Length && k != base + len ==> plain[k] == old(plain[k])
  {
    assert plain[base..base + len] == packed[..len];
    plain[base + len] := 0;
  }

  /** The cell read by the length test, after the loop. */
  lemma LengthCellIs(t: seq<byte>, p: nat, n: nat, inPlace: bool, now: seq<byte>, packed: seq<byte>)
    requires Text(t, p, n) && |now| == |t|
    requires packed == Packed(t[p..], Quanta(n))
    requires !inPlace ==> now == t
    requires inPlace ==> now[p..p + |packed|] == packed && now[p + |packed|..] == t[p + |packed|..]
    ensures p + 4 * Quanta(n) <= |t|
    ensures (if n > 0 then now[p + 4 * Quanta(n) - 2] else 0) == LengthCell(t, p, n, inPlace)
  {
    var q := Quanta(n);
    if inPlace && q == 1 {
      assert now[p + 2] == packed[2];
    } else if inPlace && q > 1 {
      assert now[p + 3 * q..][q - 2] == t[p + 3 * q..][q - 2];
    }
  }

  // ---- decoding an encoding -----------------------------------------------------------------

  lemma Wraps(u: int, v: int)
    requires 0 <= u < 64 && 0 <= v < 64
    ensures (u * 4 + v / 16) % 256 == u * 4 + v / 16
    ensures (u * 16 + v / 4) % 256 == u % 16 * 16 + v / 4
    ensures (u * 64 + v) % 256 == u % 4 * 64 + v
  {
    ModUnique(u * 4 + v / 16, 256, 0, u * 4 + v / 16);
    ModUnique(u * 16 + v / 4, 256, u / 16, u % 16 * 16 + v / 4);
    ModUnique(u * 64 + v, 256, u / 4, u % 4 * 64 + v);
  }

  lemma SixOfPad(c: byte)
    requires c == PAD
    ensures Pr2Six(c) == 64 && Value(c) == -1
  {
    hide Pr2Six;
  }

  lemma SixOfDigit(v: sextet)
    ensures Pr2Six(Digit(v)) == v && Value(Digit(v)) == v
  {
    hide Pr2Six;
    ValueOfDigit(v);
  }

  lemma PackIsByte(u: sextet, v: sextet)
    ensures Pack0(Digit(u), Digit(v)) == Byte0(u, v)
    ensures Pack1(Digit(u), Digit(v)) == Byte1(u, v)
    ensures Pack2(Digit(u), Digit(v)) == Byte2(u, v)
  {
    hide Or, Digit, Value, Pr2Six;
    SixOfDigit(u);
    SixOfDigit(v);
    OrLow(u, v as int / 16);
    OrLow(u, v as int / 4);
    OrLow(u, v);
    Wraps(u, v);
  }

  lemma Multiple256(j: nat)
    ensures Multiple(256 * j, 8)
  {
    hide Multiple;
    Multiples(j);
    Doubled(64 * j, 6);
    Doubled(128 * j, 7);
  }

  lemma Times256(j: nat)
    ensures Or(256 * j, 64) % 256 == 64
  {
    hide Or, Multiple;
    Multiple256(j);
    Pow2Literals();
    OrDisjoint(256 * j, 64, 8);
    ModUnique(256 * j + 64, 256, j, 64);
  }

  /** The last byte packed from a padded quantum is always 64, which is no alphabet character. */
  lemma PaddedThird(c: byte, d: byte)
    requires Pr2Six(c) % 4 == 0 && d == PAD
    ensures Pack2(c, d) == 64
  {
    hide Or, Pr2Six, Value;
    SixOfPad(d);
    Times256(Pr2Six(c) / 4);
    assert Pr2Six(c) * 64 == 256 * (Pr2Six(c) / 4);
  }

  /** The number of alphabet characters in the encoding of k bytes. */
  function Digits(k: nat): (n: nat) {
    if k == 0 then 0 else if k <= 2 then k + 1 else 4 + Digits(k - 3)
  }

  /** The three bytes packed from four characters. */
  function Quad(g: seq<byte>): (d: seq<byte>)
    requires |g| >= 4
    ensures |d| == 3
  {
    [Pack0(g[0], g[1]), Pack1(g[1], g[2]), Pack2(g[2], g[3])]
  }

  /** What scanning and packing one encoded group of |d| bytes gives. */
  ghost predicate Packs(d: seq<byte>, g: seq<byte>)
    requires 1 <= |d| <= 3 && |g| == 4
  {
    && Value(g[0]) >= 0 && Value(g[1]) >= 0
    && (Value(g[2]) >= 0 <==> |d| >= 2) && (Value(g[3]) >= 0 <==> |d| == 3)
    && Quad(g)[..|d|] == d
    && (|d| < 3 ==> Quad(g)[2] == 64)
  }

  lemma FirstByte(a: byte, b: byte)
    ensures Byte0(Digit0(a), Digit1(a, b)) == a
  {
  }

  lemma PaddedQuad(u: sextet, v: sextet, g: seq<byte>)
    requires |g| == 4 && g[0] == Digit(u) && g[1] == Digit(v) && g[2] == PAD && g[3] == PAD
    ensures Packs([Byte0(u, v)], g)
  {
    hide Digit, Byte0, Pack0, Pack1, Pack2, Pr2Six, Value, Or;
    SixOfDigit(u);
    SixOfDigit(v);
    PackIsByte(u, v);
    SixOfPad(g[2]);
    SixOfPad(g[3]);
    PaddedThird(g[2], g[3]);
  }

  lemma OnePacks(a: byte, g: seq<byte>)
    requires g == Group([a])
    ensures Packs([a], g)
  {
    hide Packs, Digit, Digit0, Digit1, Digit2, Digit3, Byte0, Byte1, Byte2;
    FirstByte(a, 0);
    PaddedQuad(Digit0(a), Digit1(a, 0), g);
  }

  lemma LowBitsFree(b: byte)
    ensures Digit2(b, 0) as int % 4 == 0
  {
  }

  lemma TwoPack(a: byte, b: byte, g: seq<byte>)
    requires g == Group([a, b])
    ensures Packs([a, b], g)
  {
    hide Digit, Digit0, Digit1, Digit2, Digit3, Byte0, Byte1, Byte2, Pack0, Pack1, Pack2, Pr2Six, Value, Or;
    var u, v, w := Digit0(a), Digit1(a, b), Digit2(b, 0);
    LowBitsFree(b);
    BytesOfDigits(a, b, 0);
    SixOfDigit(u);
    SixOfDigit(v);
    SixOfDigit(w);
    PackIsByte(u, v);
    PackIsByte(v, w);
    SixOfPad(g[3]);
    PaddedThird(g[2], g[3]);
  }

  lemma ThreePack(a: byte, b: byte, c: byte)
    ensures Packs([a, b, c], Group([a, b, c]))
  {
    var u, v, w, x := Digit0(a), Digit1(a, b), Digit2(b, c), Digit3(c);
    BytesOfDigits(a, b, c);
    hide Digit, Digit0, Digit1, Digit2, Digit3, Byte0, Byte1, Byte2, Pack0, Pack1, Pack2, Pr2Six, Value, Or;
    SixOfDigit(u);
    SixOfDigit(v);
    SixOfDigit(w);
    SixOfDigit(x);
    PackIsByte(u, v);
    PackIsByte(v, w);
    PackIsByte(w, x);
  }

  lemma GroupPacks(d: seq<byte>)
    requires 1 <= |d| <= 3
    ensures Packs(d, Group(d))
  {
    hide Group, Packs;
    if |d| == 1 {
      assert d == [d[0]];
      OnePacks(d[0], Group(d));
    } else if |d| == 2 {
      assert d == [d[0], d[1]];
      TwoPack(d[0], d[1], Group(d));
    } else {
      assert d == [d[0], d[1], d[2]];
      ThreePack(d[0], d[1], d[2]);
    }
  }

  /** The number of groups of k bytes. */
  function Groups(k: nat): (q: nat)
    ensures 3 * q - 3 < k <= 3 * q
    ensures 4 * q - 4 < Digits(k) <= 4 * q
  {
    if k == 0 then 0 else if k <= 3 then 1 else 1 + Groups(k - 3)
  }

  lemma QuantaOfDigits(k: nat)
    ensures Quanta(Digits(k)) == Groups(k)
  {
  }

  lemma {:induction false} EncodeGroups(d: seq<byte>)
    ensures |Encode(d)| == 4 * Groups(|d|)
  {
    hide Group;
    if |d| > 3 { EncodeGroups(d[3..]); }
  }

  /** A text that starts with an encoding, taken apart at the first group. */
  lemma FirstGroup(d: seq<byte>, rest: seq<byte>, x: seq<byte>)
    requires x == Encode(d) + rest && d != []
    ensures |d| <= 3 ==> x == Group(d) + rest
    ensures |d| > 3 ==> x[..4] == Group(d[..3]) && x[4..] == Encode(d[3..]) + rest
  {
    hide Group, Encode;
    if |d| <= 3 {
      EncodeOfShort(d);
    } else {
      EncodeStep(d);
      Regroup4(Group(d[..3]), Encode(d[3..]), rest, x);
    }
  }

  lemma EncodeOfShort(d: seq<byte>)
    requires 1 <= |d| <= 3
    ensures Encode(d) == Group(d)
  {
    hide Group;
  }

  lemma Regroup4(g: seq<byte>, e: seq<byte>, rest: seq<byte>, x: seq<byte>)
    requires |g| == 4 && x == g + e + rest
    ensures x[..4] == g && x[4..] == e + rest
  {
  }

  /** The scans stop right after the last digit of an encoding. */
  lemma {:induction false} EncodingScans(d: seq<byte>, rest: seq<byte>, x: seq<byte>)
    requires rest != [] && Value(rest[0]) < 0 && x == Encode(d) + rest
    ensures Digits(|d|) < |x| && Value(x[Digits(|d|)]) < 0
    ensures forall k :: 0 <= k < Digits(|d|) ==> Value(x[k]) >= 0
    decreases |d|
  {
    hide Group, Encode, Value, Quad;
    EncodeOfNothing();
    if d != [] {
      FirstGroup(d, rest, x);
      if |d| <= 3 {
        GroupPacks(d);
      } else {
        GroupPacks(d[..3]);
        var y := x[4..];
        EncodingScans(d[3..], rest, y);
        assert Digits(|d|) == 4 + Digits(|d[3..]|);
        forall k | 0 <= k < Digits(|d|) ensures Value(x[k]) >= 0 {
          if k < 4 { assert x[k] == x[..4][k]; } else { assert x[k] == y[k - 4]; }
        }
        assert x[Digits(|d|)] == y[Digits(|d| - 3)];
      }
    }
  }

  lemma EncodeOfNothing()
    ensures Encode([]) == []
  {
  }

  /** Packing an encoding gives back the bytes. */
  lemma {:induction false} EncodingPacks(d: seq<byte>, rest: seq<byte>, x: seq<byte>)
    requires x == Encode(d) + rest
    ensures 4 * Groups(|d|) <= |x|
    ensures Packed(x, Groups(|d|))[..|d|] == d
    decreases |d|
  {
    hide Group, Encode, Value, Pack0, Pack1, Pack2;
    EncodeGroups(d);
    if d != [] {
      FirstGroup(d, rest, x);
      if |d| <= 3 {
        GroupPacks(d);
        QuadOfPrefix(x, Group(d));
      } else {
        GroupPacks(d[..3]);
        QuadOfPrefix(x, x[..4]);
        EncodingPacks(d[3..], rest, x[4..]);
        assert d == d[..3] + d[3..];
      }
    }
  }

  lemma QuadOfPrefix(x: seq<byte>, g: seq<byte>)
    requires |g| == 4 && g <= x
    ensures Quad(x) == Quad(g)
  {
    hide Pack0, Pack1, Pack2;
  }

  lemma ReportedShift(n: nat, third: byte)
    ensures Reported(n + 4, third) == Reported(n, third) + 3
  {
    hide Pr2Six;
  }

  lemma OneQuantumLength(d: seq<byte>, g: seq<byte>)
    requires 1 <= |d| <= 3 && g == Group(d)
    ensures Reported(Digits(|d|), g[2]) == |d|
  {
    hide Group, Value, Pr2Six, Quad;
    GroupPacks(d);
  }

  lemma DigitsAndGroups(k: nat)
    requires k > 3
    ensures Digits(k) == Digits(k - 3) + 4 && Groups(k) == Groups(k - 3) + 1 && Groups(k - 3) >= 1
  {
  }

  /** The length test on the untouched text finds the length of the original. */
  lemma {:induction false} EncodingLength(d: seq<byte>, rest: seq<byte>, x: seq<byte>)
    requires x == Encode(d) + rest && d != []
    ensures 4 * Groups(|d|) <= |x| && Reported(Digits(|d|), x[4 * Groups(|d|) - 2]) == |d|
    decreases |d|
  {
    hide Group, Encode, Reported, Digits;
    EncodeGroups(d);
    FirstGroup(d, rest, x);
    if |d| <= 3 {
      OneQuantumLength(d, Group(d));
      assert x[2] == Group(d)[2];
    } else {
      var y, i := x[4..], 4 * Groups(|d|) - 2;
      DigitsAndGroups(|d|);
      EncodingLength(d[3..], rest, y);
      assert x[i] == y[i - 4];
      ReportedShift(Digits(|d| - 3), x[i]);
    }
  }

  /** In place with a single quantum the test reads the third byte packed. */
  lemma OneQuantumInPlace(d: seq<byte>, g: seq<byte>)
    requires 1 <= |d| <= 3 && g == Group(d)
    ensures Reported(Digits(|d|), Pack2(g[2], g[3])) == if |d| == 2 then 1 else |d|
  {
    hide Group, Value, Pr2Six, Pack0, Pack1, Pack2, Quanta;
    GroupPacks(d);
    NotAlphabet64();
  }

  lemma EmptyEncoding(d: seq<byte>, n: nat, third: byte)
    requires d == [] && n == Digits(|d|)
    ensures Reported(n, third) == 0
  {
    hide Pr2Six;
  }

  /** Separate decoding leaves the cell that the length test reads as it was. */
  lemma SeparateCell(t: seq<byte>, p: nat, n: nat, q: nat, x: seq<byte>)
    requires p <= |t| && x == t[p..] && q == Quanta(n) > 0 && 4 * q <= |x|
    ensures LengthCell(t, p, n, false) == x[4 * q - 2]
  {
    hide Quanta;
  }

  /** The length reported by separate decoding is the length of the original. */
  lemma SeparateLength(d: seq<byte>, rest: seq<byte>, t: seq<byte>, p: nat)
    requires p <= |t| && t[p..] == Encode(d) + rest
    ensures p + 4 * Quanta(Digits(|d|)) <= |t|
    ensures Reported(Digits(|d|), LengthCell(t, p, Digits(|d|), false)) == |d|
  {
    hide Encode, Quanta, Reported, Digits, LengthCell, Groups;
    RoomForQuanta(d, rest, t, p);
    var n, q := Digits(|d|), Groups(|d|);
    if d == [] {
      EmptyEncoding(d, n, LengthCell(t, p, n, false));
    } else {
      SeparateLengthOf(d, rest, t, p, t[p..]);
    }
  }

  lemma SeparateLengthOf(d: seq<byte>, rest: seq<byte>, t: seq<byte>, p: nat, x: seq<byte>)
    requires p <= |t| && x == t[p..] && d != [] && 4 * Quanta(Digits(|d|)) <= |x|
    requires IsEncodingOf(x, d, rest)
    ensures Reported(Digits(|d|), LengthCell(t, p, Digits(|d|), false)) == |d|
  {
    hide IsEncodingOf, Quanta, Reported, Digits, LengthCell, Groups;
    var n, q := Digits(|d|), Groups(|d|);
    QuantaOfDigits(|d|);
    UntouchedLength(d, rest, x, n, q);
    SomeGroup(|d|);
    SeparateCell(t, p, n, q, x);
  }

  lemma SomeGroup(k: nat)
    requires k > 0
    ensures Groups(k) > 0
  {
  }

  ghost predicate IsEncodingOf(x: seq<byte>, d: seq<byte>, rest: seq<byte>) { x == Encode(d) + rest }

  lemma UntouchedLength(d: seq<byte>, rest: seq<byte>, x: seq<byte>, n: nat, q: nat)
    requires IsEncodingOf(x, d, rest) && d != [] && n == Digits(|d|) && q == Groups(|d|)
    ensures 4 * q <= |x| && Reported(n, x[4 * q - 2]) == |d|
  {
    hide Encode, Reported, Digits, Groups;
    EncodingLength(d, rest, x);
  }

  /** The text holds all quanta of the encoding. */
  lemma RoomForQuanta(d: seq<byte>, rest: seq<byte>, t: seq<byte>, p: nat)
    requires p <= |t| && t[p..] == Encode(d) + rest
    ensures Quanta(Digits(|d|)) == Groups(|d|) && p + 4 * Groups(|d|) <= |t| && (d != [] ==> Groups(|d|) > 0)
  {
    hide Encode, Quanta, Digits, Groups;
    QuantaOfDigits(|d|);
    EncodeGroups(d);
    assert |t[p..]| == |t| - p;
  }

  /** In place, the length test goes wrong exactly for two bytes, which are reported as one. */
  lemma InPlaceLength(d: seq<byte>, rest: seq<byte>, t: seq<byte>, p: nat)
    requires p <= |t| && t[p..] == Encode(d) + rest
    ensures p + 4 * Quanta(Digits(|d|)) <= |t|
    ensures Reported(Digits(|d|), LengthCell(t, p, Digits(|d|), true)) == if |d| == 2 then 1 else |d|
  {
    hide Encode, Quanta, Reported, Digits, Pack2, Group;
    QuantaOfDigits(|d|);
    EncodeGroups(d);
    if d == [] {
      EmptyEncoding(d, Digits(|d|), LengthCell(t, p, Digits(|d|), true));
    } else if |d| <= 3 {
      var x := t[p..];
      FirstGroup(d, rest, x);
      OneQuantumInPlace(d, Group(d));
      assert t[p + 2] == x[2] == Group(d)[2] && t[p + 3] == x[3] == Group(d)[3];
    } else {
      SeparateLength(d, rest, t, p);
      assert LengthCell(t, p, Digits(|d|), true) == LengthCell(t, p, Digits(|d|), false);
    }
  }

  /** The values that, read as a character, are in the alphabet: '+', '/' and the digits. */
  predicate ReadsAsDigit(w: nat) { w == 43 || 47 <= w <= 57 }

  /** The same for 64 plus the value: the letters. */
  predicate ReadsAsLetter(w: nat) { 1 <= w <= 26 || 33 <= w <= 58 }

  /** What the third byte of a quantum is, from the values of its last two characters. */
  lemma ThirdByte(c: byte, d: byte)
    ensures var v, w := Pr2Six(c), Pr2Six(d);
      Pack2(c, d) == if w < 64 then v % 4 * 64 + w else if v % 4 < 2 then 64 else 192
  {
    hide Or, Pr2Six, Value;
    var v, w := Pr2Six(c), Pr2Six(d);
    if w < 64 {
      OrLow(v, w);
      ModUnique(v * 64 + w, 256, v / 4, v % 4 * 64 + w);
    } else {
      Times64(v);
    }
  }

  lemma Times64(v: nat)
    ensures Or(v * 64, 64) % 256 == if v % 4 < 2 then 64 else 192
  {
    hide Or;
    var a, b := v / 4, v % 4;
    OrOneIs(v, a, b);
    OrTimes64(v);
    Remainder256(a);
  }

  lemma OrOneIs(v: nat, a: nat, b: nat)
    requires v == 4 * a + b && b < 4
    ensures Or(v, 1) == if b < 2 then 4 * a + 1 else 4 * a + 3
  {
    hide Or;
    Halving(v, 2 * a + (if b < 2 then 0 else 1), if b == 0 || b == 2 then 0 else 1);
    OrOne(v);
  }

  lemma Remainder256(a: nat)
    ensures 64 * (4 * a + 1) % 256 == 64 && 64 * (4 * a + 3) % 256 == 192
  {
    ModUnique(64 * (4 * a + 1), 256, a, 64);
    ModUnique(64 * (4 * a + 3), 256, a, 192);
  }

  lemma OrTimes64(v: nat)
    ensures Or(64 * v, 64) == 64 * Or(v, 1)
  {
    hide Or;
    OrDoubled(32 * v, 32);
    OrDoubled(16 * v, 16);
    OrDoubled(8 * v, 8);
    OrDoubled(4 * v, 4);
    OrDoubled(2 * v, 2);
    OrDoubled(v, 1);
  }

  lemma OrDoubled(a: nat, b: nat)
    ensures Or(2 * a, 2 * b) == 2 * Or(a, b)
  {
  }

  lemma OrOne(v: nat)
    ensures Or(v, 1) == if v % 2 == 1 then v else v + 1
  {
    OrZero(v / 2);
  }

  lemma {:induction false} OrZero(q: nat)
    ensures Or(q, 0) == q
  {
    if q > 0 { OrZero(q / 2); }
  }

  /**
   * When in-place decoding reports the same length as separate decoding, for any text: with v and w the values of the
   * third and fourth character of the only quantum (64 for a character outside the alphabet).
   */
  predicate InPlaceLengthRight(n: nat, v: nat, w: nat) {
    || Quanta(n) != 1
    || n == 4
    || (n == 2 && !ReadsAsDigit(w))
    || (n == 1 && v == 64 && !ReadsAsDigit(w))
    || (n == 1 && v < 64 && ((v % 4 == 0 && ReadsAsDigit(w)) || (v % 4 == 1 && ReadsAsLetter(w))))
  }

  lemma InPlaceLengthRightIff(t: seq<byte>, p: nat, n: nat)
    requires Text(t, p, n)
    ensures var v, w := if Quanta(n) == 1 then Pr2Six(t[p + 2]) else 0, if Quanta(n) == 1 then Pr2Six(t[p + 3]) else 0;
      Reported(n, LengthCell(t, p, n, true)) == Reported(n, LengthCell(t, p, n, false))
      <==> InPlaceLengthRight(n, v, w)
  {
    hide Pack2, Text, Pr2Six, Quanta, Reported, InPlaceLengthRight;
    TextBounds(t, p, n);
    if Quanta(n) == 1 {
      var c, d := t[p + 2], t[p + 3];
      ThirdByte(c, d);
      OneQuantumChars(t, p, n);
      SameLengthIff(n, c, Pack2(c, d), Pr2Six(c), Pr2Six(d));
    } else {
      ManyQuanta(n);
    }
  }

  lemma ManyQuanta(n: nat)
    requires Quanta(n) != 1
    ensures InPlaceLengthRight(n, 0, 0)
  {
  }

  lemma SameLengthIff(n: nat, c: byte, b: byte, v: nat, w: nat)
    requires 1 <= n <= 4 && Quanta(n) == 1 && v == Pr2Six(c) && w <= 64
    requires b == if w < 64 then v % 4 * 64 + w else if v % 4 < 2 then 64 else 192
    requires (n == 2 ==> v == 64) && (n == 3 ==> v < 64 && w == 64)
    ensures Reported(n, b) == Reported(n, c) <==> InPlaceLengthRight(n, v, w)
  {
    hide Pr2Six;
    AlphabetOf(b, v, w);
  }

  lemma OneQuantumChars(t: seq<byte>, p: nat, n: nat)
    requires Text(t, p, n) && Quanta(n) == 1
    ensures 1 <= n <= 4 && p + 4 <= |t|
    ensures n == 2 ==> Pr2Six(t[p + 2]) == 64
    ensures n == 3 ==> Pr2Six(t[p + 2]) < 64 && Pr2Six(t[p + 3]) == 64
  {
    hide Value, Pr2Six;
  }

  /** Which third bytes are alphabet characters. */
  lemma AlphabetOf(b: byte, v: nat, w: nat)
    requires v <= 64 && w <= 64 && b == if w < 64 then v % 4 * 64 + w else if v % 4 < 2 then 64 else 192
    ensures Pr2Six(b) <= 63 <==> (v % 4 == 0 && ReadsAsDigit(w)) || (v % 4 == 1 && ReadsAsLetter(w))
  {
    hide Pr2Six;
  }

  lemma NotAlphabet64()
    ensures Pr2Six(64) == 64
  {
    hide Pr2Six;
  }

  /** Any blanks before an encoding and any non-alphabet character after it make a text the decoder accepts. */
  lemma EncodingIsText(d: seq<byte>, rest: seq<byte>, t: seq<byte>, p: nat)
    requires p <= |t| && t[p..] == Encode(d) + rest && rest != [] && Value(rest[0]) < 0
    requires rest[0] != ' ' as int && rest[0] != '\t' as int
    requires forall k :: 0 <= k < p ==> t[k] == ' ' as int || t[k] == '\t' as int
    ensures Text(t, p, Digits(|d|))
  {
    hide Encode, Value, Quanta, Digits;
    var x, n := t[p..], Digits(|d|);
    EncodingScans(d, rest, x);
    QuantaOfDigits(|d|);
    EncodeGroups(d);
    FirstCharacter(d, rest, x);
    assert t[p] == x[0] && t[p + n] == x[n];
    forall k | p <= k < p + n ensures Value(t[k]) >= 0 { assert t[k] == x[k - p]; }
  }

  lemma FirstCharacter(d: seq<byte>, rest: seq<byte>, x: seq<byte>)
    requires x == Encode(d) + rest && rest != [] && !Blank(rest[0])
    requires Digits(|d|) < |x| && forall k :: 0 <= k < Digits(|d|) ==> Value(x[k]) >= 0
    ensures !Blank(x[0])
  {
    hide Encode;
    if d == [] {
      EncodeOfNothing();
      assert x == rest;
    } else {
      assert Value(x[0]) >= 0;
    }
  }

  /** Encoding and decoding, separate or in place: the bytes come back unless two bytes are decoded in place. */
  method RoundTrip(src: seq<byte>, inPlace: bool) returns (plain: array<byte>, base: nat, len: nat)
    ensures base + len <= plain.Length
    ensures plain[base..base + len] == src <==> !(inPlace && |src| == 2)
    ensures inPlace && |src| == 2 ==> plain[base..base + len] == src[..1]
  {
    hide Encode, Packed, Text, Reported, LengthCell, Digits, Quanta;
    var buf := B64Encode(src);
    ghost var t := buf[..];
    assert t[0..] == Encode(src) + [0];
    EncodingIsText(src, [0], t, 0);
    SeparateLength(src, [0], t, 0);
    InPlaceLength(src, [0], t, 0);
    EncodingPacks(src, [0], t[0..]);
    QuantaOfDigits(|src|);
    plain, base, len := B64Decode(buf, inPlace, 0, Digits(|src|));
    assert plain[base..base + len] == src[..len];
  }
}
