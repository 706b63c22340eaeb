/** Base64 as section 4 of RFC 4648 defines it, and the two streams the resumable programs step through. */
module Base64Spec {
  import opened Bits

  type byte = x: int | 0 <= x < 256
  type sextet = x: int | 0 <= x < 64

  const PAD: byte := 61 // '='

  // ---- the alphabet -------------------------------------------------------------------------

  /** The character of a 6-bit value. */
  function Digit(v: sextet): (c: byte) {
    if v < 26 then v + 65
    else if v < 52 then v + 71
    else if v < 62 then v - 4
    else if v == 62 then 43
    else 47
  }

  /** The 6-bit value of a character, or -1. */
  function Value(c: byte): (v: int)
    ensures -1 <= v < 64
  {
    if 65 <= c <= 90 then c - 65
    else if 97 <= c <= 122 then c - 71
    else if 48 <= c <= 57 then c + 4
    else if c == 43 then 62
    else if c == 47 then 63
    else -1
  }

  lemma ValueOfDigit(v: sextet)
    ensures Value(Digit(v)) == v
  {
  }

  lemma DigitOfValue(c: byte)
    ensures Value(c) >= 0 ==> Digit(Value(c)) == c
  {
  }

  /** The alphabet of table 1 of RFC 4648, and the padding outside it. */
  lemma AlphabetIs(v: sextet)
    ensures v < 26 ==> Digit(v) == 'A' as int + v
    ensures 26 <= v < 52 ==> Digit(v) == 'a' as int + v - 26
    ensures 52 <= v < 62 ==> Digit(v) == '0' as int + v - 52
    ensures v == 62 ==> Digit(v) == '+' as int
    ensures v == 63 ==> Digit(v) == '/' as int
    ensures PAD == '=' as int && Digit(v) != '=' as int
  {
  }

  // ---- the encoding ---------------------------------------------------------------------------

  /** The four 6-bit groups of three bytes. */
  function Digit0(a: byte): (v: sextet) { a / 4 }
  function Digit1(a: byte, b: byte): (v: sextet) { a % 4 * 16 + b / 16 }
  function Digit2(b: byte, c: byte): (v: sextet) { b % 16 * 4 + c / 64 }
  function Digit3(c: byte): (v: sextet) { c % 64 }

  /** The groups are the base-64 digits of the three bytes read as one 24-bit number. */
  lemma DigitsOfGroup(a: byte, b: byte, c: byte)
    ensures a * 0x10000 + b * 0x100 + c
         == Digit0(a) as int * 0x40000 + Digit1(a, b) as int * 0x1000 + Digit2(b, c) as int * 64 + Digit3(c) as int
  {
  }

  /** The three bytes of four 6-bit groups. */
  function Byte0(u: sextet, v: sextet): (a: byte) { u as int * 4 + v as int / 16 }
  function Byte1(v: sextet, w: sextet): (b: byte) { v as int % 16 * 16 + w as int / 4 }
  function Byte2(w: sextet, x: sextet): (c: byte) { w as int % 4 * 64 + x as int }

  lemma BytesOfDigits(a: byte, b: byte, c: byte)
    ensures Byte0(Digit0(a), Digit1(a, b)) == a
    ensures Byte1(Digit1(a, b), Digit2(b, c)) == b
    ensures Byte2(Digit2(b, c), Digit3(c)) == c
  {
  }

  /** The encoding of one, two or three bytes. */
  function Group(d: seq<byte>): (s: seq<byte>)
    requires 1 <= |d| <= 3
    ensures |s| == 4
  {
    if |d| == 1 then [Digit(Digit0(d[0])), Digit(Digit1(d[0], 0)), PAD, PAD]
    else if |d| == 2 then [Digit(Digit0(d[0])), Digit(Digit1(d[0], d[1])), Digit(Digit2(d[1], 0)), PAD]
    else [Digit(Digit0(d[0])), Digit(Digit1(d[0], d[1])), Digit(Digit2(d[1], d[2])), Digit(Digit3(d[2]))]
  }

  /** The encoding of a byte string: 24-bit groups, the last one padded. */
  function Encode(d: seq<byte>): (s: seq<byte>) {
    if d == [] then []
    else if |d| <= 3 then Group(d)
    else Group(d[..3]) + Encode(d[3..])
  }

  lemma {:induction false} EncodeLength(d: seq<byte>)
    ensures |Encode(d)| == 4 * ((|d| + 2) / 3)
  {
    hide Group;
    if |d| > 3 {
      EncodeLength(d[3..]);
      ThirdsStep(|d|);
    } else {
      ThirdsBase(|d|);
    }
  }

  lemma ThirdsStep(n: nat)
    requires n > 3
    ensures (n + 2) / 3 == (n - 3 + 2) / 3 + 1
  {
  }

  lemma ThirdsBase(n: nat)
    requires n <= 3
    ensures (n + 2) / 3 == if n == 0 then 0 else 1
  {
  }

  lemma FirstQuantum(d: seq<byte>)
    requires d != []
    ensures var g := Group(if |d| <= 3 then d else d[..3]);
      Encode(d) == g + Encode(if |d| <= 3 then [] else d[3..])
  {
    hide Group;
  }

  /** The value of a character, 0 for padding. */
  function ValueOrZero(c: byte): (v: sextet) { if Value(c) < 0 then 0 else Value(c) }

  /** The byte at i, 0 behind the end. */
  function ByteAt(d: seq<byte>, i: nat): int { if i < |d| then d[i] else 0 }

  /** What four characters say of up to three bytes: padding for the missing ones, and the same 24-bit number. */
  ghost predicate Quantum(d: seq<byte>, e: seq<byte>)
    requires 1 <= |d| <= 3 && |e| == 4
  {
    && (forall k :: 0 <= k < 4 ==> (e[k] == '=' as int <==> k > |d|))
    && ByteAt(d, 0) * 0x10000 + ByteAt(d, 1) * 0x100 + ByteAt(d, 2)
       == ValueOrZero(e[0]) as int * 0x40000 + ValueOrZero(e[1]) as int * 0x1000
          + ValueOrZero(e[2]) as int * 64 + ValueOrZero(e[3]) as int
  }

  lemma CharOf(v: sextet)
    ensures Digit(v) != '=' as int && ValueOrZero(Digit(v)) == v
    ensures PAD == '=' as int && ValueOrZero(PAD) == 0
  {
  }

  lemma GroupIsQuantum(d: seq<byte>)
    requires 1 <= |d| <= 3
    ensures Quantum(d, Group(d))
  {
    hide Group, Quantum;
    if |d| == 1 {
      OneIsQuantum(d, Group(d));
    } else if |d| == 2 {
      TwoAreQuantum(d, Group(d));
    } else {
      ThreeAreQuantum(d, Group(d));
    }
  }

  lemma OneIsQuantum(d: seq<byte>, g: seq<byte>)
    requires |d| == 1 && g == Group(d)
    ensures Quantum(d, g)
  {
    hide Digit, Digit0, Digit1, Digit2, Digit3, ValueOrZero;
    LowSextetsZero(0);
    DigitsOfGroup(d[0], 0, 0);
    CharOf(Digit0(d[0]));
    CharOf(Digit1(d[0], 0));
  }

  lemma TwoAreQuantum(d: seq<byte>, g: seq<byte>)
    requires |d| == 2 && g == Group(d)
    ensures Quantum(d, g)
  {
    hide Digit, Digit0, Digit1, Digit2, Digit3, ValueOrZero;
    LowSextetsZero(d[1]);
    DigitsOfGroup(d[0], d[1], 0);
    CharOf(Digit0(d[0]));
    CharOf(Digit1(d[0], d[1]));
    CharOf(Digit2(d[1], 0));
  }

  lemma ThreeAreQuantum(d: seq<byte>, g: seq<byte>)
    requires |d| == 3 && g == Group(d)
    ensures Quantum(d, g)
  {
    hide Digit, Digit0, Digit1, Digit2, Digit3, ValueOrZero;
    DigitsOfGroup(d[0], d[1], d[2]);
    CharOf(Digit0(d[0]));
    CharOf(Digit1(d[0], d[1]));
    CharOf(Digit2(d[1], d[2]));
    CharOf(Digit3(d[2]));
  }

  lemma LowSextetsZero(b: byte)
    ensures Digit3(0) == 0 && (b == 0 ==> Digit2(b, 0) == 0)
  {
  }

  /** Each quantum of the encoding stands for its own three bytes, the last one for what is left. */
  lemma {:induction false} EncodeByQuanta(d: seq<byte>, q: nat)
    requires 3 * q < |d|
    ensures 4 * q + 4 <= |Encode(d)|
    ensures Quantum(d[3 * q..if 3 * q + 3 <= |d| then 3 * q + 3 else |d|], Encode(d)[4 * q..4 * q + 4])
    decreases q
  {
    hide Group, Quantum, Encode;
    FirstQuantum(d);
    var first := if |d| <= 3 then d else d[..3];
    var e := Encode(d);
    if q == 0 {
      GroupIsQuantum(first);
      assert e[0..4] == Group(first) && d[0..if 3 <= |d| then 3 else |d|] == first;
    } else {
      var rest, t := d[3..], Encode(d[3..]);
      EncodeByQuanta(rest, q - 1);
      QuantumShifted(d, e, t, q);
    }
  }

  lemma QuantumShifted(d: seq<byte>, e: seq<byte>, t: seq<byte>, q: nat)
    requires 1 <= q && 3 * q < |d| && |e| == |t| + 4 && e[4..] == t && 4 * q <= |t|
    ensures e[4 * q..4 * q + 4] == t[4 * (q - 1)..4 * (q - 1) + 4]
    ensures var n := |d| - 3;
      d[3 * q..if 3 * q + 3 <= |d| then 3 * q + 3 else |d|]
      == d[3..][3 * (q - 1)..if 3 * (q - 1) + 3 <= n then 3 * (q - 1) + 3 else n]
  {
    SliceOfTail(e, 4, 4 * q, 4 * q + 4);
    SliceOfTail(d, 3, 3 * q, if 3 * q + 3 <= |d| then 3 * q + 3 else |d|);
  }

  lemma SliceOfTail(s: seq<byte>, k: nat, lo: nat, hi: nat)
    requires k <= lo <= hi <= |s|
    ensures s[lo..hi] == s[k..][lo - k..hi - k]
  {
  }

  /** The encoding ends in (3 - n % 3) % 3 padding characters, and there is no other. */
  lemma {:induction false} PaddingIs(d: seq<byte>)
    ensures (3 - |d| % 3) % 3 <= |Encode(d)|
    ensures forall i :: 0 <= i < |Encode(d)| ==>
      (Encode(d)[i] == '=' as int <==> i >= |Encode(d)| - (3 - |d| % 3) % 3)
  {
    hide Group, Encode;
    if d == [] {
      NothingEncoded();
    } else {
      FirstQuantum(d);
      if |d| <= 3 {
        NothingEncoded();
        GroupIsQuantum(d);
      } else {
        GroupIsQuantum(d[..3]);
        PaddingIs(d[3..]);
        var g, e := Group(d[..3]), Encode(d[3..]);
        LongerEncoding(d);
        forall i | 0 <= i < |g + e| ensures (g + e)[i] == '=' as int <==> i >= |g + e| - (3 - |d| % 3) % 3 {
          if i >= 4 { assert (g + e)[i] == e[i - 4]; } else { assert (g + e)[i] == g[i]; }
        }
      }
    }
  }

  lemma NothingEncoded()
    ensures Encode([]) == []
  {
  }

  lemma LongerEncoding(d: seq<byte>)
    requires |d| > 3
    ensures |d[3..]| % 3 == |d| % 3
  {
  }

  // ---- the decoding -------------------------------------------------------------------------

  /** The values of the alphabet characters of a text, in order; all other characters are dropped. */
  function Sextets(code: seq<byte>): (s: seq<sextet>) {
    if code == [] then []
    else
      var init, v := Sextets(code[..|code| - 1]), Value(code[|code| - 1]);
      if v >= 0 then init + [v] else init
  }

  lemma {:induction false} SextetsConcat(a: seq<byte>, b: seq<byte>)
    ensures Sextets(a + b) == Sextets(a) + Sextets(b)
    decreases |b|
  {
    if b == [] {
      assert a + b == a;
    } else {
      var n := |b| - 1;
      SextetsConcat(a, b[..n]);
      assert (a + b)[..|a + b| - 1] == a + b[..n];
    }
  }

  /** The byte that the k-th sextet of a group completes together with the one before it, if any. */
  function Completed(k: nat, u: sextet, v: sextet): (d: seq<byte>)
    ensures |d| == if k == 0 then 0 else 1
  {
    if k == 0 then []
    else if k == 1 then [Byte0(u, v)]
    else if k == 2 then [Byte1(u, v)]
    else [Byte2(u, v)]
  }

  /** The bytes completed by a stream of sextets. */
  function Bytes(s: seq<sextet>): (d: seq<byte>) {
    if s == [] then []
    else
      var n := |s| - 1;
      Bytes(s[..n]) + Completed(n % 4, if n == 0 then 0 else s[n - 1], s[n])
  }

  lemma {:induction false} BytesLength(s: seq<sextet>)
    ensures |Bytes(s)| == |s| / 4 * 3 + (if |s| % 4 <= 1 then 0 else |s| % 4 - 1)
  {
    if s != [] { BytesLength(s[..|s| - 1]); }
  }

  lemma {:induction false} BytesConcat(x: seq<sextet>, y: seq<sextet>)
    requires |x| % 4 == 0
    ensures Bytes(x + y) == Bytes(x) + Bytes(y)
    decreases |y|
  {
    hide Bytes, Completed;
    if y == [] {
      NoBytes();
      assert x + y == x;
    } else {
      var n := |y| - 1;
      BytesConcat(x, y[..n]);
      assert (x + y)[..|x| + n] == x + y[..n];
      SamePhase(|x|, n);
      var u: sextet := if |x| + n == 0 then 0 else (x + y)[|x| + n - 1];
      var v: sextet := if n == 0 then 0 else y[n - 1];
      BytesSnoc(x + y, |x| + n, u);
      BytesSnoc(y, n, v);
      if n == 0 { CompletedAtFirst(n % 4, u, v, y[n]); }
    }
  }

  lemma NoBytes()
    ensures Bytes([]) == []
  {
  }

  lemma SamePhase(a: nat, n: nat)
    requires a % 4 == 0
    ensures (a + n) % 4 == n % 4
  {
    ModUnique(a + n, 4, a / 4 + n / 4, n % 4);
  }

  lemma BytesSnoc(s: seq<sextet>, n: nat, before: sextet)
    requires |s| == n + 1 && before == if n == 0 then 0 else s[n - 1]
    ensures Bytes(s) == Bytes(s[..n]) + Completed(n % 4, before, s[n])
  {
    hide Completed;
  }

  lemma CompletedAtFirst(k: nat, u: sextet, v: sextet, w: sextet)
    requires k == 0
    ensures Completed(k, u, w) == Completed(k, v, w)
  {
  }

  lemma SextetsOfTwo(a: byte, b: byte)
    ensures Sextets([a, b]) == Sextets([a]) + Sextets([b])
  {
    SextetsConcat([a], [b]);
  }

  lemma SextetsOfFour(a: byte, b: byte, c: byte, d: byte)
    ensures Sextets([a, b, c, d]) == Sextets([a]) + Sextets([b]) + Sextets([c]) + Sextets([d])
  {
    assert [a, b, c, d] == [a, b] + [c, d];
    SextetsConcat([a, b], [c, d]);
    SextetsOfTwo(a, b);
    SextetsOfTwo(c, d);
  }

  lemma SextetsOfOne(c: byte)
    ensures Sextets([c]) == if Value(c) >= 0 then [Value(c)] else []
  {
    assert [c][..0] == [];
  }

  lemma SextetOfDigit(v: sextet)
    ensures Sextets([Digit(v)]) == [v]
  {
    ValueOfDigit(v);
    SextetsOfOne(Digit(v));
  }

  lemma SextetsOfPadded(u: sextet, v: sextet, w: sextet, x: sextet)
    ensures Sextets([Digit(u), Digit(v), PAD, PAD]) == [u, v]
    ensures Sextets([Digit(u), Digit(v), Digit(w), PAD]) == [u, v, w]
    ensures Sextets([Digit(u), Digit(v), Digit(w), Digit(x)]) == [u, v, w, x]
  {
    SextetsOfOne(PAD);
    SextetOfDigit(u);
    SextetOfDigit(v);
    SextetOfDigit(w);
    SextetOfDigit(x);
    SextetsOfFour(Digit(u), Digit(v), PAD, PAD);
    SextetsOfFour(Digit(u), Digit(v), Digit(w), PAD);
    SextetsOfFour(Digit(u), Digit(v), Digit(w), Digit(x));
  }

  /** The sextets of one encoded group decode to the group. */
  lemma GroupRoundTrip(d: seq<byte>)
    requires 1 <= |d| <= 3
    ensures Bytes(Sextets(Group(d))) == d
    ensures |d| == 3 ==> |Sextets(Group(d))| == 4
  {
    hide Digit, Digit0, Digit1, Digit2, Digit3, Byte0, Byte1, Byte2, Sextets, Bytes;
    var b: byte := if |d| > 1 then d[1] else 0;
    var c: byte := if |d| > 2 then d[2] else 0;
    var u, v, w, x := Digit0(d[0]), Digit1(d[0], b), Digit2(b, c), Digit3(c);
    SextetsOfPadded(u, v, w, x);
    BytesOfUpToFour([u, v, w, x]);
    BytesOfDigits(d[0], b, c);
    assert [u, v, w, x][..2] == [u, v] && [u, v, w, x][..3] == [u, v, w];
    assert d == [d[0], b, c][..|d|];
  }

  lemma BytesOfUpToFour(q: seq<sextet>)
    requires |q| == 4
    ensures Bytes(q[..2]) == [Byte0(q[0], q[1])]
    ensures Bytes(q[..3]) == [Byte0(q[0], q[1]), Byte1(q[1], q[2])]
    ensures Bytes(q) == [Byte0(q[0], q[1]), Byte1(q[1], q[2]), Byte2(q[2], q[3])]
  {
    assert q[..1][..0] == [] && q[..2][..1] == q[..1] && q[..3][..2] == q[..2];
    assert Bytes(q[..1]) == [];
  }

  /** Decoding undoes encoding. */
  lemma {:induction false} DecodeUndoesEncode(d: seq<byte>)
    ensures Bytes(Sextets(Encode(d))) == d
  {
    if 1 <= |d| <= 3 {
      GroupRoundTrip(d);
    } else if |d| > 3 {
      GroupRoundTrip(d[..3]);
      DecodeUndoesEncode(d[3..]);
      SextetsConcat(Group(d[..3]), Encode(d[3..]));
      BytesConcat(Sextets(Group(d[..3])), Sextets(Encode(d[3..])));
      assert d == d[..3] + d[3..];
    }
  }

  /** The alphabet characters of a text. */
  function Strip(code: seq<byte>): (s: seq<byte>) {
    if code == [] then []
    else
      var init, c := Strip(code[..|code| - 1]), code[|code| - 1];
      if Value(c) >= 0 then init + [c] else init
  }

  /** A character outside the alphabet leaves no trace, wherever it is inserted. */
  lemma {:induction false} NoiseStrips(a: seq<byte>, c: byte, b: seq<byte>)
    requires !('A' as int <= c <= 'Z' as int || 'a' as int <= c <= 'z' as int || '0' as int <= c <= '9' as int
               || c == '+' as int || c == '/' as int)
    ensures Strip(a + [c] + b) == Strip(a + b)
    decreases |b|
  {
    if b == [] {
      assert a + b == a && (a + [c] + b)[..|a|] == a;
    } else {
      var n := |b| - 1;
      NoiseStrips(a, c, b[..n]);
      assert (a + [c] + b)[..|a| + 1 + n] == a + [c] + b[..n] && (a + b)[..|a| + n] == a + b[..n];
    }
  }

  lemma {:induction false} SextetsOfStripped(code: seq<byte>)
    ensures Sextets(Strip(code)) == Sextets(code)
  {
    if code != [] {
      var init, c := code[..|code| - 1], code[|code| - 1];
      SextetsOfStripped(init);
      if Value(c) >= 0 { SextetsConcat(Strip(init), [c]); SextetsOfOne(c); }
    }
  }

  /** Any text that differs from the encoding only in non-alphabet characters decodes to the same bytes. */
  lemma NoiseIsIgnored(d: seq<byte>, code: seq<byte>)
    requires Strip(code) == Strip(Encode(d))
    ensures Bytes(Sextets(code)) == d
  {
    SextetsOfStripped(code);
    SextetsOfStripped(Encode(d));
    DecodeUndoesEncode(d);
  }

  // ---- concatenation of chunks ----------------------------------------------------------------

  function Flatten(chunks: seq<seq<byte>>): (d: seq<byte>) {
    if chunks == [] then [] else Flatten(chunks[..|chunks| - 1]) + chunks[|chunks| - 1]
  }
}
