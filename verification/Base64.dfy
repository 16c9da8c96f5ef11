/** The base64 form of a file, encoded while it is read in pieces of any size (section 4 of RFC 4648). */
module Base64 {
  import opened Bytes
  import opened Json

  const QUOTE: byte := 34
  const PAD: byte := 61
  const BUFFER := 65538

  /** The alphabet: letters, digits, plus and slash. */
  function Symbol(digit: int): (b: byte)
    requires 0 <= digit < 64
    ensures b != PAD && DigitOf(b) == Some(digit)
  {
    if digit < 26 then (digit + 65) as byte
    else if digit < 52 then (digit + 71) as byte
    else if digit < 62 then (digit - 4) as byte
    else if digit == 62 then 43
    else 47
  }

  function DigitOf(b: byte): Option<int> {
    if 65 <= b < 91 then Some(b as int - 65)
    else if 97 <= b < 123 then Some(b as int - 71)
    else if 48 <= b < 58 then Some(b as int + 4)
    else if b == 43 then Some(62)
    else if b == 47 then Some(63)
    else None
  }

  /** A 24-bit number as four digits of six bits. */
  function Digits(n: int): (d: (int, int, int, int))
    requires 0 <= n < 0x100_0000
    ensures 0 <= d.0 < 64 && 0 <= d.1 < 64 && 0 <= d.2 < 64 && 0 <= d.3 < 64
    ensures ((d.0 * 64 + d.1) * 64 + d.2) * 64 + d.3 == n
  {
    var low, mid := n / 64, n / 64 / 64;
    assert n == low * 64 + n % 64 && low == mid * 64 + low % 64 && mid == mid / 64 * 64 + mid % 64;
    (mid / 64, mid % 64, low % 64, n % 64)
  }

  /** Three bytes as four symbols. */
  function Quantum(x: byte, y: byte, z: byte): Text {
    var d := Digits(x as int * 65536 + y as int * 256 + z as int);
    [Symbol(d.0), Symbol(d.1), Symbol(d.2), Symbol(d.3)]
  }

  /** The encoding, padded at the end. */
  function Encode(s: Text): Text {
    if |s| == 0 then []
    else if |s| == 1 then Quantum(s[0], 0, 0)[..2] + [PAD, PAD]
    else if |s| == 2 then Quantum(s[0], s[1], 0)[..3] + [PAD]
    else Quantum(s[0], s[1], s[2]) + Encode(s[3..])
  }

  predicate Whole(t: Text) {
    |t| % 3 == 0
  }

  /** Whole quanta are encoded on their own. */
  lemma {:induction false} EncodeAppend(a: Text, b: Text)
    requires Whole(a)
    ensures Encode(a + b) == Encode(a) + Encode(b)
    decreases a
  {
    hide Encode, Quantum;
    if a == [] {
      NothingEncoded();
      assert a + b == b;
    } else {
      EncodeAppend(a[3..], b);
      FirstQuantum(a);
      FirstQuantum(a + b);
      assert (a + b)[3..] == a[3..] + b;
      Reassociate(Quantum(a[0], a[1], a[2]), Encode(a[3..]), Encode(b));
    }
  }

  lemma NothingEncoded()
    ensures Encode([]) == []
  {
  }

  lemma FirstQuantum(s: Text)
    requires |s| >= 3
    ensures Encode(s) == Quantum(s[0], s[1], s[2]) + Encode(s[3..])
  {
  }

  // ----- the encoding can be read back -----

  function Value(c: byte): int {
    if DigitOf(c).Some? then DigitOf(c).value else 0
  }

  /** The three bytes of four symbols. */
  function Bytes3(q: Text): Text
    requires |q| == 4
  {
    var n := ((Value(q[0]) * 64 + Value(q[1])) * 64 + Value(q[2])) * 64 + Value(q[3]);
    [(n / 256 / 256 % 256) as byte, (n / 256 % 256) as byte, (n % 256) as byte]
  }

  function Decoded(t: Text): Text {
    if |t| < 4 then []
    else if t[2] == PAD then Bytes3(t[..2] + [Symbol(0), Symbol(0)])[..1]
    else if t[3] == PAD then Bytes3(t[..3] + [Symbol(0)])[..2]
    else Bytes3(t[..4]) + Decoded(t[4..])
  }

  lemma BytesOfNumber(x: int, y: int, z: int)
    requires 0 <= x < 256 && 0 <= y < 256 && 0 <= z < 256
    ensures var n := x * 65536 + y * 256 + z; n % 256 == z && n / 256 % 256 == y && n / 256 / 256 % 256 == x
  {
    var n := x * 65536 + y * 256 + z;
    assert n == (x * 256 + y) * 256 + z;
    assert n / 256 == x * 256 + y;
    assert n / 256 / 256 == x;
  }

  lemma QuantumReadsBack(x: byte, y: byte, z: byte)
    ensures Bytes3(Quantum(x, y, z)) == [x, y, z]
    ensures z == 0 ==> Quantum(x, y, z)[3] == Symbol(0)
    ensures y == 0 && z == 0 ==> Quantum(x, y, z)[2] == Symbol(0)
  {
    hide Symbol, DigitOf;
    BytesOfNumber(x as int, y as int, z as int);
    var n := x as int * 65536 + y as int * 256 + z as int;
    var q, d := Quantum(x, y, z), Digits(n);
    assert Value(q[0]) == d.0 && Value(q[1]) == d.1 && Value(q[2]) == d.2 && Value(q[3]) == d.3;
    assert z == 0 ==> n % 64 == 0;
    assert y == 0 && z == 0 ==> n / 64 % 64 == 0;
  }

  /** Nothing is lost: the encoding of a file determines the file. */
  lemma {:induction false} EncodingReadsBack(s: Text)
    ensures Decoded(Encode(s)) == s
    decreases s
  {
    if |s| == 1 {
      QuantumReadsBack(s[0], 0, 0);
      var q := Quantum(s[0], 0, 0);
      assert Encode(s)[..2] + [Symbol(0), Symbol(0)] == q;
    } else if |s| == 2 {
      QuantumReadsBack(s[0], s[1], 0);
      var q := Quantum(s[0], s[1], 0);
      assert Encode(s)[..3] + [Symbol(0)] == q;
    } else if |s| > 2 {
      QuantumReadsBack(s[0], s[1], s[2]);
      EncodingReadsBack(s[3..]);
      var q := Quantum(s[0], s[1], s[2]);
      assert Encode(s)[..4] == q && Encode(s)[4..] == Encode(s[3..]);
      assert s == [s[0], s[1], s[2]] + s[3..];
    }
  }

  // ----- the loop -----

  lemma FlattenFront(chunks: seq<Text>, i: nat)
    requires i < |chunks|
    ensures Flatten(chunks[..i + 1]) == Flatten(chunks[..i]) + chunks[i]
  {
    assert chunks[..i + 1] == chunks[..i] + [chunks[i]];
    FlattenAppend(chunks[..i], chunks[i]);
  }

  /** Every read fits behind the bytes carried over from the read before it. */
  predicate ReadsFit(chunks: seq<Text>) {
    forall i | 0 <= i < |chunks| :: |Flatten(chunks[..i])| % 3 + |chunks[i]| <= BUFFER
  }

  /** One read: encode the whole quanta, move the rest to the front. */
  method TakeChunk(readBuf: array<byte>, carryLen: nat, chunk: Text) returns (encoded: Text, rest: nat, ghost taken: Text)
    requires carryLen < 3 && carryLen + |chunk| <= readBuf.Length && 3 <= readBuf.Length
    modifies readBuf
    ensures rest < 3 && Whole(taken) && encoded == Encode(taken)
    ensures old(readBuf[..carryLen]) + chunk == taken + readBuf[..rest]
  {
    hide Encode;
    ghost var carried := readBuf[..carryLen];
    forall k | 0 <= k < |chunk| {
      readBuf[carryLen + k] := chunk[k];
    }
    var total := carryLen + |chunk|;
    assert readBuf[..total] == carried + chunk;
    var encodeLen := total - total % 3;
    taken := readBuf[..encodeLen];
    encoded := Encode(readBuf[..encodeLen]);
    var left := readBuf[encodeLen..total];
    assert readBuf[..total] == readBuf[..encodeLen] + left;
    rest := total - encodeLen;
    forall k | 0 <= k < rest {
      readBuf[k] := left[k];
    }
    assert readBuf[..rest] == left;
  }

  /** Of what was fed, whole quanta have been written and the rest is carried. */
  ghost predicate Emitted(out: Text, written: Text, rest: Text, fed: Text) {
    |rest| < 3 && Whole(written) && fed == written + rest && out == [QUOTE] + Encode(written)
  }

  lemma EmitMore(out: Text, written: Text, rest: Text, fed: Text, chunk: Text, taken: Text, left: Text)
    requires Emitted(out, written, rest, fed) && rest + chunk == taken + left && Whole(taken) && |left| < 3
    ensures Emitted(out + Encode(taken), written + taken, left, fed + chunk)
  {
    hide Encode, Whole;
    EncodeAppend(written, taken);
    Reassociate(written, rest, chunk);
    Reassociate(written, taken, left);
    Reassociate([QUOTE], Encode(written), Encode(taken));
    WholeAppend(written, taken);
  }

  lemma Reassociate(a: Text, b: Text, c: Text)
    ensures (a + b) + c == a + (b + c)
  {
  }

  lemma WholeAppend(a: Text, b: Text)
    requires Whole(a) && Whole(b)
    ensures Whole(a + b)
  {
  }

  /**
   However the reader cuts the file, what comes out is the encoding of the whole file in
   quotes; less than one quantum is ever carried over, and the buffer is never overrun.
   */
  method EmitBase64(chunks: seq<Text>) returns (out: Text)
    requires ReadsFit(chunks)
    ensures out == [QUOTE] + Encode(Flatten(chunks)) + [QUOTE]
  {
    out := [QUOTE];
    var readBuf := new byte[BUFFER];
    var carryLen := 0;
    ghost var written: Text := [];
    assert chunks[..0] == [];
    for i := 0 to |chunks|
      invariant 0 <= carryLen < 3 && Emitted(out, written, readBuf[..carryLen], Flatten(chunks[..i]))
    {
      FlattenFront(chunks, i);
      CarryIsRest(out, written, readBuf[..carryLen], Flatten(chunks[..i]));
      if |chunks[i]| > 0 {
        ghost var carried := readBuf[..carryLen];
        var encoded, rest, taken := TakeChunk(readBuf, carryLen, chunks[i]);
        EmitMore(out, written, carried, Flatten(chunks[..i]), chunks[i], taken, readBuf[..rest]);
        out := out + encoded;
        written := written + taken;
        carryLen := rest;
      }
    }
    assert chunks[..|chunks|] == chunks;
    EncodeAppend(written, readBuf[..carryLen]);
    if carryLen > 0 {
      out := out + Encode(readBuf[..carryLen]);
    }
    out := out + [QUOTE];
  }

  lemma CarryIsRest(out: Text, written: Text, rest: Text, fed: Text)
    requires Emitted(out, written, rest, fed)
    ensures |fed| % 3 == |rest|
  {
  }

  // ----- against the standard -----

  /** The base 64 alphabet (section 4 of RFC 4648): capitals, small letters, digits, plus, slash; and the equals sign to fill up. */
  lemma AlphabetIsStandard(digit: int)
    requires 0 <= digit < 64
    ensures digit < 26 ==> [Symbol(digit)] == Ascii([('A' as int + digit) as char])
    ensures 26 <= digit < 52 ==> [Symbol(digit)] == Ascii([('a' as int + digit - 26) as char])
    ensures 52 <= digit < 62 ==> [Symbol(digit)] == Ascii([('0' as int + digit - 52) as char])
    ensures [Symbol(62), Symbol(63)] == Ascii("+/") && [PAD] == Ascii("=") && [QUOTE] == Ascii("\"")
  {
  }

  /** The test vectors of section 10 of RFC 4648, of one quantum and of two. */
  lemma ShortVectorsOfTheStandard()
    ensures Encode(Ascii("")) == Ascii("") && Encode(Ascii("f")) == Ascii("Zg==")
    ensures Encode(Ascii("fo")) == Ascii("Zm8=") && Encode(Ascii("foo")) == Ascii("Zm9v")
  {
    hide Quantum;
    assert Ascii("") == [];
    QuantumOf(102, 0, 0, 25, 32, 0, 0);
    QuantumOf(102, 111, 0, 25, 38, 60, 0);
    QuantumOf(102, 111, 111, 25, 38, 61, 47);
    FirstQuantum(Ascii("foo"));
  }

  lemma LongVectorsOfTheStandard()
    ensures FOOBAR == Ascii("foobar") && Encode(FOOBAR) == Ascii("Zm9vYmFy")
    ensures Encode(FOOBAR[..4]) == Ascii("Zm9vYg==") && Encode(FOOBAR[..5]) == Ascii("Zm9vYmE=")
  {
    hide Encode;
    LongVectors();
    assert Ascii("Zm9vYg==") == [90, 109, 57, 118, 89, 103, 61, 61];
    assert Ascii("Zm9vYmE=") == [90, 109, 57, 118, 89, 109, 69, 61];
    assert Ascii("Zm9vYmFy") == [90, 109, 57, 118, 89, 109, 70, 121];
  }

  const FOOBAR: Text := [102, 111, 111, 98, 97, 114]

  lemma LongVectors()
    ensures Encode(FOOBAR[..4]) == [90, 109, 57, 118, 89, 103, 61, 61] && Encode(FOOBAR[..5]) == [90, 109, 57, 118, 89, 109, 69, 61]
    ensures Encode(FOOBAR) == [90, 109, 57, 118, 89, 109, 70, 121]
  {
    hide Encode;
    RestsOfFoobar();
    AfterFoo(FOOBAR[..4]);
    AfterFoo(FOOBAR[..5]);
    AfterFoo(FOOBAR);
    assert FOOBAR[..4][3..] == [98] && FOOBAR[..5][3..] == [98, 97] && FOOBAR[3..] == [98, 97, 114];
  }

  /** What follows the first quantum of the longer vectors is encoded on its own. */
  lemma AfterFoo(s: Text)
    requires |s| >= 3 && s[0] == 102 && s[1] == 111 && s[2] == 111
    ensures Encode(s) == [90, 109, 57, 118] + Encode(s[3..])
  {
    hide Encode, Quantum;
    QuantumOf(102, 111, 111, 25, 38, 61, 47);
    FirstQuantum(s);
  }

  lemma RestsOfFoobar()
    ensures Encode([98]) == [89, 103, 61, 61] && Encode([98, 97]) == [89, 109, 69, 61] && Encode([98, 97, 114]) == [89, 109, 70, 121]
  {
    hide Quantum;
    QuantumOf(98, 0, 0, 24, 32, 0, 0);
    QuantumOf(98, 97, 0, 24, 38, 4, 0);
    QuantumOf(98, 97, 114, 24, 38, 5, 50);
    FirstQuantum([98, 97, 114]);
  }

  /** A quantum is given by its four digits. */
  lemma QuantumOf(x: byte, y: byte, z: byte, a: int, b: int, c: int, d: int)
    requires 0 <= a < 64 && 0 <= b < 64 && 0 <= c < 64 && 0 <= d < 64
    requires ((a * 64 + b) * 64 + c) * 64 + d == x as int * 65536 + y as int * 256 + z as int
    ensures Quantum(x, y, z) == [Symbol(a), Symbol(b), Symbol(c), Symbol(d)]
  {
    hide Symbol, Digits;
    var n := x as int * 65536 + y as int * 256 + z as int;
    DigitsAreUnique(n, Digits(n), a, b, c, d);
  }

  /** Digits are unique. */
  lemma DigitsAreUnique(n: int, e: (int, int, int, int), a: int, b: int, c: int, d: int)
    requires 0 <= a < 64 && 0 <= b < 64 && 0 <= c < 64 && 0 <= d < 64
    requires 0 <= e.0 < 64 && 0 <= e.1 < 64 && 0 <= e.2 < 64 && 0 <= e.3 < 64
    requires ((a * 64 + b) * 64 + c) * 64 + d == n == ((e.0 * 64 + e.1) * 64 + e.2) * 64 + e.3
    ensures e == (a, b, c, d)
  {
    var low, low' := (a * 64 + b) * 64 + c, (e.0 * 64 + e.1) * 64 + e.2;
    LastDigit(low, d, low', e.3);
    LastDigit(a * 64 + b, c, e.0 * 64 + e.1, e.2);
    LastDigit(a, b, e.0, e.1);
  }

  lemma LastDigit(high: int, digit: int, high': int, digit': int)
    requires 0 <= digit < 64 && 0 <= digit' < 64 && high * 64 + digit == high' * 64 + digit'
    ensures high == high' && digit == digit'
  {
  }

  /** Four symbols for every three bytes begun. */
  lemma {:induction false} EncodedLength(s: Text)
    ensures |Encode(s)| == (|s| + 2) / 3 * 4
    decreases |s|
  {
    hide Quantum;
    if |s| > 2 {
      hide Encode;
      EncodedLength(s[3..]);
      FirstQuantum(s);
      QuantumLength(s[0], s[1], s[2]);
      var n := |s[3..]| + 2;
      assert |s| + 2 == n + 3 && (n + 3) / 3 == n / 3 + 1;
    } else {
      QuantumLength(if s == [] then 0 else s[0], if |s| == 2 then s[1] else 0, 0);
    }
  }

  lemma QuantumLength(x: byte, y: byte, z: byte)
    ensures |Quantum(x, y, z)| == 4
  {
  }
}
