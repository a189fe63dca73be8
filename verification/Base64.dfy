/** libbase64++: the base64 encoding of section 4 of RFC 4648. Masks and shifts of bytes are written as
    divisions and remainders by powers of two. */
module Base64 {
  import opened JsonEscape

  const PAD: Octet := '='

  predicate InAlphabet(c: Octet) {
    'A' <= c <= 'Z' || 'a' <= c <= 'z' || '0' <= c <= '9' || c == '+' || c == '/'
  }

  /** char64s, by its ranges. */
  function GetChar(bin: nat): Octet
    requires bin < 64
  {
    if bin < 26 then Byte(bin + 65) else if bin < 52 then Byte(bin + 71) else if bin < 62 then Byte(bin - 4)
    else if bin == 62 then '+' else '/'
  }

  /** binaryConvert, by its ranges within the alphabet. */
  function ToBinary(c: Octet): nat
    requires InAlphabet(c)
  {
    var n := c as int;
    if c == '+' then 62 else if c == '/' then 63 else if n < 58 then n + 4 else if n < 91 then n - 65 else n - 71
  }

  function EncodingSize(bytes: nat): nat {
    (bytes + 2 - (bytes + 2) % 3) / 3 * 4
  }

  /** The two tables undo each other. */
  lemma TablesAgree(bin: nat)
    requires bin < 64
    ensures InAlphabet(GetChar(bin)) && GetChar(bin) != PAD && ToBinary(GetChar(bin)) == bin
  {
  }

  lemma TablesAgreeBack(c: Octet)
    requires InAlphabet(c)
    ensures c != PAD && ToBinary(c) < 64 && GetChar(ToBinary(c)) == c
  {
  }

  // ---- encode

  /** The characters of three bytes. */
  function Quad(x: Octet, y: Octet, z: Octet): Bytes {
    var (a, b, c) := (x as int, y as int, z as int);
    [GetChar(a / 4), GetChar(a % 4 * 16 + b / 16), GetChar(b % 16 * 4 + c / 64), GetChar(c % 64)]
  }

  /** One or two bytes that are left over, padded. */
  function Leftover(rest: Bytes): Bytes
    requires |rest| < 3
  {
    if rest == [] then []
    else
      var q := Quad(rest[0], if |rest| == 2 then rest[1] else NUL, NUL);
      [q[0], q[1], if |rest| == 2 then q[2] else PAD, PAD]
  }

  function Encode(binary: Bytes): Bytes {
    if |binary| < 3 then Leftover(binary)
    else Quad(binary[0], binary[1], binary[2]) + Encode(binary[3..])
  }

  method EncodeBytes(binary: Bytes) returns (result: Bytes)
    ensures result == Encode(binary)
  {
    hide Encode, Quad, Leftover;
    var bytes := |binary|;
    if bytes == 0 {
      NothingToEncode();
      return [];
    }
    var misaligned := bytes % 3;
    result := [];
    assert binary[0..] == binary;
    for i := 0 to (bytes - misaligned) / 3
      invariant Encode(binary) == result + Encode(binary[3 * i..])
    {
      EncodeStep(binary, 3 * i);
      result := result + Quad(binary[3 * i], binary[3 * i + 1], binary[3 * i + 2]);
    }
    var at := bytes - misaligned;
    assert at == 3 * ((bytes - misaligned) / 3);
    EncodeEnd(binary[at..]);
    if misaligned != 0 {
      var last := EncodeLeftover(binary, at);
      result := result + last;
    } else {
      assert binary[at..] == [];
      assert result + [] == result;
    }
  }

  /** The one or two bytes left over. */
  method EncodeLeftover(binary: Bytes, at: nat) returns (last: Bytes)
    requires 1 <= |binary| - at <= 2
    ensures last == Leftover(binary[at..])
  {
    hide Quad, Leftover;
    var misaligned := |binary| - at;
    var temp: Bytes := [NUL, NUL, NUL];
    for i := 0 to misaligned
      invariant |temp| == 3 && (forall j :: 0 <= j < i ==> temp[j] == binary[at + j]) && (forall j :: i <= j < 3 ==> temp[j] == NUL)
    {
      temp := temp[i := binary[at + i]];
    }
    var q := PaddedQuad(temp);
    last := [q[0], q[1], if misaligned == 2 then q[2] else PAD, PAD];
    LeftoverIs(binary[at..], temp, q);
  }

  method PaddedQuad(temp: Bytes) returns (q: Bytes)
    requires |temp| == 3
    ensures q == Quad(temp[0], temp[1], temp[2]) && |q| == 4
  {
    q := Quad(temp[0], temp[1], temp[2]);
  }

  lemma NothingToEncode()
    ensures Encode([]) == []
  {
  }

  lemma EncodeStep(binary: Bytes, at: nat)
    requires at + 3 <= |binary|
    ensures Encode(binary[at..]) == Quad(binary[at], binary[at + 1], binary[at + 2]) + Encode(binary[at + 3..])
  {
    assert binary[at..][3..] == binary[at + 3..];
  }

  lemma EncodeEnd(rest: Bytes)
    requires |rest| < 3
    ensures Encode(rest) == Leftover(rest) && (rest == [] ==> Leftover(rest) == [])
  {
  }

  lemma LeftoverIs(rest: Bytes, temp: Bytes, q: Bytes)
    requires 1 <= |rest| <= 2 && |temp| == 3 && (forall j :: 0 <= j < 3 ==> temp[j] == if j < |rest| then rest[j] else NUL)
    requires q == Quad(temp[0], temp[1], temp[2]) && |q| == 4
    ensures Leftover(rest) == [q[0], q[1], if |rest| == 2 then q[2] else PAD, PAD]
  {
    hide GetChar;
  }

  /** What encode produces always has the calculated length, and is padded by one character for two bytes left
      over, by two for one, and nowhere else. */
  lemma {:induction false} EncodingShape(binary: Bytes)
    ensures |Encode(binary)| == EncodingSize(|binary|)
    ensures Padded(Encode(binary), (3 - |binary| % 3) % 3)
  {
    hide Quad, Leftover, InAlphabet;
    if |binary| < 3 {
      LeftoverShape(binary);
    } else {
      EncodingShape(binary[3..]);
      QuadShape(binary[0], binary[1], binary[2]);
      SizeStep(|binary|);
    }
  }

  /** The last pads characters are padding, and all before them are of the alphabet. */
  predicate Padded(e: Bytes, pads: nat) {
    pads <= |e| && forall i :: 0 <= i < |e| ==> if i < |e| - pads then InAlphabet(e[i]) else e[i] == PAD
  }

  lemma SizeStep(n: nat)
    requires n >= 3
    ensures EncodingSize(n) == 4 + EncodingSize(n - 3) && n % 3 == (n - 3) % 3
  {
    assert (n + 2) % 3 == (n - 3 + 2) % 3;
  }

  lemma QuadShape(x: Octet, y: Octet, z: Octet)
    ensures |Quad(x, y, z)| == 4 && forall i :: 0 <= i < 4 ==> InAlphabet(Quad(x, y, z)[i]) && Quad(x, y, z)[i] != PAD
  {
    hide GetChar, ToBinary;
    var (a, b, c) := (x as int, y as int, z as int);
    TablesAgree(a / 4);
    TablesAgree(a % 4 * 16 + b / 16);
    TablesAgree(b % 16 * 4 + c / 64);
    TablesAgree(c % 64);
  }

  lemma LeftoverShape(rest: Bytes)
    requires |rest| < 3
    ensures |Leftover(rest)| == (if rest == [] then 0 else 4)
    ensures rest != [] ==> var e := Leftover(rest);
              && e[0] != PAD && InAlphabet(e[0]) && e[1] != PAD && InAlphabet(e[1]) && e[3] == PAD
              && if |rest| == 2 then e[2] != PAD && InAlphabet(e[2]) else e[2] == PAD
  {
    hide Quad;
    if rest != [] { QuadShape(rest[0], if |rest| == 2 then rest[1] else NUL, NUL); }
  }

  // ---- decode

  /** find_first_not_of the alphabet. */
  function FirstOdd(t: Bytes): (pos: nat)
    ensures pos <= |t|
    ensures forall i :: 0 <= i < pos ==> InAlphabet(t[i])
    ensures pos < |t| ==> !InAlphabet(t[pos])
  {
    if t == [] || !InAlphabet(t[0]) then 0 else 1 + FirstOdd(t[1..])
  }

  /** The checks before decoding. */
  predicate Accepted(t: Bytes) {
    var length, pos := |t|, FirstOdd(t);
    && length % 4 == 0 && length != 0
    && (pos == length
        || (t[pos] == PAD && (pos == length - 1 || (pos == length - 2 && t[pos + 1] == PAD))))
  }

  /** Accepted is: a positive multiple of four characters of the alphabet, of which the last, or the last two,
      may be padding. */
  lemma AcceptedExactly(t: Bytes)
    ensures Accepted(t) <==> |t| % 4 == 0 && t != [] && (Padded(t, 0) || Padded(t, 1) || Padded(t, 2))
  {
    var pos := FirstOdd(t);
    if t != [] && |t| % 4 == 0 {
      if Padded(t, 1) { assert t[|t| - 1] == PAD; }
      if Padded(t, 2) { assert t[|t| - 1] == PAD && t[|t| - 2] == PAD; }
      if Accepted(t) { assert Padded(t, |t| - pos); }
    }
  }

  /** What four characters stand for; the second and third byte are there only if there is no padding. */
  function FirstByte(p: Octet, q: Octet): Octet
    requires InAlphabet(p) && InAlphabet(q)
  {
    Byte((ToBinary(p) * 4 + ToBinary(q) / 16 % 4) % 256)
  }

  function SecondByte(q: Octet, r: Octet): Octet
    requires InAlphabet(q) && InAlphabet(r)
  {
    Byte((ToBinary(q) % 16 * 16 + ToBinary(r) / 4 % 16) % 256)
  }

  function ThirdByte(r: Octet, s: Octet): Octet
    requires InAlphabet(r) && InAlphabet(s)
  {
    Byte((ToBinary(r) % 4 * 64 + ToBinary(s)) % 256)
  }

  function Triple(p: Octet, q: Octet, r: Octet, s: Octet): Bytes
    requires InAlphabet(p) && InAlphabet(q) && (r != PAD ==> InAlphabet(r)) && (r != PAD && s != PAD ==> InAlphabet(s))
  {
    [FirstByte(p, q)]
    + if r == PAD then [] else [SecondByte(q, r)] + if s == PAD then [] else [ThirdByte(r, s)]
  }

  predicate Decodable(t: Bytes) {
    |t| % 4 == 0 && t != [] && exists pads: nat :: pads <= 2 && Padded(t, pads)
  }

  lemma DecodableParts(t: Bytes)
    requires Decodable(t)
    ensures |t| >= 4 && |t| % 4 == 0 && InAlphabet(t[0]) && InAlphabet(t[1])
    ensures |t| > 4 ==> InAlphabet(t[2]) && InAlphabet(t[3]) && Decodable(t[4..])
    ensures t[2] != PAD ==> InAlphabet(t[2])
    ensures t[2] != PAD && t[3] != PAD ==> InAlphabet(t[3])
  {
    hide InAlphabet;
    var pads: nat :| pads <= 2 && Padded(t, pads);
    if |t| > 4 { assert Padded(t[4..], pads); }
  }

  function DecodeAll(t: Bytes): Bytes
    requires Decodable(t)
    decreases |t|
  {
    DecodableParts(t);
    Triple(t[0], t[1], t[2], t[3]) + if |t| == 4 then [] else DecodeAll(t[4..])
  }

  /** decode: a text that is not accepted gives the empty string. */
  function Decode(t: Bytes): Bytes {
    AcceptedExactly(t);
    if Accepted(t) then DecodeAll(t) else []
  }

  method DecodeText(encoded: Bytes) returns (result: Bytes)
    ensures result == Decode(encoded)
  {
    hide Triple, DecodeAll, InAlphabet, Padded, Accepted, Decodable, FirstByte, SecondByte, ThirdByte, Decode;
    var length := |encoded|;
    AcceptedIsDecodable(encoded);
    if !Accepted(encoded) {
      return [];
    }
    DecodableParts(encoded);
    var aligned := length / 4 - 1;
    assert length == 4 * aligned + 4;
    result := [];
    ghost var all := DecodeAll(encoded);
    assert encoded[0..] == encoded && result + all == all;
    for i := 0 to aligned
      invariant Decodable(encoded[4 * i..])
      invariant all == result + DecodeAll(encoded[4 * i..])
    {
      var at := 4 * i;
      DecodeNext(encoded, at, all, result);
      var second, third := encoded[at + 1], encoded[at + 2];
      result := result + [FirstByte(encoded[at], second), SecondByte(second, third), ThirdByte(third, encoded[at + 3])];
    }
    var last := DecodeLastQuad(encoded, 4 * aligned);
    result := result + last;
  }

  /** The four characters at runner, the last ones: fewer bytes if they are padded. */
  method DecodeLastQuad(encoded: Bytes, runner: nat) returns (last: Bytes)
    requires runner + 4 == |encoded| && Decodable(encoded[runner..])
    ensures last == DecodeAll(encoded[runner..])
  {
    hide Triple, DecodeAll, InAlphabet, Decodable, FirstByte, SecondByte, ThirdByte;
    DecodeLast(encoded[runner..]);
    var second := encoded[runner + 1];
    last := [FirstByte(encoded[runner], second)];
    var third := encoded[runner + 2];
    if third != PAD {
      last := last + [SecondByte(second, third)];
      if encoded[runner + 3] != PAD {
        last := last + [ThirdByte(third, encoded[runner + 3])];
      }
    }
  }

  lemma AcceptedIsDecodable(t: Bytes)
    ensures Accepted(t) <==> Decodable(t)
    ensures Decode(t) == if Decodable(t) then DecodeAll(t) else []
  {
    hide Padded, InAlphabet, DecodeAll, Accepted;
    AcceptedExactly(t);
    if Decodable(t) {
      var pads: nat :| pads <= 2 && Padded(t, pads);
      assert pads == 0 || pads == 1 || pads == 2;
    }
  }

  lemma DecodeStep(t: Bytes, at: nat)
    requires at + 4 < |t| && Decodable(t[at..])
    ensures InAlphabet(t[at]) && InAlphabet(t[at + 1]) && InAlphabet(t[at + 2]) && InAlphabet(t[at + 3])
    ensures Decodable(t[at + 4..])
    ensures DecodeAll(t[at..])
            == [FirstByte(t[at], t[at + 1]), SecondByte(t[at + 1], t[at + 2]), ThirdByte(t[at + 2], t[at + 3])] + DecodeAll(t[at + 4..])
  {
    hide InAlphabet, Decodable, FirstByte, SecondByte, ThirdByte;
    DecodableParts(t[at..]);
    assert t[at..][4..] == t[at + 4..];
    PadIsOdd();
  }

  /** What was decoded before at, with four characters more. */
  lemma DecodeNext(t: Bytes, at: nat, all: Bytes, done: Bytes)
    requires at + 4 < |t| && Decodable(t[at..]) && all == done + DecodeAll(t[at..])
    ensures InAlphabet(t[at]) && InAlphabet(t[at + 1]) && InAlphabet(t[at + 2]) && InAlphabet(t[at + 3])
    ensures Decodable(t[at + 4..])
    ensures all
            == done + [FirstByte(t[at], t[at + 1]), SecondByte(t[at + 1], t[at + 2]), ThirdByte(t[at + 2], t[at + 3])]
               + DecodeAll(t[at + 4..])
  {
    hide InAlphabet, Decodable, DecodeAll, FirstByte, SecondByte, ThirdByte;
    DecodeStep(t, at);
  }

  lemma PadIsOdd()
    ensures !InAlphabet(PAD)
  {
  }

  lemma DecodeLast(t: Bytes)
    requires Decodable(t) && |t| == 4
    ensures InAlphabet(t[0]) && InAlphabet(t[1]) && (t[2] != PAD ==> InAlphabet(t[2]))
    ensures t[2] != PAD && t[3] != PAD ==> InAlphabet(t[3])
    ensures DecodeAll(t) == Triple(t[0], t[1], t[2], t[3])
    ensures DecodeAll(t)
            == if t[2] == PAD then [FirstByte(t[0], t[1])]
               else if t[3] == PAD then [FirstByte(t[0], t[1]), SecondByte(t[1], t[2])]
               else [FirstByte(t[0], t[1]), SecondByte(t[1], t[2]), ThirdByte(t[2], t[3])]
  {
    hide InAlphabet, Decodable, FirstByte, SecondByte, ThirdByte;
    DecodableParts(t);
    assert DecodeAll(t) == Triple(t[0], t[1], t[2], t[3]) + [];
  }

  // ---- They undo each other

  /** Taking apart a six-bit value put together from hi and lo. */
  lemma Digits(hi: nat, lo: nat, base: nat)
    requires base == 4 || base == 16
    requires lo < base
    ensures (hi * base + lo) / base == hi && (hi * base + lo) % base == lo
  {
  }

  lemma BitsOfFirst(a: nat, b: nat)
    requires a < 256 && b < 256
    ensures (a / 4 * 4 + (a % 4 * 16 + b / 16) / 16 % 4) % 256 == a
  {
    Digits(a % 4, b / 16, 16);
  }

  lemma BitsOfSecond(a: nat, b: nat, c: nat)
    requires a < 256 && b < 256 && c < 256
    ensures ((a % 4 * 16 + b / 16) % 16 * 16 + (b % 16 * 4 + c / 64) / 4 % 16) % 256 == b
  {
    Digits(a % 4, b / 16, 16);
    Digits(b % 16, c / 64, 4);
  }

  lemma BitsOfThird(b: nat, c: nat)
    requires b < 256 && c < 256
    ensures ((b % 16 * 4 + c / 64) % 4 * 64 + c % 64) % 256 == c
  {
    Digits(b % 16, c / 64, 4);
  }

  lemma BytesOfSextets(p: nat, q: nat, r: nat, s: nat)
    requires p < 64 && q < 64 && r < 64 && s < 64
    ensures InAlphabet(GetChar(p)) && InAlphabet(GetChar(q)) && InAlphabet(GetChar(r)) && InAlphabet(GetChar(s))
    ensures FirstByte(GetChar(p), GetChar(q)) as int == (p * 4 + q / 16 % 4) % 256
    ensures SecondByte(GetChar(q), GetChar(r)) as int == (q % 16 * 16 + r / 4 % 16) % 256
    ensures ThirdByte(GetChar(r), GetChar(s)) as int == (r % 4 * 64 + s) % 256
  {
    hide GetChar, ToBinary, InAlphabet, FirstByte, SecondByte, ThirdByte;
    TablesAgree(p);
    TablesAgree(q);
    TablesAgree(r);
    TablesAgree(s);
    BytesAre(GetChar(p), GetChar(q), GetChar(r), GetChar(s));
  }

  lemma BytesAre(p: Octet, q: Octet, r: Octet, s: Octet)
    requires InAlphabet(p) && InAlphabet(q) && InAlphabet(r) && InAlphabet(s)
    ensures FirstByte(p, q) as int == (ToBinary(p) * 4 + ToBinary(q) / 16 % 4) % 256
    ensures SecondByte(q, r) as int == (ToBinary(q) % 16 * 16 + ToBinary(r) / 4 % 16) % 256
    ensures ThirdByte(r, s) as int == (ToBinary(r) % 4 * 64 + ToBinary(s)) % 256
  {
    hide ToBinary, InAlphabet;
  }

  lemma TripleOfQuad(x: Octet, y: Octet, z: Octet)
    ensures var q := Quad(x, y, z);
            && |q| == 4 && InAlphabet(q[0]) && InAlphabet(q[1]) && InAlphabet(q[2]) && InAlphabet(q[3])
            && FirstByte(q[0], q[1]) == x && SecondByte(q[1], q[2]) == y && ThirdByte(q[2], q[3]) == z
  {
    hide GetChar, ToBinary, InAlphabet, FirstByte, SecondByte, ThirdByte;
    var (a, b, c) := (x as int, y as int, z as int);
    BytesOfSextets(a / 4, a % 4 * 16 + b / 16, b % 16 * 4 + c / 64, c % 64);
    BitsOfFirst(a, b);
    BitsOfSecond(a, b, c);
    BitsOfThird(b, c);
  }

  lemma EncodeIsDecodable(binary: Bytes)
    requires binary != []
    ensures Decodable(Encode(binary))
  {
    hide Encode, InAlphabet, Padded;
    EncodingShape(binary);
    SizeIsQuads(|binary|);
  }

  lemma SizeIsQuads(n: nat)
    ensures EncodingSize(n) % 4 == 0 && (n > 0 ==> EncodingSize(n) > 0)
  {
  }

  lemma {:induction false} DecodeAllUndoesEncode(binary: Bytes)
    requires binary != []
    ensures Decodable(Encode(binary)) && DecodeAll(Encode(binary)) == binary
    decreases |binary|
  {
    hide Quad, InAlphabet, Decodable, FirstByte, SecondByte, ThirdByte;
    EncodeIsDecodable(binary);
    PadIsOdd();
    var e := Encode(binary);
    if |binary| < 3 {
      TripleOfQuad(binary[0], if |binary| == 2 then binary[1] else NUL, NUL);
      DecodeLast(e);
    } else {
      var q := Quad(binary[0], binary[1], binary[2]);
      TripleOfQuad(binary[0], binary[1], binary[2]);
      assert binary == [binary[0], binary[1], binary[2]] + binary[3..];
      if |binary| == 3 {
        assert e == q + [] == q;
        DecodeLast(e);
      } else {
        DecodeAllUndoesEncode(binary[3..]);
        EncodeIsDecodable(binary[3..]);
        DecodableParts(Encode(binary[3..]));
        assert e[4..] == Encode(binary[3..]) && e[0..] == e;
        DecodeStep(e, 0);
      }
    }
  }

  /** Decoding what was encoded gives the bytes back, whatever they are. */
  lemma DecodeUndoesEncode(binary: Bytes)
    ensures Decode(Encode(binary)) == binary
  {
    hide Encode, Decode, DecodeAll, Decodable;
    if binary == [] {
      NothingToEncode();
      AcceptedIsDecodable([]);
      NothingToDecode();
    } else {
      DecodeAllUndoesEncode(binary);
      AcceptedIsDecodable(Encode(binary));
    }
  }

  lemma NothingToDecode()
    ensures !Decodable([])
  {
  }

  lemma {:induction false} LastQuad(t: Bytes)
    requires Decodable(t)
    ensures |t| >= 4 && Decodable(t[|t| - 4..])
    decreases |t|
  {
    hide InAlphabet, Decodable;
    DecodableParts(t);
    if |t| == 4 {
      assert t[0..] == t;
    } else {
      LastQuad(t[4..]);
      assert t[4..][|t| - 8..] == t[|t| - 4..];
    }
  }

  /** The bits that padding leaves over are zero. */
  predicate Canonical(t: Bytes)
    requires Decodable(t)
  {
    LastQuad(t);
    var last := t[|t| - 4..];
    DecodableParts(last);
    if last[2] == PAD then ToBinary(last[1]) % 16 == 0
    else if last[3] == PAD then ToBinary(last[2]) % 4 == 0
    else true
  }

  lemma HighBits(p: nat, q: nat)
    requires p < 64 && q < 64
    ensures var a := (p * 4 + q / 16 % 4) % 256; a == p * 4 + q / 16 && a / 4 == p && a % 4 == q / 16
  {
  }

  lemma MiddleBits(q: nat, r: nat)
    requires q < 64 && r < 64
    ensures var b := (q % 16 * 16 + r / 4 % 16) % 256; b == q % 16 * 16 + r / 4 && b / 16 == q % 16 && b % 16 == r / 4
  {
    assert r / 4 < 16;
  }

  lemma LowBits(r: nat, s: nat)
    requires r < 64 && s < 64
    ensures var c := (r % 4 * 64 + s) % 256; c / 64 == r % 4 && c % 64 == s
  {
  }

  lemma BitsOfSextets(p: nat, q: nat, r: nat, s: nat)
    requires p < 64 && q < 64 && r < 64 && s < 64
    ensures var (a, b, c) := ((p * 4 + q / 16 % 4) % 256, (q % 16 * 16 + r / 4 % 16) % 256, (r % 4 * 64 + s) % 256);
            && a / 4 == p && a % 4 * 16 + b / 16 == q && b % 16 * 4 + c / 64 == r && c % 64 == s
            && (a % 4 * 16 == q <==> q % 16 == 0) && (b % 16 * 4 == r <==> r % 4 == 0)
  {
    HighBits(p, q);
    MiddleBits(q, r);
    LowBits(r, s);
    assert q / 16 * 16 + q % 16 == q && r / 4 * 4 + r % 4 == r;
  }

  lemma QuadOfTriple(p: Octet, q: Octet, r: Octet, s: Octet)
    requires InAlphabet(p) && InAlphabet(q) && InAlphabet(r) && InAlphabet(s)
    ensures Quad(FirstByte(p, q), SecondByte(q, r), ThirdByte(r, s)) == [p, q, r, s]
  {
    hide GetChar, ToBinary, InAlphabet;
    TablesAgreeBack(p);
    TablesAgreeBack(q);
    TablesAgreeBack(r);
    TablesAgreeBack(s);
    BitsOfSextets(ToBinary(p), ToBinary(q), ToBinary(r), ToBinary(s));
  }

  lemma LeftoverOfOne(p: Octet, q: Octet)
    requires InAlphabet(p) && InAlphabet(q)
    ensures Leftover([FirstByte(p, q)]) == [p, q, PAD, PAD] <==> ToBinary(q) % 16 == 0
  {
    hide GetChar, ToBinary, InAlphabet;
    TablesAgreeBack(p);
    TablesAgreeBack(q);
    BitsOfSextets(ToBinary(p), ToBinary(q), 0, 0);
    var a := FirstByte(p, q) as int;
    TablesAgree(a % 4 * 16);
  }

  lemma LeftoverOfTwo(p: Octet, q: Octet, r: Octet)
    requires InAlphabet(p) && InAlphabet(q) && InAlphabet(r)
    ensures Leftover([FirstByte(p, q), SecondByte(q, r)]) == [p, q, r, PAD] <==> ToBinary(r) % 4 == 0
  {
    hide GetChar, ToBinary, InAlphabet;
    TablesAgreeBack(p);
    TablesAgreeBack(q);
    TablesAgreeBack(r);
    BitsOfSextets(ToBinary(p), ToBinary(q), ToBinary(r), 0);
    var b := SecondByte(q, r) as int;
    TablesAgree(b % 16 * 4);
  }

  lemma LastUndone(t: Bytes)
    requires Decodable(t) && |t| == 4
    ensures Encode(DecodeAll(t)) == t <==> Canonical(t)
  {
    hide InAlphabet, Decodable, FirstByte, SecondByte, ThirdByte, ToBinary, Quad, Leftover, DecodeAll;
    DecodableParts(t);
    LastQuad(t);
    DecodeLast(t);
    assert t[0..] == t && t == [t[0], t[1], t[2], t[3]];
    if t[2] == PAD {
      LeftoverOfOne(t[0], t[1]);
      OnePadIsTwo(t);
    } else if t[3] == PAD {
      LeftoverOfTwo(t[0], t[1], t[2]);
    } else {
      QuadOfTriple(t[0], t[1], t[2], t[3]);
      EncodeThree(FirstByte(t[0], t[1]), SecondByte(t[1], t[2]), ThirdByte(t[2], t[3]), []);
      NothingToEncode();
    }
  }

  lemma CanonicalAtEnd(t: Bytes)
    requires Decodable(t) && |t| > 4
    ensures Decodable(t[4..]) && (Canonical(t) <==> Canonical(t[4..]))
  {
    hide InAlphabet, Decodable, ToBinary;
    DecodableParts(t);
    LastQuad(t);
    LastQuad(t[4..]);
    assert t[4..][|t| - 8..] == t[|t| - 4..];
  }

  lemma SameFront(q: Bytes, a: Bytes, b: Bytes)
    ensures q + a == q + b <==> a == b
  {
    if q + a == q + b { assert a == (q + a)[|q|..] == (q + b)[|q|..] == b; }
  }

  /** Encoding what was decoded gives the text back exactly if its left-over bits are zero. */
  lemma {:induction false} EncodeUndoesDecodeExactly(t: Bytes)
    requires Decodable(t)
    ensures Encode(DecodeAll(t)) == t <==> Canonical(t)
    decreases |t|
  {
    hide InAlphabet, Decodable, FirstByte, SecondByte, ThirdByte, Quad, DecodeAll, Encode, Canonical;
    DecodableParts(t);
    if |t| == 4 {
      LastUndone(t);
    } else {
      CanonicalAtEnd(t);
      assert t[0..] == t;
      DecodeStep(t, 0);
      QuadOfTriple(t[0], t[1], t[2], t[3]);
      EncodeThree(FirstByte(t[0], t[1]), SecondByte(t[1], t[2]), ThirdByte(t[2], t[3]), DecodeAll(t[4..]));
      assert t == [t[0], t[1], t[2], t[3]] + t[4..];
      SameFront([t[0], t[1], t[2], t[3]], Encode(DecodeAll(t[4..])), t[4..]);
      EncodeUndoesDecodeExactly(t[4..]);
    }
  }

  lemma EncodeThree(x: Octet, y: Octet, z: Octet, rest: Bytes)
    ensures Encode([x, y, z] + rest) == Quad(x, y, z) + Encode(rest)
    ensures [x, y, z] + [] == [x, y, z]
  {
    assert ([x, y, z] + rest)[3..] == rest;
  }

  lemma OnePadIsTwo(t: Bytes)
    requires Decodable(t) && |t| == 4 && t[2] == PAD
    ensures t[3] == PAD
  {
    var pads: nat :| pads <= 2 && Padded(t, pads);
    assert !InAlphabet(PAD);
  }

  // ---- The table and the bits of RFC 4648

  /** Table 1 of RFC 4648. */
  function TableOne(value: nat): char
    requires value < 64
  {
    if value < 26 then "ABCDEFGHIJKLMNOPQRSTUVWXYZ"[value]
    else if value < 52 then "abcdefghijklmnopqrstuvwxyz"[value - 26]
    else if value < 62 then "0123456789"[value - 52]
    else "+/"[value - 62]
  }

  lemma CharIsTableOne(bin: nat)
    requires bin < 64
    ensures GetChar(bin) == TableOne(bin) && PAD == '='
  {
  }

  /** Three bytes, taken as one number. */
  function OneNumber(x: Octet, y: Octet, z: Octet): (bits: nat)
    ensures bits < 16777216
  {
    x as int * 65536 + y as int * 256 + z as int
  }

  /** Three bytes, taken as one number of 24 bits, are written from the highest six bits to the lowest. */
  lemma QuadBits(x: Octet, y: Octet, z: Octet)
    ensures Quad(x, y, z) == SixBits(OneNumber(x, y, z))
  {
    hide GetChar, TableOne;
    var (a, b, c) := (x as int, y as int, z as int);
    var bits := a * 65536 + b * 256 + c;
    FirstSix(a, b, c);
    SecondSix(a, b, c);
    ThirdSix(a, b, c);
    LastSix(a, b, c);
    CharIsTableOne(bits / 262144);
    CharIsTableOne(bits / 4096 % 64);
    CharIsTableOne(bits / 64 % 64);
    CharIsTableOne(bits % 64);
  }

  /** Section 4 of RFC 4648: the characters of a number of 24 bits. */
  function SixBits(bits: nat): string
    requires bits < 16777216
  {
    [TableOne(bits / 262144), TableOne(bits / 4096 % 64), TableOne(bits / 64 % 64), TableOne(bits % 64)]
  }

  lemma FirstSix(a: nat, b: nat, c: nat)
    requires a < 256 && b < 256 && c < 256
    ensures a / 4 == (a * 65536 + b * 256 + c) / 262144
  {
  }

  lemma SecondSix(a: nat, b: nat, c: nat)
    requires a < 256 && b < 256 && c < 256
    ensures a % 4 * 16 + b / 16 == (a * 65536 + b * 256 + c) / 4096 % 64
  {
    assert a * 65536 + b * 256 + c == 4096 * (a * 16 + b / 16) + (b % 16 * 256 + c);
    assert (a * 65536 + b * 256 + c) / 4096 == a * 16 + b / 16;
    assert a * 16 + b / 16 == 64 * (a / 4) + (a % 4 * 16 + b / 16);
  }

  lemma ThirdSix(a: nat, b: nat, c: nat)
    requires a < 256 && b < 256 && c < 256
    ensures b % 16 * 4 + c / 64 == (a * 65536 + b * 256 + c) / 64 % 64
  {
    assert a * 65536 + b * 256 + c == 64 * (a * 1024 + b * 4 + c / 64) + c % 64;
    assert (a * 65536 + b * 256 + c) / 64 == a * 1024 + b * 4 + c / 64;
    assert a * 1024 + b * 4 + c / 64 == 64 * (a * 16 + b / 16) + (b % 16 * 4 + c / 64);
  }

  lemma LastSix(a: nat, b: nat, c: nat)
    requires a < 256 && b < 256 && c < 256
    ensures c % 64 == (a * 65536 + b * 256 + c) % 64
  {
    assert a * 65536 + b * 256 + c == 64 * (a * 1024 + b * 4 + c / 64) + c % 64;
  }

  /** So every byte string is written three bytes at a time; what is left over is filled up with zero bits, and
      the characters that hold no bit of it are padding. */
  lemma EncodingBits(binary: Bytes)
    ensures binary == [] ==> Encode(binary) == []
    ensures |binary| == 1 ==> Encode(binary) == SixBits(OneNumber(binary[0], '\0', '\0'))[..2] + "=="
    ensures |binary| == 2 ==> Encode(binary) == SixBits(OneNumber(binary[0], binary[1], '\0'))[..3] + "="
    ensures |binary| >= 3 ==>
      Encode(binary) == SixBits(OneNumber(binary[0], binary[1], binary[2])) + Encode(binary[3..])
  {
    hide Quad, SixBits, GetChar, OneNumber, Leftover;
    if |binary| >= 3 {
      QuadBits(binary[0], binary[1], binary[2]);
    } else {
      LeftoverBits(binary);
    }
  }

  lemma LeftoverBits(rest: Bytes)
    requires |rest| < 3
    ensures rest == [] ==> Leftover(rest) == []
    ensures |rest| == 1 ==> Leftover(rest) == SixBits(OneNumber(rest[0], '\0', '\0'))[..2] + "=="
    ensures |rest| == 2 ==> Leftover(rest) == SixBits(OneNumber(rest[0], rest[1], '\0'))[..3] + "="
  {
    hide Quad, SixBits, GetChar, OneNumber;
    CharIsTableOne(0);
    if |rest| == 1 {
      QuadBits(rest[0], NUL, NUL);
      QuadOf(rest[0], NUL, NUL);
    } else if |rest| == 2 {
      QuadBits(rest[0], rest[1], NUL);
      QuadOf(rest[0], rest[1], NUL);
    }
  }

  lemma QuadOf(x: Octet, y: Octet, z: Octet)
    ensures |Quad(x, y, z)| == 4
  {
  }
}
