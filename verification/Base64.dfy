/** The Base64 codec, over bytes. */
module Base64 {
  import opened Shared

  type sextet = x: int | 0 <= x < 64

  const PAD: byte := 61

  /** The alphabet of section 4 of RFC 4648: A-Z, a-z, 0-9, + and /. */
  function Digit(n: sextet): byte {
    if n < 26 then 65 + n else if n < 52 then 97 + n - 26 else if n < 62 then 48 + n - 52 else if n == 62 then 43
      else 47
  }

  /** The index table, which also knows the URL-safe digits and takes what it does not know for zero. */
  function Index(c: byte): sextet {
    if 65 <= c <= 90 then c - 65
    else if 97 <= c <= 122 then c - 97 + 26
    else if 48 <= c <= 57 then c - 48 + 52
    else if c == 43 || c == 45 || c == 46 then 62
    else if c == 44 || c == 47 || c == 95 then 63
    else 0
  }

  lemma IndexOfDigit(n: sextet)
    ensures Index(Digit(n)) == n && Digit(n) != PAD == '=' as int
  {
  }

  /** The alphabet, written out. */
  const ALPHABET: string :=
    "ABCDEFGHIJKLM" + "NOPQRSTUVWXYZ" + "abcdefghijklm" + "nopqrstuvwxyz" + "0123456789" + "+/"

  lemma FirstUpper(i: nat)
    requires i < |"ABCDEFGHIJKLM"|
    ensures "ABCDEFGHIJKLM"[i] as int == 65 + i
  {
    var s := "ABCDEFGHIJKLM";
    assert s[0] == 'A' && s[1] == 'B' && s[2] == 'C' && s[3] == 'D' && s[4] == 'E' && s[5] == 'F' && s[6] == 'G';
    assert s[7] == 'H' && s[8] == 'I' && s[9] == 'J' && s[10] == 'K' && s[11] == 'L' && s[12] == 'M';
  }

  lemma LastUpper(i: nat)
    requires i < |"NOPQRSTUVWXYZ"|
    ensures "NOPQRSTUVWXYZ"[i] as int == 78 + i
  {
    var s := "NOPQRSTUVWXYZ";
    assert s[0] == 'N' && s[1] == 'O' && s[2] == 'P' && s[3] == 'Q' && s[4] == 'R' && s[5] == 'S' && s[6] == 'T';
    assert s[7] == 'U' && s[8] == 'V' && s[9] == 'W' && s[10] == 'X' && s[11] == 'Y' && s[12] == 'Z';
  }

  lemma FirstLower(i: nat)
    requires i < |"abcdefghijklm"|
    ensures "abcdefghijklm"[i] as int == 97 + i
  {
    var s := "abcdefghijklm";
    assert s[0] == 'a' && s[1] == 'b' && s[2] == 'c' && s[3] == 'd' && s[4] == 'e' && s[5] == 'f' && s[6] == 'g';
    assert s[7] == 'h' && s[8] == 'i' && s[9] == 'j' && s[10] == 'k' && s[11] == 'l' && s[12] == 'm';
  }

  lemma LastLower(i: nat)
    requires i < |"nopqrstuvwxyz"|
    ensures "nopqrstuvwxyz"[i] as int == 110 + i
  {
    var s := "nopqrstuvwxyz";
    assert s[0] == 'n' && s[1] == 'o' && s[2] == 'p' && s[3] == 'q' && s[4] == 'r' && s[5] == 's' && s[6] == 't';
    assert s[7] == 'u' && s[8] == 'v' && s[9] == 'w' && s[10] == 'x' && s[11] == 'y' && s[12] == 'z';
  }

  lemma Decimals(i: nat)
    requires i < |"0123456789"|
    ensures "0123456789"[i] as int == 48 + i
  {
    var s := "0123456789";
    assert s[0] == '0' && s[1] == '1' && s[2] == '2' && s[3] == '3' && s[4] == '4';
    assert s[5] == '5' && s[6] == '6' && s[7] == '7' && s[8] == '8' && s[9] == '9';
  }

  lemma DigitWritten(n: sextet)
    ensures |ALPHABET| == 64 && Digit(n) == ALPHABET[n] as int
  {
    if n < 13 {
      FirstUpper(n);
    } else if n < 26 {
      LastUpper(n - 13);
    } else if n < 39 {
      FirstLower(n - 26);
    } else if n < 52 {
      LastLower(n - 39);
    } else if n < 62 {
      Decimals(n - 52);
    }
  }

  /** A digit stands for its place in the alphabet, four more characters for the last two digits, the rest for 0. */
  lemma IndexIs(c: byte)
    ensures forall n: sextet :: |ALPHABET| == 64 && (c == ALPHABET[n] as int ==> Index(c) == n)
    ensures c == '-' as int || c == '.' as int ==> Index(c) == 62
    ensures c == ',' as int || c == '_' as int ==> Index(c) == 63
    ensures Index(c) != 0 ==> c as char in ALPHABET || c as char in {'-', '.', ',', '_'}
  {
    forall n: sextet ensures |ALPHABET| == 64 && (c == ALPHABET[n] as int ==> Index(c) == n) {
      DigitWritten(n);
    }
    var m := Index(c);
    DigitWritten(m);
    assert ALPHABET[m] in ALPHABET;
  }

  // ---------- encoding ----------

  function At(s: seq<byte>, i: nat): byte {
    if i < |s| then s[i] else 0
  }

  /** Six bits from the bytes, number `m` in reading order. */
  function Sextet(s: seq<byte>, m: nat): sextet {
    var a, b, c := At(s, m / 4 * 3), At(s, m / 4 * 3 + 1), At(s, m / 4 * 3 + 2);
    if m % 4 == 0 then a / 4
    else if m % 4 == 1 then a % 4 * 16 + b / 16
    else if m % 4 == 2 then b % 16 * 4 + c / 64
    else c % 64
  }

  function Padding(n: nat): nat {
    if n % 3 == 0 then 0 else 3 - n % 3
  }

  function Encoded(s: seq<byte>): (t: seq<byte>)
    ensures |t| == (|s| + 2) / 3 * 4
  {
    var n := (|s| + 2) / 3 * 4;
    seq(n, m requires 0 <= m < n => if m < n - Padding(|s|) then Digit(Sextet(s, m)) else PAD)
  }

  method Encode(s: seq<byte>) returns (t: seq<byte>)
    ensures t == Encoded(s)
  {
    var size := 4 * ((|s| + 2) / 3);
    var res := new byte[size](_ => 0);
    var i, j := 0, 0;
    ghost var k := 0;
    hide Sextet, Digit, At;
    while i < |s|
      invariant j == 4 * k && (if i < |s| then i == 3 * k else i == |s| && k == (|s| + 2) / 3)
      invariant i <= |s| && forall m :: 0 <= m < j ==> res[m] == Digit(Sextet(s, m))
      decreases |s| - i
    {
      var triple;
      triple, i := ReadTriple(s, i);
      WriteGroup(res, j, s, k, triple);
      j := j + 4;
      k := k + 1;
    }
    PadEnd(res, Padding(|s|));
    t := res[..];
  }

  /** Four digits for three bytes. */
  method WriteGroup(res: array<byte>, j: nat, ghost s: seq<byte>, ghost k: nat, triple: int)
    requires j == 4 * k && j + 4 <= res.Length && forall m :: 0 <= m < j ==> res[m] == Digit(Sextet(s, m))
    requires triple == At(s, 3 * k) * 65536 + At(s, 3 * k + 1) * 256 + At(s, 3 * k + 2)
    modifies res
    ensures forall m :: 0 <= m < j + 4 ==> res[m] == Digit(Sextet(s, m))
  {
    hide Sextet, Digit, At;
    GroupOf(s, k, triple);
    res[j] := Digit(triple / 262144 % 64);
    res[j + 1] := Digit(triple / 4096 % 64);
    res[j + 2] := Digit(triple / 64 % 64);
    res[j + 3] := Digit(triple % 64);
  }

  /** Up to three bytes, the missing ones read as 0. */
  method ReadTriple(s: seq<byte>, i: nat) returns (triple: int, next: nat)
    requires i < |s|
    ensures triple == At(s, i) * 65536 + At(s, i + 1) * 256 + At(s, i + 2)
    ensures next == if i + 3 <= |s| then i + 3 else |s|
  {
    var a: byte := s[i];
    next := i + 1;
    var b: byte := 0;
    if next < |s| {
      b := s[next];
      next := next + 1;
    }
    var c: byte := 0;
    if next < |s| {
      c := s[next];
      next := next + 1;
    }
    triple := a * 65536 + b * 256 + c;
  }

  /** Overwrites the last `n` digits with padding. */
  method PadEnd(res: array<byte>, n: nat)
    requires n <= res.Length
    modifies res
    ensures forall m :: 0 <= m < res.Length ==> res[m] == if m < res.Length - n then old(res[m]) else PAD
  {
    for p := 0 to n
      invariant forall m :: 0 <= m < res.Length ==> res[m] == if m < res.Length - p then old(res[m]) else PAD
    {
      res[res.Length - 1 - p] := PAD;
    }
  }

  lemma GroupOf(s: seq<byte>, k: nat, triple: int)
    requires triple == At(s, 3 * k) * 65536 + At(s, 3 * k + 1) * 256 + At(s, 3 * k + 2)
    ensures triple / 262144 % 64 == Sextet(s, 4 * k) && triple / 4096 % 64 == Sextet(s, 4 * k + 1)
    ensures triple / 64 % 64 == Sextet(s, 4 * k + 2) && triple % 64 == Sextet(s, 4 * k + 3)
  {
    hide Sextet;
    SextetsOf(s, k);
    GroupSextets(At(s, 3 * k), At(s, 3 * k + 1), At(s, 3 * k + 2));
  }

  lemma SextetsOf(s: seq<byte>, g: nat)
    ensures var a, b, c := At(s, 3 * g), At(s, 3 * g + 1), At(s, 3 * g + 2);
            && Sextet(s, 4 * g) == a / 4 && Sextet(s, 4 * g + 1) == a % 4 * 16 + b / 16
            && Sextet(s, 4 * g + 2) == b % 16 * 4 + c / 64 && Sextet(s, 4 * g + 3) == c % 64
  {
    assert (4 * g) / 4 == g && (4 * g + 1) / 4 == g && (4 * g + 2) / 4 == g && (4 * g + 3) / 4 == g;
    assert (4 * g) % 4 == 0 && (4 * g + 1) % 4 == 1 && (4 * g + 2) % 4 == 2 && (4 * g + 3) % 4 == 3;
  }

  /** Shifting a group of three bytes by multiples of six bits gives its sextets. */
  lemma FourSextets(triple: int, x: int, y: int, z: int, w: int)
    requires 0 <= x < 64 && 0 <= y < 64 && 0 <= z < 64 && 0 <= w < 64 && triple == x * 262144 + y * 4096 + z * 64 + w
    ensures triple / 262144 % 64 == x && triple / 4096 % 64 == y && triple / 64 % 64 == z && triple % 64 == w
  {
    assert triple / 64 == x * 4096 + y * 64 + z;
    assert triple / 4096 == x * 64 + y;
    assert triple / 262144 == x;
  }

  lemma GroupSextets(a: byte, b: byte, c: byte)
    ensures var triple := a * 65536 + b * 256 + c;
            && triple / 262144 % 64 == a / 4
            && triple / 4096 % 64 == a % 4 * 16 + b / 16
            && triple / 64 % 64 == b % 16 * 4 + c / 64
            && triple % 64 == c % 64
  {
    var x, y, z, w := a / 4, a % 4 * 16 + b / 16, b % 16 * 4 + c / 64, c % 64;
    assert a == 4 * x + a % 4 && b == 16 * (b / 16) + b % 16 && c == 64 * (c / 64) + c % 64;
    FourSextets(a * 65536 + b * 256 + c, x, y, z, w);
  }

  /**
   * A group of four characters gives the digits, most significant first, of the number that its three bytes are;
   * where the bytes end, `=` stands for the digits that hold none of them.
   */
  lemma EncodedGroup(s: seq<byte>, k: nat) returns (w: sextet, x: sextet, y: sextet, z: sextet)
    requires 3 * k < |s|
    ensures At(s, 3 * k) * 65536 + At(s, 3 * k + 1) * 256 + At(s, 3 * k + 2) == w * 262144 + x * 4096 + y * 64 + z
    ensures |ALPHABET| == 64 && 4 * k + 4 <= |Encoded(s)|
    ensures var t := Encoded(s);
            && t[4 * k] == ALPHABET[w] as int && t[4 * k + 1] == ALPHABET[x] as int
            && t[4 * k + 2] == (if 3 * k + 1 < |s| then ALPHABET[y] else '=') as int
            && t[4 * k + 3] == (if 3 * k + 2 < |s| then ALPHABET[z] else '=') as int
  {
    hide *;
    w, x, y, z := Sextet(s, 4 * k), Sextet(s, 4 * k + 1), Sextet(s, 4 * k + 2), Sextet(s, 4 * k + 3);
    SextetsOf(s, k);
    ThreeBytes(At(s, 3 * k), At(s, 3 * k + 1), At(s, 3 * k + 2));
    CharsAt(s, k);
    DigitWritten(w);
    DigitWritten(x);
    DigitWritten(y);
    DigitWritten(z);
  }

  lemma CharsAt(s: seq<byte>, k: nat)
    requires 3 * k < |s|
    ensures 4 * k + 4 <= |Encoded(s)|
    ensures var t := Encoded(s);
            && t[4 * k] == Digit(Sextet(s, 4 * k)) && t[4 * k + 1] == Digit(Sextet(s, 4 * k + 1))
            && t[4 * k + 2] == (if 3 * k + 1 < |s| then Digit(Sextet(s, 4 * k + 2)) else '=' as int)
            && t[4 * k + 3] == (if 3 * k + 2 < |s| then Digit(Sextet(s, 4 * k + 3)) else '=' as int)
  {
    hide Sextet, Digit;
  }

  lemma ThreeBytes(a: byte, b: byte, c: byte)
    ensures a * 65536 + b * 256 + c ==
      a / 4 * 262144 + (a % 4 * 16 + b / 16) * 4096 + (b % 16 * 4 + c / 64) * 64 + c % 64
  {
    assert a == 4 * (a / 4) + a % 4 && b == 16 * (b / 16) + b % 16 && c == 64 * (c / 64) + c % 64;
  }

  // ---------- decoding ----------

  function Padded(t: seq<byte>): bool {
    |t| > 0 && (|t| % 4 != 0 || t[|t| - 1] == PAD)
  }

  /** The length of the part that consists of whole groups. */
  function Whole(t: seq<byte>): (n: nat)
    ensures n <= |t| && n % 4 == 0 && (Padded(t) ==> n < |t|)
  {
    ((|t| + 3) / 4 - if Padded(t) then 1 else 0) * 4
  }

  function DigitAt(t: seq<byte>, i: nat): sextet {
    if i < |t| then Index(t[i]) else 0
  }

  /** Byte `q` of the output, put together from the digits around it. */
  function Byte(t: seq<byte>, q: nat): byte {
    var g := q / 3 * 4;
    if q % 3 == 0 then DigitAt(t, g) * 4 + DigitAt(t, g + 1) / 16
    else if q % 3 == 1 then DigitAt(t, g + 1) % 16 * 16 + DigitAt(t, g + 2) / 4
    else DigitAt(t, g + 2) % 4 * 64 + DigitAt(t, g + 3)
  }

  function DecodedLength(t: seq<byte>): nat {
    Whole(t) / 4 * 3 +
    if !Padded(t) then 0 else if |t| > Whole(t) + 2 && t[Whole(t) + 2] != PAD then 2 else 1
  }

  /** Decoding reads beyond the end of its input iff one digit is left over. */
  function Decoded(t: seq<byte>): Option<seq<byte>> {
    if |t| % 4 == 1 then None
    else Some(seq(DecodedLength(t), q requires 0 <= q < DecodedLength(t) => Byte(t, q)))
  }

  method Decode(t: seq<byte>) returns (s: Option<seq<byte>>)
    ensures s == Decoded(t)
  {
    hide Index, Byte;
    var pad := Padded(t);
    var whole := Whole(t);
    var str := new byte[whole / 4 * 3 + if pad then 1 else 0](_ => 0);
    DecodeWhole(t, whole, str);
    var res := str[..];
    if pad {
      if whole + 1 >= |t| {
        return None;
      }
      BytesOf(t, whole / 4);
      res := res[|res| - 1 := Index(t[whole]) * 4 + Index(t[whole + 1]) / 16];
      if |t| > whole + 2 && t[whole + 2] != PAD {
        res := res + [Index(t[whole + 1]) % 16 * 16 + Index(t[whole + 2]) / 4];
      }
    }
    s := Some(res);
    assert res == Decoded(t).value;
  }

  /** Decodes the whole groups into the start of the buffer. */
  method DecodeWhole(t: seq<byte>, whole: nat, str: array<byte>)
    requires whole <= |t| && whole % 4 == 0 && whole / 4 * 3 <= str.Length
    modifies str
    ensures forall q :: 0 <= q < whole / 4 * 3 ==> str[q] == Byte(t, q)
  {
    hide Index, Byte;
    var i, j := 0, 0;
    ghost var g := 0;
    while i < whole
      invariant i <= whole && i == 4 * g && j == 3 * g
      invariant forall q :: 0 <= q < j ==> str[q] == Byte(t, q)
    {
      var n := Index(t[i]) * 262144 + Index(t[i + 1]) * 4096 + Index(t[i + 2]) * 64 + Index(t[i + 3]);
      GroupBytes(t, g, n);
      str[j] := n / 65536 % 256;
      str[j + 1] := n / 256 % 256;
      str[j + 2] := n % 256;
      i := i + 4;
      j := j + 3;
      g := g + 1;
    }
  }

  /** Shifting four digits by multiples of eight bits gives their bytes. */
  lemma GroupBytes(t: seq<byte>, g: nat, n: int)
    requires n == DigitAt(t, 4 * g) * 262144 + DigitAt(t, 4 * g + 1) * 4096 + DigitAt(t, 4 * g + 2) * 64
      + DigitAt(t, 4 * g + 3)
    ensures n / 65536 % 256 == Byte(t, 3 * g) && n / 256 % 256 == Byte(t, 3 * g + 1) && n % 256 == Byte(t, 3 * g + 2)
  {
    hide DigitAt, Byte;
    var x: int, y: int, z: int, w: int := DigitAt(t, 4 * g), DigitAt(t, 4 * g + 1), DigitAt(t, 4 * g + 2),
      DigitAt(t, 4 * g + 3);
    var a: int, b: int, c: int := x * 4 + y / 16, y % 16 * 16 + z / 4, z % 4 * 64 + w;
    assert n == a * 65536 + b * 256 + c;
    assert n / 256 == a * 256 + b;
    assert n / 65536 == a;
    BytesOf(t, g);
  }

  lemma BytesOf(t: seq<byte>, g: nat)
    ensures var x, y, z, w := DigitAt(t, 4 * g), DigitAt(t, 4 * g + 1), DigitAt(t, 4 * g + 2), DigitAt(t, 4 * g + 3);
            && Byte(t, 3 * g) == x * 4 + y / 16 && Byte(t, 3 * g + 1) == y % 16 * 16 + z / 4
                 && Byte(t, 3 * g + 2) == z % 4 * 64 + w
  {
    hide DigitAt;
    assert (3 * g) / 3 == g && (3 * g + 1) / 3 == g && (3 * g + 2) / 3 == g;
    assert (3 * g) % 3 == 0 && (3 * g + 1) % 3 == 1 && (3 * g + 2) % 3 == 2;
  }

  /** How many bytes a text stands for, by its length and its last two characters; one digit left over is too few. */
  lemma DecodedLengthIs(t: seq<byte>)
    ensures Decoded(t).None? <==> |t| % 4 == 1
    ensures Decoded(t).Some? ==>
      var n, groups := |t|, |t| / 4 * 3;
      |Decoded(t).value| ==
        if n % 4 == 2 then groups + 1
        else if n % 4 == 3 then groups + (if t[n - 1] == '=' as int then 1 else 2)
        else if n == 0 || t[n - 1] != '=' as int then groups
        else if t[n - 2] != '=' as int then groups - 1
        else groups - 2
  {
    hide Byte;
    assert |t| == |t| / 4 * 4 + |t| % 4;
  }

  /** Three bytes are the number that their four digits are. */
  lemma DecodedGroup(t: seq<byte>, g: nat)
    requires Decoded(t).Some? && 3 * g + 2 < |Decoded(t).value|
    ensures 4 * g + 4 <= |t|
    ensures var r := Decoded(t).value;
            var a: int, b: int, c: int := r[3 * g], r[3 * g + 1], r[3 * g + 2];
            a * 65536 + b * 256 + c ==
              Index(t[4 * g]) * 262144 + Index(t[4 * g + 1]) * 4096 + Index(t[4 * g + 2]) * 64 + Index(t[4 * g + 3])
  {
    hide Index, Byte;
    WholeGroup(t, g);
    GroupBytes(t, g, DigitAt(t, 4 * g) * 262144 + DigitAt(t, 4 * g + 1) * 4096 + DigitAt(t, 4 * g + 2) * 64
      + DigitAt(t, 4 * g + 3));
    BytesOf(t, g);
  }

  lemma WholeGroup(t: seq<byte>, g: nat)
    requires 3 * g + 2 < DecodedLength(t)
    ensures 4 * g + 4 <= Whole(t)
  {
  }

  // ---------- round trip ----------

  /** Decoding what was encoded gives the bytes back. */
  lemma DecodeEncode(s: seq<byte>)
    ensures Decoded(Encoded(s)) == Some(s)
  {
    hide *;
    var t := Encoded(s);
    EncodedShape(s);
    forall q | 0 <= q < |s| ensures s[q] == Byte(t, q) {
      ByteBack(s, q);
    }
    DecodedIs(t, s);
  }

  /** The bits of the last digit that hold no byte are zero. */
  lemma PadBitsZero(s: seq<byte>)
    ensures var t := Encoded(s);
            && (|s| % 3 == 1 ==> Index(t[|t| - 3]) % 16 == 0) && (|s| % 3 == 2 ==> Index(t[|t| - 2]) % 4 == 0)
  {
    hide Sextet, Digit, Index;
    var t, k := Encoded(s), |s| / 3;
    SextetsOf(s, k);
    if |s| % 3 == 1 {
      assert t[|t| - 3] == Digit(Sextet(s, 4 * k + 1));
      IndexOfDigit(Sextet(s, 4 * k + 1));
    } else if |s| % 3 == 2 {
      assert t[|t| - 2] == Digit(Sextet(s, 4 * k + 2));
      IndexOfDigit(Sextet(s, 4 * k + 2));
    }
  }

  /** Without its padding as well. */
  lemma DecodeUnpadded(s: seq<byte>)
    ensures var t := Encoded(s); Decoded(t[..|t| - Padding(|s|)]) == Some(s)
  {
    hide *;
    UnpaddedShape(s);
    var t := Encoded(s);
    var u := t[..|t| - Padding(|s|)];
    forall q | 0 <= q < |s| ensures s[q] == Byte(u, q) {
      ByteBack(s, q);
      SameByte(s, q);
    }
    DecodedIs(u, s);
  }

  lemma DecodedIs(t: seq<byte>, s: seq<byte>)
    requires |t| % 4 != 1 && DecodedLength(t) == |s| && forall q :: 0 <= q < |s| ==> s[q] == Byte(t, q)
    ensures Decoded(t) == Some(s)
  {
    hide Byte, DecodedLength;
    assert Decoded(t).value == s;
  }

  /** Missing digits count like padding. */
  lemma SameByte(s: seq<byte>, q: nat)
    ensures var t := Encoded(s);
            Padding(|s|) <= |t| && Byte(t[..|t| - Padding(|s|)], q) == Byte(t, q)
  {
    hide Sextet, Digit;
    assert Index(PAD) == 0;
    var t := Encoded(s);
    assert forall i: nat :: DigitAt(t, i) == DigitAt(t[..|t| - Padding(|s|)], i);
    hide DigitAt, Encoded, Index;
  }

  lemma UnpaddedShape(s: seq<byte>)
    ensures var t := Encoded(s);
            Padding(|s|) <= |t| &&
            var u := t[..|t| - Padding(|s|)];
            |u| % 4 != 1 && DecodedLength(u) == |s|
  {
    hide Sextet, Digit;
    var t := Encoded(s);
    var u := t[..|t| - Padding(|s|)];
    if |s| % 3 == 0 {
      EncodedShape(s);
      assert u == t;
    } else {
      var l := |t| - 2;
      IndexOfDigit(Sextet(s, l));
      assert |s| % 3 == 2 ==> u[l] == Digit(Sextet(s, l));
      assert (|u| + 3) / 4 == |s| / 3 + 1 && Whole(u) == |t| - 4;
    }
  }

  lemma EncodedShape(s: seq<byte>)
    ensures |Encoded(s)| % 4 == 0 && DecodedLength(Encoded(s)) == |s|
    ensures Padded(Encoded(s)) <==> |s| % 3 != 0
  {
    var t := Encoded(s);
    if |s| > 0 {
      LastChars(s);
      hide Encoded;
      if |s| % 3 != 0 {
        ShortGroup(t, |s|);
      } else {
        FullGroups(t, |s|);
      }
    }
  }

  lemma LastChars(s: seq<byte>)
    requires |s| > 0
    ensures var t := Encoded(s);
            && |t| == (|s| + 2) / 3 * 4 >= 4
            && (t[|t| - 1] == PAD <==> |s| % 3 != 0) && (t[|t| - 2] == PAD <==> |s| % 3 == 1)
  {
    hide *;
    var k := (|s| - 1) / 3;
    CharsAt(s, k);
    assert |Encoded(s)| == 4 * k + 4;
    IndexOfDigit(Sextet(s, 4 * k + 2));
    IndexOfDigit(Sextet(s, 4 * k + 3));
  }

  lemma FullGroups(t: seq<byte>, n: nat)
    requires n % 3 == 0 && |t| == (n + 2) / 3 * 4 && !Padded(t)
    ensures DecodedLength(t) == n
  {
    assert (|t| + 3) / 4 == n / 3;
  }

  lemma ShortGroup(t: seq<byte>, n: nat)
    requires n % 3 != 0 && |t| == (n + 2) / 3 * 4 && Padded(t)
    requires t[|t| - 2] == PAD <==> n % 3 == 1
    ensures DecodedLength(t) == n
  {
    assert (|t| + 3) / 4 == n / 3 + 1 && Whole(t) == n / 3 * 4 == |t| - 4;
  }

  lemma ByteBack(s: seq<byte>, q: nat)
    requires q < |s|
    ensures Byte(Encoded(s), q) == s[q]
  {
    hide Sextet, Digit, Index;
    var t := Encoded(s);
    var g := q / 3;
    var m := 4 * g + q % 3;
    assert q == 3 * g + q % 3;
    assert m + 1 < |t| - Padding(|s|);
    assert t[m] == Digit(Sextet(s, m)) && t[m + 1] == Digit(Sextet(s, m + 1));
    IndexOfDigit(Sextet(s, m));
    IndexOfDigit(Sextet(s, m + 1));
    Joined(s, g, q % 3);
  }

  lemma Halves(a: byte, b: byte, c: byte)
    ensures a / 4 * 4 + (a % 4 * 16 + b / 16) / 16 == a
    ensures (a % 4 * 16 + b / 16) % 16 * 16 + (b % 16 * 4 + c / 64) / 4 == b
    ensures (b % 16 * 4 + c / 64) % 4 * 64 + c % 64 == c
  {
    assert (a % 4 * 16 + b / 16) / 16 == a % 4 && (a % 4 * 16 + b / 16) % 16 == b / 16;
    assert (b % 16 * 4 + c / 64) / 4 == b % 16 && (b % 16 * 4 + c / 64) % 4 == c / 64;
  }

  /** Two neighbouring sextets hold the byte between them. */
  lemma Joined(s: seq<byte>, g: nat, r: nat)
    requires r < 3 && 3 * g + r < |s|
    ensures var x, y := Sextet(s, 4 * g + r), Sextet(s, 4 * g + r + 1);
            s[3 * g + r] == if r == 0 then x * 4 + y / 16 else if r == 1 then x % 16 * 16 + y / 4 else x % 4 * 64 + y
  {
    hide Sextet;
    SextetsOf(s, g);
    var a, b, c := At(s, 3 * g), At(s, 3 * g + 1), At(s, 3 * g + 2);
    Halves(a, b, c);
  }
}
