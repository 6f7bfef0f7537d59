/**
 * The browser's `btoa` and `atob` as the client uses them on byte buffers.
 *
 * `btoa` of a byte string is the padded Base64 encoding of section 4 of RFC 4648.
 * `atob` is the "forgiving-base64 decode" of the WHATWG Infra standard: ASCII
 * whitespace is dropped, one or two trailing `=` are dropped when the length is a
 * multiple of four, and the input is rejected (the browser throws) when its length
 * leaves remainder one modulo four or when it holds a character outside the alphabet.
 */
module Base64 {
  import opened Wrappers

  /** The 64 characters of the standard alphabet (table 1 of RFC 4648). */
  predicate IsBase64Char(c: char) {
    ('A' <= c <= 'Z') || ('a' <= c <= 'z') || ('0' <= c <= '9') || c == '+' || c == '/'
  }

  /** ASCII whitespace as the Infra standard defines it: TAB, LF, FF, CR and SPACE. */
  predicate IsAsciiWhitespace(c: char) {
    c == '\t' || c == '\n' || c == '\U{000C}' || c == '\r' || c == ' '
  }

  /** The character that stands for the 6-bit value `v`. */
  function CharOf(v: int): (c: char)
    requires 0 <= v < 64
    ensures IsBase64Char(c)
  {
    if v < 26 then ('A' as int + v) as char
    else if v < 52 then ('a' as int + (v - 26)) as char
    else if v < 62 then ('0' as int + (v - 52)) as char
    else if v == 62 then '+'
    else '/'
  }

  /** The 6-bit value of an alphabet character. */
  function ValueOf(c: char): (v: int)
    requires IsBase64Char(c)
    ensures 0 <= v < 64
  {
    if 'A' <= c <= 'Z' then c as int - 'A' as int
    else if 'a' <= c <= 'z' then c as int - 'a' as int + 26
    else if '0' <= c <= '9' then c as int - '0' as int + 52
    else if c == '+' then 62
    else 63
  }

  lemma ValueOfCharOf(v: int)
    requires 0 <= v < 64
    ensures ValueOf(CharOf(v)) == v
  {
  }

  /** Splitting one, two or three bytes into 6-bit groups; RFC 4648 section 4. */
  function Group0(a: byte): int { a / 4 }
  function Group1(a: byte, b: byte): int { (a % 4) * 16 + b / 16 }
  function Group2(b: byte, c: byte): int { (b % 16) * 4 + c / 64 }
  function Group3(c: byte): int { c % 64 }

  /** The four characters of one 3-byte quantum. */
  function Quantum(a: byte, b: byte, c: byte): (q: seq<char>)
    ensures |q| == 4
    ensures forall i :: 0 <= i < 4 ==> IsBase64Char(q[i])
  {
    [CharOf(Group0(a)), CharOf(Group1(a, b)), CharOf(Group2(b, c)), CharOf(Group3(c))]
  }

  /** The Base64 characters without the trailing padding: a final quantum of one or
      two bytes is completed with zero bits and cut to two or three characters. */
  function EncodeUnpadded(b: seq<byte>): seq<char>
    decreases |b|
  {
    if |b| == 0 then []
    else if |b| == 1 then Quantum(b[0], 0, 0)[..2]
    else if |b| == 2 then Quantum(b[0], b[1], 0)[..3]
    else Quantum(b[0], b[1], b[2]) + EncodeUnpadded(b[3..])
  }

  /** The `=` characters that complete the last quantum of `n` bytes. */
  function Padding(n: nat): string {
    if n % 3 == 1 then "==" else if n % 3 == 2 then "=" else ""
  }

  /** `btoa(String.fromCharCode(...bytes))`: padded standard Base64. */
  function Encode(b: seq<byte>): string {
    EncodeUnpadded(b) + Padding(|b|)
  }

  /** The three bytes that four alphabet characters stand for. */
  function DecodeQuantum(c0: char, c1: char, c2: char, c3: char): seq<byte>
    requires IsBase64Char(c0) && IsBase64Char(c1) && IsBase64Char(c2) && IsBase64Char(c3)
  {
    [ValueOf(c0) * 4 + ValueOf(c1) / 16,
     (ValueOf(c1) % 16) * 16 + ValueOf(c2) / 4,
     (ValueOf(c2) % 4) * 64 + ValueOf(c3)]
  }

  /** Reassembles the bytes of an unpadded run of alphabet characters; a final group
      of two or three characters stands for one or two bytes. */
  function DecodeUnpadded(d: seq<char>): seq<byte>
    requires forall i :: 0 <= i < |d| ==> IsBase64Char(d[i])
    requires |d| % 4 != 1
    decreases |d|
  {
    if |d| == 0 then []
    else if |d| == 2 then DecodeQuantum(d[0], d[1], 'A', 'A')[..1]
    else if |d| == 3 then DecodeQuantum(d[0], d[1], d[2], 'A')[..2]
    else DecodeQuantum(d[0], d[1], d[2], d[3]) + DecodeUnpadded(d[4..])
  }

  /** Step 1 of forgiving-base64 decode: drop every ASCII whitespace character. */
  function RemoveWhitespace(s: string): (r: string)
    ensures forall i :: 0 <= i < |r| ==> !IsAsciiWhitespace(r[i])
  {
    if s == [] then []
    else if IsAsciiWhitespace(s[0]) then RemoveWhitespace(s[1..])
    else [s[0]] + RemoveWhitespace(s[1..])
  }

  /** Step 2: if the text ends with one or two `=`, drop them. */
  function StripPadding(d: string): string {
    if |d| >= 2 && d[|d| - 2] == '=' && d[|d| - 1] == '=' then d[..|d| - 2]
    else if |d| >= 1 && d[|d| - 1] == '=' then d[..|d| - 1]
    else d
  }

  /** `atob`, read as bytes: `None` is the `InvalidCharacterError` the browser throws,
      among others for any text whose whitespace-free length leaves remainder 1 mod 4. */
  function Decode(s: string): Option<seq<byte>> {
    var d := RemoveWhitespace(s);
    var e := if |d| % 4 == 0 then StripPadding(d) else d;
    if |e| % 4 == 1 then None
    else if exists i :: 0 <= i < |e| && !IsBase64Char(e[i]) then None
    else Some(DecodeUnpadded(e))
  }

  // ---------------------------------------------------------------------------
  // Properties of the encoder

  /** The number of characters the unpadded encoding of `n` bytes has: four per
      whole quantum, and two or three for a final quantum of one or two bytes. */
  function UnpaddedLength(n: nat): nat {
    4 * (n / 3) + (if n % 3 == 0 then 0 else n % 3 + 1)
  }

  /** A final group never has a single character. */
  lemma UnpaddedLengthMod(n: nat)
    ensures UnpaddedLength(n) % 4 == (if n % 3 == 0 then 0 else n % 3 + 1)
    ensures UnpaddedLength(n) % 4 != 1
  {
    var q, t := n / 3, if n % 3 == 0 then 0 else n % 3 + 1;
    assert UnpaddedLength(n) == 4 * q + t;
    assert (4 * q + t) % 4 == t;
  }

  /** Every character of the unpadded encoding is from the standard alphabet, and
      there are `UnpaddedLength(n)` of them. */
  lemma {:induction false} EncodeUnpaddedShape(b: seq<byte>)
    ensures |EncodeUnpadded(b)| == UnpaddedLength(|b|)
    ensures forall i :: 0 <= i < |EncodeUnpadded(b)| ==> IsBase64Char(EncodeUnpadded(b)[i])
    decreases |b|
  {
    if |b| >= 3 {
      EncodeUnpaddedShape(b[3..]);
      assert (|b| - 3) / 3 == |b| / 3 - 1;
      assert (|b| - 3) % 3 == |b| % 3;
    }
  }

  /** `btoa` output has length 4 * ceil(n/3), is padded with `=` only at the end, and
      its padding is two, one or no `=` as n leaves remainder 1, 2 or 0 modulo 3. */
  lemma EncodeShape(b: seq<byte>)
    ensures |Encode(b)| == 4 * ((|b| + 2) / 3)
    ensures |Encode(b)| % 4 == 0
    ensures forall i :: 0 <= i < |Encode(b)| ==>
              (IsBase64Char(Encode(b)[i]) <==> i < |EncodeUnpadded(b)|)
    ensures forall i :: 0 <= i < |Encode(b)| ==> (IsBase64Char(Encode(b)[i]) || Encode(b)[i] == '=')
  {
    EncodeUnpaddedShape(b);
    PaddedLength(|b|);
    var u, p := EncodeUnpadded(b), Padding(|b|);
    assert Encode(b) == u + p;
    assert forall i :: 0 <= i < |p| ==> p[i] == '=';
    AlphabetThenPadding(u, p);
  }

  /** In alphabet characters followed by `=` signs, the alphabet characters are
      exactly the ones before the padding. */
  lemma AlphabetThenPadding(u: string, p: string)
    requires forall i :: 0 <= i < |u| ==> IsBase64Char(u[i])
    requires forall i :: 0 <= i < |p| ==> p[i] == '='
    ensures forall i :: 0 <= i < |u + p| ==> (IsBase64Char((u + p)[i]) <==> i < |u|)
    ensures forall i :: 0 <= i < |u + p| ==> IsBase64Char((u + p)[i]) || (u + p)[i] == '='
  {
    assert !IsBase64Char('=');
  }

  /** The padding completes the unpadded length to whole quanta of four characters. */
  lemma PaddedLength(n: nat)
    ensures UnpaddedLength(n) + |Padding(n)| == 4 * ((n + 2) / 3)
    ensures (UnpaddedLength(n) + |Padding(n)|) % 4 == 0
  {
    var k := (n + 2) / 3;
    assert k == n / 3 + (if n % 3 == 0 then 0 else 1);
    assert (4 * k) % 4 == 0;
  }

  /** The bytes of one 3-byte quantum come back from its four characters. */
  lemma QuantumRoundTrip(a: byte, b: byte, c: byte)
    ensures DecodeQuantum(CharOf(Group0(a)), CharOf(Group1(a, b)), CharOf(Group2(b, c)), CharOf(Group3(c))) == [a, b, c]
  {
    ValueOfCharOf(Group0(a));
    ValueOfCharOf(Group1(a, b));
    ValueOfCharOf(Group2(b, c));
    ValueOfCharOf(Group3(c));
    RejoinFirst(a, b);
    RejoinSecond(a, b, c);
    RejoinThird(b, c);
  }

  /** The first byte is its top six bits followed by the next two. */
  lemma RejoinFirst(a: byte, b: byte)
    ensures Group0(a) * 4 + Group1(a, b) / 16 == a
  {
    assert Group1(a, b) / 16 == a % 4;
  }

  /** The second byte is four bits of the second group followed by four of the third. */
  lemma RejoinSecond(a: byte, b: byte, c: byte)
    ensures (Group1(a, b) % 16) * 16 + Group2(b, c) / 4 == b
  {
    assert Group1(a, b) % 16 == b / 16;
    assert Group2(b, c) / 4 == b % 16;
  }

  /** The third byte is two bits of the third group followed by the fourth group. */
  lemma RejoinThird(b: byte, c: byte)
    ensures (Group2(b, c) % 4) * 64 + Group3(c) == c
  {
    assert Group2(b, c) % 4 == c / 64;
  }

  /** Four alphabet characters in front of a decodable run decode to their three
      bytes followed by the decoding of the run. */
  lemma DecodeUnpaddedCons(q: seq<char>, rest: seq<char>)
    requires |q| == 4 && forall i :: 0 <= i < 4 ==> IsBase64Char(q[i])
    requires forall i :: 0 <= i < |rest| ==> IsBase64Char(rest[i])
    requires |rest| % 4 != 1
    ensures |q + rest| % 4 != 1
    ensures forall i :: 0 <= i < |q + rest| ==> IsBase64Char((q + rest)[i])
    ensures DecodeUnpadded(q + rest) == DecodeQuantum(q[0], q[1], q[2], q[3]) + DecodeUnpadded(rest)
  {
    assert (q + rest)[4..] == rest;
  }

  /** A final group of two or three characters decodes to the leading bytes of the
      quantum it would make with `A` (the value zero) appended. */
  lemma DecodeUnpaddedShort(c0: char, c1: char, c2: char)
    requires IsBase64Char(c0) && IsBase64Char(c1) && IsBase64Char(c2)
    ensures DecodeUnpadded([c0, c1]) == DecodeQuantum(c0, c1, 'A', 'A')[..1]
    ensures DecodeUnpadded([c0, c1, c2]) == DecodeQuantum(c0, c1, c2, 'A')[..2]
  {
  }

  lemma DecodeEncodeOne(a: byte)
    ensures DecodeUnpadded(EncodeUnpadded([a])) == [a]
  {
    assert EncodeUnpadded([a]) == [CharOf(Group0(a)), CharOf(Group1(a, 0))];
    assert CharOf(0) == 'A';
    QuantumRoundTrip(a, 0, 0);
    DecodeUnpaddedShort(CharOf(Group0(a)), CharOf(Group1(a, 0)), 'A');
  }

  lemma DecodeEncodeTwo(a: byte, b: byte)
    ensures DecodeUnpadded(EncodeUnpadded([a, b])) == [a, b]
  {
    assert EncodeUnpadded([a, b]) == [CharOf(Group0(a)), CharOf(Group1(a, b)), CharOf(Group2(b, 0))];
    assert CharOf(0) == 'A';
    QuantumRoundTrip(a, b, 0);
    DecodeUnpaddedShort(CharOf(Group0(a)), CharOf(Group1(a, b)), CharOf(Group2(b, 0)));
  }

  /** Decoding the unpadded characters gives back exactly the encoded bytes. */
  lemma {:induction false} DecodeEncodeUnpadded(b: seq<byte>)
    ensures |EncodeUnpadded(b)| % 4 != 1
    ensures forall i :: 0 <= i < |EncodeUnpadded(b)| ==> IsBase64Char(EncodeUnpadded(b)[i])
    ensures DecodeUnpadded(EncodeUnpadded(b)) == b
    decreases |b|
  {
    if |b| < 3 {
      EncodeUnpaddedShape(b);
      UnpaddedLengthMod(|b|);
      if |b| == 1 {
        assert b == [b[0]];
        DecodeEncodeOne(b[0]);
      } else if |b| == 2 {
        assert b == [b[0], b[1]];
        DecodeEncodeTwo(b[0], b[1]);
      }
    } else {
      DecodeEncodeUnpadded(b[3..]);
      assert b == [b[0], b[1], b[2]] + b[3..];
      DecodeEncodeStep(b[0], b[1], b[2], b[3..]);
    }
  }

  /** One step of the round trip: a leading quantum decodes back in front of the bytes
      that the rest of the encoding decodes to. */
  lemma DecodeEncodeStep(a: byte, b: byte, c: byte, t: seq<byte>)
    requires |EncodeUnpadded(t)| % 4 != 1
    requires forall i :: 0 <= i < |EncodeUnpadded(t)| ==> IsBase64Char(EncodeUnpadded(t)[i])
    requires DecodeUnpadded(EncodeUnpadded(t)) == t
    ensures EncodeUnpadded([a, b, c] + t) == Quantum(a, b, c) + EncodeUnpadded(t)
    ensures |EncodeUnpadded([a, b, c] + t)| % 4 != 1
    ensures forall i :: 0 <= i < |EncodeUnpadded([a, b, c] + t)| ==> IsBase64Char(EncodeUnpadded([a, b, c] + t)[i])
    ensures DecodeUnpadded(EncodeUnpadded([a, b, c] + t)) == [a, b, c] + t
  {
    var u := [a, b, c] + t;
    assert u[0] == a && u[1] == b && u[2] == c && u[3..] == t;
    var q := Quantum(a, b, c);
    DecodeUnpaddedCons(q, EncodeUnpadded(t));
    QuantumRoundTrip(a, b, c);
  }

  /** Text with no whitespace passes step 1 unchanged. */
  lemma {:induction false} RemoveWhitespaceNone(s: string)
    requires forall i :: 0 <= i < |s| ==> !IsAsciiWhitespace(s[i])
    ensures RemoveWhitespace(s) == s
  {
    if s != [] {
      RemoveWhitespaceNone(s[1..]);
    }
  }

  /** Any run of alphabet characters whose length is not 1 mod 4 decodes, to the
      bytes that its reassembly gives. */
  lemma DecodeOfAlphabetRun(e: string)
    requires forall i :: 0 <= i < |e| ==> IsBase64Char(e[i])
    requires |e| % 4 != 0 && |e| % 4 != 1
    ensures Decode(e) == Some(DecodeUnpadded(e))
  {
    assert forall i :: 0 <= i < |e| ==> !IsAsciiWhitespace(e[i]);
    RemoveWhitespaceNone(e);
  }

  /** `atob(btoa(x)) == x`: the decoding of the padded encoding of any bytes is those bytes. */
  lemma DecodeEncode(b: seq<byte>)
    ensures Decode(Encode(b)) == Some(b)
  {
    EncodeShape(b);
    DecodeEncodeUnpadded(b);
    StripEncode(b);
    DecodeStripped(Encode(b), EncodeUnpadded(b));
  }

  /** Step 2 of the decoder removes exactly the padding the encoder added. */
  lemma StripEncode(b: seq<byte>)
    ensures StripPadding(Encode(b)) == EncodeUnpadded(b)
  {
    EncodeShape(b);
    EncodeUnpaddedShape(b);
    var s := Encode(b);
    var u := EncodeUnpadded(b);
    if |b| % 3 == 0 {
      assert s == u;
      assert |u| == 0 || IsBase64Char(u[|u| - 1]);
    } else if |b| % 3 == 2 {
      assert |u| >= 1 && IsBase64Char(u[|u| - 1]);
      assert s[..|s| - 1] == u;
    } else {
      assert s[..|s| - 2] == u;
    }
  }

  /** Whitespace-free text of whole quanta whose padding strips to a decodable run
      decodes to that run's bytes. */
  lemma DecodeStripped(s: string, u: string)
    requires forall i :: 0 <= i < |s| ==> IsBase64Char(s[i]) || s[i] == '='
    requires |s| % 4 == 0
    requires StripPadding(s) == u
    requires |u| % 4 != 1
    requires forall i :: 0 <= i < |u| ==> IsBase64Char(u[i])
    ensures Decode(s) == Some(DecodeUnpadded(u))
  {
    assert forall i :: 0 <= i < |s| ==> !IsAsciiWhitespace(s[i]);
    RemoveWhitespaceNone(s);
  }

  /** The unpadded encoding is accepted by `atob` too, and decodes to the same bytes. */
  lemma DecodeEncodeWithoutPadding(b: seq<byte>)
    ensures Decode(EncodeUnpadded(b)) == Some(b)
  {
    DecodeEncodeUnpadded(b);
    EncodeUnpaddedShape(b);
    UnpaddedLengthMod(|b|);
    var u := EncodeUnpadded(b);
    if |b| % 3 == 0 {
      assert Encode(b) == u;
      DecodeEncode(b);
    } else {
      DecodeOfAlphabetRun(u);
    }
  }
}
