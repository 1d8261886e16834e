/** Python text: lower-casing and the UTF-8 codec. */
module Text {
  import opened Bytes

  /** str.lower() on one character, as far as it can produce ASCII text: besides A-Z
      only the Kelvin sign has an ASCII lower-case form. */
  function LowerChar(c: char): char {
    if 'A' <= c <= 'Z' then (c as int + 32) as char
    else if c == '\U{212A}' then 'k'
    else c
  }

  function Lower(s: string): (r: string)
    ensures |r| == |s|
    ensures forall i :: 0 <= i < |s| ==> r[i] == LowerChar(s[i])
  {
    seq(|s|, i requires 0 <= i < |s| => LowerChar(s[i]))
  }

  predicate IsAscii(s: string) {
    forall i :: 0 <= i < |s| ==> s[i] as int < 0x80
  }

  /** The UTF-8 bytes of one character. */
  function EncodeChar(c: char): (r: Blob)
    ensures c as int < 0x80 ==> r == [c as int]
    ensures c as int >= 0x80 ==> r != [] && r[0] >= 0x80
  {
    var n := c as int;
    if n < 0x80 then [n]
    else if n < 0x800 then [0xC0 + n / 0x40, 0x80 + n % 0x40]
    else if n < 0x1_0000 then [0xE0 + n / 0x1000, 0x80 + n / 0x40 % 0x40, 0x80 + n % 0x40]
    else [0xF0 + n / 0x4_0000, 0x80 + n / 0x1000 % 0x40, 0x80 + n / 0x40 % 0x40, 0x80 + n % 0x40]
  }

  /** str.encode() */
  function Encode(s: string): Blob {
    if s == [] then [] else EncodeChar(s[0]) + Encode(s[1..])
  }

  predicate Continuation(b: Byte) { 0x80 <= b <= 0xBF }

  /** Length of the well-formed UTF-8 sequence at the head of s, 0 if there is none. */
  function Utf8Head(s: Blob): (n: nat)
    ensures n <= |s|
    ensures s != [] && s[0] < 0x80 ==> n == 1
    ensures |s| >= 2 && s[0] >= 0x80 && !Continuation(s[1]) ==> n == 0
  {
    if s == [] then 0
    else if s[0] < 0x80 then 1
    else if 0xC2 <= s[0] <= 0xDF then
      if |s| >= 2 && Continuation(s[1]) then 2 else 0
    else if 0xE0 <= s[0] <= 0xEF then
      if |s| >= 3 && Continuation(s[1]) && Continuation(s[2])
         && (s[0] == 0xE0 ==> s[1] >= 0xA0) && (s[0] == 0xED ==> s[1] <= 0x9F)
      then 3 else 0
    else if 0xF0 <= s[0] <= 0xF4 then
      if |s| >= 4 && Continuation(s[1]) && Continuation(s[2]) && Continuation(s[3])
         && (s[0] == 0xF0 ==> s[1] >= 0x90) && (s[0] == 0xF4 ==> s[1] <= 0x8F)
      then 4 else 0
    else 0
  }

  /** Whether bytes.decode() accepts s. */
  predicate Utf8Valid(s: Blob) {
    s == [] || (Utf8Head(s) != 0 && Utf8Valid(s[Utf8Head(s)..]))
  }

  /** The loop of str2blob: every byte becomes a 16-bit unit, then a zero unit. */
  function Widen(bs: Blob): Blob {
    if bs == [] then [0, 0] else [bs[0], 0] + Widen(bs[1..])
  }

  /** str2blob */
  function Str2Blob(s: string): Blob {
    Widen(Encode(s))
  }

  predicate AllBelow80(bs: Blob) {
    forall i :: 0 <= i < |bs| ==> bs[i] < 0x80
  }

  lemma {:induction false} EncodeAscii(s: string)
    ensures AllBelow80(Encode(s)) <==> IsAscii(s)
  {
    if s != [] {
      EncodeAscii(s[1..]);
      var head, rest := EncodeChar(s[0]), Encode(s[1..]);
      assert AllBelow80(rest) <==> IsAscii(s[1..]);
      assert Encode(s)[0] == head[0];
      assert Encode(s)[|head|..] == rest;
      if AllBelow80(Encode(s)) {
        assert AllBelow80(rest) by {
          forall i | 0 <= i < |rest| ensures rest[i] < 0x80 { assert rest[i] == Encode(s)[|head| + i]; }
        }
        assert forall i :: 0 <= i < |s| ==> s[i] == if i == 0 then s[0] else s[1..][i - 1];
      }
      if IsAscii(s) {
        assert IsAscii(s[1..]);
      }
    }
  }

  lemma Utf8Step(b: Byte, r: Blob)
    ensures b < 0x80 ==> (Utf8Valid([b] + r) <==> Utf8Valid(r))
  {
    assert ([b] + r)[1..] == r;
  }

  lemma {:induction false} WidenValid(bs: Blob)
    ensures Utf8Valid(Widen(bs)) <==> AllBelow80(bs)
  {
    if bs == [] {
      Utf8Step(0, [0]);
      Utf8Step(0, []);
    } else {
      var r := Widen(bs[1..]);
      WidenValid(bs[1..]);
      assert [bs[0], 0] + r == [bs[0]] + ([0] + r);
      Utf8Step(bs[0], [0] + r);
      Utf8Step(0, r);
      assert bs == [bs[0]] + bs[1..];
    }
  }

  /** A name written by str2blob is decoded without error on the next read exactly when it is
      ASCII: in a wider name some byte above 0x7F is followed by a zero byte. */
  lemma NameDecodes(name: string)
    ensures Utf8Valid(Str2Blob(name)) <==> IsAscii(name)
  {
    WidenValid(Encode(name));
    EncodeAscii(name);
  }

  // ---- the bytes of a name, and names from their bytes ----

  lemma {:induction false} AsciiEncodes(s: string)
    requires IsAscii(s)
    ensures |Encode(s)| == |s| && forall i :: 0 <= i < |s| ==> Encode(s)[i] == s[i] as int
  {
    if s != [] {
      assert IsAscii(s[1..]);
      AsciiEncodes(s[1..]);
      assert EncodeChar(s[0]) == [s[0] as int];
    }
  }

  lemma {:induction false} WidenBytes(bs: Blob)
    ensures |Widen(bs)| == 2 * |bs| + 2
    ensures forall i :: 0 <= i < |bs| ==> Widen(bs)[2 * i] == bs[i] && Widen(bs)[2 * i + 1] == 0
    ensures Widen(bs)[2 * |bs|] == 0 && Widen(bs)[2 * |bs| + 1] == 0
  {
    if bs != [] {
      var rest := Widen(bs[1..]);
      WidenBytes(bs[1..]);
      forall i | 0 <= i < |bs| ensures Widen(bs)[2 * i] == bs[i] && Widen(bs)[2 * i + 1] == 0 {
        if i > 0 {
          assert Widen(bs)[2 * i] == rest[2 * (i - 1)] && Widen(bs)[2 * i + 1] == rest[2 * (i - 1) + 1];
        }
      }
    }
  }

  /** An ASCII name is stored as its characters in 16-bit little-endian units with a zero unit behind them. */
  lemma NameBytes(name: string)
    requires IsAscii(name)
    ensures |Str2Blob(name)| == 2 * |name| + 2
    ensures forall i :: 0 <= i < |name| ==> Str2Blob(name)[2 * i] == name[i] as int && Str2Blob(name)[2 * i + 1] == 0
    ensures Str2Blob(name)[2 * |name|] == 0 && Str2Blob(name)[2 * |name| + 1] == 0
  {
    AsciiEncodes(name);
    WidenBytes(Encode(name));
  }

  /** How many bytes a first byte announces. */
  function Utf8Length(first: int): nat {
    if first < 0x80 then 1 else if first < 0xE0 then 2 else if first < 0xF0 then 3 else 4
  }

  /** The code point of an encoded character. */
  function CodePoint(b: seq<int>): int {
    if |b| == 1 then b[0]
    else if |b| == 2 then 0x40 * (b[0] - 0xC0) + (b[1] - 0x80)
    else if |b| == 3 then 0x40 * (0x40 * (b[0] - 0xE0) + (b[1] - 0x80)) + (b[2] - 0x80)
    else if |b| == 4 then
      0x40 * (0x40 * (0x40 * (b[0] - 0xF0) + (b[1] - 0x80)) + (b[2] - 0x80)) + (b[3] - 0x80)
    else 0
  }

  lemma Sextets(n: nat)
    ensures n == 0x40 * (n / 0x40) + n % 0x40
    ensures n / 0x40 == 0x40 * (n / 0x1000) + n / 0x40 % 0x40
    ensures n / 0x1000 == 0x40 * (n / 0x4_0000) + n / 0x1000 % 0x40
  {
  }

  /** Decoding an encoded character gives the character back. */
  lemma CharInverse(c: char)
    ensures var b := EncodeChar(c); b != [] && |b| == Utf8Length(b[0]) && CodePoint(b) == c as int
  {
    Sextets(c as int);
  }

  /** The encoding of a character can be told apart from what follows it. */
  lemma EncodeCharPrefix(c: char, x: Blob, d: char, y: Blob)
    requires EncodeChar(c) + x == EncodeChar(d) + y
    ensures c == d && x == y
  {
    hide EncodeChar;
    var a, b, s := EncodeChar(c), EncodeChar(d), EncodeChar(c) + x;
    CharInverse(c);
    CharInverse(d);
    assert s[0] == a[0] == b[0] && |a| == |b|;
    assert a == s[..|a|] && b == (EncodeChar(d) + y)[..|b|];
    assert x == s[|a|..] && y == (EncodeChar(d) + y)[|b|..];
  }

  lemma {:induction false} EncodeInjective(s: string, t: string)
    requires Encode(s) == Encode(t)
    ensures s == t
  {
    if s != [] && t != [] {
      EncodeCharPrefix(s[0], Encode(s[1..]), t[0], Encode(t[1..]));
      EncodeInjective(s[1..], t[1..]);
      assert s == [s[0]] + s[1..] && t == [t[0]] + t[1..];
    } else {
      EncodeNonempty(s);
      EncodeNonempty(t);
    }
  }

  lemma EncodeNonempty(s: string)
    ensures Encode(s) == [] <==> s == []
  {
    if s != [] { assert EncodeChar(s[0]) != []; }
  }

  /** Different names, ASCII or not, are stored as different blobs. */
  lemma NamesAreKeys(a: string, b: string)
    ensures Str2Blob(a) == Str2Blob(b) <==> a == b
  {
    if Str2Blob(a) == Str2Blob(b) {
      var x, y := Encode(a), Encode(b);
      WidenBytes(x);
      WidenBytes(y);
      assert |x| == |y|;
      forall i | 0 <= i < |x| ensures x[i] == y[i] {
        assert Widen(x)[2 * i] == x[i] && Widen(y)[2 * i] == y[i];
      }
      EncodeInjective(a, b);
    }
  }

  // ---- what bytes.decode accepts ----

  /** The encoding of a character in front of anything is one well-formed sequence. */
  lemma HeadOfChar(c: char, rest: Blob)
    ensures Utf8Head(EncodeChar(c) + rest) == |EncodeChar(c)|
  {
    var n, b := c as int, EncodeChar(c);
    var s := b + rest;
    assert forall i :: 0 <= i < |b| ==> s[i] == b[i];
    Sextets(n);
  }

  /** A well-formed sequence is the encoding of one character. */
  lemma CharOfHead(s: Blob) returns (c: char)
    requires Utf8Head(s) != 0
    ensures EncodeChar(c) == s[..Utf8Head(s)]
  {
    var n := Utf8Head(s);
    if n == 1 {
      c := s[0] as char;
    } else if n == 2 {
      c := TwoByteChar(s[0], s[1]);
    } else if n == 3 {
      c := ThreeByteChar(s[0], s[1], s[2]);
    } else {
      c := FourByteChar(s[0], s[1], s[2], s[3]);
    }
  }

  lemma TwoByteChar(a: Byte, b: Byte) returns (c: char)
    requires 0xC2 <= a <= 0xDF && Continuation(b)
    ensures EncodeChar(c) == [a, b]
  {
    var n: int := 0x40 * (a as int - 0xC0) + (b as int - 0x80);
    assert n / 0x40 == a - 0xC0 && n % 0x40 == b - 0x80;
    c := n as char;
  }

  lemma Sextet(m: nat, r: nat)
    requires r < 0x40
    ensures (0x40 * m + r) / 0x40 == m && (0x40 * m + r) % 0x40 == r
  {
  }

  lemma TwoSextets(n: nat)
    ensures n / 0x1000 == n / 0x40 / 0x40 && n / 0x4_0000 == n / 0x40 / 0x40 / 0x40
  {
  }

  lemma ThreeByteChar(a: Byte, b: Byte, d: Byte) returns (c: char)
    requires 0xE0 <= a <= 0xEF && Continuation(b) && Continuation(d)
    requires (a == 0xE0 ==> b >= 0xA0) && (a == 0xED ==> b <= 0x9F)
    ensures EncodeChar(c) == [a, b, d]
  {
    var x: int, y: int, z: int := a as int - 0xE0, b as int - 0x80, d as int - 0x80;
    var m := 0x40 * x + y;
    var n := 0x40 * m + z;
    Sextet(x, y);
    Sextet(m, z);
    TwoSextets(n);
    c := n as char;
  }

  lemma FourByteChar(a: Byte, b: Byte, d: Byte, e: Byte) returns (c: char)
    requires 0xF0 <= a <= 0xF4 && Continuation(b) && Continuation(d) && Continuation(e)
    requires (a == 0xF0 ==> b >= 0x90) && (a == 0xF4 ==> b <= 0x8F)
    ensures EncodeChar(c) == [a, b, d, e]
  {
    var w: int, x: int, y: int, z: int := a as int - 0xF0, b as int - 0x80, d as int - 0x80, e as int - 0x80;
    var l := 0x40 * w + x;
    var m := 0x40 * l + y;
    var n := 0x40 * m + z;
    Sextet(w, x);
    Sextet(l, y);
    Sextet(m, z);
    TwoSextets(n);
    c := n as char;
  }

  lemma {:induction false} EncodedIsValid(s: string)
    ensures Utf8Valid(Encode(s))
  {
    if s != [] {
      var b, rest := EncodeChar(s[0]), Encode(s[1..]);
      EncodedIsValid(s[1..]);
      HeadOfChar(s[0], rest);
      assert (b + rest)[|b|..] == rest;
    }
  }

  /** Bytes decode exactly when they are the encoding of some text, which is then the only one. */
  lemma {:induction false} ValidIsEncoded(b: Blob) returns (s: string)
    requires Utf8Valid(b)
    ensures Encode(s) == b
    decreases |b|
  {
    hide Utf8Head, EncodeChar, Utf8Valid, Encode;
    if b == [] {
      s := [];
      EncodeNonempty(s);
    } else {
      ValidTail(b);
      var n := Utf8Head(b);
      var c := CharOfHead(b);
      var rest := ValidIsEncoded(b[n..]);
      s := [c] + rest;
      EncodeCons(c, rest);
      assert b == b[..n] + b[n..];
    }
  }

  lemma ValidTail(b: Blob)
    requires Utf8Valid(b) && b != []
    ensures Utf8Head(b) != 0 && Utf8Valid(b[Utf8Head(b)..])
  {
    hide Utf8Head;
  }

  lemma EncodeCons(c: char, rest: string)
    ensures Encode([c] + rest) == EncodeChar(c) + Encode(rest)
  {
    hide EncodeChar;
    assert ([c] + rest)[1..] == rest;
  }

  /** The alphabet in lower case, and the one other character whose lower case is a letter of it. */
  lemma LowerAlphabet()
    ensures Lower("ABCDEFGHIJKLMNOPQRSTUVWXYZ") == "abcdefghijklmnopqrstuvwxyz"
    ensures LowerChar('\U{212A}') == 'k'
  {
  }
}
