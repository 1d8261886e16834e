/** GUID text and its mixed-endian binary form (guid2str, str2guid, is_guid). */
module Guid {
  import opened Sequences
  import opened Outcomes
  import opened Bytes
  import opened Text

  predicate IsHex(c: char) { '0' <= c <= '9' || 'a' <= c <= 'f' || 'A' <= c <= 'F' }

  function HexValue(c: char): (v: nat)
    requires IsHex(c)
    ensures v < 16
  {
    if c <= '9' then c as int - '0' as int
    else if c <= 'F' then c as int - 'A' as int + 10
    else c as int - 'a' as int + 10
  }

  function HexDigit(v: nat): (c: char)
    requires v < 16
    ensures IsHex(c) && HexValue(c) == v && LowerChar(c) == c
  {
    if v < 10 then ('0' as int + v) as char else ('a' as int + v - 10) as char
  }

  predicate AllHex(s: string) { forall i :: 0 <= i < |s| ==> IsHex(s[i]) }

  /** int(s, 16) */
  function ParseHex(s: string): nat
    requires AllHex(s)
  {
    if s == [] then 0 else 16 * ParseHex(s[..|s| - 1]) + HexValue(s[|s| - 1])
  }

  /** '%0wx' % n */
  function FormatHex(n: nat, w: nat): (s: string)
    ensures |s| == w && AllHex(s)
  {
    if w == 0 then [] else FormatHex(n / 16, w - 1) + [HexDigit(n % 16)]
  }

  /** ''.join('%02x' % b for b in bs) */
  function HexBytes(bs: Blob): (s: string)
    ensures |s| == 2 * |bs| && AllHex(s)
  {
    if bs == [] then [] else HexBytes(bs[..|bs| - 1]) + FormatHex(bs[|bs| - 1], 2)
  }

  function Pow16(w: nat): nat { if w == 0 then 1 else 16 * Pow16(w - 1) }

  lemma {:induction false} FormatInverse(n: nat, w: nat)
    requires n < Pow16(w)
    ensures ParseHex(FormatHex(n, w)) == n
  {
    if w != 0 {
      FormatInverse(n / 16, w - 1);
      assert FormatHex(n, w)[..w - 1] == FormatHex(n / 16, w - 1);
    }
  }

  lemma {:induction false} ParseInverse(s: string)
    requires AllHex(s)
    ensures ParseHex(s) < Pow16(|s|)
    ensures FormatHex(ParseHex(s), |s|) == Lower(s)
  {
    if s != [] {
      var front, last := s[..|s| - 1], s[|s| - 1];
      ParseInverse(front);
      assert ParseHex(s) / 16 == ParseHex(front) && ParseHex(s) % 16 == HexValue(last);
      assert HexDigit(HexValue(last)) == LowerChar(last);
      assert Lower(s) == Lower(front) + [LowerChar(last)];
    }
  }

  /** Powers of 16 and of 256 agree at the widths used. */
  lemma {:induction false} Pow16IsLimit(w: nat)
    ensures Pow16(2 * w) == Limit(w)
  {
    if w != 0 {
      Pow16IsLimit(w - 1);
      assert Pow16(2 * w) == 16 * Pow16(2 * w - 1) == 256 * Pow16(2 * w - 2);
    }
  }

  /** Printing big-endian bytes one by one prints the number. */
  lemma {:induction false} HexOfBe(n: nat, w: nat)
    ensures HexBytes(Be(n, w)) == FormatHex(n, 2 * w)
  {
    if w != 0 {
      HexOfBe(n / 256, w - 1);
      assert Be(n, w)[..w - 1] == Be(n / 256, w - 1);
      FormatLastByte(n, w);
    }
  }

  /** The last two digits of a number are those of its last byte. */
  lemma FormatLastByte(n: nat, w: nat)
    requires w != 0
    ensures FormatHex(n, 2 * w) == FormatHex(n / 256, 2 * (w - 1)) + FormatHex(n % 256, 2)
  {
    TwoDigits(n % 256);
    LastDigits(n);
    var high, d, e := FormatHex(n / 256, 2 * w - 2), HexDigit((n / 16) % 16), HexDigit(n % 16);
    assert FormatHex(n / 16, 2 * w - 1) == high + [d];
    assert FormatHex(n, 2 * w) == FormatHex(n / 16, 2 * w - 1) + [e];
    assert high + [d] + [e] == high + [d, e];
  }

  lemma LastDigits(n: nat)
    ensures n / 16 / 16 == n / 256 && (n / 16) % 16 == (n % 256) / 16 && (n % 256) % 16 == n % 16
  {
  }

  lemma TwoDigits(b: Byte)
    ensures FormatHex(b, 2) == [HexDigit(b / 16), HexDigit(b % 16)]
  {
    assert b / 16 % 16 == b / 16;
    assert FormatHex(b / 16, 1) == FormatHex(b / 16 / 16, 0) + [HexDigit(b / 16 % 16)];
  }

  // ---- guid2str ----

  /** guid2str on 16 bytes: three little-endian fields, then eight bytes in order. */
  function Guid2Str(b: Bytes16): (s: string)
    ensures |s| == 36
  {
    var d := HexBytes(b[8..16]);
    FormatHex(FromLe(b[0..4]), 8) + "-" + FormatHex(FromLe(b[4..6]), 4) + "-"
    + FormatHex(FromLe(b[6..8]), 4) + "-" + d[..4] + "-" + d[4..]
  }

  // ---- is_guid and str2guid ----

  /** The dashes of the 8-4-4-4-12 shape. */
  predicate IsDash(i: int) { i == 8 || i == 13 || i == 18 || i == 23 }

  predicate GuidShape(s: string) {
    |s| == 36 && forall i :: 0 <= i < 36 ==> if IsDash(i) then s[i] == '-' else IsHex(s[i])
  }

  /** The pattern's version digit [1-5] and variant digit [89ab]. */
  predicate VersionAndVariant(s: string)
    requires |s| >= 36
  {
    '1' <= s[14] <= '5' && s[19] in "89abAB"
  }

  /** is_guid: the pattern is matched at the start of the text only, so a tail is accepted. */
  predicate IsGuid(s: string) {
    |s| >= 36 && GuidShape(s[..36]) && VersionAndVariant(s)
  }

  /** The pattern of is_guid, position by position, on text that is already in lower case. */
  predicate Matches(t: string) {
    |t| >= 36
    && (forall i :: 0 <= i < 36 ==>
          if i == 8 || i == 13 || i == 18 || i == 23 then t[i] == '-'
          else if i == 14 then t[i] in "12345"
          else if i == 19 then t[i] in "89ab"
          else t[i] in "0123456789abcdef")
  }

  /** is_guid matches the pattern on the text in lower case. */
  lemma GuidPattern(s: string)
    ensures IsGuid(s) <==> Matches(Lower(s))
  {
    if |s| >= 36 {
      var t := Lower(s);
      forall i | 0 <= i < 36 ensures IsHex(s[i]) <==> t[i] in "0123456789abcdef" { HexInLower(s[i]); }
      DigitClasses(s[14]);
      VariantClass(s[19]);
      hide IsHex, LowerChar;
      assert forall i :: 0 <= i < 36 ==> s[..36][i] == s[i];
      DashInLower(s[8]); DashInLower(s[13]); DashInLower(s[18]); DashInLower(s[23]);
      PatternDigits(t[14], t[19]);
    }
  }

  lemma HexInLower(c: char)
    ensures IsHex(c) <==> LowerChar(c) in "0123456789abcdef"
  {
    InClass(LowerChar(c));
  }

  lemma InClass(c: char)
    ensures c in "0123456789abcdef" <==> '0' <= c <= '9' || 'a' <= c <= 'f'
  {
    var s := "0123456789abcdef";
    if '0' <= c <= '9' { assert s[c as int - '0' as int] == c; }
    if 'a' <= c <= 'f' { assert s[c as int - 'a' as int + 10] == c; }
  }

  lemma DigitClasses(c: char)
    ensures '1' <= c <= '5' <==> LowerChar(c) in "12345"
  {
    var s := "12345";
    if '1' <= c <= '5' { assert s[c as int - '1' as int] == c; }
  }

  lemma VariantClass(c: char)
    ensures c in "89abAB" <==> LowerChar(c) in "89ab"
  {
    var s, t := "89abAB", "89ab";
    assert s == ['8', '9', 'a', 'b', 'A', 'B'] && t == ['8', '9', 'a', 'b'];
  }

  lemma DashInLower(c: char)
    ensures c == '-' <==> LowerChar(c) == '-'
  {
  }

  lemma PatternDigits(version: char, variant: char)
    ensures version in "12345" ==> version in "0123456789abcdef"
    ensures variant in "89ab" ==> variant in "0123456789abcdef"
  {
    InClass(version);
    InClass(variant);
  }

  /** s.replace(pat, '') */
  function Erase(s: string, pat: string): string
    requires pat != []
    decreases |s|
  {
    if |s| < |pat| then s
    else if s[..|pat|] == pat then Erase(s[|pat|..], pat)
    else [s[0]] + Erase(s[1..], pat)
  }

  /** s.rstrip('{}') */
  function StripBraces(s: string): string {
    if s != [] && s[|s| - 1] in "{}" then StripBraces(s[..|s| - 1]) else s
  }

  /** Whether uuid.UUID ignores the text that follows the 36 characters of a GUID. */
  predicate TailIgnored(tail: string) {
    Erase(StripBraces(Erase(Erase(tail, "urn:"), "uuid:")), "-") == []
  }

  /** Erasing removes characters of the pattern only. */
  lemma {:induction false} EraseKeeps(s: string, pat: string, c: char)
    requires pat != [] && c in s && c !in pat
    ensures c in Erase(s, pat)
    decreases |s|
  {
    if |s| >= |pat| {
      var n := |pat|;
      if s[..n] == pat {
        assert s == pat + s[n..];
        EraseKeeps(s[n..], pat, c);
      } else if c != s[0] {
        assert s == [s[0]] + s[1..];
        EraseKeeps(s[1..], pat, c);
      }
    }
  }

  lemma {:induction false} StripBracesKeeps(s: string, c: char)
    requires c in s && c !in "{}"
    ensures c in StripBraces(s)
  {
    if s[|s| - 1] in "{}" {
      assert s == s[..|s| - 1] + [s[|s| - 1]];
      StripBracesKeeps(s[..|s| - 1], c);
    }
  }

  /** A tail that is ignored has no character besides those of "urn:", "uuid:", braces and dashes. */
  lemma TailCharacters(tail: string, c: char)
    requires TailIgnored(tail) && c in tail
    ensures c in "urn:" || c in "uuid:" || c in "{}" || c in "-"
  {
    hide Erase, StripBraces;
    if c !in "urn:" && c !in "uuid:" && c !in "{}" && c !in "-" {
      EraseKeeps(tail, "urn:", c);
      var a := Erase(tail, "urn:");
      EraseKeeps(a, "uuid:", c);
      var b := Erase(a, "uuid:");
      StripBracesKeeps(b, c);
      EraseKeeps(StripBraces(b), "-", c);
      assert false;
    }
  }

  /** Braces in front of other text are not ignored, dashes in front of braces are. */
  lemma TailExamples()
    ensures TailIgnored("") && TailIgnored("-}") && !TailIgnored("}-") && !TailIgnored("0")
  {
    assert Erase("-}", "urn:") == "-}" && Erase("}-", "urn:") == "}-";
    assert StripBraces("-}") == "-" by { assert "-}"[..1] == "-"; }
    assert Erase("-", "-") == [] by { assert "-"[1..] == []; }
    assert Erase("}-", "-") == "}" by { assert "}-"[1..] == "-" && "-"[1..] == []; }
  }

  /** The prefixes of a URN are ignored too. */
  lemma UrnTails()
    ensures TailIgnored("urn:") && TailIgnored("uuid:")
  {
    ErasesItself("urn:");
    ErasesItself("uuid:");
    UuidKept();
    hide Erase, StripBraces;
    NothingLeft();
  }

  lemma ErasesItself(pat: string)
    requires pat != []
    ensures Erase(pat, pat) == []
  {
    assert pat[..|pat|] == pat && pat[|pat|..] == [];
  }

  lemma NothingLeft()
    ensures Erase([], "uuid:") == [] && StripBraces([]) == [] && Erase([], "-") == []
  {
  }

  lemma UuidKept()
    ensures Erase("uuid:", "urn:") == "uuid:"
  {
    assert "uuid:"[1..] == "uid:" && "uid:"[1..] == "id:";
    assert "uuid:"[..4][1] == 'u' && "uid:"[..4][1] == 'i' && "urn:"[1] == 'r';
  }

  function Run(s: string, lo: nat, hi: nat): (r: string)
    requires |s| >= 36 && GuidShape(s[..36]) && lo <= hi <= 36
    requires forall i :: lo <= i < hi ==> !IsDash(i)
    ensures AllHex(r) && |r| == hi - lo
  {
    assert forall i :: lo <= i < hi ==> s[i] == s[..36][i];
    s[lo..hi]
  }

  /** The packing of the six fields of uuid.UUID: "<IHHBB" and the low six bytes of ">Q". */
  function PackFields(s: string): (b: Bytes16)
    requires |s| >= 36 && GuidShape(s[..36])
  {
    Le(ParseHex(Run(s, 0, 8)), 4) + Le(ParseHex(Run(s, 9, 13)), 2) + Le(ParseHex(Run(s, 14, 18)), 2)
    + Be(ParseHex(Run(s, 19, 21)), 1) + Be(ParseHex(Run(s, 21, 23)), 1) + Be(ParseHex(Run(s, 24, 36)), 6)
  }

  /** str2guid */
  function Str2Guid(s: string): Result<Bytes16> {
    if !IsGuid(s) || !TailIgnored(s[36..]) then Failure(InvalidGuid)
    else Success(PackFields(s))
  }

  // ---- round trips ----

  lemma ReadField(s: string, w: nat)
    requires AllHex(s) && |s| == 2 * w
    ensures FormatHex(FromLe(Le(ParseHex(s), w)), 2 * w) == Lower(s)
    ensures HexBytes(Be(ParseHex(s), w)) == Lower(s)
  {
    ParseInverse(s);
    Pow16IsLimit(w);
    LeInverse(ParseHex(s), w);
    HexOfBe(ParseHex(s), w);
  }

  lemma {:induction false} HexBytesConcat(a: Blob, b: Blob)
    ensures HexBytes(a + b) == HexBytes(a) + HexBytes(b)
  {
    hide FormatHex, AllHex;
    if b == [] {
      assert a + b == a;
    } else {
      var front, last, whole := b[..|b| - 1], b[|b| - 1], a + b;
      HexBytesConcat(a, front);
      assert whole[..|whole| - 1] == a + front && whole[|whole| - 1] == last;
      assert HexBytes(whole) == HexBytes(a + front) + FormatHex(last, 2);
    }
  }

  lemma LowerConcat(a: string, b: string)
    ensures Lower(a + b) == Lower(a) + Lower(b)
  {
  }

  /** The text of a GUID as its six hexadecimal runs. */
  lemma SplitText(s: string)
    requires |s| >= 36 && GuidShape(s[..36])
    ensures s[..36] == Run(s, 0, 8) + "-" + Run(s, 9, 13) + "-" + Run(s, 14, 18) + "-"
                       + (Run(s, 19, 21) + Run(s, 21, 23)) + "-" + Run(s, 24, 36)
  {
    hide IsHex;
    var t := s[..36];
    TakeSlice(s, 36, 0, 8); TakeSlice(s, 36, 9, 13); TakeSlice(s, 36, 14, 18);
    TakeSlice(s, 36, 19, 21); TakeSlice(s, 36, 21, 23); TakeSlice(s, 36, 24, 36);
    CutAtDash(t, 8); CutAtDash(t, 13); CutAtDash(t, 18); CutAtDash(t, 23);
    JoinPieces(t);
  }

  lemma CutAtDash(t: string, i: nat)
    requires i < |t| && t[i] == '-'
    ensures t[i..i + 1] == "-"
  {
  }

  lemma JoinPieces(t: string)
    requires |t| == 36
    ensures t == t[0..8] + t[8..9] + t[9..13] + t[13..14] + t[14..18] + t[18..19]
                 + (t[19..21] + t[21..23]) + t[23..24] + t[24..36]
  {
  }

  lemma LowerText(a: string, b: string, c: string, d: string, e: string, f: string)
    ensures Lower(a + "-" + b + "-" + c + "-" + (d + e) + "-" + f)
         == Lower(a) + "-" + Lower(b) + "-" + Lower(c) + "-" + (Lower(d) + Lower(e)) + "-" + Lower(f)
  {
    assert Lower("-") == "-";
    LowerConcat(a, "-"); LowerConcat(a + "-", b); LowerConcat(a + "-" + b, "-");
    LowerConcat(a + "-" + b + "-", c); LowerConcat(a + "-" + b + "-" + c, "-");
    LowerConcat(d, e); LowerConcat(a + "-" + b + "-" + c + "-", d + e);
    LowerConcat(a + "-" + b + "-" + c + "-" + (d + e), "-");
    LowerConcat(a + "-" + b + "-" + c + "-" + (d + e) + "-", f);
  }

  lemma PackedSlices(b: Bytes16, a0: Blob, a1: Blob, a2: Blob, a3: Blob, a4: Blob, a5: Blob)
    requires |a0| == 4 && |a1| == 2 && |a2| == 2 && |a3| == 1 && |a4| == 1 && |a5| == 6
    requires b == a0 + a1 + a2 + a3 + a4 + a5
    ensures b[0..4] == a0 && b[4..6] == a1 && b[6..8] == a2 && b[8..16] == a3 + a4 + a5
  {
  }

  /** The five groups that guid2str prints, read from a packed GUID. */
  lemma PrintedGroups(b: Bytes16, a0: Blob, a1: Blob, a2: Blob, a3: Blob, a4: Blob, a5: Blob)
    requires |a0| == 4 && |a1| == 2 && |a2| == 2 && |a3| == 1 && |a4| == 1 && |a5| == 6
    requires b == a0 + a1 + a2 + a3 + a4 + a5
    ensures b[0..4] == a0 && b[4..6] == a1 && b[6..8] == a2
    ensures HexBytes(b[8..16])[..4] == HexBytes(a3) + HexBytes(a4)
    ensures HexBytes(b[8..16])[4..] == HexBytes(a5)
  {
    hide HexBytes, AllHex;
    PackedSlices(b, a0, a1, a2, a3, a4, a5);
    var d, front := HexBytes(b[8..16]), HexBytes(a3) + HexBytes(a4);
    assert d == front + HexBytes(a5) by {
      HexBytesConcat(a3 + a4, a5);
      HexBytesConcat(a3, a4);
    }
    assert |front| == 4;
  }

  /** Printing a packed GUID gives back the first 36 characters in lower case. */
  lemma GuidTextInverse(s: string)
    requires |s| >= 36 && GuidShape(s[..36])
    ensures Guid2Str(PackFields(s)) == Lower(s[..36])
  {
    var f0, f1, f2 := Run(s, 0, 8), Run(s, 9, 13), Run(s, 14, 18);
    var f3, f4, f5 := Run(s, 19, 21), Run(s, 21, 23), Run(s, 24, 36);
    PrintedGroups(PackFields(s), Le(ParseHex(f0), 4), Le(ParseHex(f1), 2), Le(ParseHex(f2), 2),
                  Be(ParseHex(f3), 1), Be(ParseHex(f4), 1), Be(ParseHex(f5), 6));
    ReadField(f0, 4); ReadField(f1, 2); ReadField(f2, 2);
    ReadField(f3, 1); ReadField(f4, 1); ReadField(f5, 6);
    SplitText(s);
    LowerText(f0, f1, f2, f3, f4, f5);
  }

  /** guid2str(str2guid(s)) is the lower case of s exactly for texts of 36 characters; a longer
      text that str2guid still accepts comes back without its tail. */
  lemma Str2GuidInverse(s: string)
    requires Str2Guid(s).Success?
    ensures Guid2Str(Str2Guid(s).value) == Lower(s) <==> |s| == 36
    ensures Guid2Str(Str2Guid(s).value) == Lower(s[..36])
  {
    GuidTextInverse(s);
    if |s| == 36 {
      assert s[..36] == s;
    }
  }

  /** A text of 36 characters is accepted exactly when is_guid accepts it. */
  lemma CanonicalAccepted(s: string)
    requires |s| == 36
    ensures Str2Guid(s).Success? <==> IsGuid(s)
  {
    assert s[36..] == [];
  }

  // ---- the other direction: bytes to text to bytes ----

  predicate LowerHex(s: string) { AllHex(s) && Lower(s) == s }

  lemma {:induction false} FormatIsLower(n: nat, w: nat)
    ensures LowerHex(FormatHex(n, w))
  {
    if w != 0 {
      FormatIsLower(n / 16, w - 1);
      LowerConcat(FormatHex(n / 16, w - 1), [HexDigit(n % 16)]);
    }
  }

  /** Parsing a printed little-endian field, or printed bytes, gives the bytes back. */
  lemma PrintField(bs: Blob)
    ensures Le(ParseHex(FormatHex(FromLe(bs), 2 * |bs|)), |bs|) == bs
    ensures LowerHex(FormatHex(FromLe(bs), 2 * |bs|))
    ensures Be(ParseHex(HexBytes(bs)), |bs|) == bs
    ensures LowerHex(HexBytes(bs))
  {
    Pow16IsLimit(|bs|);
    FromLeInverse(bs);
    FormatInverse(FromLe(bs), 2 * |bs|);
    FormatIsLower(FromLe(bs), 2 * |bs|);
    FromBeInverse(bs);
    HexOfBe(FromBe(bs), |bs|);
    FormatInverse(FromBe(bs), 2 * |bs|);
    FormatIsLower(FromBe(bs), 2 * |bs|);
  }

  /** The runs of a text put together from its groups. */
  lemma RunsOf(t: string, a: string, b: string, c: string, d: string, e: string, f: string)
    requires |a| == 8 && |b| == 4 && |c| == 4 && |d| == 2 && |e| == 2 && |f| == 12
    requires AllHex(a) && AllHex(b) && AllHex(c) && AllHex(d) && AllHex(e) && AllHex(f)
    requires t == a + "-" + b + "-" + c + "-" + (d + e) + "-" + f
    ensures |t| == 36 && GuidShape(t) && t[..36] == t
    ensures Run(t, 0, 8) == a && Run(t, 9, 13) == b && Run(t, 14, 18) == c
    ensures Run(t, 19, 21) == d && Run(t, 21, 23) == e && Run(t, 24, 36) == f
  {
    assert t[..36] == t;
    assert t[0..8] == a && t[9..13] == b && t[14..18] == c;
    assert t[19..21] == d && t[21..23] == e && t[24..36] == f;
    assert t[8] == '-' && t[13] == '-' && t[18] == '-' && t[23] == '-';
    forall i | 0 <= i < 36 && !IsDash(i) ensures IsHex(t[i]) {
      if i < 8 { assert t[i] == a[i]; }
      else if i < 13 { assert t[i] == b[i - 9]; }
      else if i < 18 { assert t[i] == c[i - 14]; }
      else if i < 21 { assert t[i] == d[i - 19]; }
      else if i < 23 { assert t[i] == e[i - 21]; }
      else { assert t[i] == f[i - 24]; }
    }
  }

  lemma SplitBytes(b: Bytes16)
    ensures b == b[0..4] + b[4..6] + b[6..8] + b[8..9] + b[9..10] + b[10..16]
  {
  }

  /** The text of b from its six printed groups. */
  lemma TextOf(b: Bytes16)
    ensures Guid2Str(b) == FormatHex(FromLe(b[0..4]), 8) + "-" + FormatHex(FromLe(b[4..6]), 4) + "-"
                           + FormatHex(FromLe(b[6..8]), 4) + "-"
                           + (HexBytes(b[8..9]) + HexBytes(b[9..10])) + "-" + HexBytes(b[10..16])
  {
    SplitBytes(b);
    PrintedGroups(b, b[0..4], b[4..6], b[6..8], b[8..9], b[9..10], b[10..16]);
  }

  predicate PrintsLe(f: string, bs: Blob) {
    LowerHex(f) && |f| == 2 * |bs| && Le(ParseHex(f), |bs|) == bs
  }

  predicate PrintsBe(f: string, bs: Blob) {
    LowerHex(f) && |f| == 2 * |bs| && Be(ParseHex(f), |bs|) == bs
  }

  lemma FieldsPrint(bs: Blob)
    ensures PrintsLe(FormatHex(FromLe(bs), 2 * |bs|), bs) && PrintsBe(HexBytes(bs), bs)
  {
    PrintField(bs);
  }

  /** Packing and lower-casing a text whose groups print the bytes b0 to b5. */
  lemma PackGroups(t: string, f0: string, f1: string, f2: string, f3: string, f4: string, f5: string,
                   b0: Blob, b1: Blob, b2: Blob, b3: Blob, b4: Blob, b5: Blob)
    requires |b0| == 4 && |b1| == 2 && |b2| == 2 && |b3| == 1 && |b4| == 1 && |b5| == 6
    requires PrintsLe(f0, b0) && PrintsLe(f1, b1) && PrintsLe(f2, b2)
    requires PrintsBe(f3, b3) && PrintsBe(f4, b4) && PrintsBe(f5, b5)
    requires t == f0 + "-" + f1 + "-" + f2 + "-" + (f3 + f4) + "-" + f5
    ensures GuidShape(t) && PackFields(t) == b0 + b1 + b2 + b3 + b4 + b5 && Lower(t) == t
  {
    RunsOf(t, f0, f1, f2, f3, f4, f5);
    LowerText(f0, f1, f2, f3, f4, f5);
  }

  lemma PackOfText(b: Bytes16)
    ensures GuidShape(Guid2Str(b)) && PackFields(Guid2Str(b)) == b
    ensures Lower(Guid2Str(b)) == Guid2Str(b)
  {
    TextOf(b);
    SplitBytes(b);
    FieldsPrint(b[0..4]); FieldsPrint(b[4..6]); FieldsPrint(b[6..8]);
    FieldsPrint(b[8..9]); FieldsPrint(b[9..10]); FieldsPrint(b[10..16]);
    PackGroups(Guid2Str(b), FormatHex(FromLe(b[0..4]), 8), FormatHex(FromLe(b[4..6]), 4), FormatHex(FromLe(b[6..8]), 4),
               HexBytes(b[8..9]), HexBytes(b[9..10]), HexBytes(b[10..16]),
               b[0..4], b[4..6], b[6..8], b[8..9], b[9..10], b[10..16]);
  }

  /** str2guid(guid2str(b)) is b, and succeeds exactly when is_guid accepts the printed
      version and variant digits. */
  lemma Guid2StrInverse(b: Bytes16)
    ensures Str2Guid(Guid2Str(b)).Success? <==> VersionAndVariant(Guid2Str(b))
    ensures Str2Guid(Guid2Str(b)).Success? ==> Str2Guid(Guid2Str(b)).value == b
    ensures Lower(Guid2Str(b)) == Guid2Str(b)
  {
    PackOfText(b);
    assert Guid2Str(b)[..36] == Guid2Str(b);
    assert Guid2Str(b)[36..] == [];
  }

  // ---- which digits make which byte ----

  /** The byte that two hexadecimal digits stand for. */
  function Pair(s: string, i: nat): (b: Byte)
    requires i + 1 < |s| && IsHex(s[i]) && IsHex(s[i + 1])
  {
    16 * HexValue(s[i]) + HexValue(s[i + 1])
  }

  lemma ParseLastPair(t: string)
    requires AllHex(t) && |t| >= 2
    ensures var n := |t| - 2;
      ParseHex(t) / 256 == ParseHex(t[..n]) && ParseHex(t) % 256 == Pair(t, n)
  {
    hide IsHex, HexValue;
    var n := |t| - 2;
    assert t[..n + 1][..n] == t[..n] && t[..n + 1][n] == t[n];
    var front := ParseHex(t[..n]);
    assert ParseHex(t[..n + 1]) == 16 * front + HexValue(t[n]);
    assert ParseHex(t) == 256 * front + Pair(t, n);
    Digits(front, Pair(t, n));
  }

  /** Little-endian bytes are the digit pairs from the last to the first. */
  lemma {:induction false} LePairs(t: string, w: nat)
    requires AllHex(t) && |t| == 2 * w
    ensures forall k :: 0 <= k < w ==> Le(ParseHex(t), w)[k] == Pair(t, 2 * (w - 1 - k))
  {
    hide IsHex, HexValue, ParseHex;
    if w != 0 {
      var front := t[..2 * w - 2];
      ParseLastPair(t);
      LePairs(front, w - 1);
      forall k | 0 <= k < w ensures Le(ParseHex(t), w)[k] == Pair(t, 2 * (w - 1 - k)) {
        if k > 0 {
          assert Le(ParseHex(t), w)[k] == Le(ParseHex(front), w - 1)[k - 1];
          assert Pair(front, 2 * (w - 1 - k)) == Pair(t, 2 * (w - 1 - k));
        }
      }
    }
  }

  /** Big-endian bytes are the digit pairs in order. */
  lemma {:induction false} BePairs(t: string, w: nat)
    requires AllHex(t) && |t| == 2 * w
    ensures forall k :: 0 <= k < w ==> Be(ParseHex(t), w)[k] == Pair(t, 2 * k)
  {
    hide IsHex, HexValue, ParseHex;
    if w != 0 {
      var front := t[..2 * w - 2];
      ParseLastPair(t);
      BePairs(front, w - 1);
      forall k | 0 <= k < w ensures Be(ParseHex(t), w)[k] == Pair(t, 2 * k) {
        if k < w - 1 {
          assert Be(ParseHex(t), w)[k] == Be(ParseHex(front), w - 1)[k];
          assert Pair(front, 2 * k) == Pair(t, 2 * k);
        }
      }
    }
  }

  /** Where the digits of each of the 16 bytes stand: the first three groups from back to front. */
  const DIGITS: seq<nat> := [6, 4, 2, 0, 11, 9, 16, 14, 19, 21, 24, 26, 28, 30, 32, 34]

  lemma DigitsAreHex(s: string, i: nat)
    requires |s| >= 36 && GuidShape(s[..36]) && i < 16
    ensures DIGITS[i] + 1 < 36 && IsHex(s[DIGITS[i]]) && IsHex(s[DIGITS[i] + 1])
  {
    hide IsHex;
    var t := s[..36];
    assert t[DIGITS[i]] == s[DIGITS[i]] && t[DIGITS[i] + 1] == s[DIGITS[i] + 1];
    assert !IsDash(DIGITS[i]) && !IsDash(DIGITS[i] + 1);
  }

  /** The mixed-endian layout: byte i of the packed GUID is the digit pair at its place in the text. */
  lemma MixedEndian(s: string, i: nat)
    requires Str2Guid(s).Success? && i < 16
    ensures IsHex(s[DIGITS[i]]) && IsHex(s[DIGITS[i] + 1]) && Str2Guid(s).value[i] == Pair(s, DIGITS[i])
  {
    DigitsAreHex(s, i);
    hide IsHex, HexValue, ParseHex, Le, Be, TailIgnored, AllHex, VersionAndVariant, Pair;
    var b := PackFields(s);
    var f0, f1, f2 := Run(s, 0, 8), Run(s, 9, 13), Run(s, 14, 18);
    var f3, f4, f5 := Run(s, 19, 21), Run(s, 21, 23), Run(s, 24, 36);
    if i < 4 {
      LePairs(f0, 4);
      PairOfRun(s, 0, 8, 2 * (3 - i));
    } else if i < 6 {
      LePairs(f1, 2);
      PairOfRun(s, 9, 13, 2 * (5 - i));
    } else if i < 8 {
      LePairs(f2, 2);
      PairOfRun(s, 14, 18, 2 * (7 - i));
    } else if i == 8 {
      BePairs(f3, 1);
      PairOfRun(s, 19, 21, 0);
    } else if i == 9 {
      BePairs(f4, 1);
      PairOfRun(s, 21, 23, 0);
    } else {
      BePairs(f5, 6);
      PairOfRun(s, 24, 36, 2 * (i - 10));
    }
  }

  lemma PairOfRun(s: string, lo: nat, hi: nat, k: nat)
    requires |s| >= 36 && GuidShape(s[..36]) && lo <= hi <= 36 && lo + k + 1 < hi
    requires forall i :: lo <= i < hi ==> !IsDash(i)
    ensures IsHex(s[lo + k]) && IsHex(s[lo + k + 1]) && Pair(Run(s, lo, hi), k) == Pair(s, lo + k)
  {
    hide IsHex, HexValue;
    var t := Run(s, lo, hi);
    assert t[k] == s[lo + k] && t[k + 1] == s[lo + k + 1];
  }
}

/** The GUIDs that the variable store and the signature databases use. */
module WellKnownGuids {
  import opened Text
  import opened Guid

  const EFI_GLOBAL_VARIABLE := "8BE4DF61-93CA-11d2-AA0D-00E098032B8C"
  const IMAGE_SECURITY_DATABASE := "d719b2cb-3d3a-4596-a3bc-dad00e67656f"
  const CERT_X509 := "a5c059a1-94e4-4aa7-87b5-ab155c2bf072"
  const NVRAM_GUID := "fff12b8d-7696-4c8b-a985-2747075b4f50"
  const TIME_BASED_GUID := "aaf32c78-947b-439a-a180-2e144ec37792"

  lemma X509Shape()
    ensures GuidShape(CERT_X509) && VersionAndVariant(CERT_X509)
  {
    forall i | 0 <= i < 36 ensures if IsDash(i) then CERT_X509[i] == '-' else IsHex(CERT_X509[i]) {
      if i < 12 {} else if i < 24 {} else {}
    }
  }

  lemma GlobalShape()
    ensures GuidShape(EFI_GLOBAL_VARIABLE) && VersionAndVariant(EFI_GLOBAL_VARIABLE)
  {
    forall i | 0 <= i < 36 ensures if IsDash(i) then EFI_GLOBAL_VARIABLE[i] == '-' else IsHex(EFI_GLOBAL_VARIABLE[i]) {
      if i < 12 {} else if i < 24 {} else {}
    }
  }

  lemma DatabaseShape()
    ensures GuidShape(IMAGE_SECURITY_DATABASE) && VersionAndVariant(IMAGE_SECURITY_DATABASE)
  {
    forall i | 0 <= i < 36
      ensures if IsDash(i) then IMAGE_SECURITY_DATABASE[i] == '-' else IsHex(IMAGE_SECURITY_DATABASE[i])
    {
      if i < 12 {} else if i < 24 {} else {}
    }
  }

  lemma NvramShape()
    ensures GuidShape(NVRAM_GUID) && VersionAndVariant(NVRAM_GUID)
  {
    forall i | 0 <= i < 36 ensures if IsDash(i) then NVRAM_GUID[i] == '-' else IsHex(NVRAM_GUID[i]) {
      if i < 12 {} else if i < 24 {} else {}
    }
  }

  lemma TimeBasedShape()
    ensures GuidShape(TIME_BASED_GUID) && VersionAndVariant(TIME_BASED_GUID)
  {
    forall i | 0 <= i < 36 ensures if IsDash(i) then TIME_BASED_GUID[i] == '-' else IsHex(TIME_BASED_GUID[i]) {
      if i < 12 {} else if i < 24 {} else {}
    }
  }

  lemma NvramIsLower()
    ensures Lower(NVRAM_GUID) == NVRAM_GUID
  {
  }

  lemma TimeBasedIsLower()
    ensures Lower(TIME_BASED_GUID) == TIME_BASED_GUID
  {
  }

  lemma X509IsLower()
    ensures Lower(CERT_X509) == CERT_X509
  {
  }
}
