/** The two identifier kinds the document store deals in and their text
    forms: a 12-byte ObjectId (rendered as 24 lower-case hex digits) and a
    16-byte UUID (rendered hyphenated, 8-4-4-4-12). */
module Ids {

  newtype byte = x: int | 0 <= x < 256

  type ObjectId = b: seq<byte> | |b| == 12 witness [0, 0, 0, 0, 0, 0, 0, 0, 0, 0, 0, 0]

  type Uuid = b: seq<byte> | |b| == 16 witness [0, 0, 0, 0, 0, 0, 0, 0, 0, 0, 0, 0, 0, 0, 0, 0]

  predicate IsLowerHex(c: char) {
    '0' <= c <= '9' || 'a' <= c <= 'f'
  }

  function HexDigit(d: nat): (c: char)
    requires d < 16
    ensures IsLowerHex(c)
  {
    if d < 10 then ('0' as int + d) as char else ('a' as int + d - 10) as char
  }

  /** Distinct nibbles get distinct digits. */
  lemma HexDigitInjective(d: nat, e: nat)
    requires d < 16 && e < 16 && HexDigit(d) == HexDigit(e)
    ensures d == e
  {
  }

  /** The two characters at `at` are the hex digits of `b`, most
      significant nibble first. */
  predicate HexPairAt(s: string, at: nat, b: byte)
    requires at + 1 < |s|
  {
    s[at] == HexDigit(b as int / 16) && s[at + 1] == HexDigit(b as int % 16)
  }

  /** `s` holds the hex digits of `bytes`, in order, from position `at`. */
  predicate EncodesAt(s: string, at: nat, bytes: seq<byte>) {
    && at + 2 * |bytes| <= |s|
    && forall i :: 0 <= i < |bytes| ==> HexPairAt(s, at + 2 * i, bytes[i])
  }

  /** Two lower-case hex digits per byte, most significant nibble first. */
  function Hex(bytes: seq<byte>): (s: string)
    ensures |s| == 2 * |bytes|
    ensures EncodesAt(s, 0, bytes)
    ensures forall i :: 0 <= i < |s| ==> IsLowerHex(s[i])
  {
    if bytes == [] then []
    else
      var rest := Hex(bytes[1..]);
      var s := [HexDigit(bytes[0] as int / 16), HexDigit(bytes[0] as int % 16)] + rest;
      forall i | 1 <= i < |bytes|
        ensures HexPairAt(s, 2 * i, bytes[i])
      {
        assert HexPairAt(rest, 2 * (i - 1), bytes[1..][i - 1]);
      }
      s
  }

  /** A byte is determined by its two hex digits. */
  lemma PairDeterminesByte(s: string, at: nat, a: byte, b: byte)
    requires at + 1 < |s| && HexPairAt(s, at, a) && HexPairAt(s, at, b)
    ensures a == b
  {
    HexDigitInjective(a as int / 16, b as int / 16);
    HexDigitInjective(a as int % 16, b as int % 16);
  }

  /** The digits at a position determine the bytes they encode. */
  lemma EncodingDeterminesBytes(s: string, at: nat, a: seq<byte>, b: seq<byte>)
    requires |a| == |b| && EncodesAt(s, at, a) && EncodesAt(s, at, b)
    ensures a == b
  {
    forall i | 0 <= i < |a|
      ensures a[i] == b[i]
    {
      PairDeterminesByte(s, at + 2 * i, a[i], b[i]);
    }
  }

  /** An encoding survives text appended after it. */
  lemma EncodesBeforeSuffix(x: string, y: string, at: nat, bytes: seq<byte>)
    requires EncodesAt(x, at, bytes)
    ensures EncodesAt(x + y, at, bytes)
  {
    forall i | 0 <= i < |bytes|
      ensures HexPairAt(x + y, at + 2 * i, bytes[i])
    {
      assert HexPairAt(x, at + 2 * i, bytes[i]);
    }
  }

  /** An encoding moves right by the length of text put in front of it. */
  lemma EncodesAfterPrefix(x: string, y: string, at: nat, bytes: seq<byte>)
    requires EncodesAt(y, at, bytes)
    ensures EncodesAt(x + y, |x| + at, bytes)
  {
    forall i | 0 <= i < |bytes|
      ensures HexPairAt(x + y, |x| + at + 2 * i, bytes[i])
    {
      assert HexPairAt(y, at + 2 * i, bytes[i]);
    }
  }

  /** Hex text can be read back: equal renderings come from equal bytes. */
  lemma HexInjective(a: seq<byte>, b: seq<byte>)
    requires Hex(a) == Hex(b)
    ensures a == b
  {
    EncodingDeterminesBytes(Hex(a), 0, a, b);
  }

  /** `ObjectId::to_string`: the 12 bytes in order, two hex digits each. */
  function ObjectIdString(o: ObjectId): (s: string)
    ensures |s| == 24
    ensures forall i :: 0 <= i < |s| ==> IsLowerHex(s[i])
    ensures forall i :: 0 <= i < 12 ==> HexPairAt(s, 2 * i, o[i])
  {
    Hex(o)
  }

  /** Distinct ObjectIds render differently. */
  lemma ObjectIdStringInjective(o: ObjectId, p: ObjectId)
    requires ObjectIdString(o) == ObjectIdString(p)
    ensures o == p
  {
    var s := ObjectIdString(o);
    assert EncodesAt(s, 0, o) && EncodesAt(s, 0, p);
    EncodingDeterminesBytes(s, 0, o, p);
  }

  /** `Uuid::to_string`: the hyphenated form. */
  function UuidString(u: Uuid): (s: string)
    ensures |s| == 36
    ensures s[8] == '-' && s[13] == '-' && s[18] == '-' && s[23] == '-'
  {
    Hex(u[..4]) + ("-" + (Hex(u[4..6]) + ("-" + (Hex(u[6..8]) + ("-" + (Hex(u[8..10]) + ("-" + Hex(u[10..]))))))))
  }

  /** The five groups of a UUID's text are the hex digits of its bytes 0-3,
      4-5, 6-7, 8-9 and 10-15, in order. */
  lemma UuidStringGroups(u: Uuid)
    ensures var s := UuidString(u);
            && EncodesAt(s, 0, u[..4]) && EncodesAt(s, 9, u[4..6]) && EncodesAt(s, 14, u[6..8])
            && EncodesAt(s, 19, u[8..10]) && EncodesAt(s, 24, u[10..])
  {
    var tail := Hex(u[10..]);
    var g4 := Hex(u[8..10]) + ("-" + tail);
    var g3 := Hex(u[6..8]) + ("-" + g4);
    var g2 := Hex(u[4..6]) + ("-" + g3);
    assert UuidString(u) == Hex(u[..4]) + ("-" + g2);
    assert EncodesAt(g4, 0, u[8..10]) && EncodesAt(g4, 5, u[10..]) by {
      LeadingGroup(u[8..10], tail);
      ShiftedGroup(Hex(u[8..10]), tail, 0, u[10..]);
    }
    assert EncodesAt(g3, 0, u[6..8]) && EncodesAt(g3, 5, u[8..10]) && EncodesAt(g3, 10, u[10..]) by {
      LeadingGroup(u[6..8], g4);
      ShiftedGroup(Hex(u[6..8]), g4, 0, u[8..10]);
      ShiftedGroup(Hex(u[6..8]), g4, 5, u[10..]);
    }
    assert && EncodesAt(g2, 0, u[4..6]) && EncodesAt(g2, 5, u[6..8]) && EncodesAt(g2, 10, u[8..10])
           && EncodesAt(g2, 15, u[10..]) by {
      LeadingGroup(u[4..6], g3);
      ShiftedGroup(Hex(u[4..6]), g3, 0, u[6..8]);
      ShiftedGroup(Hex(u[4..6]), g3, 5, u[8..10]);
      ShiftedGroup(Hex(u[4..6]), g3, 10, u[10..]);
    }
    LeadingGroup(u[..4], g2);
    ShiftedGroup(Hex(u[..4]), g2, 0, u[4..6]);
    ShiftedGroup(Hex(u[..4]), g2, 5, u[6..8]);
    ShiftedGroup(Hex(u[..4]), g2, 10, u[8..10]);
    ShiftedGroup(Hex(u[..4]), g2, 15, u[10..]);
  }

  /** A group at the front keeps its place when a hyphen and more text
      follow it. */
  lemma LeadingGroup(bytes: seq<byte>, rest: string)
    ensures EncodesAt(Hex(bytes) + ("-" + rest), 0, bytes)
  {
    EncodesBeforeSuffix(Hex(bytes), "-" + rest, 0, bytes);
  }

  /** A group inside `rest` moves right past a leading group and its
      hyphen. */
  lemma ShiftedGroup(lead: string, rest: string, at: nat, bytes: seq<byte>)
    requires EncodesAt(rest, at, bytes)
    ensures EncodesAt(lead + ("-" + rest), |lead| + 1 + at, bytes)
  {
    EncodesAfterPrefix("-", rest, at, bytes);
    EncodesAfterPrefix(lead, "-" + rest, 1 + at, bytes);
  }

  /** Distinct UUIDs render differently. */
  lemma UuidStringInjective(u: Uuid, v: Uuid)
    requires UuidString(u) == UuidString(v)
    ensures u == v
  {
    var s := UuidString(u);
    UuidStringGroups(u);
    UuidStringGroups(v);
    EncodingDeterminesBytes(s, 0, u[..4], v[..4]);
    EncodingDeterminesBytes(s, 9, u[4..6], v[4..6]);
    EncodingDeterminesBytes(s, 14, u[6..8], v[6..8]);
    EncodingDeterminesBytes(s, 19, u[8..10], v[8..10]);
    EncodingDeterminesBytes(s, 24, u[10..], v[10..]);
    assert u == u[..4] + u[4..6] + u[6..8] + u[8..10] + u[10..];
    assert v == v[..4] + v[4..6] + v[6..8] + v[8..10] + v[10..];
  }

  /** An ObjectId's text is never a UUID's text. */
  lemma ObjectIdIsNotUuid(o: ObjectId, u: Uuid)
    ensures ObjectIdString(o) != UuidString(u)
  {
  }
}
