/** Document identifiers: a 12-byte id, its string form `str(ObjectId)`
    (24 lower-case hexadecimal digits) and `ObjectId(s)`, which parses a
    24-character hexadecimal string and fails on anything else. */
module ObjectIds {
  import opened Options
  import Text

  newtype byte = x: int | 0 <= x < 256

  type ObjectId = b: seq<byte> | |b| == 12 witness [0, 0, 0, 0, 0, 0, 0, 0, 0, 0, 0, 0]

  predicate IsHexDigit(c: char) {
    '0' <= c <= '9' || 'a' <= c <= 'f' || 'A' <= c <= 'F'
  }

  function HexDigit(n: int): (c: char)
    requires 0 <= n < 16
    ensures IsHexDigit(c) && Text.LowerChar(c) == c
  {
    if n < 10 then ('0' as int + n) as char else ('a' as int + n - 10) as char
  }

  function HexValue(c: char): (n: int)
    requires IsHexDigit(c)
    ensures 0 <= n < 16
  {
    if c <= '9' then c as int - '0' as int
    else if c <= 'F' then c as int - 'A' as int + 10
    else c as int - 'a' as int + 10
  }

  lemma HexValueOfDigit(n: int)
    requires 0 <= n < 16
    ensures HexValue(HexDigit(n)) == n
  {
  }

  /** Reading a hex digit and writing it back gives its lower-case form. */
  lemma HexDigitOfValue(c: char)
    requires IsHexDigit(c)
    ensures HexDigit(HexValue(c)) == Text.LowerChar(c)
  {
  }

  /** Lower-case hexadecimal, two digits per byte, high nibble first. */
  function Hex(bs: seq<byte>): (s: string)
    ensures |s| == 2 * |bs|
  {
    if bs == [] then []
    else [HexDigit(bs[0] as int / 16), HexDigit(bs[0] as int % 16)] + Hex(bs[1..])
  }

  /** `bytes.fromhex` on a string without whitespace. */
  function Unhex(s: string): (r: Option<seq<byte>>)
    ensures r.Some? ==> 2 * |r.value| == |s|
    decreases |s|
  {
    if |s| == 0 then Some([])
    else if |s| == 1 || !IsHexDigit(s[0]) || !IsHexDigit(s[1]) then None
    else
      match Unhex(s[2..])
      case None => None
      case Some(rest) => Some([(16 * HexValue(s[0]) + HexValue(s[1])) as byte] + rest)
  }

  /** Decoding succeeds exactly on an even number of hexadecimal digits. */
  lemma {:induction false} UnhexDefined(s: string)
    ensures Unhex(s).Some? <==> |s| % 2 == 0 && forall k :: 0 <= k < |s| ==> IsHexDigit(s[k])
    decreases |s|
  {
    if |s| >= 2 {
      UnhexDefined(s[2..]);
      assert forall k :: 2 <= k < |s| ==> s[k] == s[2..][k - 2];
    }
  }

  lemma {:induction false} UnhexHex(bs: seq<byte>)
    ensures Unhex(Hex(bs)) == Some(bs)
  {
    if bs != [] {
      var b := bs[0] as int;
      HexValueOfDigit(b / 16);
      HexValueOfDigit(b % 16);
      assert Hex(bs)[2..] == Hex(bs[1..]);
      UnhexHex(bs[1..]);
      assert [(16 * (b / 16) + b % 16) as byte] + bs[1..] == bs;
    }
  }

  lemma {:induction false} HexUnhex(s: string, bs: seq<byte>)
    requires Unhex(s) == Some(bs)
    ensures Hex(bs) == Text.Lower(s)
    decreases |s|
  {
    if s != [] {
      var rest := Unhex(s[2..]).value;
      assert bs == [(16 * HexValue(s[0]) + HexValue(s[1])) as byte] + rest;
      HexUnhex(s[2..], rest);
      var b := bs[0] as int;
      assert b / 16 == HexValue(s[0]) && b % 16 == HexValue(s[1]);
      HexDigitOfValue(s[0]);
      HexDigitOfValue(s[1]);
      assert bs[1..] == rest;
      assert Text.Lower(s) == [Text.LowerChar(s[0]), Text.LowerChar(s[1])] + Text.Lower(s[2..]);
    }
  }

  /** `str(oid)` */
  function IdString(id: ObjectId): (s: string)
    ensures |s| == 24
  {
    Hex(id)
  }

  /** `ObjectId(s)`: `None` stands for the exception it raises on an invalid id. */
  function ParseObjectId(s: string): Option<ObjectId> {
    if |s| != 24 then None
    else
      match Unhex(s)
      case None => None
      case Some(bs) => var id: ObjectId := bs; Some(id)
  }

  /** Exactly the 24-digit hexadecimal strings parse; upper-case digits are accepted,
      and the id's string form is then the lower-case spelling. */
  lemma ParseObjectIdSpec(s: string)
    ensures ParseObjectId(s).Some? <==> |s| == 24 && forall k :: 0 <= k < |s| ==> IsHexDigit(s[k])
    ensures ParseObjectId(s).Some? ==> IdString(ParseObjectId(s).value) == Text.Lower(s)
  {
    UnhexDefined(s);
    if ParseObjectId(s).Some? {
      HexUnhex(s, ParseObjectId(s).value);
    }
  }

  /** `ObjectId(str(oid)) == oid`: the string form of an id parses back to it. */
  lemma ParseIdString(id: ObjectId)
    ensures ParseObjectId(IdString(id)) == Some(id)
  {
    UnhexHex(id);
  }

  /** Comparing string forms is comparing ids. */
  lemma IdStringInjective(a: ObjectId, b: ObjectId)
    ensures IdString(a) == IdString(b) <==> a == b
  {
    ParseIdString(a);
    ParseIdString(b);
  }

  /** `ObjectId(current_user.get_id())`: the handlers turn the session user's id string
      back into an id, and get the user's own id. */
  function SessionObjectId(id: ObjectId): (r: ObjectId)
    ensures r == id
  {
    ParseIdString(id);
    ParseObjectId(IdString(id)).value
  }
}
