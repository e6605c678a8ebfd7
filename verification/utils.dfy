/** `valid_data_payload`: the rule a mining payload must satisfy. */
module Utils {
  import opened Strings

  /** The largest payload accepted, in bytes of UTF-8. */
  const MAX_PAYLOAD_BYTES: nat := 1024

  /** A payload is valid when it has a non-whitespace character and its untrimmed UTF-8
      encoding is at most 1024 bytes. */
  function ValidDataPayload(data: string): (ok: bool)
    ensures ok <==> !Blank(data) && ByteLen(data) <= MAX_PAYLOAD_BYTES
  {
    TrimEmptyIffBlank(data);
    Trim(data) != [] && ByteLen(data) <= MAX_PAYLOAD_BYTES
  }

  /** The boundary cases: empty and whitespace-only payloads fail, any payload over 1024
      bytes fails, and any payload of 1 to 1024 bytes with a non-whitespace character
      passes. */
  lemma PayloadBoundaries(data: string)
    ensures Blank(data) ==> !ValidDataPayload(data)
    ensures !ValidDataPayload([])
    ensures ByteLen(data) > MAX_PAYLOAD_BYTES ==> !ValidDataPayload(data)
    ensures (exists i :: 0 <= i < |data| && !IsWhitespace(data[i])) && ByteLen(data) <= MAX_PAYLOAD_BYTES
            ==> ValidDataPayload(data)
  {
  }

  /** Surrounding whitespace counts toward the limit: "x" followed by 1024 spaces is
      rejected although its trim, "x", is accepted. */
  lemma SurroundingWhitespaceCounts()
    ensures var data := "x" + seq(1024, i => ' ');
            Trim(data) == "x" && ValidDataPayload("x") && !ValidDataPayload(data)
  {
    var data := "x" + seq(1024, i => ' ');
    ByteLenAscii(data);
    TrimOfTrimmed("x");
    assert LeadingWs(data) == 0;
    assert TrimStart(data) == data;
    TrailingPadding("x", 1024);
    assert data[..1] == "x";
  }

  /** A string ending in a non-whitespace character, padded with `n` spaces, has exactly
      `n` trailing whitespace characters. */
  lemma {:induction false} TrailingPadding(s: string, n: nat)
    requires s != [] && !IsWhitespace(s[|s| - 1])
    ensures TrailingWs(s + seq(n, i => ' ')) == n
    decreases n
  {
    if n > 0 {
      var t := s + seq(n, i => ' ');
      assert t[..|t| - 1] == s + seq(n - 1, i => ' ');
      TrailingPadding(s, n - 1);
    } else {
      assert s + seq(0, i => ' ') == s;
    }
  }

  /** The limit counts bytes, not characters: a payload of 513 or more non-ASCII
      characters is rejected. */
  lemma {:induction false} NonAsciiCountsDouble(data: string)
    requires forall i :: 0 <= i < |data| ==> data[i] as int >= 0x80
    ensures ByteLen(data) >= 2 * |data|
    ensures |data| >= 513 ==> !ValidDataPayload(data)
    decreases |data|
  {
    if data != [] {
      NonAsciiCountsDouble(data[1..]);
    }
  }
}
