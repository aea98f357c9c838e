/** The multipart wire framing of the MJPEG stream: the fixed boundary token, the per-frame
    boundary chunk, and the per-part header written with `snprintf` with a capacity of 128. */
module Framing {
  import opened CInt
  import opened Optional
  import opened Decimal

  /** The fixed, non-random boundary token shared by the content type and every boundary chunk. */
  const PartBoundary: string := "123456789000000000000987654321"

  /** Response content type, set once before the first frame. */
  const StreamContentType: string := "multipart/x-mixed-replace;boundary=" + PartBoundary

  /** The first chunk of every frame. */
  const StreamBoundary: string := "\r\n--" + PartBoundary + "\r\n"

  /** Capacity handed to `snprintf` for the part header. The buffer is declared as 128 pointers, so
      its storage is larger than this capacity. */
  const PartBufferSize: nat := 128

  const ContentTypeLine: string := "Content-Type: image/jpeg\r\n"
  const LengthLabel: string := "Content-Length: "
  const TimestampLabel: string := "\r\nX-Timestamp: "
  const HeaderEnd: string := "\r\n\r\n"

  /** The text of `Content-Type: image/jpeg\r\nContent-Length: %u\r\nX-Timestamp: %d.%06d\r\n\r\n`. */
  function PartHeader(len: nat, sec: int, usec: int): (h: string)
    ensures ContentTypeLine + LengthLabel <= h
    ensures |HeaderEnd| <= |h| && h[|h| - |HeaderEnd|..] == HeaderEnd
    ensures |h| == 62 + |Unsigned(len)| + |Signed(sec)| + |ZeroPadded6(usec)|
  {
    ContentTypeLine + LengthLabel
      + (Unsigned(len) + (TimestampLabel + (Signed(sec) + ("." + (ZeroPadded6(usec) + HeaderEnd)))))
  }

  /** The three numbers a part header carries. */
  datatype PartFields = PartFields(contentLength: nat, seconds: int, micros: int)

  function StripPrefix(p: string, s: string): (r: Option<string>)
    ensures r.Some? <==> p <= s
    ensures r.Some? ==> s == p + r.value
  {
    if |p| <= |s| && s[..|p|] == p then Some(s[|p|..]) else None
  }

  /** A reader for part headers, as a multipart client would apply it. */
  function ParsePartHeader(s: string): Option<PartFields>
  {
    var r1 :- StripPrefix(ContentTypeLine + LengthLabel, s);
    var (len, r2) :- ReadUnsigned(r1);
    var r3 :- StripPrefix(TimestampLabel, r2);
    var (sec, r4) :- ReadSigned(r3);
    var r5 :- StripPrefix(".", r4);
    var (usec, r6) :- ReadSigned(r5);
    if r6 == HeaderEnd then Some(PartFields(len, sec, usec)) else None
  }

  /** The header is unambiguous: a reader recovers the length and both timestamp fields. */
  lemma ParsePartHeaderRoundTrip(len: nat, sec: int, usec: int)
    ensures ParsePartHeader(PartHeader(len, sec, usec)) == Some(PartFields(len, sec, usec))
  {
    var tail4 := ZeroPadded6(usec) + HeaderEnd;
    var tail3 := "." + tail4;
    var tail2 := Signed(sec) + tail3;
    var tail1 := TimestampLabel + tail2;
    var s := ContentTypeLine + LengthLabel + (Unsigned(len) + tail1);
    assert PartHeader(len, sec, usec) == s;
    assert StripPrefix(ContentTypeLine + LengthLabel, s) == Some(Unsigned(len) + tail1) by {
      assert s[..|ContentTypeLine + LengthLabel|] == ContentTypeLine + LengthLabel;
      assert s[|ContentTypeLine + LengthLabel|..] == Unsigned(len) + tail1;
    }
    ReadUnsignedOfUnsigned(len, tail1);
    assert StripPrefix(TimestampLabel, tail1) == Some(tail2) by {
      assert tail1[..|TimestampLabel|] == TimestampLabel;
      assert tail1[|TimestampLabel|..] == tail2;
    }
    ReadSignedOfSigned(sec, tail3);
    assert StripPrefix(".", tail3) == Some(tail4) by {
      assert tail3[..1] == ".";
      assert tail3[1..] == tail4;
    }
    ReadSignedOfZeroPadded6(usec, HeaderEnd);
  }

  /** `snprintf(buf, cap, ...)`: the buffer keeps at most `cap - 1` characters of the text (then a NUL);
      the call returns the length the full text would have had. */
  function Snprintf(cap: nat, text: string): (r: (string, nat))
    requires 0 < cap
    ensures r.0 <= text && |r.0| < cap
    ensures r.1 == |text|
    ensures |text| < cap ==> r.0 == text
    ensures cap <= |text| ==> r.0 == text[..cap - 1]
  {
    if |text| < cap then (text, |text|) else (text[..cap - 1], |text|)
  }

  /** With a 32-bit length and 32-bit timestamp fields the header never exceeds 94 characters,
      so it always fits the part buffer and the length `snprintf` returns is the length it stored. */
  lemma PartHeaderFits(len: U32, sec: I32, usec: I32)
    ensures |PartHeader(len, sec, usec)| <= 94
    ensures Snprintf(PartBufferSize, PartHeader(len, sec, usec)) == (PartHeader(len, sec, usec), |PartHeader(len, sec, usec)|)
  {
    assert Pow10(10) == 10000000000;
    UnsignedLength(len, 10);
    UnsignedLength(if sec < 0 then -(sec as int) else sec as int, 10);
    UnsignedLength(if usec < 0 then -(usec as int) else usec as int, 10);
  }
}
