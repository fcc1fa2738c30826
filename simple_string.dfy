/** The SimpleString codec: `+<text>\r\n` on the wire. Encoding is a pure
    function; decoding consumes exactly one frame from the front of a
    `BytesMut` and leaves the buffer untouched when it fails; the length
    probe only reads. */
module SimpleStringCodec {
  import opened Basics
  import opened Resp
  import opened BytesBuf

  /** `RespDecode::PREFIX` for SimpleString: the marker byte `+`. */
  const PREFIX: seq<byte> := [43]
  const CR: byte := 13
  const LF: byte := 10
  const CRLF: seq<byte> := [CR, LF]
  const CRLF_LEN: nat := 2

  /** A CRLF pair starts at index `i` of `buf`. */
  predicate CrlfAt(buf: seq<byte>, i: int)
  {
    0 <= i && i + 1 < |buf| && buf[i] == CR && buf[i + 1] == LF
  }

  /** No CRLF pair starts at an index in `[from, to)`. */
  predicate NoCrlfIn(buf: seq<byte>, from: int, to: int)
  {
    forall i :: from <= i < to ==> !CrlfAt(buf, i)
  }

  /** Text that can travel as a simple string: it holds no CRLF pair. */
  predicate NoCrlf(t: Text)
  {
    NoCrlfIn(t, 0, |t|)
  }

  /** The index of the first CRLF pair at or after `from`, if any. */
  function FindCrlf(buf: seq<byte>, from: nat): (r: Option<nat>)
    ensures r.Some? ==> from <= r.value && CrlfAt(buf, r.value) && NoCrlfIn(buf, from, r.value)
    ensures r.None? ==> NoCrlfIn(buf, from, |buf|)
    decreases |buf| - from
  {
    if from + 1 >= |buf| then None
    else if buf[from] == CR && buf[from + 1] == LF then Some(from)
    else FindCrlf(buf, from + 1)
  }

  /** `extract_simple_frame_data`: check the marker, then give the index of
      the first CRLF after it. A buffer still too short to hold the marker,
      or holding no CRLF yet, is `NotComplete`; a different marker is
      `InvalidFrameType`. */
  function ExtractSimpleFrameData(buf: seq<byte>, prefix: seq<byte>): (r: Result<nat>)
    ensures r.Ok? ==> prefix <= buf && |prefix| <= r.value
    ensures r.Ok? ==> CrlfAt(buf, r.value) && NoCrlfIn(buf, |prefix|, r.value)
    ensures r == Err(NotComplete) <==>
              buf < prefix || (prefix <= buf && NoCrlfIn(buf, |prefix|, |buf|))
    ensures r.Err? && r.error != NotComplete ==>
              r.error == InvalidFrameType(prefix) && !(prefix <= buf) && !(buf < prefix)
  {
    if !(prefix <= buf) then
      if buf < prefix then Err(NotComplete) else Err(InvalidFrameType(prefix))
    else
      match FindCrlf(buf, |prefix|)
      case None => Err(NotComplete)
      case Some(end) => Ok(end)
  }

  /** `SimpleString::encode`. */
  function Encode(s: SimpleString): seq<byte>
  {
    PREFIX + s.text + CRLF
  }

  /** What a successful decode yields: the frame and the bytes left behind. */
  datatype Decoded = Decoded(frame: SimpleString, rest: seq<byte>)

  /** The value and the new buffer of `SimpleString::decode`, as a function
      of the buffer before the call. A successful decode reads back exactly
      the encoding of the frame it returns. */
  function DecodeSpec(buf: seq<byte>): (r: Result<Decoded>)
    ensures r.Ok? ==> buf == Encode(r.value.frame) + r.value.rest
    ensures r.Ok? ==> NoCrlf(r.value.frame.text)
  {
    match ExtractSimpleFrameData(buf, PREFIX)
    case Err(e) => Err(e)
    case Ok(end) =>
      var text := buf[|PREFIX|..end];
      assert buf == PREFIX + text + CRLF + buf[end + CRLF_LEN..];
      assert NoCrlf(text) by {
        forall i | 0 <= i < |text| ensures !CrlfAt(text, i) {
          assert CrlfAt(text, i) ==> CrlfAt(buf, i + 1);
        }
      }
      Ok(Decoded(SimpleString.New(text), buf[end + CRLF_LEN..]))
  }

  /** `SimpleString::expect_length`: a read-only probe giving the number of
      bytes a decode of the same buffer removes, or the error it reports. */
  function ExpectLength(buf: seq<byte>): (r: Result<nat>)
    ensures r.Ok? <==> DecodeSpec(buf).Ok?
    ensures r.Ok? ==> 3 <= r.value <= |buf|
    ensures r.Ok? ==> r.value == |Encode(DecodeSpec(buf).value.frame)|
    ensures r.Ok? ==> DecodeSpec(buf).value.rest == buf[r.value..]
    ensures r.Err? ==> r.error == DecodeSpec(buf).error
  {
    match ExtractSimpleFrameData(buf, PREFIX)
    case Err(e) => Err(e)
    case Ok(end) => Ok(end + CRLF_LEN)
  }

  /** `SimpleString::decode`: on success remove the frame's bytes from the
      front of `buf` and return its text; on failure leave `buf` as it was. */
  method Decode(buf: BytesMut) returns (r: Result<SimpleString>)
    modifies buf
    ensures r.Ok? <==> DecodeSpec(old(buf.data)).Ok?
    ensures r.Ok? ==> r.value == DecodeSpec(old(buf.data)).value.frame
    ensures r.Ok? ==> old(buf.data) == Encode(r.value) + buf.data
    ensures r.Err? ==> r.error == DecodeSpec(old(buf.data)).error
    ensures r.Err? ==> buf.data == old(buf.data)
  {
    var extracted := ExtractSimpleFrameData(buf.data, PREFIX);
    if extracted.Err? {
      return Err(extracted.error);
    }
    var end := extracted.value;
    var data := buf.SplitTo(end + CRLF_LEN);
    r := Ok(SimpleString.New(data[|PREFIX|..end]));
  }

  /** Decoding the encoding of a CRLF-free text, followed by anything,
      returns that text and leaves exactly what followed. With the ensures of
      `DecodeSpec` this makes decoding the inverse of encoding. */
  lemma DecodeEncoded(s: SimpleString, rest: seq<byte>)
    requires NoCrlf(s.text)
    ensures DecodeSpec(Encode(s) + rest) == Ok(Decoded(s, rest))
  {
    var buf := Encode(s) + rest;
    var n := |s.text|;
    assert buf[1..n + 1] == s.text && buf[n + 1] == CR && buf[n + 2] == LF;
    assert buf[n + 3..] == rest;
    assert CrlfAt(buf, n + 1);
    assert NoCrlfIn(buf, 1, n + 1) by {
      forall i | 1 <= i < n + 1 ensures !CrlfAt(buf, i) {
        if i < n {
          assert !CrlfAt(s.text, i - 1);
        }
      }
    }
    var end := FindCrlf(buf, 1);
    assert end == Some(n + 1);
  }

  /** Every strict prefix of an encoding, the empty one included, is
      reported `NotComplete` by both the probe and the decoder. */
  lemma PrefixOfEncodingNotComplete(s: SimpleString, k: nat)
    requires NoCrlf(s.text) && k < |Encode(s)|
    ensures DecodeSpec(Encode(s)[..k]) == Err(NotComplete)
    ensures ExpectLength(Encode(s)[..k]) == Err(NotComplete)
  {
    var p := Encode(s)[..k];
    var n := |s.text|;
    if k > 0 {
      assert PREFIX <= p;
      assert NoCrlfIn(p, 1, |p|) by {
        forall i | 1 <= i < |p| ensures !CrlfAt(p, i) {
          if i < n {
            assert !CrlfAt(s.text, i - 1);
          }
        }
      }
    }
  }

  /** The retry contract: a partial frame is refused with `NotComplete`;
      once the missing bytes are appended the same call yields the frame
      and consumes exactly it. */
  lemma RetryAfterNotComplete(s: SimpleString, k: nat, rest: seq<byte>)
    requires NoCrlf(s.text) && k < |Encode(s)|
    ensures DecodeSpec(Encode(s)[..k]) == Err(NotComplete)
    ensures DecodeSpec(Encode(s)[..k] + (Encode(s)[k..] + rest)) == Ok(Decoded(s, rest))
  {
    PrefixOfEncodingNotComplete(s, k);
    assert Encode(s)[..k] + (Encode(s)[k..] + rest) == Encode(s) + rest;
    DecodeEncoded(s, rest);
  }

  /** The length of an encoding: marker, text and CRLF. */
  lemma EncodeLength(s: SimpleString)
    ensures |Encode(s)| == |s.text| + 3
    ensures Encode(s)[0] == 43 && Encode(s)[|s.text| + 1..] == CRLF
  {
  }

  /** `SimpleString::new("OK").encode()` is the five bytes `+OK\r\n`. */
  lemma EncodeOk()
    ensures Encode(SimpleString.New([79, 75])) == [43, 79, 75, 13, 10]
  {
  }

  /** The decode test: decode `+OK\r\n`, then find `+hello\r` incomplete,
      append `\n` and decode `hello` from the same buffer. */
  method DecodeThenRetry() returns (first: Result<SimpleString>, partial: Result<SimpleString>,
                                     retried: Result<SimpleString>, left: seq<byte>)
    ensures first == Ok(SimpleString.New([79, 75]))
    ensures partial == Err(NotComplete)
    ensures retried == Ok(SimpleString.New([104, 101, 108, 108, 111]))
    ensures left == []
  {
    var ok := SimpleString.New([79, 75]);
    var hello := SimpleString.New([104, 101, 108, 108, 111]);
    assert NoCrlf(ok.text) && NoCrlf(hello.text);
    DecodeEncoded(ok, []);
    RetryAfterNotComplete(hello, 7, []);
    assert Encode(ok) + [] == [43, 79, 75, 13, 10];

    var buf := new BytesMut();
    buf.ExtendFromSlice([43, 79, 75, 13, 10]);
    assert buf.data == Encode(ok) + [];
    first := Decode(buf);
    assert buf.data == [];

    buf.ExtendFromSlice([43, 104, 101, 108, 108, 111, 13]);
    assert buf.data == Encode(hello)[..7];
    partial := Decode(buf);

    buf.PutBytes(LF, 1);
    assert buf.data == Encode(hello)[..7] + (Encode(hello)[7..] + []);
    retried := Decode(buf);
    left := buf.data;
  }
}
