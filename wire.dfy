/**
  The socket OCR protocol's framing: an unsigned 64-bit length in network (big-endian)
  byte order — `htobe64`/`be64toh` in C++, `u64::to_be_bytes`/`from_be_bytes` in Rust,
  `struct.pack('>Q')`/`unpack` in Python — followed by that many payload bytes.
*/
module Wire {
  import opened Common

  const HEADER_SIZE: nat := 8

  function Pow256(k: nat): (p: nat)
    ensures p >= 1
  {
    if k == 0 then 1 else 256 * Pow256(k - 1)
  }

  lemma Pow256Eight()
    ensures Pow256(HEADER_SIZE) == TWO_TO_THE_64
  {
  }

  /** The `width` low-order base-256 digits of `n`, most significant first. */
  function EncodeBE(n: nat, width: nat): (bs: seq<uint8>)
    ensures |bs| == width
  {
    if width == 0 then [] else EncodeBE(n / 256, width - 1) + [n % 256]
  }

  /** Reads bytes as a base-256 numeral, most significant first. */
  function DecodeBE(bs: seq<uint8>): (n: nat)
    ensures n < Pow256(|bs|)
  {
    if bs == [] then 0 else DecodeBE(bs[..|bs| - 1]) * 256 + bs[|bs| - 1]
  }

  /** Decoding an encoding gives back any number that fits in the width. */
  lemma {:induction false} DecodeEncode(n: nat, width: nat)
    requires n < Pow256(width)
    ensures DecodeBE(EncodeBE(n, width)) == n
  {
    if width > 0 {
      var bs := EncodeBE(n, width);
      assert bs[..|bs| - 1] == EncodeBE(n / 256, width - 1);
      DecodeEncode(n / 256, width - 1);
    }
  }

  /** Encoding a decoded header gives back the very same bytes. */
  lemma {:induction false} EncodeDecode(bs: seq<uint8>)
    ensures EncodeBE(DecodeBE(bs), |bs|) == bs
  {
    if bs != [] {
      var init := bs[..|bs| - 1];
      var n := DecodeBE(bs);
      assert n / 256 == DecodeBE(init) && n % 256 == bs[|bs| - 1];
      EncodeDecode(init);
    }
  }

  /** The 8-byte header announcing a payload of `len` bytes. */
  function Header(len: nat): (h: seq<uint8>)
    requires len < TWO_TO_THE_64
    ensures |h| == HEADER_SIZE
    ensures DecodeBE(h) == len
  {
    Pow256Eight();
    DecodeEncode(len, HEADER_SIZE);
    EncodeBE(len, HEADER_SIZE)
  }

  /** A whole frame: header, then payload. */
  function Frame(payload: seq<uint8>): (f: seq<uint8>)
    requires |payload| < TWO_TO_THE_64
    ensures |f| == HEADER_SIZE + |payload|
    ensures f[HEADER_SIZE..] == payload
  {
    Header(|payload|) + payload
  }

  /**
    Reads one frame off the front of a byte stream: the payload and what follows
    it, or None when the stream ends before the frame does.
  */
  function Unframe(stream: seq<uint8>): Option<(seq<uint8>, seq<uint8>)> {
    if |stream| < HEADER_SIZE then None
    else
      var n := DecodeBE(stream[..HEADER_SIZE]);
      if |stream| - HEADER_SIZE < n then None
      else Some((stream[HEADER_SIZE..HEADER_SIZE + n], stream[HEADER_SIZE + n..]))
  }

  /** Socket framing round trip: the reader recovers exactly the payload that was framed. */
  lemma UnframeFrame(payload: seq<uint8>, rest: seq<uint8>)
    requires |payload| < TWO_TO_THE_64
    ensures Unframe(Frame(payload) + rest) == Some((payload, rest))
  {
    var s := Frame(payload) + rest;
    assert s[..HEADER_SIZE] == Header(|payload|);
    assert s[HEADER_SIZE..HEADER_SIZE + |payload|] == payload;
    assert s[HEADER_SIZE + |payload|..] == rest;
  }
}
