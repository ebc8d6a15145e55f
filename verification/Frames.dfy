/** Length-prefixed tunnel frames (internal/tunnel/frame.go, internal/tunnel/proto.go). */
module Frames {
  import opened Wrappers

  type Byte = x: int | 0 <= x < 256

  const MAX_FRAME := 8 * 1024 * 1024
  const HEADER := 5

  datatype Frame = Frame(typ: Byte, payload: seq<Byte>)

  datatype FrameError = EOF | UnexpectedEOF | TooLarge | Closed

  /** The big-endian number in the first four bytes. */
  function Uint32(b: seq<Byte>): (n: nat)
    requires |b| >= 4
    ensures n < 0x1_0000_0000
  {
    var b0: int, b1: int, b2: int, b3: int := b[0], b[1], b[2], b[3];
    ((b0 * 0x100 + b1) * 0x100 + b2) * 0x100 + b3
  }

  function BigEndian(n: nat): (b: seq<Byte>)
    requires n < 0x1_0000_0000
    ensures |b| == 4 && Uint32(b) == n
  {
    var high := n / 0x100;
    var higher := high / 0x100;
    [higher / 0x100, higher % 0x100, high % 0x100, n % 0x100]
  }

  lemma BigEndianInverts(b: seq<Byte>)
    requires |b| == 4
    ensures BigEndian(Uint32(b)) == b
  {
    var b0: int, b1: int, b2: int := b[0], b[1], b[2];
    assert Uint32(b) / 0x100 == (b0 * 0x100 + b1) * 0x100 + b2;
    assert Uint32(b) / 0x100 / 0x100 == b0 * 0x100 + b1;
  }

  predicate Fits(f: Frame) {
    |f.payload| <= MAX_FRAME
  }

  function Encode(f: Frame): seq<Byte>
    requires Fits(f)
  {
    BigEndian(|f.payload|) + [f.typ] + f.payload
  }

  ghost predicate AllFit(fs: seq<Frame>) {
    forall i :: 0 <= i < |fs| ==> Fits(fs[i])
  }

  function EncodeAll(fs: seq<Frame>): seq<Byte>
    requires AllFit(fs)
  {
    if fs == [] then [] else Encode(fs[0]) + EncodeAll(fs[1..])
  }

  /** One frame off the front of a stream. `io.ReadFull` reports EOF when it read nothing at all. */
  function Decode(s: seq<Byte>): Result<(Frame, seq<Byte>), FrameError> {
    if |s| < HEADER then Err(if s == [] then EOF else UnexpectedEOF)
    else
      var n := Uint32(s);
      if n > MAX_FRAME then Err(TooLarge)
      else if |s| - HEADER < n then Err(if |s| == HEADER then EOF else UnexpectedEOF)
      else Ok((Frame(s[4], s[HEADER..HEADER + n]), s[HEADER + n..]))
  }

  /** Reads frames until one cannot be read. */
  function ReadAll(s: seq<Byte>): (seq<Frame>, FrameError)
    decreases |s|
  {
    match Decode(s)
    case Err(e) => ([], e)
    case Ok((f, rest)) => var (fs, e) := ReadAll(rest); ([f] + fs, e)
  }

  /** A connection: bytes still to be read, and the frames written so far as the peer will see them. */
  class Conn {
    var incoming: seq<Byte>
    var outgoing: seq<Byte>
    var open: bool
    ghost var written: seq<Frame>

    ghost predicate Valid()
      reads this
    {
      AllFit(written) && outgoing == EncodeAll(written)
    }

    constructor (incoming: seq<Byte>)
      ensures Valid() && this.incoming == incoming && written == [] && open
    {
      this.incoming := incoming;
      outgoing, written := [], [];
      open := true;
    }

    /** `io.ReadFull`: all `n` bytes, or an error after consuming what there was. */
    method ReadFull(n: nat) returns (r: Result<seq<Byte>, FrameError>)
      modifies this`incoming
      ensures |old(incoming)| >= n ==> r == Ok(old(incoming)[..n]) && incoming == old(incoming)[n..]
      ensures |old(incoming)| < n ==> r == Err(if old(incoming) == [] then EOF else UnexpectedEOF) && incoming == []
    {
      if |incoming| >= n {
        r, incoming := Ok(incoming[..n]), incoming[n..];
      } else {
        r, incoming := Err(if incoming == [] then EOF else UnexpectedEOF), [];
      }
    }

    method ReadFrame() returns (r: Result<Frame, FrameError>)
      modifies this`incoming
      ensures match Decode(old(incoming))
        case Ok((f, rest)) => r == Ok(f) && incoming == rest
        case Err(e) => r == Err(e)
    {
      var hdr := ReadFull(HEADER);
      if hdr.Err? {
        return Err(hdr.error);
      }
      var n := Uint32(hdr.value);
      assert n == Uint32(old(incoming));
      if n > MAX_FRAME {
        return Err(TooLarge);
      }
      var payload: seq<Byte> := [];
      if n > 0 {
        var p := ReadFull(n);
        if p.Err? {
          return Err(p.error);
        }
        payload := p.value;
      }
      assert payload == old(incoming)[HEADER..HEADER + n];
      return Ok(Frame(hdr.value[4], payload));
    }

    method WriteFrame(typ: Byte, payload: seq<Byte>) returns (err: Option<FrameError>)
      requires Valid()
      modifies this`outgoing, this`written
      ensures Valid()
      ensures err == if |payload| > 8_388_608 then Some(TooLarge) else if !open then Some(Closed) else None
      ensures written == if err.None? then old(written) + [Frame(typ, payload)] else old(written)
    {
      if |payload| > MAX_FRAME {
        return Some(TooLarge);
      }
      if !open {
        return Some(Closed);
      }
      var hdr := HeaderBytes(typ, |payload|);
      EncodeAllBack(written, Frame(typ, payload));
      Associative(outgoing, hdr[..], payload);
      outgoing := outgoing + hdr[..];
      if |payload| > 0 {
        outgoing := outgoing + payload;
      }
      written := written + [Frame(typ, payload)];
      return None;
    }
  }

  lemma Associative<T>(a: seq<T>, b: seq<T>, c: seq<T>)
    ensures a + b + c == a + (b + c)
  {
  }

  lemma {:induction false} EncodeAllBack(fs: seq<Frame>, f: Frame)
    requires AllFit(fs) && Fits(f)
    ensures AllFit(fs + [f]) && EncodeAll(fs + [f]) == EncodeAll(fs) + Encode(f)
  {
    if fs == [] {
      assert fs + [f] == [f];
    } else {
      EncodeAllBack(fs[1..], f);
      assert (fs + [f])[1..] == fs[1..] + [f];
      Associative(Encode(fs[0]), EncodeAll(fs[1..]), Encode(f));
    }
  }

  method HeaderBytes(typ: Byte, n: nat) returns (hdr: array<Byte>)
    requires n <= MAX_FRAME
    ensures fresh(hdr) && hdr[..] == BigEndian(n) + [typ]
  {
    hdr := new Byte[HEADER];
    var length := BigEndian(n);
    for i := 0 to 4
      invariant hdr[..i] == length[..i]
    {
      hdr[i] := length[i];
    }
    hdr[4] := typ;
  }

  /** What was written is read back, with everything after it. */
  lemma DecodeEncode(f: Frame, rest: seq<Byte>)
    requires Fits(f)
    ensures Decode(Encode(f) + rest) == Ok((f, rest))
  {
    var s := Encode(f) + rest;
    var n := |f.payload|;
    assert s[..4] == BigEndian(n);
    assert Uint32(s) == Uint32(s[..4]);
    assert s[HEADER..HEADER + n] == f.payload;
  }

  /** Eight MiB is the limit, and it is held against the length before the payload is waited for. */
  lemma TooLargeExactly(s: seq<Byte>)
    ensures Decode(s) == Err(TooLarge) <==> |s| >= 5 && Uint32(s) > 8_388_608
  {
  }

  /** Whatever is read is exactly what some writer wrote. */
  lemma DecodeExact(s: seq<Byte>)
    requires Decode(s).Ok?
    ensures |Decode(s).value.0.payload| <= 8_388_608 && s == Encode(Decode(s).value.0) + Decode(s).value.1
  {
    BigEndianInverts(s[..4]);
    assert Uint32(s) == Uint32(s[..4]);
    assert s == s[..4] + [s[4]] + s[HEADER..];
  }

  /** Reading the bytes of any list of written frames gives back that list and then a clean end of stream. */
  lemma {:induction false} ReadAllWritten(fs: seq<Frame>)
    requires AllFit(fs)
    ensures ReadAll(EncodeAll(fs)) == (fs, EOF)
  {
    if fs != [] {
      DecodeEncode(fs[0], EncodeAll(fs[1..]));
      ReadAllWritten(fs[1..]);
      assert fs == [fs[0]] + fs[1..];
    }
  }

  /** `read` is what a reader gets from the first `k` bytes of written frames: every frame complete by then. */
  ghost predicate CompleteWithin(fs: seq<Frame>, k: nat, read: seq<Frame>)
    requires AllFit(fs)
  {
    && read <= fs && |EncodeAll(read)| <= k
    && (|read| < |fs| ==> k < |EncodeAll(fs[..|read| + 1])|)
  }

  lemma CompleteFront(f: Frame, rest: seq<Frame>, k: nat, read: seq<Frame>)
    requires Fits(f) && AllFit(rest) && CompleteWithin(rest, k, read)
    ensures AllFit([f] + rest) && CompleteWithin([f] + rest, k + |Encode(f)|, [f] + read)
  {
    assert ([f] + read)[1..] == read;
    if |read| < |rest| {
      assert ([f] + rest)[..|read| + 2][1..] == rest[..|read| + 1];
    }
  }

  /** A stream cut after `k` bytes yields exactly the frames that are complete by then, and then an end-of-stream
      error. */
  lemma {:induction false} ReadAllTruncated(fs: seq<Frame>, k: nat)
    requires AllFit(fs) && k <= |EncodeAll(fs)|
    ensures CompleteWithin(fs, k, ReadAll(EncodeAll(fs)[..k]).0)
    ensures ReadAll(EncodeAll(fs)[..k]).1 in {EOF, UnexpectedEOF}
  {
    if fs != [] {
      var f, rest := fs[0], fs[1..];
      assert fs == [f] + rest;
      var n := |Encode(f)|;
      if k < n {
        assert EncodeAll(fs)[..k] == Encode(f)[..k];
        CutInside(f, k);
        assert fs[..1][1..] == [];
      } else {
        var cut := EncodeAll(rest)[..k - n];
        assert EncodeAll(fs)[..k] == Encode(f) + cut;
        DecodeEncode(f, cut);
        ReadAllTruncated(rest, k - n);
        CompleteFront(f, rest, k - n, ReadAll(cut).0);
      }
    }
  }

  lemma CutInside(f: Frame, k: nat)
    requires Fits(f) && k < |Encode(f)|
    ensures Decode(Encode(f)[..k]) == Err(if k == 0 || k == HEADER then EOF else UnexpectedEOF)
  {
    var s := Encode(f)[..k];
    if k >= HEADER {
      assert s[..4] == BigEndian(|f.payload|);
      assert Uint32(s) == Uint32(s[..4]);
    }
  }
}
