/** Docker log framing (internal/clients/docker/client.go): an 8-byte header, then the payload. */
module Docker {
  import opened Text

  datatype Frame = Frame(stream: Byte, payload: seq<Byte>)

  const HEADER := 8

  predicate ValidFrame(f: Frame) { f.stream <= 2 && |f.payload| < 0x1_0000_0000 }

  function BigEndian(n: nat): seq<Byte>
    requires n < 0x1_0000_0000
  {
    [n / 0x100_0000, n / 0x1_0000 % 256, n / 0x100 % 256, n % 256]
  }

  function Header(f: Frame): (h: seq<Byte>)
    requires ValidFrame(f)
    ensures |h| == HEADER
  {
    [f.stream, 0, 0, 0] + BigEndian(|f.payload|)
  }

  /** What Docker writes for a sequence of frames. */
  function Encode(fs: seq<Frame>): seq<Byte>
    requires forall f :: f in fs ==> ValidFrame(f)
  {
    if fs == [] then [] else Header(fs[0]) + fs[0].payload + Encode(fs[1..])
  }

  function Payloads(fs: seq<Frame>): seq<Byte> {
    if fs == [] then [] else fs[0].payload + Payloads(fs[1..])
  }

  predicate LooksFramed(b: seq<Byte>) {
    |b| >= HEADER && b[0] <= 2 && b[1] == 0 && b[2] == 0 && b[3] == 0
  }

  /** The size field of a header. */
  function Size(b: seq<Byte>): nat
    requires |b| >= HEADER
  {
    var p: int, q: int, r: int, s: int := b[4], b[5], b[6], b[7];
    p * 0x100_0000 + q * 0x1_0000 + r * 0x100 + s
  }

  /** Headers stripped; a truncated frame keeps what is left of it, a partial header is kept as it is. */
  function Strip(b: seq<Byte>): seq<Byte> {
    if |b| < HEADER then b
    else
      var rest := b[HEADER..];
      if Size(b) > |rest| then rest else rest[..Size(b)] + Strip(rest[Size(b)..])
  }

  /** demultiplex: terminates on every input and never grows the data. */
  method Demultiplex(raw: seq<Byte>) returns (out: seq<Byte>)
    ensures out == if LooksFramed(raw) then Strip(raw) else raw
    ensures |out| <= |raw|
    ensures |raw| < 8 || raw[0] > 2 || raw[1] != 0 || raw[2] != 0 || raw[3] != 0 ==> out == raw
  {
    if !LooksFramed(raw) { return raw; }
    var b := raw;
    out := [];
    while |b| >= HEADER
      invariant out + Strip(b) == Strip(raw)
      invariant |out| + |b| <= |raw|
      decreases |b|
    {
      var size := Size(b);
      ghost var whole := b;
      b := b[HEADER..];
      if size > |b| {
        assert Strip(whole) == b;
        out := out + b;
        return;
      }
      assert out + (b[..size] + Strip(b[size..])) == (out + b[..size]) + Strip(b[size..]);
      out := out + b[..size];
      b := b[size..];
    }
    out := out + b;
  }

  lemma SizeOfHeader(f: Frame, tail: seq<Byte>)
    requires ValidFrame(f)
    ensures |Header(f) + tail| >= HEADER && Size(Header(f) + tail) == |f.payload|
        && (Header(f) + tail)[HEADER..] == tail
    ensures LooksFramed(Header(f) + tail)
  {
    var n := |f.payload|;
    assert n / 0x1_0000 == n / 0x100_0000 * 256 + n / 0x1_0000 % 256;
    assert n / 0x100 == n / 0x1_0000 * 256 + n / 0x100 % 256;
    assert n == n / 0x100 * 256 + n % 256;
  }

  /** What a stream cut after n bytes demultiplexes to: the payload bytes received, plus a partial header if
      the cut falls inside one. */
  function Received(fs: seq<Frame>, n: nat): seq<Byte>
    requires forall f :: f in fs ==> ValidFrame(f)
  {
    if fs == [] then []
    else
      var f := fs[0];
      if n < HEADER then Header(f)[..n]
      else if n < HEADER + |f.payload| then f.payload[..n - HEADER]
      else f.payload + Received(fs[1..], n - HEADER - |f.payload|)
  }

  predicate InsideHeader(fs: seq<Frame>, n: nat) {
    fs != [] && (0 < n < HEADER
        || (n >= HEADER + |fs[0].payload| && InsideHeader(fs[1..], n - HEADER - |fs[0].payload|)))
  }

  /** The payload bytes among the first n bytes of the stream. */
  function PayloadReceived(fs: seq<Frame>, n: nat): seq<Byte>
    requires forall f :: f in fs ==> ValidFrame(f)
  {
    if fs == [] || n < HEADER then []
    else
      var f := fs[0];
      if n < HEADER + |f.payload| then f.payload[..n - HEADER]
      else f.payload + PayloadReceived(fs[1..], n - HEADER - |f.payload|)
  }

  /** A partial header is all that Received has beyond the payload. */
  lemma {:induction false} ReceivedExactly(fs: seq<Frame>, n: nat)
    requires forall f :: f in fs ==> ValidFrame(f)
    ensures Received(fs, n) == PayloadReceived(fs, n) <==> !InsideHeader(fs, n)
    ensures PayloadReceived(fs, n) <= Payloads(fs)
    ensures n >= |Encode(fs)| ==> PayloadReceived(fs, n) == Payloads(fs)
  {
    if fs != [] && n >= HEADER + |fs[0].payload| {
      var m := n - HEADER - |fs[0].payload|;
      ReceivedExactly(fs[1..], m);
      SameFront(fs[0].payload, Received(fs[1..], m), PayloadReceived(fs[1..], m), Payloads(fs[1..]));
    }
  }

  lemma SameFront(front: seq<Byte>, a: seq<Byte>, b: seq<Byte>, c: seq<Byte>)
    ensures front + a == front + b <==> a == b
    ensures b <= c ==> front + b <= front + c
  {
    assert (front + a)[|front|..] == a && (front + b)[|front|..] == b;
  }

  /** A whole frame in front: its payload, then what the rest strips to. */
  lemma StripFrame(f: Frame, rest: seq<Byte>)
    requires ValidFrame(f)
    ensures Strip(Header(f) + (f.payload + rest)) == f.payload + Strip(rest)
  {
    SizeOfHeader(f, f.payload + rest);
    assert (f.payload + rest)[..|f.payload|] == f.payload && (f.payload + rest)[|f.payload|..] == rest;
  }

  /** A frame cut inside its payload: what is left of the payload. */
  lemma StripPartial(f: Frame, part: seq<Byte>)
    requires ValidFrame(f) && |part| < |f.payload|
    ensures Strip(Header(f) + part) == part
  {
    SizeOfHeader(f, part);
  }

  lemma TakeWithin(h: seq<Byte>, p: seq<Byte>, t: seq<Byte>, n: nat)
    requires n <= |h| + |p| + |t|
    ensures (h + p + t)[..n] ==
            if n <= |h| then h[..n] else if n < |h| + |p| then h + p[..n - |h|] else h + (p + t[..n - |h| - |p|])
  {
  }

  lemma {:induction false} StripCut(fs: seq<Frame>, n: nat)
    requires (forall f :: f in fs ==> ValidFrame(f)) && n <= |Encode(fs)|
    ensures Strip(Encode(fs)[..n]) == Received(fs, n)
  {
    if fs != [] {
      var f := fs[0];
      var len := HEADER + |f.payload|;
      TakeWithin(Header(f), f.payload, Encode(fs[1..]), n);
      if HEADER <= n < len {
        if n == HEADER { assert Header(f)[..n] == Header(f) + []; assert f.payload[..0] == []; }
        StripPartial(f, f.payload[..n - HEADER]);
      } else if n >= len {
        var rest := Encode(fs[1..])[..n - len];
        if n == HEADER { assert Header(f)[..n] == Header(f) + (f.payload + rest); }
        StripFrame(f, rest);
        StripCut(fs[1..], n - len);
      }
    }
  }

  lemma {:induction false} WholeIsNotInsideHeader(fs: seq<Frame>)
    requires forall f :: f in fs ==> ValidFrame(f)
    ensures !InsideHeader(fs, |Encode(fs)|)
  {
    if fs != [] { WholeIsNotInsideHeader(fs[1..]); }
  }

  /** The function demultiplex computes, as its contract states it. */
  function Demuxed(raw: seq<Byte>): seq<Byte> { if LooksFramed(raw) then Strip(raw) else raw }

  /** For every sequence of frames and every point where the stream may break off, the exact result. It is the
      payload bytes received, which are a prefix of all payloads, if and only if the break is not inside a header. */
  lemma DemultiplexCut(fs: seq<Frame>, n: nat)
    requires (forall f :: f in fs ==> ValidFrame(f)) && n <= |Encode(fs)|
    ensures Demuxed(Encode(fs)[..n]) == Received(fs, n)
    ensures Demuxed(Encode(fs)[..n]) == PayloadReceived(fs, n) <==> !InsideHeader(fs, n)
    ensures PayloadReceived(fs, n) <= Payloads(fs)
  {
    StripCut(fs, n);
    ReceivedExactly(fs, n);
    CutLooksFramed(fs, n);
  }

  /** A cut stream is recognised as framed as soon as its first header is complete. */
  lemma CutLooksFramed(fs: seq<Frame>, n: nat)
    requires (forall f :: f in fs ==> ValidFrame(f)) && n <= |Encode(fs)|
    ensures LooksFramed(Encode(fs)[..n]) <==> n >= HEADER
  {
    if n >= HEADER {
      var s, h := Encode(fs)[..n], Header(fs[0]);
      assert forall i :: 0 <= i < HEADER ==> s[i] == h[i];
    }
  }

  /** Behind the first frame headers are not looked at: whatever their first four bytes say, each chunk of eight
      bytes, its big-endian length, and that many payload bytes is stripped, and a chunk that is cut short keeps
      what is there. */
  lemma ChunkStripped(h: seq<Byte>, payload: seq<Byte>, rest: seq<Byte>)
    requires |h| == 8
    requires |payload| == (h[4] as int) * 0x100_0000 + (h[5] as int) * 0x1_0000 + (h[6] as int) * 0x100 + h[7]
    ensures Strip(h + payload + rest) == payload + Strip(rest)
  {
    var b := h + payload + rest;
    assert b[HEADER..] == payload + rest;
    assert (payload + rest)[..|payload|] == payload && (payload + rest)[|payload|..] == rest;
    assert Size(b) == |payload|;
  }

  lemma ChunkCutShort(h: seq<Byte>, part: seq<Byte>)
    requires |h| == 8
    requires |part| < (h[4] as int) * 0x100_0000 + (h[5] as int) * 0x1_0000 + (h[6] as int) * 0x100 + h[7]
    ensures Strip(h + part) == part
  {
    var b := h + part;
    assert b[HEADER..] == part;
    assert Size(b) > |part|;
  }

  /** An input is taken for framed exactly by its first four bytes, provided there is a whole header. */
  lemma UnframedUnchanged(raw: seq<Byte>)
    ensures |raw| < 8 || raw[0] > 2 || raw[1] != 0 || raw[2] != 0 || raw[3] != 0 ==> Demuxed(raw) == raw
    ensures |raw| >= 8 && raw[0] <= 2 && raw[1] == 0 && raw[2] == 0 && raw[3] == 0 ==> Demuxed(raw) == Strip(raw)
  {
  }

  /** Demultiplexing undoes framing. */
  lemma DemultiplexInverse(fs: seq<Frame>)
    requires forall f :: f in fs ==> ValidFrame(f)
    ensures Demuxed(Encode(fs)) == Payloads(fs)
  {
    var n := |Encode(fs)|;
    assert Encode(fs)[..n] == Encode(fs);
    DemultiplexCut(fs, n);
    WholeIsNotInsideHeader(fs);
    ReceivedExactly(fs, n);
  }
}
