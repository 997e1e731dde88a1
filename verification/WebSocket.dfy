/** WebSocket frames (websocket.c), against the base framing of sections 5.2 and 5.3 of RFC 6455. */
module WebSocket {
  import opened Bytes
  import opened Wrappers
  import TextBuffer

  // ----- numbers and masks

  function Pow256(k: nat): (p: nat)
    ensures p > 0
  {
    if k == 0 then 1 else 256 * Pow256(k - 1)
  }

  /** A number in `k` bytes, most significant first. */
  function BytesOf(n: nat, k: nat): (s: Text)
    ensures |s| == k
  {
    if k == 0 then [] else BytesOf(n / 256, k - 1) + [(n % 256) as Byte]
  }

  function Big(s: Text): nat {
    if s == [] then 0 else Big(s[..|s| - 1]) * 256 + s[|s| - 1] as nat
  }

  lemma {:induction false} BigBytesOf(n: nat, k: nat)
    requires n < Pow256(k)
    ensures Big(BytesOf(n, k)) == n
    decreases k
  {
    if k > 0 {
      BigBytesOf(n / 256, k - 1);
      assert BytesOf(n, k)[..k - 1] == BytesOf(n / 256, k - 1);
    }
  }

  lemma Eight()
    ensures Pow2(8) == 256
  {
    assert Pow2(4) == 16;
    assert Pow2(6) == 64;
  }

  function Xor(a: Byte, b: Byte): Byte {
    Eight();
    XorTwice(a as nat, b as nat, 8);
    XorBits(a as nat, b as nat, 8) as Byte
  }

  lemma XorBack(a: Byte, b: Byte)
    ensures Xor(Xor(a, b), b) == a
  {
    Eight();
    XorTwice(a as nat, b as nat, 8);
  }

  /** Masking with a four-byte key; unmasking is the same. */
  function Masked(s: Text, key: Text): (t: Text)
    requires |key| == 4
    ensures |t| == |s| && forall i :: 0 <= i < |s| ==> t[i] == Xor(s[i], key[i % 4])
  {
    seq(|s|, i requires 0 <= i < |s| => Xor(s[i], key[i % 4]))
  }

  lemma MaskedBack(s: Text, key: Text)
    requires |key| == 4
    ensures Masked(Masked(s, key), key) == s
  {
    forall i | 0 <= i < |s|
      ensures Masked(Masked(s, key), key)[i] == s[i]
    {
      XorBack(s[i], key[i % 4]);
    }
  }

  // ----- frames

  /** How the payload length is written: in seven bits, or in two or eight more bytes. */
  datatype Form = Short | Medium | Long

  function Extra(form: Form): nat {
    match form
    case Short => 0
    case Medium => 2
    case Long => 8
  }

  predicate Holds(form: Form, n: nat) {
    match form
    case Short => n <= 125
    case Medium => n < 0x1_0000
    case Long => n < 0x8000_0000_0000_0000
  }

  /** The form a sender must choose. */
  function Least(n: nat): Form {
    if n <= 125 then Short else if n < 0x1_0000 then Medium else Long
  }

  datatype Frame = Frame(op: Byte, form: Form, key: Option<Text>, payload: Text)

  predicate ValidFrame(f: Frame) {
    f.op < 16 && Holds(f.form, |f.payload|) && (f.key.Some? ==> |f.key.value| == 4)
  }

  /** The first bytes: FIN and the opcode, the mask bit and the length. */
  function HeadOf(f: Frame): (h: Text)
    requires ValidFrame(f)
    ensures |h| == 2 + Extra(f.form)
  {
    var bit: Byte := if f.key.Some? then 128 else 0;
    match f.form
    case Short => [128 + f.op, bit + |f.payload| as Byte]
    case Medium => [128 + f.op, bit + 126] + BytesOf(|f.payload|, 2)
    case Long => [128 + f.op, bit + 127] + BytesOf(|f.payload|, 8)
  }

  function Encode(f: Frame): Text
    requires ValidFrame(f)
  {
    match f.key
    case None => HeadOf(f) + f.payload
    case Some(key) => HeadOf(f) + (key + Masked(f.payload, key))
  }

  // ----- reading the head

  /** The bytes of length that follow the second byte. */
  function ExtraOf(b: Byte): nat {
    if b % 128 == 126 then 2 else if b % 128 == 127 then 8 else 0
  }

  predicate HasHead(s: Text) {
    |s| >= 2 && |s| >= 2 + ExtraOf(s[1])
  }

  function Size(s: Text): nat
    requires HasHead(s)
  {
    if ExtraOf(s[1]) == 0 then s[1] as nat % 128 else Big(s[2..2 + ExtraOf(s[1])])
  }

  /** Where the payload starts. */
  function Start(s: Text): nat
    requires HasHead(s)
  {
    2 + ExtraOf(s[1]) + if s[1] >= 128 then 4 else 0
  }

  predicate HasFrame(s: Text) {
    HasHead(s) && Start(s) + Size(s) <= |s|
  }

  /** The payload, unmasked if need be. */
  function Payload(s: Text): (p: Text)
    requires HasFrame(s)
    ensures |p| == Size(s)
  {
    var body := s[Start(s)..Start(s) + Size(s)];
    if s[1] >= 128 then Masked(body, s[Start(s) - 4..Start(s)]) else body
  }

  /** agoo_ws_calc_len on the bytes received so far: -1 without FIN, 0 while it waits, then the length of the frame. */
  function CalcLen(s: Text): int
    requires s != []
  {
    if s[0] < 128 then -1
    else if |s| < 3 then 0
    else if ExtraOf(s[1]) == 2 && |s| < 5 then 0
    else if ExtraOf(s[1]) == 8 && |s| < 11 then 0
    else Start(s) + Size(s)
  }

  // ----- the laws

  lemma HeadReads(f: Frame, rest: Text)
    requires ValidFrame(f)
    ensures var s := HeadOf(f) + rest;
            && HasHead(s) && s[0] == 128 + f.op && (s[1] >= 128 <==> f.key.Some?) && ExtraOf(s[1]) == Extra(f.form)
            && Size(s) == |f.payload|
  {
    hide Big, BytesOf;
    var s, h := HeadOf(f) + rest, HeadOf(f);
    assert s[0] == h[0] && s[1] == h[1];
    if f.form != Short {
      var k := Extra(f.form);
      assert h[2..] == BytesOf(|f.payload|, k);
      assert s[2..2 + k] == BytesOf(|f.payload|, k);
      SizeFits(f);
      BigBytesOf(|f.payload|, k);
    }
  }

  lemma SizeFits(f: Frame)
    requires ValidFrame(f) && f.form != Short
    ensures |f.payload| < Pow256(Extra(f.form))
  {
    assert Pow256(2) == 0x1_0000;
    assert Pow256(4) == 0x1_0000 * Pow256(2);
    assert Pow256(6) == 0x1_0000 * Pow256(4);
    assert Pow256(8) == 0x1_0000 * Pow256(6);
  }

  /** Decoding a frame, masked or not and whatever follows it, gives its payload. */
  lemma DecodeEncode(f: Frame, rest: Text)
    requires ValidFrame(f)
    ensures HasFrame(Encode(f) + rest) && Payload(Encode(f) + rest) == f.payload
    ensures Start(Encode(f) + rest) + Size(Encode(f) + rest) == |Encode(f)|
  {
    hide HeadOf, Masked;
    var s, h := Encode(f) + rest, HeadOf(f);
    HeadSplit(f, rest);
    match f.key {
      case None =>
        Slices(h, [], f.payload, rest);
        assert h + ([] + f.payload) == Encode(f);
      case Some(key) =>
        Slices(h, key, Masked(f.payload, key), rest);
        MaskedBack(f.payload, key);
    }
  }

  lemma Slices(h: Text, key: Text, body: Text, rest: Text)
    ensures var s := h + (key + body) + rest; var at := |h| + |key|;
            s[|h|..at] == key && s[at..at + |body|] == body
  {
    var s := h + (key + body) + rest;
    Assoc(h, key + body, rest);
    assert s == h + (key + (body + rest));
  }

  lemma HeadSplit(f: Frame, rest: Text)
    requires ValidFrame(f)
    ensures var s := Encode(f) + rest;
            && HasHead(s) && s[0] == 128 + f.op && (s[1] >= 128 <==> f.key.Some?) && ExtraOf(s[1]) == Extra(f.form)
            && Size(s) == |f.payload|
  {
    hide HeadOf, Size, HasHead;
    match f.key {
      case None =>
        Assoc(HeadOf(f), f.payload, rest);
        HeadReads(f, f.payload + rest);
      case Some(key) =>
        Assoc(HeadOf(f), key + Masked(f.payload, key), rest);
        HeadReads(f, key + Masked(f.payload, key) + rest);
    }
  }

  /** How much must have arrived before the length is given. */
  function Needed(form: Form): nat {
    match form
    case Short => 3
    case Medium => 5
    case Long => 11
  }

  /** On what has arrived of a frame and anything behind it, the length is 0 or the frame's, and the frame's from a
      fixed number of bytes on. */
  lemma CalcLenOnPrefix(f: Frame, more: Text, cnt: nat)
    requires ValidFrame(f) && 2 <= cnt <= |Encode(f) + more|
    ensures CalcLen((Encode(f) + more)[..cnt]) == if cnt < Needed(f.form) then 0 else |Encode(f)|
  {
    DecodeEncode(f, more);
    var s := Encode(f) + more;
    HeadSplit(f, more);
    if cnt >= Needed(f.form) {
      assert s[..cnt][2..2 + Extra(f.form)] == s[2..2 + Extra(f.form)];
    }
  }

  /** The frame has a mask, as a client's must, or a payload. */
  predicate SelfContained(f: Frame) {
    f.key.Some? || f.payload != []
  }

  /** A frame is recognised by its own last byte exactly when it has a mask or a payload. */
  lemma Completes(f: Frame)
    requires ValidFrame(f)
    ensures CalcLen(Encode(f)) == |Encode(f)| <==> SelfContained(f)
  {
    assert Encode(f) + [] == Encode(f) && Encode(f)[..|Encode(f)|] == Encode(f);
    CalcLenOnPrefix(f, [], |Encode(f)|);
  }

  // ----- a stream of frames

  function EncodeAll(fs: seq<Frame>): Text
    requires forall i :: 0 <= i < |fs| ==> ValidFrame(fs[i])
  {
    if fs == [] then [] else Encode(fs[0]) + EncodeAll(fs[1..])
  }

  lemma SizePositive(f: Frame)
    requires ValidFrame(f)
    ensures |Encode(f)| >= 2 && Encode(f)[0] == 128 + f.op && f.op < 16
  {
    assert Encode(f)[0] == HeadOf(f)[0];
  }

  /** What the read loop does with a buffer (con_ws_read): queue a message, or answer a ping. */
  datatype Event = Message(bin: bool, payload: Text) | Pong

  /** Waiting for more, the connection to be closed, or a message taken before all of it has arrived. */
  datatype End = Wait | Close | Partly

  datatype Read = Read(events: seq<Event>, end: End, rest: Text)

  function Before(e: Event, r: Read): Read {
    Read([e] + r.events, r.end, r.rest)
  }

  predicate IsData(op: Byte) { op == 1 || op == 2 }

  predicate IsPing(op: Byte) { op == 9 || op == 10 }

  /** The loop over the buffer, for a connection with a handler and no GraphQL subscription. */
  function ReadLoop(s: Text): (r: Read) {
    if |s| < 2 then Read([], Wait, s)
    else
      var n := CalcLen(s);
      var op := s[0] % 16;
      if n <= 0 then Read([], if n < 0 then Close else Wait, s)
      else if IsData(op) then
        if n > |s| then Read([], Partly, s)
        else
          var message := Message(op == 2, Payload(s));
          if n < |s| then Before(message, ReadLoop(s[n..])) else Read([message], Wait, [])
      else if IsPing(op) then
        // a ping or pong is only taken when nothing is behind it
        if n != |s| then Read([], Wait, s) else Read(if op == 9 then [Pong] else [], Wait, [])
      else Read([], Close, s)
  }

  /** The first of the frames is told by its length: it needs a byte behind it unless it has a mask or a payload. */
  predicate Told(fs: seq<Frame>) {
    fs != [] && (SelfContained(fs[0]) || |fs| > 1)
  }

  /** How many data frames are taken off the front. */
  function DataRun(fs: seq<Frame>): (k: nat)
    ensures k <= |fs| && (forall i :: 0 <= i < k ==> IsData(fs[i].op))
    ensures k < |fs| ==> !IsData(fs[k].op) || !Told(fs[k..])
  {
    if Told(fs) && IsData(fs[0].op) then
      var k := DataRun(fs[1..]);
      assert fs[1..][k..] == fs[k + 1..];
      1 + k
    else
      assert fs[0..] == fs;
      0
  }

  function Messages(fs: seq<Frame>): seq<Event> {
    if fs == [] then [] else [Message(fs[0].op == 2, fs[0].payload)] + Messages(fs[1..])
  }

  /** What becomes of the buffer from the first frame that is not taken as a message. */
  function Stop(fs: seq<Frame>): Read
    requires forall i :: 0 <= i < |fs| ==> ValidFrame(fs[i])
  {
    if !Told(fs) then Read([], Wait, EncodeAll(fs))
    else if !IsPing(fs[0].op) then Read([], Close, EncodeAll(fs))
    else if |fs| > 1 then Read([], Wait, EncodeAll(fs))
    else Read(if fs[0].op == 9 then [Pong] else [], Wait, [])
  }

  /** What the loop makes of a buffer of whole frames. */
  function Outcome(fs: seq<Frame>): Read
    requires forall i :: 0 <= i < |fs| ==> ValidFrame(fs[i])
  {
    var k := DataRun(fs);
    var stop := Stop(fs[k..]);
    Read(Messages(fs[..k]) + stop.events, stop.end, stop.rest)
  }

  lemma OutcomeNext(fs: seq<Frame>)
    requires (forall i :: 0 <= i < |fs| ==> ValidFrame(fs[i])) && Told(fs) && IsData(fs[0].op)
    ensures Outcome(fs) == Before(Message(fs[0].op == 2, fs[0].payload), Outcome(fs[1..]))
  {
    hide Stop;
    var f, more, k := fs[0], fs[1..], DataRun(fs);
    assert fs[..k][0] == f && fs[..k][1..] == more[..k - 1] && fs[k..] == more[k - 1..];
    Assoc([Message(f.op == 2, f.payload)], Messages(more[..k - 1]), Stop(fs[k..]).events);
  }

  lemma OutcomeStop(fs: seq<Frame>)
    requires (forall i :: 0 <= i < |fs| ==> ValidFrame(fs[i])) && !(Told(fs) && IsData(fs[0].op))
    ensures Outcome(fs) == Stop(fs)
  {
    hide Stop;
    assert fs[..0] == [] && fs[0..] == fs && [] + Stop(fs).events == Stop(fs).events;
  }

  /** A buffer of whole frames: the data frames in front are queued as messages, in order and with their payloads;
      then a last frame with neither mask nor payload stays, whatever it is; a ping or pong is taken if it is the last
      frame, and else it and everything behind it stays; any other frame closes the connection. */
  lemma {:induction false} ReadFrames(fs: seq<Frame>)
    requires forall i :: 0 <= i < |fs| ==> ValidFrame(fs[i])
    ensures ReadLoop(EncodeAll(fs)) == Outcome(fs)
    decreases |fs|
  {
    hide Encode, ReadLoop, Outcome, Stop;
    EncodeAllEmpty(fs);
    if Told(fs) && IsData(fs[0].op) {
      ReadFrames(fs[1..]);
      EncodeAllEmpty(fs[1..]);
      FirstData(fs[0], EncodeAll(fs[1..]));
      OutcomeNext(fs);
    } else {
      OutcomeStop(fs);
      if Told(fs) {
        FirstNoData(fs);
      } else {
        Waits(fs);
      }
    }
  }

  lemma Waits(fs: seq<Frame>)
    requires (forall i :: 0 <= i < |fs| ==> ValidFrame(fs[i])) && !Told(fs)
    ensures ReadLoop(EncodeAll(fs)) == Stop(fs)
  {
    if fs != [] {
      FirstWaits(fs[0]);
      assert fs[1..] == [] && EncodeAll(fs) == Encode(fs[0]) + [] == Encode(fs[0]);
    }
  }

  lemma EncodeAllEmpty(fs: seq<Frame>)
    requires forall i :: 0 <= i < |fs| ==> ValidFrame(fs[i])
    ensures EncodeAll(fs) == [] <==> fs == []
  {
    if fs != [] {
      SizePositive(fs[0]);
    }
  }

  /** The loop on a whole frame: its opcode, its length, its payload. */
  lemma FrameFirst(f: Frame, rest: Text)
    requires ValidFrame(f) && (SelfContained(f) || rest != [])
    ensures var s := Encode(f) + rest;
            && |s| >= 2 && s[0] % 16 == f.op && CalcLen(s) == |Encode(f)| > 0
            && HasFrame(s) && Payload(s) == f.payload && s[|Encode(f)|..] == rest
  {
    hide Encode, CalcLen, Payload, ValidFrame;
    var s := Encode(f) + rest;
    SizePositive(f);
    DecodeEncode(f, rest);
    FrameLength(f, rest);
    assert s[0] == Encode(f)[0];
    assert s[|Encode(f)|..] == rest;
    LowBits(f.op);
  }

  lemma EncodeSize(f: Frame)
    requires ValidFrame(f)
    ensures |Encode(f)| == 2 + Extra(f.form) + (if f.key.Some? then 4 else 0) + |f.payload|
    ensures |Encode(f)| >= Needed(f.form) <==> SelfContained(f)
    ensures |Encode(f)| + 1 >= Needed(f.form)
  {
    hide HeadOf;
  }

  lemma FrameLength(f: Frame, rest: Text)
    requires ValidFrame(f) && (SelfContained(f) || rest != [])
    ensures CalcLen(Encode(f) + rest) == |Encode(f)|
  {
    EncodeSize(f);
    hide Encode, CalcLen;
    var s := Encode(f) + rest;
    CalcLenOnPrefix(f, rest, |s|);
    assert s[..|s|] == s;
  }

  /** A frame with neither mask nor payload and nothing behind it. */
  lemma FirstWaits(f: Frame)
    requires ValidFrame(f) && !SelfContained(f)
    ensures ReadLoop(Encode(f)) == Read([], Wait, Encode(f))
  {
    EncodeSize(f);
    hide Encode, CalcLen;
    var s := Encode(f);
    CalcLenOnPrefix(f, [], |s|);
    assert s + [] == s && s[..|s|] == s;
  }

  lemma LowBits(op: Byte)
    requires op < 16
    ensures (128 + op) % 16 == op
  {
  }

  lemma FirstData(f: Frame, rest: Text)
    requires ValidFrame(f) && (SelfContained(f) || rest != []) && IsData(f.op)
    ensures ReadLoop(Encode(f) + rest) == Before(Message(f.op == 2, f.payload), ReadLoop(rest))
  {
    FrameFirst(f, rest);
    hide Encode, CalcLen, Payload;
  }

  lemma FirstNoData(fs: seq<Frame>)
    requires (forall i :: 0 <= i < |fs| ==> ValidFrame(fs[i])) && Told(fs) && !IsData(fs[0].op)
    ensures ReadLoop(EncodeAll(fs)) == Stop(fs)
  {
    EncodeAllEmpty(fs[1..]);
    FrameFirst(fs[0], EncodeAll(fs[1..]));
    hide Encode, CalcLen, Payload;
  }

  /** The loop uses up a buffer of whole frames and keeps the connection if and only if all frames but the last are data
      frames, and the last is one, a ping or a pong, and has a mask or a payload. */
  lemma Drains(fs: seq<Frame>)
    requires forall i :: 0 <= i < |fs| ==> ValidFrame(fs[i])
    ensures var r := ReadLoop(EncodeAll(fs));
            (r.end == Wait && r.rest == [])
            <==> && (forall i :: 0 <= i < |fs| ==> IsData(fs[i].op) || (IsPing(fs[i].op) && i == |fs| - 1))
                 && (fs != [] ==> SelfContained(fs[|fs| - 1]))
  {
    hide ReadLoop, EncodeAll, Stop, DataRun, Messages;
    ReadFrames(fs);
    var k := DataRun(fs);
    StopDrains(fs[k..]);
    if k < |fs| {
      assert fs[k..][0] == fs[k];
    } else if fs != [] {
      DataRunLast(fs);
    }
  }

  lemma StopDrains(fs: seq<Frame>)
    requires forall i :: 0 <= i < |fs| ==> ValidFrame(fs[i])
    ensures (Stop(fs).end == Wait && Stop(fs).rest == [])
            <==> fs == [] || (|fs| == 1 && SelfContained(fs[0]) && IsPing(fs[0].op))
  {
    EncodeAllEmpty(fs);
    hide EncodeAll;
  }

  /** Taking all frames takes a last one that is told by its length. */
  lemma {:induction false} DataRunLast(fs: seq<Frame>)
    requires DataRun(fs) == |fs| && fs != []
    ensures SelfContained(fs[|fs| - 1])
    decreases |fs|
  {
    if |fs| > 1 {
      DataRunLast(fs[1..]);
    }
  }

  /** Once a ping or pong has something behind it nothing is read any more, whatever is received. */
  lemma Stuck(f: Frame, rest: Text, more: Text)
    requires ValidFrame(f) && IsPing(f.op) && rest != []
    ensures ReadLoop(Encode(f) + rest + more) == Read([], Wait, Encode(f) + rest + more)
  {
    FrameFirst(f, rest + more);
    Assoc(Encode(f), rest, more);
    hide Encode, CalcLen, Payload;
  }

  // ----- the code

  /** agoo_ws_expand: the head goes in front of the text, unmasked and in the least form. */
  method Expand(t: TextBuffer.Buffer, bin: bool)
    requires t.Valid() && t.len < 0x8000_0000_0000_0000
    modifies t, t.text
    ensures t.Valid() && (t.text == old(t.text) || fresh(t.text))
    ensures var f := Frame(if bin then 2 else 1, Least(old(t.len)), None, old(t.Contents()));
            ValidFrame(f) && t.Contents() == Encode(f)
  {
    ghost var f := Frame(if bin then 2 else 1, Least(t.len), None, t.Contents());
    var buf := LeastHead(if bin then 2 else 1, t.len, f);
    hide HeadOf;
    t.Prepend(buf, |buf|);
    assert buf[..|buf|] == buf;
  }

  method LeastHead(opcode: Byte, len: nat, ghost f: Frame) returns (buf: Text)
    requires len == |f.payload| < 0x8000_0000_0000_0000
    requires opcode == f.op < 16 && f.form == Least(len) && f.key == None
    ensures buf == HeadOf(f)
  {
    buf := [128 + opcode];
    if 125 >= len {
      buf := buf + [len as Byte];
    } else if 0xffff >= len {
      TwoBytes(len);
      buf := buf + [126] + ([(len / 256 % 256) as Byte] + [(len % 256) as Byte]);
    } else {
      var size := EightBytes(len);
      buf := buf + [127] + size;
    }
  }

  lemma TwoBytes(n: nat)
    ensures BytesOf(n, 2) == [(n / 256 % 256) as Byte] + [(n % 256) as Byte]
  {
    assert BytesOf(n / 256, 1) == [(n / 256 % 256) as Byte];
  }

  /** The loop over the shifts 56 to 0. */
  method EightBytes(n: nat) returns (s: Text)
    ensures s == BytesOf(n, 8)
  {
    s := [];
    var i := 8;
    while 0 < i
      invariant 0 <= i <= 8 && s == BytesOf(Shift(n, i), 8 - i)
    {
      i := i - 1;
      s := s + [(Shift(n, i) % 256) as Byte];
    }
  }

  /** A shift to the right by whole bytes. */
  function Shift(n: nat, bytes: nat): nat {
    if bytes == 0 then n else Shift(n, bytes - 1) / 256
  }

  /** agoo_ws_decode: unmasks the payload where it lies, moves it to the front and ends it with a NUL. */
  method Decode(buf: array<Byte>) returns (plen: nat)
    requires HasFrame(buf[..])
    modifies buf
    ensures plen == Size(old(buf[..])) && buf[..plen] == Payload(old(buf[..])) && buf[plen] == 0
    ensures var end := Start(old(buf[..])) + plen; buf[end..] == old(buf[end..])
  {
    hide Big, Masked;
    ghost var s := buf[..];
    var masked := buf[1] >= 128;
    var b;
    plen, b := DecodeHead(buf);
    if masked {
      var mask := buf[b..b + 4];
      b := b + 4;
      Unmask(buf, b, plen, mask);
    }
    MoveDown(buf, b, plen);
    buf[plen] := 0;
  }

  /** The length, and where the mask or the payload starts. */
  method DecodeHead(buf: array<Byte>) returns (plen: nat, b: nat)
    requires HasHead(buf[..])
    ensures plen == Size(buf[..]) && b == 2 + ExtraOf(buf[1])
  {
    hide Big;
    plen := buf[1] as nat % 128;
    b := 2;
    if 126 == plen {
      plen := ReadBig(buf, 2, 2);
      b := 4;
    } else if 127 == plen {
      plen := ReadBig(buf, 2, 8);
      b := 10;
    }
    assert buf[..][2..b] == buf[2..b];
  }

  method ReadBig(buf: array<Byte>, at: nat, k: nat) returns (n: nat)
    requires at + k <= buf.Length
    ensures n == Big(buf[at..at + k])
  {
    n := 0;
    for i := 0 to k
      invariant n == Big(buf[at..at + i])
    {
      assert buf[at..at + i + 1][..i] == buf[at..at + i];
      n := n * 256 + buf[at + i] as nat;
    }
  }

  method Unmask(buf: array<Byte>, at: nat, n: nat, mask: Text)
    requires at + n <= buf.Length && |mask| == 4
    modifies buf
    ensures buf[at..at + n] == Masked(old(buf[at..at + n]), mask)
    ensures buf[..at] == old(buf[..at]) && buf[at + n..] == old(buf[at + n..])
  {
    for i := 0 to n
      invariant forall k :: 0 <= k < i ==> buf[at + k] == Xor(old(buf[at + k]), mask[k % 4])
      invariant buf[at + i..] == old(buf[at + i..]) && buf[..at] == old(buf[..at])
    {
      buf[at + i] := Xor(buf[at + i], mask[i % 4]);
    }
  }

  method MoveDown(buf: array<Byte>, from: nat, n: nat)
    requires from + n <= buf.Length
    modifies buf
    ensures buf[..n] == old(buf[from..from + n]) && (n <= from ==> buf[n..] == old(buf[n..]))
    ensures buf[from + n..] == old(buf[from + n..])
  {
    forall i | 0 <= i < n {
      buf[i] := buf[from + i];
    }
  }

  /** agoo_ws_calc_len */
  method CalcLength(buf: array<Byte>, cnt: nat) returns (len: int)
    requires 0 < cnt <= buf.Length && 2 <= buf.Length
    ensures len == CalcLen(buf[..cnt])
  {
    if buf[0] < 128 {
      return -1;
    }
    var masked := buf[1] >= 128;
    var plen: nat := buf[1] as nat % 128;
    if cnt < 3 {
      return 0;
    }
    var b := 2;
    ghost var s := buf[..cnt];
    if 126 == plen {
      if cnt < 5 {
        return 0;
      }
      plen := ReadBig(buf, b, 2);
      assert buf[2..4] == s[2..4];
      b := 4;
    } else if 127 == plen {
      if cnt < 11 {
        return 0;
      }
      plen := ReadBig(buf, b, 8);
      assert buf[2..10] == s[2..10];
      b := 10;
    }
    len := b + (if masked then 4 else 0) + plen;
  }

  /** The loop of con_ws_read over what has been received. */
  method ReadReceived(buf: Text) returns (events: seq<Event>, end: End, rest: Text)
    ensures Read(events, end, rest) == ReadLoop(buf)
  {
    events, rest := [], buf;
    assert [] + ReadLoop(buf).events == ReadLoop(buf).events;
    while true
      invariant var r := ReadLoop(rest); Read(events + r.events, r.end, r.rest) == ReadLoop(buf)
      decreases |rest|
    {
      ghost var before := ReadLoop(rest);
      assert events + [] == events;
      if |rest| < 2 {
        return events, Wait, rest;
      }
      var n := CalcLen(rest);
      if 0 >= n {
        return events, if n < 0 then Close else Wait, rest;
      }
      var op := rest[0] % 16;
      if op == 8 || (!IsData(op) && !IsPing(op)) {
        return events, Close, rest;
      } else if IsPing(op) {
        if n == |rest| {
          events := events + if op == 9 then [Pong] else [];
          rest := [];
        }
        return events, Wait, rest;
      }
      if |rest| < n {
        return events, Partly, rest;
      }
      var message := Message(op == 2, Payload(rest));
      Assoc(events, [message], ReadLoop(rest[n..]).events);
      events := events + [message];
      if n < |rest| {
        rest := rest[n..];
      } else {
        return events, Wait, [];
      }
    }
  }
}
