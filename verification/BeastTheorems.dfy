/** What the Beast decoder guarantees about streams: chunking, resynchronisation, round trips. */
module BeastTheorems {
  import opened Common
  import opened Beast

  // ---------------------------------------------------------------- chunk invariance

  lemma {:induction false} ScanMonotone(b: seq<byte>, more: seq<byte>, i: nat, want: nat)
    requires i <= |b| && !ScanPayload(b, i, want).Short?
    ensures ScanPayload(b + more, i, want) == ScanPayload(b, i, want)
    decreases want
  {
    ScanUnfold(b, i, want);
    ScanUnfold(b + more, i, want);
    hide ScanPayload;
    if want != 0 {
      assert (b + more)[i] == b[i];
      if b[i] != ESCAPE {
        ScanMonotone(b, more, i + 1, want - 1);
      } else if b[i + 1] == ESCAPE {
        assert (b + more)[i + 1] == b[i + 1];
        ScanMonotone(b, more, i + 2, want - 1);
      } else {
        assert (b + more)[i + 1] == b[i + 1];
      }
    }
  }

  /** A decision, once taken, is never revised by bytes that arrive later. */
  lemma StepMonotone(b: seq<byte>, more: seq<byte>)
    requires StepAt(b).Consumed?
    ensures StepAt(b + more) == StepAt(b)
  {
    assert (b + more)[1] == b[1];
    if FrameLength(b[1]) != 0 {
      ScanMonotone(b, more, 2, 7 + FrameLength(b[1]));
    }
  }

  /** Decoding a prefix, then its leftover joined to the remaining bytes, is decoding the whole. */
  lemma {:induction false} DecodeInTwo(a: seq<byte>, more: seq<byte>)
    ensures Decode(a + more) == Decode(Decode(a).rest + more).After(Decode(a).out)
    decreases |a|
  {
    var d := Decode(Decode(a).rest + more);
    DecodeUnfold(a);
    DecodeUnfold(a + more);
    hide Decode;
    hide StepAt;
    if a == [] {
      assert a + more == more && d.After([]) == d;
    } else if a[0] != ESCAPE {
      assert (a + more)[1..] == a[1..] + more;
      DecodeInTwo(a[1..], more);
    } else if StepAt(a).NeedMore? {
      assert d.After([]) == d;
    } else {
      var n, r := StepAt(a).n, StepAt(a).reception;
      StepMonotone(a, more);
      assert (a + more)[n..] == a[n..] + more;
      DecodeInTwo(a[n..], more);
      AfterTwice(Elements(r), Decode(a[n..]).out, Decode(Decode(a[n..]).rest + more));
    }
  }

  /** However the stream is cut into reads, the receptions and the final buffer are those of one read. */
  lemma {:induction false} ChunkInvariance(buf: seq<byte>, chunks: seq<seq<byte>>)
    requires Decode(buf) == Decoded([], buf)
    ensures DecodeChunks(buf, chunks) == Decode(buf + Flatten(chunks))
    decreases |chunks|
  {
    if chunks == [] {
      assert buf + Flatten(chunks) == buf;
    } else {
      var first := Decode(buf + chunks[0]);
      LeftoverIsStable(buf + chunks[0]);
      ChunkInvariance(first.rest, chunks[1..]);
      assert buf + Flatten(chunks) == (buf + chunks[0]) + Flatten(chunks[1..]);
      DecodeInTwo(buf + chunks[0], Flatten(chunks[1..]));
    }
  }

  lemma {:induction false} LeftoverIsStable(b: seq<byte>)
    ensures Decode(Decode(b).rest) == Decoded([], Decode(b).rest)
    ensures Decode(b).rest == [] || (Decode(b).rest[0] == ESCAPE && StepAt(Decode(b).rest).NeedMore?)
    decreases |b|
  {
    if b == [] {
    } else if b[0] != ESCAPE {
      LeftoverIsStable(b[1..]);
    } else if StepAt(b).Consumed? {
      LeftoverIsStable(b[StepAt(b).n..]);
    }
  }

  lemma {:induction false} ShortScanIsShort(b: seq<byte>, i: nat, want: nat)
    requires i <= |b| && ScanPayload(b, i, want).Short?
    ensures want > 0 && |b| - i <= 2 * want - 1
    decreases want
  {
    if i == |b| || (b[i] == ESCAPE && i + 1 == |b|) {
    } else if b[i] != ESCAPE {
      ShortScanIsShort(b, i + 1, want - 1);
    } else {
      ShortScanIsShort(b, i + 2, want - 1);
    }
  }

  /** Between reads the buffer is empty or one unfinished message of at most 43 bytes. */
  lemma LeftoverBound(b: seq<byte>)
    ensures |Decode(b).rest| <= 43
    ensures Decode(b).rest != [] ==> Decode(b).rest[0] == ESCAPE
  {
    var rest := Decode(b).rest;
    LeftoverIsStable(b);
    if |rest| >= 2 {
      ShortScanIsShort(rest, 2, 7 + FrameLength(rest[1]));
    }
  }

  // ---------------------------------------------------------------- encoding

  datatype Message = Message(counts: bv64, signal: byte, frame: seq<byte>) {
    predicate Valid() {
      counts < 0x1_0000_0000_0000 && (|frame| == 7 || |frame| == 14)
    }

    function Received(): Reception {
      Reception(counts, frame)
    }
  }

  function CountBytes(counts: bv64): (p: seq<byte>)
    ensures |p| == 6
  {
    [((counts >> 40) & 0xff) as bv8, ((counts >> 32) & 0xff) as bv8, ((counts >> 24) & 0xff) as bv8,
     ((counts >> 16) & 0xff) as bv8, ((counts >> 8) & 0xff) as bv8, (counts & 0xff) as bv8]
  }

  function Stuff(p: seq<byte>): seq<byte> {
    if p == [] then [] else (if p[0] == ESCAPE then [ESCAPE, ESCAPE] else [p[0]]) + Stuff(p[1..])
  }

  function Payload(m: Message): seq<byte> {
    CountBytes(m.counts) + [m.signal] + m.frame
  }

  function TypeOf(m: Message): byte {
    if |m.frame| == 7 then SHORT_TYPE else LONG_TYPE
  }

  function Encoded(m: Message): seq<byte> {
    [ESCAPE, TypeOf(m)] + Stuff(Payload(m))
  }

  function Stream(ms: seq<Message>): seq<byte> {
    if ms == [] then [] else Encoded(ms[0]) + Stream(ms[1..])
  }

  predicate AllValid(ms: seq<Message>) {
    forall i :: 0 <= i < |ms| ==> ms[i].Valid()
  }

  function Receptions(ms: seq<Message>): seq<Reception> {
    if ms == [] then [] else [ms[0].Received()] + Receptions(ms[1..])
  }

  lemma StuffAppend(p: seq<byte>, c: byte)
    ensures Stuff(p + [c]) == Stuff(p) + if c == ESCAPE then [c, ESCAPE] else [c]
  {
    if p != [] {
      assert (p + [c])[1..] == p[1..] + [c];
    }
  }

  method Encode(counts: bv64, signal: byte, frame: seq<byte>) returns (buf: seq<byte>)
    ensures buf == Encoded(Message(counts, signal, frame))
  {
    buf := [ESCAPE];
    buf := buf + [if |frame| == 7 then SHORT_TYPE else LONG_TYPE];
    var payload := CountBytes(counts) + [signal] + frame;
    assert Stuff(payload[..0]) == [];
    hide Stuff, CountBytes;
    for i := 0 to |payload|
      invariant buf == [ESCAPE, TypeOf(Message(counts, signal, frame))] + Stuff(payload[..i])
    {
      var b := payload[i];
      StuffAppend(payload[..i], b);
      assert payload[..i + 1] == payload[..i] + [b];
      buf := buf + [b];
      if b == ESCAPE {
        buf := buf + [ESCAPE];
      }
    }
    assert payload[..|payload|] == payload;
  }

  // ---------------------------------------------------------------- decoder and encoder are inverse

  function EscapedLength(c: byte): nat {
    if c == ESCAPE then 2 else 1
  }

  lemma StuffHead(p: seq<byte>)
    requires p != []
    ensures var body, k := Stuff(p), EscapedLength(p[0]);
            && |body| == k + |Stuff(p[1..])| && body[k..] == Stuff(p[1..])
            && 1 <= k && body[0] == p[0] && (p[0] == ESCAPE ==> k == 2 && body[1] == ESCAPE)
  {
  }

  /** What a window holding Stuff(p) shows at its front, and the window that remains behind it. */
  lemma StuffedFront(b: seq<byte>, i: nat, p: seq<byte>)
    requires p != [] && i + |Stuff(p)| <= |b| && b[i..i + |Stuff(p)|] == Stuff(p)
    ensures i + EscapedLength(p[0]) + |Stuff(p[1..])| == i + |Stuff(p)|
    ensures b[i] == p[0] && (p[0] == ESCAPE ==> b[i + 1] == ESCAPE)
    ensures b[i + EscapedLength(p[0])..i + |Stuff(p)|] == Stuff(p[1..])
  {
    hide Stuff, EscapedLength;
    StuffHead(p);
    WindowFront(b, i, Stuff(p), EscapedLength(p[0]));
  }

  lemma WindowFront(b: seq<byte>, i: nat, w: seq<byte>, k: nat)
    requires i + |w| <= |b| && b[i..i + |w|] == w && k <= |w|
    ensures b[i + k..i + |w|] == w[k..]
    ensures |w| >= 1 ==> b[i] == w[0]
    ensures |w| >= 2 ==> b[i + 1] == w[1]
  {
    var window := b[i..i + |w|];
    assert |w| >= 1 ==> window[0] == b[i];
    assert |w| >= 2 ==> window[1] == b[i + 1];
    assert window[k..] == b[i + k..i + |w|];
  }

  lemma NothingToStuff()
    ensures Stuff([]) == []
  {
  }

  lemma StuffedByte(b: seq<byte>, i: nat, p: seq<byte>)
    requires p != [] && i < |b| && b[i] == p[0]
    ensures EscapedLength(p[0]) == if b[i] == ESCAPE then 2 else 1
  {
  }

  lemma {:induction false} ScanStuffed(b: seq<byte>, i: nat, p: seq<byte>)
    requires i + |Stuff(p)| <= |b| && b[i..i + |Stuff(p)|] == Stuff(p)
    ensures ScanPayload(b, i, |p|) == Full(i + |Stuff(p)|, p)
    decreases |p|
  {
    ScanUnfold(b, i, |p|);
    hide ScanPayload, Stuff, EscapedLength;
    if p == [] {
      NothingToStuff();
    } else {
      StuffedFront(b, i, p);
      StuffedByte(b, i, p);
      var j, end := i + EscapedLength(p[0]), i + |Stuff(p)|;
      ScanStuffed(b, j, p[1..]);
      assert ScanPayload(b, j, |p| - 1) == Full(end, p[1..]);
      assert p == [b[i]] + p[1..];
    }
  }

  lemma {:induction false} ScanReadsStuffing(b: seq<byte>, i: nat, want: nat)
    requires i <= |b| && ScanPayload(b, i, want).Full?
    ensures b[i..ScanPayload(b, i, want).end] == Stuff(ScanPayload(b, i, want).payload)
    decreases want
  {
    ScanUnfold(b, i, want);
    hide ScanPayload;
    if want != 0 {
      var j := i + EscapedLength(b[i]);
      var p, tail := ScanPayload(b, i, want).payload, ScanPayload(b, j, want - 1);
      ScanReadsStuffing(b, j, want - 1);
      assert p == [b[i]] + tail.payload && p[1..] == tail.payload;
      assert b[i..tail.end] == b[i..j] + b[j..tail.end];
      assert b[i..j] == if b[i] == ESCAPE then [ESCAPE, ESCAPE] else [b[i]];
    }
  }

  lemma CountsRoundTrip(counts: bv64)
    requires counts < 0x1_0000_0000_0000
    ensures CountsOf(CountBytes(counts)) == counts
  {
  }

  lemma JoinedBytes(a: byte, b: byte, c: byte, d: byte, e: byte, f: byte)
    ensures CountBytes(Join48(a, b, c, d, e, f)) == [a, b, c, d, e, f]
    ensures Join48(a, b, c, d, e, f) < 0x1_0000_0000_0000
  {
  }

  lemma CountBytesRoundTrip(p: seq<byte>)
    requires |p| >= 6
    ensures CountBytes(CountsOf(p)) == p[..6]
    ensures CountsOf(p) < 0x1_0000_0000_0000
  {
    JoinedBytes(p[0], p[1], p[2], p[3], p[4], p[5]);
  }

  lemma PayloadFields(m: Message)
    requires m.Valid()
    ensures CountsOf(Payload(m)) == m.counts && Payload(m)[7..] == m.frame
  {
    CountsRoundTrip(m.counts);
    assert Payload(m)[..6] == CountBytes(m.counts);
  }

  lemma StepReadsMessage(m: Message, rest: seq<byte>)
    requires m.Valid()
    ensures StepAt(Encoded(m) + rest) == Consumed(|Encoded(m)|, Some(m.Received()))
  {
    var b := Encoded(m) + rest;
    assert b[2..|Encoded(m)|] == Stuff(Payload(m));
    ScanStuffed(b, 2, Payload(m));
    PayloadFields(m);
  }

  predicate StartsWithMessage(b: seq<byte>, n: nat, m: Message) {
    m.Valid() && n == |Encoded(m)| && Encoded(m) <= b
  }

  lemma PayloadIsMessage(p: seq<byte>)
    requires |p| == 14 || |p| == 21
    ensures var m := Message(CountsOf(p), p[6], p[7..]);
            Payload(m) == p && m.Valid() && TypeOf(m) == if |p| == 14 then SHORT_TYPE else LONG_TYPE
  {
    CountBytesRoundTrip(p);
    hide CountBytes, CountsOf;
  }

  lemma EmissionIsEncoding(b: seq<byte>, n: nat, r: Reception) returns (m: Message)
    requires b != [] && b[0] == ESCAPE && StepAt(b) == Consumed(n, Some(r))
    ensures m.Received() == r && StartsWithMessage(b, n, m)
  {
    var p := EmittedPayload(b, n, r);
    hide StepAt, ScanPayload, Stuff, CountsOf, Payload, CountBytes;
    ScanReadsStuffing(b, 2, |p|);
    PayloadIsMessage(p);
    m := Message(r.counts, p[6], r.frame);
    assert b[..n] == [ESCAPE, TypeOf(m)] + b[2..n];
  }

  lemma EmittedPayload(b: seq<byte>, n: nat, r: Reception) returns (p: seq<byte>)
    requires b != [] && b[0] == ESCAPE && StepAt(b) == Consumed(n, Some(r))
    ensures |b| >= 2 && ((b[1] == SHORT_TYPE && |p| == 14) || (b[1] == LONG_TYPE && |p| == 21))
    ensures ScanPayload(b, 2, |p|) == Full(n, p) && 2 <= n <= |b| && r == Reception(CountsOf(p), p[7..])
  {
    p := ScanPayload(b, 2, 7 + FrameLength(b[1])).payload;
    hide ScanPayload, CountsOf;
  }

  /** The decoder emits a reception exactly when the buffer starts with one of its encodings. */
  lemma EmitsExactlyEncodings(b: seq<byte>, n: nat, r: Reception)
    requires b != [] && b[0] == ESCAPE
    ensures StepAt(b) == Consumed(n, Some(r)) <==> exists m: Message :: m.Received() == r && StartsWithMessage(b, n, m)
  {
    if StepAt(b) == Consumed(n, Some(r)) {
      var m := EmissionIsEncoding(b, n, r);
    }
    forall m: Message | m.Received() == r && StartsWithMessage(b, n, m)
      ensures StepAt(b) == Consumed(n, Some(r))
    {
      assert b == Encoded(m) + b[n..];
      StepReadsMessage(m, b[n..]);
    }
  }

  lemma {:induction false} CleanStreamRoundTrip(ms: seq<Message>)
    requires AllValid(ms)
    ensures Decode(Stream(ms)) == Decoded(Receptions(ms), [])
    decreases |ms|
  {
    if ms != [] {
      StepReadsMessage(ms[0], Stream(ms[1..]));
      assert Stream(ms)[|Encoded(ms[0])|..] == Stream(ms[1..]);
      CleanStreamRoundTrip(ms[1..]);
    }
  }

  /** A Mode A/C message, nine bytes after its type, goes by without a reception wherever it comes. */
  lemma ModeAcIsSkipped(p: seq<byte>, more: seq<byte>)
    requires |p| == 9
    ensures Decode([ESCAPE, 0x31] + Stuff(p) + more) == Decode(more)
  {
    var b := [ESCAPE, 0x31] + Stuff(p) + more;
    var n := 2 + |Stuff(p)|;
    assert b[2..n] == Stuff(p) && b[n..] == more;
    ScanStuffed(b, 2, p);
    DecodeUnfold(b);
    hide Decode, ScanPayload, Stuff;
    assert [] + Decode(more).out == Decode(more).out;
  }

  /** An escape before anything but a message type is skipped alone: what follows it is read afresh. */
  lemma UnknownTypeIsSkipped(kind: byte, more: seq<byte>)
    requires kind !in {0x31, 0x32, 0x33}
    ensures Decode([ESCAPE, kind] + more) == Decode([kind] + more)
  {
    var b := [ESCAPE, kind] + more;
    assert b[1..] == [kind] + more;
    DecodeUnfold(b);
    hide Decode, ScanPayload;
    assert [] + Decode(b[1..]).out == Decode(b[1..]).out;
  }

  // ---------------------------------------------------------------- self-synchronisation

  /** Length of the run of 0x1a bytes at the end of s. */
  function TailRun(s: seq<byte>): (n: nat)
    ensures n <= |s|
  {
    if s == [] || s[|s| - 1] != ESCAPE then 0 else TailRun(s[..|s| - 1]) + 1
  }

  lemma {:induction false} TailRunConcat(a: seq<byte>, b: seq<byte>)
    ensures TailRun(a + b) == if TailRun(b) == |b| then TailRun(a) + |b| else TailRun(b)
    decreases |b|
  {
    if b == [] {
      assert a + b == a;
    } else if b[|b| - 1] == ESCAPE {
      assert (a + b)[..|a + b| - 1] == a + b[..|b| - 1];
      TailRunConcat(a, b[..|b| - 1]);
    }
  }

  lemma {:induction false} StuffedRunsAreEven(p: seq<byte>)
    ensures TailRun(Stuff(p)) % 2 == 0
    decreases |p|
  {
    if p != [] {
      var head := if p[0] == ESCAPE then [ESCAPE, ESCAPE] else [p[0]];
      StuffedRunsAreEven(p[1..]);
      TailRunConcat(head, Stuff(p[1..]));
      if p[0] == ESCAPE {
        assert head[..1] == [ESCAPE] && head[..1][..0] == [];
      }
    }
  }

  /** Whatever precedes it, an encoded message ends in an even run of escapes. */
  lemma MessageEndsEven(g: seq<byte>, m: Message)
    ensures TailRun(g + Encoded(m)) % 2 == 0
  {
    var body := Stuff(Payload(m));
    StuffedRunsAreEven(Payload(m));
    assert g + Encoded(m) == (g + [ESCAPE, TypeOf(m)]) + body;
    TailRunConcat(g + [ESCAPE, TypeOf(m)], body);
  }

  /** How the final run of s changes when a byte, or an escaped pair, is taken off its front. */
  lemma TailRunFront(s: seq<byte>)
    requires s != []
    ensures s[0] != ESCAPE ==> TailRun(s) == TailRun(s[1..])
    ensures TailRun(s) == if TailRun(s[1..]) == |s| - 1 && s[0] == ESCAPE then |s| else TailRun(s[1..])
    ensures |s| == 1 && s[0] == ESCAPE ==> TailRun(s) == 1
  {
    assert s == s[..1] + s[1..];
    TailRunConcat(s[..1], s[1..]);
    assert s[..1][..0] == [];
  }

  predicate StartsMessage(t: seq<byte>) {
    |t| >= 2 && t[0] == ESCAPE && t[1] != ESCAPE
  }

  /** The scan of x + t from i ended at e, inside x and an even distance before its final run. */
  predicate StopsInside(x: seq<byte>, e: nat) {
    e <= |x| && TailRun(x[e..]) % 2 == 0
  }

  /** Taking a byte, or an escaped pair, off the front keeps the distance to the final run even. */
  lemma InsideAdvances(x: seq<byte>, i: nat)
    requires StopsInside(x, i) && i < |x|
    ensures x[i] != ESCAPE ==> StopsInside(x, i + 1)
    ensures x[i] == ESCAPE ==> i + 1 < |x| && (x[i + 1] == ESCAPE ==> StopsInside(x, i + 2))
  {
    TailRunFront(x[i..]);
    assert x[i..][1..] == x[i + 1..];
    hide TailRun;
    if x[i] == ESCAPE && i + 1 < |x| {
      TailRunFront(x[i + 1..]);
      assert x[i + 1..][1..] == x[i + 2..];
    }
  }

  /** A scan that enters x at an even distance from its final escape run cannot run past its end. */
  lemma {:induction false} ScanStopsBefore(x: seq<byte>, t: seq<byte>, i: nat, want: nat)
    requires StopsInside(x, i) && StartsMessage(t)
    ensures var s := ScanPayload(x + t, i, want);
            (s.Full? && StopsInside(x, s.end)) || (s.Broken? && StopsInside(x, s.at))
    decreases want
  {
    var b := x + t;
    ScanUnfold(b, i, want);
    hide ScanPayload;
    if want == 0 {
    } else if i == |x| {
      assert b[i] == t[0] && b[i + 1] == t[1];
    } else {
      InsideAdvances(x, i);
      assert b[i] == x[i];
      if x[i] != ESCAPE {
        ScanStopsBefore(x, t, i + 1, want - 1);
      } else {
        assert b[i + 1] == x[i + 1];
        if x[i + 1] == ESCAPE {
          ScanStopsBefore(x, t, i + 2, want - 1);
        } else {
          assert i <= |x|;
        }
      }
      hide StopsInside;
    }
  }

  /** Bytes after which the decoder is certain to stop exactly at the next message start. */
  predicate Resynchronises(x: seq<byte>) {
    TailRun(x) % 2 == 0 || TailRun(x) == |x|
  }

  /** One decoder step at the front of x + t stays inside x and keeps it resynchronising. */
  lemma StepStaysInside(x: seq<byte>, t: seq<byte>)
    requires x != [] && x[0] == ESCAPE && Resynchronises(x) && StartsMessage(t)
    ensures StepAt(x + t).Consumed? && StepAt(x + t).n <= |x| && Resynchronises(x[StepAt(x + t).n..])
  {
    var b := x + t;
    TailRunFront(x);
    if FrameLength(b[1]) != 0 {
      assert x[1..][1..] == x[2..];
      TailRunFront(x[1..]);
      ScanStopsBefore(x, t, 2, 7 + FrameLength(b[1]));
    }
  }

  lemma {:induction false} DecodeResynchronises(x: seq<byte>, t: seq<byte>)
    requires Resynchronises(x) && StartsMessage(t)
    ensures EndsWith(Decode(x + t).out, Decode(t).out) && Decode(x + t).rest == Decode(t).rest
    decreases |x|
  {
    DecodeUnfold(x + t);
    hide Decode;
    hide TailRun;
    hide StepAt;
    if x == [] {
      assert x + t == t;
    } else if x[0] != ESCAPE {
      TailRunFront(x);
      assert (x + t)[1..] == x[1..] + t;
      DecodeResynchronises(x[1..], t);
    } else {
      StepStaysInside(x, t);
      var n := StepAt(x + t).n;
      assert (x + t)[n..] == x[n..] + t;
      DecodeResynchronises(x[n..], t);
    }
  }

  lemma TameGarbageLosesNothing(g: seq<byte>, ms: seq<Message>)
    requires ms != [] && AllValid(ms) && Resynchronises(g)
    ensures EndsWith(Decode(g + Stream(ms)).out, Receptions(ms)) && Decode(g + Stream(ms)).rest == []
  {
    assert Stream(ms) == [ESCAPE, TypeOf(ms[0])] + (Stuff(Payload(ms[0])) + Stream(ms[1..]));
    DecodeResynchronises(g, Stream(ms));
    CleanStreamRoundTrip(ms);
  }

  /** After any garbage whatever, every message but the first comes out, and nothing follows them. */
  lemma AtMostFirstLost(g: seq<byte>, first: Message, ms: seq<Message>)
    requires ms != [] && AllValid(ms)
    ensures EndsWith(Decode(g + Stream([first] + ms)).out, Receptions(ms))
    ensures Decode(g + Stream([first] + ms)).rest == []
  {
    MessageEndsEven(g, first);
    assert ([first] + ms)[1..] == ms;
    assert g + Stream([first] + ms) == (g + Encoded(first)) + Stream(ms);
    TameGarbageLosesNothing(g + Encoded(first), ms);
  }

  /** After any garbage, at most the first message is lost; after tame garbage, none is. */
  lemma SelfSynchronisation(g: seq<byte>, ms: seq<Message>)
    requires ms != [] && AllValid(ms)
    ensures EndsWith(Decode(g + Stream(ms)).out, Receptions(ms[1..]))
    ensures |ms| >= 2 ==> Decode(g + Stream(ms)).rest == []
    ensures Resynchronises(g) ==> EndsWith(Decode(g + Stream(ms)).out, Receptions(ms))
  {
    if |ms| >= 2 {
      assert ms == [ms[0]] + ms[1..];
      AtMostFirstLost(g, ms[0], ms[1..]);
    } else {
      assert Receptions(ms[1..]) == [];
    }
    if Resynchronises(g) {
      TameGarbageLosesNothing(g, ms);
    }
  }

  // ---------------------------------------------------------------- where the decoder's steps begin

  /** Decoding b comes to begin a step exactly at position k. */
  predicate Meets(b: seq<byte>, k: nat)
    requires k <= |b|
    decreases |b|
  {
    if k == 0 then true
    else if b[0] != ESCAPE then Meets(b[1..], k - 1)
    else
      match StepAt(b)
      case NeedMore => false
      case Consumed(n, _) => n <= k && Meets(b[n..], k - n)
  }

  lemma MeetsUnfold(b: seq<byte>, k: nat)
    requires k <= |b|
    ensures k == 0 ==> Meets(b, k)
    ensures k > 0 && b[0] != ESCAPE ==> Meets(b, k) == Meets(b[1..], k - 1)
    ensures k > 0 && b[0] == ESCAPE && StepAt(b).NeedMore? ==> !Meets(b, k)
    ensures k > 0 && b[0] == ESCAPE && StepAt(b).Consumed? ==>
              Meets(b, k) == (StepAt(b).n <= k && Meets(b[StepAt(b).n..], k - StepAt(b).n))
  {
  }

  /** Whether the decoder meets the end of g depends on what it keeps of g only. */
  lemma {:induction false} MeetsAfterLeftover(g: seq<byte>, t: seq<byte>)
    ensures Meets(g + t, |g|) <==> Meets(Decode(g).rest + t, |Decode(g).rest|)
    decreases |g|
  {
    hide Decode, StepAt, Meets;
    DecodeUnfold(g);
    MeetsUnfold(g + t, |g|);
    if g == [] {
      assert Decode(g).rest == g;
    } else if g[0] != ESCAPE {
      assert (g + t)[1..] == g[1..] + t;
      MeetsAfterLeftover(g[1..], t);
    } else if StepAt(g).NeedMore? {
      assert Decode(g).rest == g;
    } else {
      var n := StepAt(g).n;
      StepMonotone(g, t);
      assert (g + t)[n..] == g[n..] + t;
      MeetsAfterLeftover(g[n..], t);
    }
  }

  lemma {:induction false} TameBytesAreMet(x: seq<byte>, t: seq<byte>)
    requires Resynchronises(x) && StartsMessage(t)
    ensures Meets(x + t, |x|)
    decreases |x|
  {
    hide Meets, TailRun, StepAt;
    MeetsUnfold(x + t, |x|);
    if x == [] {
    } else if x[0] != ESCAPE {
      TailRunFront(x);
      assert (x + t)[1..] == x[1..] + t;
      TameBytesAreMet(x[1..], t);
    } else {
      StepStaysInside(x, t);
      var n := StepAt(x + t).n;
      assert (x + t)[n..] == x[n..] + t;
      TameBytesAreMet(x[n..], t);
    }
  }

  /** Taking a byte, or an escaped pair, off the front keeps an odd final run odd. */
  lemma OddAdvances(x: seq<byte>, i: nat)
    requires i <= |x| && TailRun(x[i..]) % 2 == 1
    ensures i < |x|
    ensures x[i] != ESCAPE ==> TailRun(x[i + 1..]) % 2 == 1
    ensures x[i] == ESCAPE && i + 1 < |x| && x[i + 1] == ESCAPE ==> TailRun(x[i + 2..]) % 2 == 1
  {
    TailRunFront(x[i..]);
    assert x[i..][1..] == x[i + 1..];
    hide TailRun;
    if x[i] == ESCAPE && i + 1 < |x| {
      TailRunFront(x[i + 1..]);
      assert x[i + 1..][1..] == x[i + 2..];
    }
  }

  /** An unfinished scan whose bytes end in an odd run takes the next message's escape for the second of a pair. */
  lemma StartsWithEscape(t: seq<byte>)
    requires StartsMessage(t)
    ensures t != [] && t[0] == ESCAPE
  {
  }

  lemma {:induction false} ScanRunsPast(x: seq<byte>, t: seq<byte>, i: nat, want: nat)
    requires i <= |x| && TailRun(x[i..]) % 2 == 1 && ScanPayload(x, i, want).Short? && StartsMessage(t)
    ensures var s := ScanPayload(x + t, i, want);
            (s.Full? ==> s.end > |x|) && (s.Broken? ==> s.at > |x|)
    decreases want
  {
    var b := x + t;
    ScanUnfold(x, i, want);
    ScanUnfold(b, i, want);
    OddAdvances(x, i);
    StartsWithEscape(t);
    hide ScanPayload, TailRun, StartsMessage;
    assert b[i] == x[i];
    if x[i] != ESCAPE {
      ScanRunsPast(x, t, i + 1, want - 1);
    } else if i + 1 == |x| {
      assert b[i + 1] == ESCAPE;
    } else {
      assert b[i + 1] == x[i + 1];
      ScanRunsPast(x, t, i + 2, want - 1);
    }
  }

  lemma UnfinishedIsNotMet(x: seq<byte>, t: seq<byte>)
    requires x != [] && x[0] == ESCAPE && StepAt(x).NeedMore? && !Resynchronises(x) && StartsMessage(t)
    ensures !Meets(x + t, |x|)
  {
    var b := x + t;
    TailRunFront(x);
    assert |x| >= 2;
    assert b[1] == x[1];
    TailRunFront(x[1..]);
    assert x[1..][1..] == x[2..];
    ScanRunsPast(x, t, 2, 7 + FrameLength(b[1]));
    MeetsUnfold(b, |x|);
    hide Meets, TailRun, ScanPayload;
  }

  /**
   * The decoder begins a step exactly at the start of the next message if and only if what it keeps of the garbage ends
   * in an even run of escapes, or is nothing but escapes.
   */
  lemma MessageStartIsMetIff(g: seq<byte>, t: seq<byte>)
    requires StartsMessage(t)
    ensures Meets(g + t, |g|) <==> Resynchronises(Decode(g).rest)
  {
    var x := Decode(g).rest;
    LeftoverIsStable(g);
    MeetsAfterLeftover(g, t);
    hide Decode, Meets, StepAt, TailRun;
    if Resynchronises(x) {
      TameBytesAreMet(x, t);
    } else {
      assert x != [] by {
        EmptyIsTame();
      }
      UnfinishedIsNotMet(x, t);
    }
  }

  lemma EmptyIsTame()
    ensures Resynchronises([])
  {
  }

  /** Judged by the decoder's own buffer: when it keeps nothing, or something tame, no message is lost. */
  lemma BufferDecidesLoss(g: seq<byte>, ms: seq<Message>)
    requires ms != [] && AllValid(ms) && Resynchronises(Decode(g).rest)
    ensures EndsWith(Decode(g + Stream(ms)).out, Receptions(ms)) && Decode(g + Stream(ms)).rest == []
    ensures Decode(g).rest == [] ==> Decode(g + Stream(ms)).out == Decode(g).out + Receptions(ms)
  {
    var x := Decode(g).rest;
    DecodeInTwo(g, Stream(ms));
    TameGarbageLosesNothing(x, ms);
    if x == [] {
      assert x + Stream(ms) == Stream(ms);
      CleanStreamRoundTrip(ms);
    }
    EndsWithAfter(Decode(g).out, Decode(x + Stream(ms)).out, Receptions(ms));
  }

  lemma EndsWithAfter(before: seq<Reception>, out: seq<Reception>, suffix: seq<Reception>)
    requires EndsWith(out, suffix)
    ensures EndsWith(before + out, suffix)
  {
    assert (before + out)[|before| + |out| - |suffix|..] == out[|out| - |suffix|..];
  }

  /** The first message really can be lost: an unfinished long frame swallows a following short one whole. */
  lemma FirstMessageCanBeLost(m: Message, next: Message)
    requires m.Valid() && next.Valid() && |m.frame| == 7 && ESCAPE !in Payload(m)
    ensures Decode([ESCAPE, LONG_TYPE, ESCAPE] + Stream([m, next])) == Decoded([next.Received()], [])
  {
    var swallowed := [ESCAPE, SHORT_TYPE] + Payload(m);
    var x := [ESCAPE, LONG_TYPE] + Stuff(swallowed);
    var t := Stream([next]);
    assert x == [ESCAPE, LONG_TYPE, ESCAPE] + Encoded(m) by {
      assert swallowed[1..] == [SHORT_TYPE] + Payload(m) && swallowed[1..][1..] == Payload(m);
    }
    assert [m, next][1..] == [next];
    assert [ESCAPE, LONG_TYPE, ESCAPE] + Stream([m, next]) == x + t;
    SwallowedStep(swallowed, t);
    assert (x + t)[|x|..] == t;
    CleanStreamRoundTrip([next]);
    assert Receptions([next]) == [next.Received()];
  }

  lemma SwallowedStep(p: seq<byte>, t: seq<byte>)
    requires |p| < 21 && StartsMessage(t)
    ensures var x := [ESCAPE, LONG_TYPE] + Stuff(p);
            StepAt(x + t) == Consumed(|x|, None)
  {
    var b := [ESCAPE, LONG_TYPE] + Stuff(p) + t;
    assert b[2..2 + |Stuff(p)|] == Stuff(p) && b[2 + |Stuff(p)|..] == t;
    ScanThenBreak(b, 2, p, 21);
  }

  /** A scan that wants more than the stuffed bytes p breaks at the message start that follows them. */
  lemma {:induction false} ScanThenBreak(b: seq<byte>, i: nat, p: seq<byte>, want: nat)
    requires |p| < want && i + |Stuff(p)| <= |b| && b[i..i + |Stuff(p)|] == Stuff(p)
    requires StartsMessage(b[i + |Stuff(p)|..])
    ensures ScanPayload(b, i, want) == Broken(i + |Stuff(p)|)
    decreases |p|
  {
    ScanUnfold(b, i, want);
    hide ScanPayload;
    if p == [] {
      assert b[i..][0] == b[i] && b[i..][1] == b[i + 1];
    } else {
      StuffedFront(b, i, p);
      hide Stuff;
      ScanThenBreak(b, i + EscapedLength(p[0]), p[1..], want - 1);
    }
  }

  /** The same guarantee for the running decoder, for every way the stream is cut into reads. */
  lemma ChunkedSelfSynchronisation(chunks: seq<seq<byte>>, g: seq<byte>, ms: seq<Message>)
    requires AllValid(ms)
    requires ms != [] && Flatten(chunks) == g + Stream(ms)
    ensures EndsWith(DecodeChunks([], chunks).out, Receptions(ms[1..]))
    ensures Resynchronises(g) ==> EndsWith(DecodeChunks([], chunks).out, Receptions(ms))
  {
    ChunkInvariance([], chunks);
    assert [] + Flatten(chunks) == g + Stream(ms);
    SelfSynchronisation(g, ms);
  }
}
