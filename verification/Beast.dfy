/** The streaming Mode-S Beast decoder (crates/mlatc/src/beast.rs). */
module Beast {
  import opened Common

  const ESCAPE: byte := 0x1a
  const SHORT_TYPE: byte := 0x32
  const LONG_TYPE: byte := 0x33

  datatype Reception = Reception(counts: bv64, frame: seq<byte>)

  datatype Step = Consumed(n: nat, reception: Option<Reception>) | NeedMore

  // ---------------------------------------------------------------- specification

  /** Outcome of reading unescaped payload bytes: all of them, an unescaped 0x1a, or too few bytes. */
  datatype Scan = Full(end: nat, payload: seq<byte>) | Broken(at: nat) | Short {
    function Prepend(prefix: seq<byte>): Scan {
      if Full? then Full(end, prefix + payload) else this
    }
  }

  function ScanPayload(b: seq<byte>, i: nat, want: nat): (s: Scan)
    requires i <= |b|
    ensures s.Full? ==> i + want <= s.end <= |b| && |s.payload| == want
    ensures s.Broken? ==> i <= s.at < |b| - 1 && b[s.at] == ESCAPE && b[s.at + 1] != ESCAPE
    decreases want
  {
    if want == 0 then Full(i, [])
    else if i == |b| then Short
    else if b[i] != ESCAPE then ScanPayload(b, i + 1, want - 1).Prepend([b[i]])
    else if i + 1 == |b| then Short
    else if b[i + 1] == ESCAPE then ScanPayload(b, i + 2, want - 1).Prepend([ESCAPE])
    else Broken(i)
  }

  lemma ScanUnfold(b: seq<byte>, i: nat, want: nat)
    requires i <= |b|
    ensures want == 0 ==> ScanPayload(b, i, want) == Full(i, [])
    ensures want > 0 && i == |b| ==> ScanPayload(b, i, want) == Short
    ensures want > 0 && i < |b| && b[i] != ESCAPE ==>
              ScanPayload(b, i, want) == ScanPayload(b, i + 1, want - 1).Prepend([b[i]])
    ensures want > 0 && i < |b| && b[i] == ESCAPE ==>
              ScanPayload(b, i, want) ==
              if i + 1 == |b| then Short
              else if b[i + 1] == ESCAPE then ScanPayload(b, i + 2, want - 1).Prepend([ESCAPE])
              else Broken(i)
  {
  }

  /** Frame bytes announced by a type byte; 0 stands for "not a message type". */
  function FrameLength(kind: byte): nat {
    if kind == 0x31 then 2 else if kind == SHORT_TYPE then 7 else if kind == LONG_TYPE then 14 else 0
  }

  /** A 48-bit big-endian number. */
  function Join48(a: byte, b: byte, c: byte, d: byte, e: byte, f: byte): bv64 {
    ((a as bv64) << 40) | ((b as bv64) << 32) | ((c as bv64) << 24)
    | ((d as bv64) << 16) | ((e as bv64) << 8) | (f as bv64)
  }

  function CountsOf(p: seq<byte>): bv64
    requires |p| >= 6
  {
    Join48(p[0], p[1], p[2], p[3], p[4], p[5])
  }

  function StepAt(b: seq<byte>): (s: Step)
    ensures s.Consumed? ==> 1 <= s.n <= |b|
  {
    if |b| < 2 then NeedMore
    else
      var frameLength := FrameLength(b[1]);
      if frameLength == 0 then Consumed(1, None)
      else
        match ScanPayload(b, 2, 7 + frameLength)
        case Short => NeedMore
        case Broken(at) => Consumed(at, None)
        case Full(end, payload) =>
          Consumed(end, if frameLength == 2 then None else Some(Reception(CountsOf(payload), payload[7..])))
  }

  datatype Decoded = Decoded(out: seq<Reception>, rest: seq<byte>) {
    function After(earlier: seq<Reception>): Decoded {
      Decoded(earlier + out, rest)
    }
  }

  /** One pass over a whole byte string: what it emits and what it leaves in the buffer. */
  function Decode(b: seq<byte>): Decoded
    decreases |b|
  {
    if b == [] then Decoded([], [])
    else if b[0] != ESCAPE then Decode(b[1..])
    else
      match StepAt(b)
      case NeedMore => Decoded([], b)
      case Consumed(n, r) => Decode(b[n..]).After(Elements(r))
  }

  lemma DecodeUnfold(b: seq<byte>)
    ensures b == [] ==> Decode(b) == Decoded([], [])
    ensures b != [] && b[0] != ESCAPE ==> Decode(b) == Decode(b[1..])
    ensures b != [] && b[0] == ESCAPE && StepAt(b).NeedMore? ==> Decode(b) == Decoded([], b)
    ensures b != [] && b[0] == ESCAPE && StepAt(b).Consumed? ==>
              Decode(b) == Decode(b[StepAt(b).n..]).After(Elements(StepAt(b).reception))
  {
  }

  /** The decoder's state machine over any sequence of reads. */
  function DecodeChunks(buf: seq<byte>, chunks: seq<seq<byte>>): Decoded
    decreases |chunks|
  {
    if chunks == [] then Decoded([], buf)
    else
      var first := Decode(buf + chunks[0]);
      DecodeChunks(first.rest, chunks[1..]).After(first.out)
  }

  // ---------------------------------------------------------------- the decoder

  class BeastDecoder {
    var buf: seq<byte>

    constructor ()
      ensures buf == []
    {
      buf := [];
    }

    method Feed(bytes: seq<byte>) returns (out: seq<Reception>)
      modifies this
      ensures Decoded(out, buf) == Decode(old(buf) + bytes)
    {
      buf := buf + bytes;
      out := [];
      var pos := 0;
      ghost var all := buf;
      FeedStart(all);
      hide Decode, StepAt, Pending;
      while pos < |buf|
        invariant 0 <= pos <= |buf| && buf == all
        invariant Decode(all) == Pending(all, pos, out)
      {
        FeedProgress(all, pos, out);
        if buf[pos] != 0x1a {
          pos := pos + 1;
          continue;
        }
        var step := ParseAt(buf[pos..]);
        match step {
          case Consumed(n, r) =>
            match r {
              case Some(reception) => out := out + [reception];
              case None =>
            }
            pos := pos + n;
          case NeedMore => break;
        }
      }
      FeedEnd(all, out);
      buf := buf[pos..];
    }

    static method ParseAt(b: seq<byte>) returns (step: Step)
      ensures step == StepAt(b)
    {
      if |b| < 2 {
        return NeedMore;
      }
      var frameLength;
      match b[1] {
        case 0x31 => frameLength := 2;
        case 0x32 => frameLength := 7;
        case 0x33 => frameLength := 14;
        case _ => return Consumed(1, None);
      }
      var want := 6 + 1 + frameLength;
      var payload: seq<byte> := [];
      var i := 2;
      ScanStart(b, want);
      hide ScanPayload;
      while |payload| < want
        invariant 2 <= i <= |b| && |payload| <= want
        invariant ScanPayload(b, 2, want) == Resume(b, i, payload, want)
        decreases want - |payload|
      {
        ScanProgress(b, i, payload, want);
        hide Resume;
        if i >= |b| {
          return NeedMore;
        }
        var c := b[i];
        if c == 0x1a {
          if i + 1 >= |b| {
            return NeedMore;
          }
          if b[i + 1] == 0x1a {
            payload := payload + [0x1a];
            i := i + 2;
            continue;
          }
          return Consumed(i, None);
        }
        payload := payload + [c];
        i := i + 1;
      }
      ScanEnd(b, i, payload, want);
      hide Resume;
      if frameLength == 2 {
        return Consumed(i, None);
      }
      return Consumed(i, Some(Reception(CountsOf(payload), payload[7..])));
    }
  }

  /** The outcome of a scan that has read `payload` and stands at i. */
  function Resume(b: seq<byte>, i: nat, payload: seq<byte>, want: nat): Scan
    requires i <= |b| && |payload| <= want
  {
    ScanPayload(b, i, want - |payload|).Prepend(payload)
  }

  lemma ScanStart(b: seq<byte>, want: nat)
    requires |b| >= 2
    ensures ScanPayload(b, 2, want) == Resume(b, 2, [], want)
  {
    var s := ScanPayload(b, 2, want);
    assert s.Full? ==> [] + s.payload == s.payload;
  }

  lemma ScanEnd(b: seq<byte>, i: nat, payload: seq<byte>, want: nat)
    requires i <= |b| && |payload| == want
    ensures Resume(b, i, payload, want) == Full(i, payload)
  {
    assert payload + [] == payload;
  }

  /** One turn of the payload loop. */
  lemma ScanProgress(b: seq<byte>, i: nat, payload: seq<byte>, want: nat)
    requires i <= |b| && |payload| < want
    ensures i == |b| ==> Resume(b, i, payload, want) == Short
    ensures i < |b| && b[i] != ESCAPE ==>
              Resume(b, i, payload, want) == Resume(b, i + 1, payload + [b[i]], want)
    ensures i < |b| && b[i] == ESCAPE ==>
              Resume(b, i, payload, want) ==
              if i + 1 == |b| then Short
              else if b[i + 1] == ESCAPE then Resume(b, i + 2, payload + [ESCAPE], want)
              else Broken(i)
  {
    ScanUnfold(b, i, want - |payload|);
    hide ScanPayload;
    if i < |b| {
      if b[i] != ESCAPE {
        PrependTwice(payload, [b[i]], ScanPayload(b, i + 1, want - |payload| - 1));
      } else if i + 1 < |b| && b[i + 1] == ESCAPE {
        PrependTwice(payload, [ESCAPE], ScanPayload(b, i + 2, want - |payload| - 1));
      }
    }
  }

  /** What a feed loop that stands at pos will have emitted and left over. */
  function Pending(b: seq<byte>, pos: nat, out: seq<Reception>): Decoded
    requires pos <= |b|
  {
    Decode(b[pos..]).After(out)
  }

  lemma FeedStart(b: seq<byte>)
    ensures Decode(b) == Pending(b, 0, [])
  {
    assert b[0..] == b;
  }

  /** One turn of the feed loop, as a step of Decode on the unread bytes. */
  lemma FeedProgress(b: seq<byte>, pos: nat, out: seq<Reception>)
    requires pos < |b|
    ensures b[pos] != ESCAPE ==> Pending(b, pos, out) == Pending(b, pos + 1, out)
    ensures b[pos] == ESCAPE && StepAt(b[pos..]).Consumed? ==>
              var n, r := StepAt(b[pos..]).n, StepAt(b[pos..]).reception;
              Pending(b, pos, out) == Pending(b, pos + n, if r.Some? then out + [r.value] else out)
    ensures b[pos] == ESCAPE && StepAt(b[pos..]).NeedMore? ==> Pending(b, pos, out) == Decoded(out, b[pos..])
  {
    var rest := b[pos..];
    assert rest[1..] == b[pos + 1..];
    assert out + [] == out;
    if b[pos] == ESCAPE && StepAt(rest).Consumed? {
      var n := StepAt(rest).n;
      assert rest[n..] == b[pos + n..];
      AfterTwice(out, Elements(StepAt(rest).reception), Decode(rest[n..]));
    }
  }

  lemma FeedEnd(b: seq<byte>, out: seq<Reception>)
    ensures Pending(b, |b|, out) == Decoded(out, b[|b|..])
  {
    assert out + [] == out;
  }

  lemma AfterTwice(a: seq<Reception>, b: seq<Reception>, d: Decoded)
    ensures d.After(b).After(a) == d.After(a + b)
  {
    assert a + (b + d.out) == a + b + d.out;
  }

  lemma PrependTwice(p: seq<byte>, q: seq<byte>, s: Scan)
    ensures s.Prepend(q).Prepend(p) == s.Prepend(p + q)
  {
    if s.Full? {
      assert p + (q + s.payload) == p + q + s.payload;
    }
  }
}
