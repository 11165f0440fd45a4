/**
 The message framing of TcpClient, on values: payloads end with CR LF, and each read dispatches at most one
 complete frame. Client proves the read loop against ReadStep; the lemmas here follow the frames.
 */
module Framing {
  import opened Bytes

  const CR: byte := 13
  const LF: byte := 10
  const CRLF: seq<byte> := [CR, LF]

  // ----- Finding the delimiter -----

  predicate DelimiterAt(s: seq<byte>, i: int) {
    0 <= i < |s| - 1 && s[i] == CR && s[i + 1] == LF
  }

  /** No delimiter anywhere in s. */
  predicate Free(s: seq<byte>) {
    forall i :: 0 <= i < |s| ==> !DelimiterAt(s, i)
  }

  /** msg.find("\r\n"), or -1 for npos. */
  function Find(s: seq<byte>): (pos: int)
    ensures pos == -1 || 0 <= pos <= |s| - 2
  {
    if s == [] then -1
    else if DelimiterAt(s, 0) then 0
    else
      var rest := Find(s[1..]);
      if rest == -1 then -1 else rest + 1
  }

  /** It is the first occurrence, if there is one. */
  lemma {:induction false} FindIsFirst(s: seq<byte>)
    ensures Find(s) == -1 <==> Free(s)
    ensures Find(s) != -1 ==> DelimiterAt(s, Find(s)) && forall i :: 0 <= i < Find(s) ==> !DelimiterAt(s, i)
  {
    if s != [] && !DelimiterAt(s, 0) {
      FindIsFirst(s[1..]);
      assert forall i :: 0 < i < |s| ==> (DelimiterAt(s, i) <==> DelimiterAt(s[1..], i - 1));
      assert Find(s) != -1 ==> DelimiterAt(s, Find(s));
    }
  }

  lemma {:induction false} FindIs(s: seq<byte>, pos: int)
    requires DelimiterAt(s, pos) && forall i :: 0 <= i < pos ==> !DelimiterAt(s, i)
    ensures Find(s) == pos
  {
    FindIsFirst(s);
  }

  /** What arrives later never changes the first delimiter, even when CR and LF arrive in different reads. */
  lemma {:induction false} FindIsStable(s: seq<byte>, more: seq<byte>)
    requires Find(s) != -1
    ensures Find(s + more) == Find(s)
    ensures (s + more)[..Find(s)] == s[..Find(s)]
    ensures (s + more)[Find(s) + 2..] == s[Find(s) + 2..] + more
  {
    var p := Find(s);
    FindIsFirst(s);
    assert DelimiterAt(s + more, p);
    assert forall i :: 0 <= i < p ==> (DelimiterAt(s + more, i) <==> DelimiterAt(s, i));
    FindIs(s + more, p);
  }

  // ----- One-shot splitting and encoding -----

  /** All complete frames of a byte stream. */
  function Frames(s: seq<byte>): seq<seq<byte>>
    decreases |s|
  {
    var p := Find(s);
    if p == -1 then [] else [s[..p]] + Frames(s[p + 2..])
  }

  /** No frame contains the delimiter. */
  lemma {:induction false} FramesAreFree(s: seq<byte>)
    ensures forall f :: f in Frames(s) ==> Free(f)
    decreases |s|
  {
    var p := Find(s);
    if p != -1 {
      FindIsFirst(s);
      assert forall i :: 0 <= i < p ==> (DelimiterAt(s[..p], i) ==> DelimiterAt(s, i));
      FramesAreFree(s[p + 2..]);
    }
  }

  lemma {:induction false} FramesUnfold(s: seq<byte>)
    ensures Find(s) == -1 ==> Frames(s) == []
    ensures Find(s) != -1 ==> Frames(s) == [s[..Find(s)]] + Frames(s[Find(s) + 2..]) && Frames(s) != []
  {}

  /** A delimiter-free prefix, its delimiter, the rest. */
  lemma {:induction false} SplitAtDelimiter(s: seq<byte>)
    requires Find(s) != -1
    ensures s == Encode(s[..Find(s)]) + s[Find(s) + 2..]
  {
    FindIsFirst(s);
  }

  /** j.dump() + "\r\n" */
  function Encode(payload: seq<byte>): seq<byte> { payload + CRLF }

  function EncodeAll(payloads: seq<seq<byte>>): seq<byte> {
    if payloads == [] then [] else Encode(payloads[0]) + EncodeAll(payloads[1..])
  }

  lemma {:induction false} EncodeAllAppend(a: seq<seq<byte>>, p: seq<byte>)
    ensures EncodeAll(a + [p]) == EncodeAll(a) + Encode(p)
  {
    if a == [] {
      assert a + [p] == [p] && [p][1..] == [];
    } else {
      EncodeAllAppend(a[1..], p);
      assert (a + [p])[1..] == a[1..] + [p];
      Assoc(Encode(a[0]), EncodeAll(a[1..]), Encode(p));
    }
  }

  /** CR LF has no border, so a delimiter-free payload stays delimiter-free up to its own delimiter. */
  lemma {:induction false} FindEncoded(p: seq<byte>, rest: seq<byte>)
    requires Free(p)
    ensures Find(Encode(p) + rest) == |p|
    ensures (Encode(p) + rest)[..|p|] == p && (Encode(p) + rest)[|p| + 2..] == rest
  {
    var s := Encode(p) + rest;
    assert DelimiterAt(s, |p|);
    assert forall i :: 0 <= i < |p| ==> (DelimiterAt(s, i) ==> DelimiterAt(p, i));
    FindIs(s, |p|);
  }

  /** Splitting inverts encoding exactly on delimiter-free payloads. */
  lemma {:induction false} SplitInvertsEncode(payloads: seq<seq<byte>>)
    ensures Frames(EncodeAll(payloads)) == payloads <==> forall p :: p in payloads ==> Free(p)
  {
    FramesAreFree(EncodeAll(payloads));
    if forall p :: p in payloads ==> Free(p) {
      SplitOfEncoded(payloads);
    }
  }

  lemma {:induction false} SplitOfEncoded(payloads: seq<seq<byte>>)
    requires forall p :: p in payloads ==> Free(p)
    ensures Frames(EncodeAll(payloads)) == payloads
  {
    if payloads != [] {
      FindEncoded(payloads[0], EncodeAll(payloads[1..]));
      SplitOfEncoded(payloads[1..]);
    }
  }

  // ----- The read loop -----

  /** msg, and every frame handed to the parser so far. */
  datatype Reader = Reader(msg: seq<byte>, frames: seq<seq<byte>>)

  /** One iteration of start_reading: append the chunk, dispatch at most one frame, erase it. */
  function ReadStep(r: Reader, chunk: seq<byte>): Reader {
    var msg := r.msg + chunk;
    var pos := Find(msg);
    if pos == -1 then Reader(msg, r.frames) else Reader(msg[pos + 2..], r.frames + [msg[..pos]])
  }

  /** The reader after a sequence of reads. */
  function Feed(chunks: seq<seq<byte>>): Reader {
    if chunks == [] then Reader([], [])
    else ReadStep(Feed(chunks[..|chunks| - 1]), chunks[|chunks| - 1])
  }

  /** A read moves complete frames from the pending bytes to the dispatched list, whatever comes later. */
  lemma {:induction false} StepKeepsSplit(r: Reader, chunk: seq<byte>)
    ensures var next := ReadStep(r, chunk);
            && next.frames + Frames(next.msg) == r.frames + Frames(r.msg + chunk)
            && (Frames(r.msg + chunk) == [] ==> next.frames == r.frames)
            && (Frames(r.msg + chunk) != [] ==> |next.frames| == |r.frames| + 1)
  {
    var msg, next := r.msg + chunk, ReadStep(r, chunk);
    FramesUnfold(msg);
    if Find(msg) != -1 {
      Assoc(r.frames, [msg[..Find(msg)]], Frames(next.msg));
    }
  }

  /** Splitting a stream can stop anywhere and resume on what is left. */
  lemma {:induction false} SplitResumes(s: seq<byte>, more: seq<byte>) returns (rest: seq<byte>)
    ensures s == EncodeAll(Frames(s)) + rest && Free(rest)
    ensures Frames(s + more) == Frames(s) + Frames(rest + more)
    decreases |s|
  {
    FramesUnfold(s);
    if Find(s) == -1 {
      FindIsFirst(s);
      rest := s;
      assert [] + Frames(rest + more) == Frames(rest + more);
      assert [] + rest == s;
    } else {
      var head, tail := s[..Find(s)], s[Find(s) + 2..];
      rest := SplitResumes(tail, more);
      FirstFrameIsStable(s, more);
      SplitAtDelimiter(s);
      Assoc([head], Frames(tail), Frames(rest + more));
      EncodeAllCons(head, Frames(tail));
      Assoc(Encode(head), EncodeAll(Frames(tail)), rest);
    }
  }

  lemma {:induction false} EncodeAllCons(p: seq<byte>, rest: seq<seq<byte>>)
    ensures EncodeAll([p] + rest) == Encode(p) + EncodeAll(rest)
  {
    assert ([p] + rest)[1..] == rest;
  }

  /** The same for the reader: bytes still pending plus bytes to come split into the frames to come. */
  lemma {:induction false} FeedSplits(chunks: seq<seq<byte>>, more: seq<byte>)
    ensures Feed(chunks).frames + Frames(Feed(chunks).msg + more) == Frames(Flatten(chunks) + more)
    decreases |chunks|
  {
    if chunks == [] {
      assert [] + more == more;
    } else {
      var n := |chunks| - 1;
      var r, chunk := Feed(chunks[..n]), chunks[n];
      FeedSplits(chunks[..n], chunk + more);
      FlattenLast(chunks);
      Assoc(Flatten(chunks[..n]), chunk, more);
      Assoc(r.msg, chunk, more);
      StepSplits(r, chunk, more);
    }
  }

  lemma {:induction false} StepSplits(r: Reader, chunk: seq<byte>, more: seq<byte>)
    ensures var next := ReadStep(r, chunk);
            next.frames + Frames(next.msg + more) == r.frames + Frames((r.msg + chunk) + more)
  {
    var msg, next := r.msg + chunk, ReadStep(r, chunk);
    if Find(msg) != -1 {
      FirstFrameIsStable(msg, more);
      Assoc(r.frames, [msg[..Find(msg)]], Frames(next.msg + more));
    }
  }

  lemma {:induction false} FirstFrameIsStable(s: seq<byte>, more: seq<byte>)
    requires Find(s) != -1
    ensures Frames(s + more) == [s[..Find(s)]] + Frames(s[Find(s) + 2..] + more)
  {
    FindIsStable(s, more);
    FramesUnfold(s + more);
  }

  lemma {:induction false} FlattenLast<T>(chunks: seq<seq<T>>)
    requires chunks != []
    ensures Flatten(chunks) == Flatten(chunks[..|chunks| - 1]) + chunks[|chunks| - 1]
  {
    var n := |chunks| - 1;
    FlattenAppend(chunks[..n], chunks[n..]);
    assert chunks == chunks[..n] + chunks[n..];
    assert chunks[n..] == [chunks[n]] && [chunks[n]][1..] == [];
  }

  // ----- Framing theorems over any reads -----

  /** No byte is lost, invented or reordered. */
  lemma {:induction false} FeedConservesBytes(chunks: seq<seq<byte>>)
    ensures EncodeAll(Feed(chunks).frames) + Feed(chunks).msg == Flatten(chunks)
    decreases |chunks|
  {
    if chunks != [] {
      var n := |chunks| - 1;
      var r := Feed(chunks[..n]);
      FeedConservesBytes(chunks[..n]);
      FlattenLast(chunks);
      Assoc(EncodeAll(r.frames), r.msg, chunks[n]);
      StepConservesBytes(r, chunks[n]);
    }
  }

  lemma {:induction false} StepConservesBytes(r: Reader, chunk: seq<byte>)
    ensures var next := ReadStep(r, chunk);
            EncodeAll(next.frames) + next.msg == EncodeAll(r.frames) + (r.msg + chunk)
  {
    var msg, next := r.msg + chunk, ReadStep(r, chunk);
    if Find(msg) != -1 {
      var frame := msg[..Find(msg)];
      EncodeAllAppend(r.frames, frame);
      SplitAtDelimiter(msg);
      Assoc(EncodeAll(r.frames), Encode(frame), next.msg);
    }
  }

  /** Dispatched frames, then the complete frames still pending, are the one-shot split of the stream. */
  lemma {:induction false} FeedIsPrefixOfSplit(chunks: seq<seq<byte>>)
    ensures Feed(chunks).frames + Frames(Feed(chunks).msg) == Frames(Flatten(chunks))
    ensures Feed(chunks).frames <= Frames(Flatten(chunks))
    ensures forall f :: f in Feed(chunks).frames ==> Free(f)
  {
    FeedSplits(chunks, []);
    FramesAreFree(Flatten(chunks));
    assert Feed(chunks).msg + [] == Feed(chunks).msg;
    assert Flatten(chunks) + [] == Flatten(chunks);
  }

  /** Two chunkings of one stream dispatch the same frames in the same order, one perhaps further than the other. */
  lemma {:induction false} ChunkingsAgree(a: seq<seq<byte>>, b: seq<seq<byte>>)
    requires Flatten(a) == Flatten(b)
    ensures Feed(a).frames <= Feed(b).frames || Feed(b).frames <= Feed(a).frames
  {
    FeedIsPrefixOfSplit(a);
    FeedIsPrefixOfSplit(b);
  }

  /** Payloads sent by the encoders come out as they went in, whatever the chunking. */
  lemma {:induction false} RoundTrip(payloads: seq<seq<byte>>, chunks: seq<seq<byte>>)
    requires forall p :: p in payloads ==> Free(p)
    requires Flatten(chunks) == EncodeAll(payloads)
    ensures Feed(chunks).frames + Frames(Feed(chunks).msg) == payloads
  {
    SplitOfEncoded(payloads);
    FeedIsPrefixOfSplit(chunks);
  }

  // ----- How far dispatching lags behind -----

  /** Complete frames received in the first k reads. */
  function Arrived(chunks: seq<seq<byte>>, k: nat): nat
    requires k <= |chunks|
  {
    |Frames(Flatten(chunks[..k]))|
  }

  /** Frames dispatched in the first k reads. */
  function Dispatched(chunks: seq<seq<byte>>, k: nat): nat
    requires k <= |chunks|
  {
    |Feed(chunks[..k]).frames|
  }

  /** Each read dispatches one frame if it can: d(k) = min(d(k-1) + 1, c(k)). */
  lemma {:induction false} BacklogLaw(chunks: seq<seq<byte>>, k: nat)
    requires 0 < k <= |chunks|
    ensures Dispatched(chunks, 0) == Arrived(chunks, 0) == 0
    ensures Dispatched(chunks, k) == Min(Dispatched(chunks, k - 1) + 1, Arrived(chunks, k))
    ensures Arrived(chunks, k - 1) <= Arrived(chunks, k)
  {
    var before, now := chunks[..k - 1], chunks[..k];
    assert now[..k - 1] == before && now[k - 1] == chunks[k - 1];
    StepKeepsSplit(Feed(before), chunks[k - 1]);
    FeedSplits(before, chunks[k - 1]);
    FeedIsPrefixOfSplit(before);
    FeedIsPrefixOfSplit(now);
    FlattenLast(now);
    var rest := SplitResumes(Flatten(before), chunks[k - 1]);
  }

  /** A server that serves at most one of the c[k] customers that have come by time k. */
  ghost predicate ServesOneAtATime(c: seq<nat>, d: seq<nat>) {
    && |c| == |d| > 0
    && d[0] == c[0]
    && forall k :: 0 < k < |c| ==> d[k] == Min(d[k - 1] + 1, c[k])
  }

  /** It has served no more than had come by any earlier time j, plus one for each moment since. */
  lemma {:induction false} ServedBound(c: seq<nat>, d: seq<nat>, j: nat, k: nat)
    requires ServesOneAtATime(c, d) && j <= k < |c|
    ensures d[k] <= c[j] + (k - j)
    decreases k
  {
    if j < k {
      ServedBound(c, d, j, k - 1);
      assert d[k] == Min(d[k - 1] + 1, c[k]);
    } else if 0 < k {
      assert d[k] == Min(d[k - 1] + 1, c[k]);
    }
  }

  /** Some earlier time attains that bound. */
  lemma {:induction false} ServedBoundIsAttained(c: seq<nat>, d: seq<nat>, k: nat) returns (j: nat)
    requires ServesOneAtATime(c, d) && k < |c|
    ensures j <= k && d[k] == c[j] + (k - j)
    decreases k
  {
    if d[k] == c[k] {
      j := k;
    } else {
      j := ServedBoundIsAttained(c, d, k - 1);
    }
  }

  /** No suffix of the reads completes more frames than it has reads. */
  ghost predicate NoSuffixOverrun(chunks: seq<seq<byte>>) {
    forall j :: 0 <= j <= |chunks| ==> Arrived(chunks, |chunks|) - Arrived(chunks, j) <= |chunks| - j
  }

  /**
   Every complete frame has been dispatched when the stream ends exactly when no suffix of the reads completed
   more frames than it has reads.
   */
  lemma {:induction false} AllDispatchedIff(chunks: seq<seq<byte>>)
    ensures Feed(chunks).frames == Frames(Flatten(chunks)) <==> NoSuffixOverrun(chunks)
  {
    var n := |chunks|;
    assert chunks[..n] == chunks;
    FeedIsPrefixOfSplit(chunks);
    var c, d := Counts(chunks);
    var j := ServedBoundIsAttained(c, d, n);
    forall i | 0 <= i <= n
      ensures d[n] <= c[i] + (n - i) && c[i] == Arrived(chunks, i)
    {
      ServedBound(c, d, i, n);
    }
  }

  /** Arrivals and dispatches, read by read, obey the backlog law. */
  lemma {:induction false} Counts(chunks: seq<seq<byte>>) returns (c: seq<nat>, d: seq<nat>)
    ensures |c| == |chunks| + 1 && ServesOneAtATime(c, d)
    ensures forall k :: 0 <= k < |c| ==> c[k] == Arrived(chunks, k) && d[k] == Dispatched(chunks, k)
  {
    c := seq(|chunks| + 1, k requires 0 <= k <= |chunks| => Arrived(chunks, k));
    d := seq(|chunks| + 1, k requires 0 <= k <= |chunks| => Dispatched(chunks, k));
    assert chunks[..0] == [];
    forall k | 0 < k <= |chunks|
      ensures d[k] == Min(d[k - 1] + 1, c[k])
    {
      BacklogLaw(chunks, k);
    }
  }

  /** All payloads reach the parser exactly when no suffix of the reads completes more frames than it has reads. */
  lemma {:induction false} AllDeliveredIff(payloads: seq<seq<byte>>, chunks: seq<seq<byte>>)
    requires forall p :: p in payloads ==> Free(p)
    requires Flatten(chunks) == EncodeAll(payloads)
    ensures Feed(chunks).frames == payloads <==> NoSuffixOverrun(chunks)
  {
    SplitOfEncoded(payloads);
    AllDispatchedIff(chunks);
  }

  /** Two frames in the last read: the second one is never dispatched. */
  lemma {:induction false} TwoFramesInOneRead(p: seq<byte>, q: seq<byte>)
    requires Free(p) && Free(q)
    ensures Feed([Encode(p) + Encode(q)]) == Reader(Encode(q), [p])
  {
    var chunk := Encode(p) + Encode(q);
    assert [chunk][..0] == [];
    assert [] + chunk == chunk;
    FindEncoded(p, Encode(q));
  }

  // ----- Frames too long to share a read -----

  /** The size of the array that start_reading passes to read_some. */
  const READ_SIZE: nat := 128

  /** Of two frames completed by one read, the second one fits strictly inside that read. */
  lemma {:induction false} SecondFrameIsShort(rest: seq<byte>, more: seq<byte>)
    requires Free(rest) && |Frames(rest + more)| >= 2
    ensures |Encode(Frames(rest + more)[1])| < |more|
  {
    var t := rest + more;
    FramesUnfold(t);
    FindIsFirst(t);
    assert Find(t) + 1 < |rest| ==> DelimiterAt(rest, Find(t));
    FramesUnfold(t[Find(t) + 2..]);
  }

  /** A read of at most READ_SIZE bytes cannot complete two frames of at least READ_SIZE bytes each. */
  lemma {:induction false} LongFramesArriveSingly(s: seq<byte>, more: seq<byte>)
    requires |more| <= READ_SIZE
    requires forall f :: f in Frames(s + more) ==> |Encode(f)| >= READ_SIZE
    ensures |Frames(s + more)| <= |Frames(s)| + 1
  {
    var rest := SplitResumes(s, more);
    var arrived := Frames(rest + more);
    assert forall f :: f in arrived ==> f in Frames(s + more);
    if |arrived| >= 2 {
      SecondFrameIsShort(rest, more);
    }
  }

  lemma {:induction false} LongFramesNeverOverrun(chunks: seq<seq<byte>>, j: nat)
    requires j <= |chunks|
    requires forall i :: 0 <= i < |chunks| ==> |chunks[i]| <= READ_SIZE
    requires forall f :: f in Frames(Flatten(chunks)) ==> |Encode(f)| >= READ_SIZE
    ensures |Frames(Flatten(chunks))| <= Arrived(chunks, j) + (|chunks| - j)
    decreases |chunks|
  {
    if j == |chunks| {
      assert chunks[..j] == chunks;
    } else {
      var n := |chunks| - 1;
      var before := chunks[..n];
      FlattenLast(chunks);
      var rest := SplitResumes(Flatten(before), chunks[n]);
      LongFramesArriveSingly(Flatten(before), chunks[n]);
      assert before[..j] == chunks[..j];
      LongFramesNeverOverrun(before, j);
    }
  }

  /** So long payloads are all dispatched, however the stream is cut into reads. */
  lemma {:induction false} LongPayloadsAllDelivered(payloads: seq<seq<byte>>, chunks: seq<seq<byte>>)
    requires forall p :: p in payloads ==> Free(p) && |Encode(p)| >= READ_SIZE
    requires forall i :: 0 <= i < |chunks| ==> |chunks[i]| <= READ_SIZE
    requires Flatten(chunks) == EncodeAll(payloads)
    ensures Feed(chunks).frames == payloads
  {
    SplitOfEncoded(payloads);
    assert chunks[..|chunks|] == chunks;
    forall j | 0 <= j <= |chunks|
      ensures Arrived(chunks, |chunks|) - Arrived(chunks, j) <= |chunks| - j
    {
      LongFramesNeverOverrun(chunks, j);
    }
    AllDeliveredIff(payloads, chunks);
  }
}
