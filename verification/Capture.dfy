/** StreamCaptureRunner: cutting one connection's PCM bytes into numbered, stamped slices.

    Stamps and durations are whole microseconds; a slice of n bytes lasts n * 31.25 microseconds,
    rounded half to even as timedelta rounds. The clock is an input of each call. */
module Capture {
  import opened Common

  const BYTES_PER_SECOND := 32_000

  /** timedelta(seconds = n / 32000) in microseconds: n * 125 / 4, half to even. */
  function Micros(n: nat): nat {
    var q, r := n * 125 / 4, n * 125 % 4;
    if r > 2 || (r == 2 && q % 2 == 1) then q + 1 else q
  }

  /** int(round(seconds * BYTES_PER_SECOND)) for a duration given in microseconds. */
  function TargetBytes(chunkMicros: nat): nat {
    var q, r := chunkMicros * 4 / 125, chunkMicros * 4 % 125;
    if 2 * r > 125 then q + 1 else q  // 2 * r is never 125
  }

  /** What the roundings mean at 32000 bytes and 1000000 microseconds to the second: the nearest microsecond,
      the even one of two; the nearest byte; and an exact comparison. */
  lemma Rounding(n: nat, micros: nat)
    ensures -16_000 <= Micros(n) * BYTES_PER_SECOND - n * 1_000_000 <= 16_000
    ensures n * 1_000_000 % BYTES_PER_SECOND == 16_000 ==> Micros(n) % 2 == 0
    ensures -500_000 < TargetBytes(micros) * 1_000_000 - micros * BYTES_PER_SECOND < 500_000
    ensures BytesShorter(n, micros) <==> n * 1_000_000 < micros * 32_000
    ensures BYTES_PER_SECOND == 32_000
  {
    var q, r := n * 125 / 4, n * 125 % 4;
    assert n * 125 == 4 * q + r && n * 1_000_000 == BYTES_PER_SECOND * q + 8_000 * r;
    Remainder(n * 1_000_000, q, 8_000 * r);
  }

  lemma Remainder(x: nat, q: nat, r: nat)
    requires x == 32_000 * q + r && r < 32_000
    ensures x % 32_000 == r
  {
  }

  datatype Slice = Slice(seqNo: nat, start: int, end: int, bytes: seq<Byte>, emittedAt: int)

  function Concat(slices: seq<Slice>): seq<Byte> {
    if slices == [] then [] else Concat(slices[..|slices| - 1]) + slices[|slices| - 1].bytes
  }

  /** Slices are numbered consecutively from `first`, hold whole samples, end one slice-length after
      they start, and never end after the moment they were emitted. */
  ghost predicate WellCut(slices: seq<Slice>, first: nat) {
    forall i :: 0 <= i < |slices| ==>
      var s := slices[i];
      s.seqNo == first + i && |s.bytes| % 2 == 0 && |s.bytes| > 0
      && s.end - s.start == Micros(|s.bytes|) && s.end <= s.emittedAt
  }

  /** The slice cut at `start` when the clock reads `now`: contiguous unless that would end in the future, in
      which case it is moved back to end now. */
  function SliceAt(seqNo: nat, start: int, bytes: seq<Byte>, now: int): Slice {
    var dur := Micros(|bytes|);
    Slice(seqNo, if start + dur > now then now - dur else start, Min(now, start + dur), bytes, now)
  }

  ghost predicate StartsNeverDecrease(slices: seq<Slice>) {
    forall i, j :: 0 <= i <= j < |slices| ==> slices[i].start <= slices[j].start
  }

  ghost predicate EndsNeverDecrease(slices: seq<Slice>) {
    forall i, j :: 0 <= i <= j < |slices| ==> slices[i].end <= slices[j].end
  }

  /** Slice i starts where the one before it ended, the first at `origin`, unless it would end after the moment it
      was emitted: then it is moved back to end there. */
  ghost predicate Contiguous(slices: seq<Slice>, origin: int) {
    forall i :: 0 <= i < |slices| ==> slices[i].start == StartOf(slices[i], EndBefore(slices, i, origin))
  }

  function EndBefore(slices: seq<Slice>, i: nat, origin: int): int
    requires i <= |slices|
  {
    if i == 0 then origin else slices[i - 1].end
  }

  function StartOf(s: Slice, after: int): int {
    if after + Micros(|s.bytes|) <= s.emittedAt then after else s.emittedAt - Micros(|s.bytes|)
  }

  lemma ContiguousSnoc(slices: seq<Slice>, cut: Slice, start: int, origin: int)
    requires Contiguous(slices, origin) && cut == SliceAt(cut.seqNo, start, cut.bytes, cut.emittedAt)
    requires start == EndBefore(slices, |slices|, origin)
    ensures Contiguous(slices + [cut], origin)
  {
    hide Micros;
    var all := slices + [cut];
    assert cut.start == StartOf(cut, start);
    forall i | 0 <= i < |all|
      ensures all[i].start == StartOf(all[i], EndBefore(all, i, origin))
    {
      assert EndBefore(all, i, origin) == EndBefore(slices, i, origin);
      assert all[i] == if i < |slices| then slices[i] else cut;
    }
  }

  class StreamCaptureRunner {
    const chunkMicros: nat
    const minFlushMicros: nat
    var sequenceNo: nat
    var lastAudioEnd: Option<int>
    var pcmBuf: seq<Byte>
    var chunkStart: Option<int>
    /** What on_chunk has been given during this connection, and what the connection delivered. */
    ghost var emitted: seq<Slice>
    ghost var received: seq<Byte>
    ghost var firstSeq: nat
    /** The stamp of the connection's first byte. */
    ghost var origin: int

    ghost predicate Valid()
      reads this
    {
      && firstSeq + |emitted| == sequenceNo
      && WellCut(emitted, firstSeq)
      && (chunkStart.Some? && emitted != [] ==> chunkStart.value == emitted[|emitted| - 1].end)
      && (chunkStart.None? ==> emitted == [])
    }

    /** Every clock reading so far is at most `now`. */
    ghost predicate ClockAtMost(now: int)
      reads this
    {
      forall i :: 0 <= i < |emitted| ==> emitted[i].emittedAt <= now
    }

    constructor (chunkMicros: nat, minFlushMicros: nat)
      ensures Valid() && emitted == [] && received == [] && pcmBuf == [] && chunkStart.None?
      ensures sequenceNo == 0 && lastAudioEnd.None?
      ensures this.chunkMicros == chunkMicros && this.minFlushMicros == minFlushMicros
    {
      this.chunkMicros, this.minFlushMicros := chunkMicros, minFlushMicros;
      sequenceNo, lastAudioEnd, pcmBuf, chunkStart := 0, None, [], None;
      emitted, received, firstSeq, origin := [], [], 0, 0;
    }

    /** A reconnect starts a fresh buffer and goes on numbering. */
    method Connect()
      modifies this
      ensures Valid() && emitted == [] && received == [] && pcmBuf == [] && chunkStart.None?
      ensures firstSeq == sequenceNo == old(sequenceNo) && lastAudioEnd == old(lastAudioEnd)
    {
      pcmBuf, chunkStart := [], None;
      emitted, received, firstSeq := [], [], sequenceNo;
    }

    /** _emit_buffer. The returned stamp is the end of the slice, or None if nothing was emitted. */
    method EmitBuffer(start: int, allowShort: bool, now: int) returns (next: Option<int>, ghost cut: Slice)
      requires Valid() && chunkStart == Some(start) && ClockAtMost(now)
      modifies this`pcmBuf, this`sequenceNo, this`lastAudioEnd, this`emitted
      ensures next.None? ==>
          emitted == old(emitted) && sequenceNo == old(sequenceNo) && lastAudioEnd == old(lastAudioEnd)
      ensures next.None? && pcmBuf != old(pcmBuf) ==>
          pcmBuf == [] && allowShort && BytesShorter(|old(pcmBuf)|, minFlushMicros)
      ensures next.None? && pcmBuf == old(pcmBuf) ==>
        |pcmBuf| < 2 || (!allowShort && (BytesShorter(|pcmBuf|, chunkMicros) || TargetBytes(chunkMicros) < 2))
      ensures next.Some? ==> emitted == old(emitted) + [cut] && sequenceNo == old(sequenceNo) + 1
      ensures next.Some? ==>
          cut.bytes + pcmBuf == old(pcmBuf) && (allowShort || !BytesShorter(|old(pcmBuf)|, chunkMicros))
      ensures next.Some? ==>
        |cut.bytes| == (if allowShort then |old(pcmBuf)| / 2 * 2
                        else Min(|old(pcmBuf)|, TargetBytes(chunkMicros) / 2 * 2))
      ensures next.Some? ==> cut == SliceAt(old(sequenceNo), start, cut.bytes, now)
      ensures next.Some? ==> next == Some(cut.end) == lastAudioEnd
      ensures next.Some? ==> WellCut(emitted, firstSeq) && |cut.bytes| > 0 && ClockAtMost(now)
    {
      hide Micros, TargetBytes;
      cut := Slice(0, 0, 0, [], 0);
      if |pcmBuf| == 0 {
        next := None;
        return;
      }
      if !allowShort && BytesShorter(|pcmBuf|, chunkMicros) {
        next := None;
        return;
      }
      if allowShort && BytesShorter(|pcmBuf|, minFlushMicros) {
        pcmBuf := [];
        next := None;
        return;
      }
      var take := if allowShort then |pcmBuf| else TargetBytes(chunkMicros);
      take := Min(|pcmBuf|, take / 2 * 2);
      if take <= 0 {
        next := None;
        return;
      }
      EvenTake(|pcmBuf|, allowShort, TargetBytes(chunkMicros), chunkMicros);
      var slice := pcmBuf[..take];
      assert slice + pcmBuf[take..] == pcmBuf;
      pcmBuf := pcmBuf[take..];
      var dur := Micros(|slice|);
      var end := start + dur;
      var effectiveStart := start;
      if end > now {
        end, effectiveStart := now, now - dur;
      }
      cut := Slice(sequenceNo, effectiveStart, end, slice, now);
      emitted := emitted + [cut];
      sequenceNo := sequenceNo + 1;
      lastAudioEnd := Some(end);
      next := Some(end);
    }

    /** Emitted slices followed by the buffer are the bytes received; the slices are all of the chunk length,
        and neither their starts nor their ends ever decrease. */
    ghost predicate Kept()
      reads this
    {
      && Valid() && Concat(emitted) + pcmBuf == received
      && EndsNeverDecrease(emitted) && StartsNeverDecrease(emitted)
      && (forall i :: 0 <= i < |emitted| ==> |emitted[i].bytes| == TargetBytes(chunkMicros) / 2 * 2)
      && Contiguous(emitted, origin) && (chunkStart.Some? && emitted == [] ==> chunkStart.value == origin)
    }

    /** One turn of the slicing loop; false when the buffer yields no further slice. */
    method EmitNext(clock: int) returns (more: bool)
      requires Kept() && chunkStart.Some? && ClockAtMost(clock)
      modifies this`pcmBuf, this`sequenceNo, this`lastAudioEnd, this`emitted, this`chunkStart
      ensures Kept() && chunkStart.Some? && old(emitted) <= emitted
      ensures !more ==> ClockAtMost(clock) && pcmBuf == old(pcmBuf)
      ensures !more ==> |pcmBuf| < 2 || BytesShorter(|pcmBuf|, chunkMicros) || TargetBytes(chunkMicros) < 2
      ensures more ==> ClockAtMost(clock) && |pcmBuf| < |old(pcmBuf)|
      ensures if more then |emitted| == |old(emitted)| + 1 && emitted[|old(emitted)|].emittedAt == clock
        else emitted == old(emitted)
    {
      hide Concat, Micros, TargetBytes, BytesShorter, WellCut, EndsNeverDecrease, StartsNeverDecrease, Contiguous;
      ghost var before, buffered := emitted, pcmBuf;
      var next, cut := EmitBuffer(chunkStart.value, false, clock);
      more := next.Some?;
      if more {
        LongEnough(|buffered|, chunkMicros);
        Appended(before, cut, chunkStart.value, firstSeq);
        StartsAppended(before, cut, chunkStart.value, firstSeq);
        ContiguousSnoc(before, cut, chunkStart.value, origin);
        assert Concat(before) + cut.bytes + pcmBuf == Concat(before) + buffered;
        chunkStart := next;
      }
    }

    /** The body of the read loop for one block of bytes read at `now`; `clocks` are the clock readings
        of the slices it emits, none of them before `now` and never decreasing. */
    method Receive(data: seq<Byte>, now: int, clocks: seq<int>)
      requires Kept() && ClockAtMost(now) && data != []
      requires |clocks| > |pcmBuf| + |data|
      requires forall i :: 0 <= i < |clocks| ==> now <= clocks[i]
      requires forall i, j :: 0 <= i < j < |clocks| ==> clocks[i] <= clocks[j]
      modifies this
      ensures Kept() && chunkStart.Some? && firstSeq == old(firstSeq)
      ensures received == old(received) + data && old(emitted) <= emitted
      ensures ClockAtMost(clocks[|clocks| - 1])
      ensures |pcmBuf| < TargetBytes(chunkMicros) || BytesShorter(|pcmBuf|, chunkMicros) || TargetBytes(chunkMicros) < 2
      ensures |pcmBuf| <= TargetBytes(chunkMicros) || emitted == []
      ensures origin == if old(chunkStart).None? then now - Micros(|data|) else old(origin)
      ensures |emitted| - |old(emitted)| < |clocks| && forall j :: |old(emitted)| <= j < |emitted| ==>
        emitted[j].emittedAt == clocks[j - |old(emitted)|]
    {
      hide Concat, TargetBytes, BytesShorter, WellCut, SliceAt, EndsNeverDecrease, StartsNeverDecrease, Contiguous;
      hide Micros;
      if chunkStart.None? {
        chunkStart := Some(now - Micros(|data|));
        origin := now - Micros(|data|);
        NoneContiguous(origin);
      }
      assert (Concat(emitted) + pcmBuf) + data == Concat(emitted) + (pcmBuf + data);
      pcmBuf := pcmBuf + data;
      received := received + data;
      var i := 0;
      while |pcmBuf| >= TargetBytes(chunkMicros)
        invariant 0 <= i && i + |pcmBuf| < |clocks|
        invariant Kept() && chunkStart.Some? && firstSeq == old(firstSeq)
        invariant received == old(received) + data && old(emitted) <= emitted
        invariant ClockAtMost(clocks[i])
        invariant origin == if old(chunkStart).None? then now - Micros(|data|) else old(origin)
        invariant |emitted| - |old(emitted)| == i && forall j :: |old(emitted)| <= j < |emitted| ==>
          emitted[j].emittedAt == clocks[j - |old(emitted)|]
        decreases |pcmBuf|
      {
        var more := EmitNext(clocks[i]);
        if !more {
          break;
        }
        assert clocks[i] <= clocks[i + 1];
        i := i + 1;
      }
      assert clocks[i] <= clocks[|clocks| - 1];
      LongEnough(|pcmBuf|, chunkMicros);
      FirstSliceHoldsBytes(emitted, firstSeq);
    }

    /** The trailing flush when the connection ends. Every byte received is in some slice, except that
        a tail shorter than min_flush_seconds is discarded and an odd last byte stays behind. */
    method FlushTail(now: int)
      requires Kept() && ClockAtMost(now)
      modifies this`pcmBuf, this`sequenceNo, this`lastAudioEnd, this`emitted
      ensures WellCut(emitted, firstSeq) && firstSeq + |emitted| == sequenceNo
      ensures EndsNeverDecrease(emitted) && Contiguous(emitted, origin)
      ensures old(emitted) <= emitted && |emitted| <= |old(emitted)| + 1
      ensures emitted != old(emitted) ==> emitted[|old(emitted)|].emittedAt == now
      ensures |old(pcmBuf)| <= TargetBytes(chunkMicros) || old(emitted) == [] ==> StartsNeverDecrease(emitted)
      ensures Concat(emitted) <= received
      ensures var lost := |received| - |Concat(emitted)|;
        lost <= 1 || (emitted == old(emitted) && (chunkStart.None? || BytesShorter(lost, minFlushMicros)))
    {
      hide Concat, Micros, TargetBytes, WellCut, EndsNeverDecrease, StartsNeverDecrease, Contiguous;
      if chunkStart.Some? && |pcmBuf| > 0 {
        ghost var before, buffered := emitted, pcmBuf;
        var next, cut := EmitBuffer(chunkStart.value, true, now);
        if next.Some? {
          Appended(before, cut, chunkStart.value, firstSeq);
          ContiguousSnoc(before, cut, chunkStart.value, origin);
          if |buffered| <= TargetBytes(chunkMicros) || before == [] {
            StartsAppended(before, cut, chunkStart.value, firstSeq);
          }
          assert Concat(before) + cut.bytes + pcmBuf == Concat(before) + buffered;
        }
      }
    }
  }

  lemma Appended(before: seq<Slice>, cut: Slice, start: int, first: nat)
    requires WellCut(before, first) && EndsNeverDecrease(before)
    requires before != [] ==> start == before[|before| - 1].end
    requires cut == SliceAt(cut.seqNo, start, cut.bytes, cut.emittedAt)
    requires forall i :: 0 <= i < |before| ==> before[i].emittedAt <= cut.emittedAt
    ensures Concat(before + [cut]) == Concat(before) + cut.bytes
    ensures EndsNeverDecrease(before + [cut])
  {
    ConcatSnoc(before, cut);
    hide Concat, Micros;
    if before != [] {
      var last := before[|before| - 1];
      assert last.end <= last.emittedAt && last.end <= cut.end;
    }
  }

  lemma NoneContiguous(origin: int)
    ensures Contiguous([], origin)
  {
  }

  lemma ConcatSnoc(before: seq<Slice>, cut: Slice)
    ensures Concat(before + [cut]) == Concat(before) + cut.bytes
  {
    assert (before + [cut])[..|before|] == before;
  }

  lemma FirstSliceHoldsBytes(slices: seq<Slice>, first: nat)
    requires WellCut(slices, first)
    ensures slices == [] || |slices[0].bytes| > 0
  {
  }

  lemma MicrosMonotone(m: nat, n: nat)
    requires m <= n
    ensures Micros(m) <= Micros(n)
  {
    assert m * 125 / 4 <= n * 125 / 4;
    if m * 125 / 4 == n * 125 / 4 {
      assert m * 125 % 4 <= n * 125 % 4;
    }
  }

  /** A slice no longer than the one before it starts no earlier, even when it is moved back. */
  lemma StartsAppended(before: seq<Slice>, cut: Slice, start: int, first: nat)
    requires WellCut(before, first) && StartsNeverDecrease(before)
    requires before != [] ==> start == before[|before| - 1].end && |cut.bytes| <= |before[|before| - 1].bytes|
    requires cut == SliceAt(cut.seqNo, start, cut.bytes, cut.emittedAt)
    requires forall i :: 0 <= i < |before| ==> before[i].emittedAt <= cut.emittedAt
    ensures StartsNeverDecrease(before + [cut])
  {
    hide Micros;
    if before != [] {
      var last := before[|before| - 1];
      MicrosMonotone(|cut.bytes|, |last.bytes|);
      assert last.start <= cut.start;
    }
  }

  /** Two equal clock readings. A block that arrives, in full, at the very reading at which the previous slice
      was emitted and ended is cut into a slice with the same stamps; that is the only way for two
      consecutive slices of one length. With equal bytes the chunks are the same but for their number. */
  lemma EqualReadingsRepeatStamps(s: Slice, bytes: seq<Byte>, now: int)
    requires |bytes| == |s.bytes| > 0 && s.end - s.start == Micros(|s.bytes|) && s.end <= s.emittedAt <= now
    ensures var t := SliceAt(s.seqNo + 1, s.end, bytes, now);
      (t.start == s.start && t.end == s.end) <==> now == s.end == s.emittedAt
  {
    assert Micros(|bytes|) > 0;
  }

  /** Any bytes and reading give such a pair. */
  lemma SliceTwice(bytes: seq<Byte>, now: int)
    ensures var s := SliceAt(0, now - Micros(|bytes|), bytes, now);
      var t := SliceAt(1, s.end, bytes, now);
      t == s.(seqNo := 1) && s.end == now
  {
  }

  /** Across a reconnect starts may go back. The first slice of a connection whose bytes all arrived in a burst
      at `now`, the first block of them `first` bytes long, is moved back to end now; it starts before the
      previous connection's last slice exactly if the burst is longer than the time since that start. */
  lemma BurstMayStartEarlier(tail: Slice, first: nat, bytes: seq<Byte>, now: int)
    requires first <= |bytes|
    ensures var burst := SliceAt(tail.seqNo + 1, now - Micros(first), bytes, now);
      burst.end == now && (burst.start < tail.start <==> Micros(|bytes|) > now - tail.start)
  {
    MicrosMonotone(first, |bytes|);
  }

  /** len(pcm) / BYTES_PER_SECOND < seconds */
  predicate BytesShorter(n: int, micros: nat) {
    n * 125 < micros * 4
  }

  /** A buffer holds a whole chunk once it is not shorter than one, and no more than one before. */
  lemma LongEnough(n: nat, chunkMicros: nat)
    ensures !BytesShorter(n, chunkMicros) ==> n >= TargetBytes(chunkMicros) / 2 * 2
    ensures BytesShorter(n, chunkMicros) ==> n <= TargetBytes(chunkMicros)
  {
  }

  lemma EvenTake(n: nat, allowShort: bool, target: nat, chunkMicros: nat)
    requires target == TargetBytes(chunkMicros) && (allowShort || !BytesShorter(n, chunkMicros))
    ensures Min(n, (if allowShort then n else target) / 2 * 2) % 2 == 0
  {
    if !allowShort {
      assert n * 125 >= chunkMicros * 4;
      assert target / 2 * 2 <= target <= n + 1;
    }
  }
}
