/** The audio relay of audio_subsystem.rs: one global queue of interleaved
    stereo samples, filled by the core's batch callback and drained by the
    playback device's callback. */
module AudioSubsystem {
  import opened Types

  /** Stereo: every frame is a left and a right sample. */
  const CHANNELS: nat := 2

  /** The samples one batch call appends: nothing for a null pointer,
      otherwise the first `frames * 2` samples behind the pointer. */
  function Appended(data: Option<seq<int16>>, frames: nat): (s: seq<int16>)
    requires data.Some? ==> CHANNELS * frames <= |data.value|
    ensures data.None? ==> s == []
    ensures data.Some? ==> |s| == CHANNELS * frames
    ensures forall i | 0 <= i < |s| :: s[i] == data.value[i]
  {
    match data
    case None => []
    case Some(samples) => samples[..CHANNELS * frames]
  }

  /** The queue after `retro_audio_sample_batch`, with the value it returns. */
  function Batch(queue: seq<int16>, data: Option<seq<int16>>, frames: nat): (r: (seq<int16>, nat))
    requires data.Some? ==> CHANNELS * frames <= |data.value|
    ensures data.None? ==> r == (queue, 0)
    ensures data.Some? ==> r.1 == frames
    ensures |r.0| == |queue| + |Appended(data, frames)|
    ensures r.0[..|queue|] == queue && r.0[|queue|..] == Appended(data, frames)
  {
    if data.None? then (queue, 0)
    else (queue + Appended(data, frames), frames)
  }

  /** The output buffer and the queue after one `AudioHandler::callback`:
      `n = min(out.len, queue.len)` samples are moved from the head of the
      queue to the front of `out`. */
  function Drain(queue: seq<int16>, out: seq<int16>): (r: (seq<int16>, seq<int16>))
    ensures var n := Min(|out|, |queue|);
      && |r.0| == |out|
      && r.0[..n] == queue[..n]
      && r.0[n..] == out[n..]
      && r.1 == queue[n..]
  {
    var n := Min(|out|, |queue|);
    if n > 0 then (queue[..n] + out[n..], queue[n..]) else (out, queue)
  }

  /** The samples one callback hands to the device. */
  function Delivered(queue: seq<int16>, out: seq<int16>): seq<int16>
  {
    Drain(queue, out).0[..Min(|out|, |queue|)]
  }

  /** Underflow: with fewer samples queued than requested, everything queued
      is delivered, the queue is left empty and the tail of `out` keeps what
      it held before. */
  lemma DrainUnderflow(queue: seq<int16>, out: seq<int16>)
    requires |queue| < |out|
    ensures Drain(queue, out).1 == []
    ensures Drain(queue, out).0[..|queue|] == queue
    ensures Drain(queue, out).0[|queue|..] == out[|queue|..]
  {
  }

  /** Draining an empty queue changes neither the buffer nor the queue. */
  lemma DrainEmpty(out: seq<int16>)
    ensures Drain([], out) == (out, [])
  {
  }

  /** One operation on the relay: a batch from the core, or a pull by the
      device into a buffer holding `out`. */
  datatype AudioOp = BatchOp(data: Option<seq<int16>>, frames: nat) | PullOp(out: seq<int16>)

  /** A batch whose pointer covers the `frames * 2` samples it announces. */
  predicate WellFormed(op: AudioOp)
  {
    op.BatchOp? && op.data.Some? ==> CHANNELS * op.frames <= |op.data.value|
  }

  /** The samples pushed by a run of operations, in order: a definition that
      ignores the pulls altogether. */
  function AllPushed(ops: seq<AudioOp>): seq<int16>
    requires forall i | 0 <= i < |ops| :: WellFormed(ops[i])
  {
    if ops == [] then []
    else
      var last := ops[|ops| - 1];
      assert WellFormed(last);
      AllPushed(ops[..|ops| - 1]) + (if last.BatchOp? then Appended(last.data, last.frames) else [])
  }

  /** What the relay holds after a run of operations from an empty queue,
      and every sample delivered to the device, in order. */
  datatype Relay = Relay(queue: seq<int16>, delivered: seq<int16>)

  function Replay(ops: seq<AudioOp>): Relay
    requires forall i | 0 <= i < |ops| :: WellFormed(ops[i])
  {
    if ops == [] then Relay([], [])
    else
      var r := Replay(ops[..|ops| - 1]);
      assert WellFormed(ops[|ops| - 1]);
      match ops[|ops| - 1]
      case BatchOp(data, frames) => Relay(Batch(r.queue, data, frames).0, r.delivered)
      case PullOp(out) => Relay(Drain(r.queue, out).1, r.delivered + Delivered(r.queue, out))
  }

  /** One batch keeps "delivered, then queued, equals pushed". */
  lemma BatchKeepsOrder(r: Relay, pushed: seq<int16>, data: Option<seq<int16>>, frames: nat)
    requires data.Some? ==> CHANNELS * frames <= |data.value|
    requires r.delivered + r.queue == pushed
    ensures r.delivered + Batch(r.queue, data, frames).0 == pushed + Appended(data, frames)
  {
    var added := Appended(data, frames);
    assert Batch(r.queue, data, frames).0 == r.queue + added;
    assert r.delivered + (r.queue + added) == (r.delivered + r.queue) + added;
  }

  /** One pull keeps "delivered, then queued, equals pushed". */
  lemma DrainKeepsOrder(r: Relay, pushed: seq<int16>, out: seq<int16>)
    requires r.delivered + r.queue == pushed
    ensures (r.delivered + Delivered(r.queue, out)) + Drain(r.queue, out).1 == pushed
  {
    var n := Min(|out|, |r.queue|);
    assert Delivered(r.queue, out) == r.queue[..n];
    assert Drain(r.queue, out).1 == r.queue[n..];
    assert r.queue[..n] + r.queue[n..] == r.queue;
    assert (r.delivered + r.queue[..n]) + r.queue[n..] == r.delivered + (r.queue[..n] + r.queue[n..]);
  }

  /** FIFO over any interleaving of pushes and pulls: what was delivered,
      followed by what is still queued, is exactly what was pushed. */
  lemma {:induction false} ReplayIsFifo(ops: seq<AudioOp>)
    requires forall i | 0 <= i < |ops| :: WellFormed(ops[i])
    ensures Replay(ops).delivered + Replay(ops).queue == AllPushed(ops)
  {
    if ops != [] {
      var init := ops[..|ops| - 1];
      ReplayIsFifo(init);
      var r := Replay(init);
      var last := ops[|ops| - 1];
      assert WellFormed(last);
      match last
      case BatchOp(data, frames) =>
        BatchKeepsOrder(r, AllPushed(init), data, frames);
      case PullOp(out) =>
        DrainKeepsOrder(r, AllPushed(init), out);
    }
  }

  /** The delivered samples are a prefix of the pushed ones: nothing is
      reordered, duplicated or invented. */
  lemma DeliveredIsPrefix(ops: seq<AudioOp>)
    requires forall i | 0 <= i < |ops| :: WellFormed(ops[i])
    ensures Replay(ops).delivered <= AllPushed(ops)
  {
    ReplayIsFifo(ops);
    var r := Replay(ops);
    assert AllPushed(ops)[..|r.delivered|] == r.delivered;
  }

  /** `AUDIO_BUFFER` together with the history of everything that passed
      through it. */
  class AudioBuffer {
    /** The queued samples, head first. */
    var samples: seq<int16>
    /** Every sample ever appended, and every sample ever copied out. */
    ghost var pushed: seq<int16>
    ghost var pulled: seq<int16>

    /** The FIFO invariant. */
    ghost predicate Valid()
      reads this
    {
      pulled + samples == pushed
    }

    constructor ()
      ensures Valid()
      ensures samples == [] && pushed == [] && pulled == []
    {
      samples, pushed, pulled := [], [], [];
    }

    /** `retro_audio_sample_batch`. */
    method SampleBatch(data: Option<seq<int16>>, frames: nat) returns (accepted: nat)
      requires Valid()
      requires data.Some? ==> CHANNELS * frames <= |data.value|
      modifies this
      ensures Valid()
      ensures (samples, accepted) == Batch(old(samples), data, frames)
      ensures pushed == old(pushed) + Appended(data, frames) && pulled == old(pulled)
    {
      if data.None? {
        return 0;
      }
      var totalSamples := CHANNELS * frames;
      var batch := data.value[..totalSamples];
      samples := samples + batch;
      pushed := pushed + batch;
      accepted := frames;
    }

    /** `AudioHandler::callback`, writing into the device's buffer `out`. */
    method Callback(out: array<int16>)
      requires Valid()
      modifies this, out
      ensures Valid()
      ensures (out[..], samples) == Drain(old(samples), old(out[..]))
      ensures pulled == old(pulled) + Delivered(old(samples), old(out[..])) && pushed == old(pushed)
    {
      var samplesToCopy := Min(out.Length, |samples|);
      if samplesToCopy > 0 {
        forall i | 0 <= i < samplesToCopy {
          out[i] := samples[i];
        }
        assert out[..] == samples[..samplesToCopy] + old(out[..])[samplesToCopy..];
        pulled := pulled + samples[..samplesToCopy];
        samples := samples[samplesToCopy..];
      }
    }
  }
}
