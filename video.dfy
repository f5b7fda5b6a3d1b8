/** The environment and video callbacks of main.rs: an environment handler
    that accepts no command, and the single `FRAMEBUFFER` slot that holds
    an owned copy of the latest frame. */
module Video {
  import opened Types

  /** `retro_environment`: the core may pass any command with a payload it
      owns; the frontend recognises none, so it answers false and leaves
      the payload as it was (no `modifies` clause). */
  method Environment(cmd: uint32, data: array<uint8>) returns (handled: bool)
    ensures !handled
  {
    match cmd {
      case _ => handled := false;
    }
  }

  /** `Framebuffer`: the copied bytes and the frame's size in pixels. The
      row stride is not kept. */
  datatype Framebuffer = Framebuffer(data: seq<uint8>, width: uint32, height: uint32)

  /** The slot after `retro_video_refresh(data, width, height, pitch)`. */
  function Refresh(slot: Option<Framebuffer>, data: Option<seq<uint8>>, width: uint32, height: uint32, pitch: nat)
    : Option<Framebuffer>
    requires data.Some? ==> pitch * height <= |data.value|
  {
    match data
    case None => slot
    case Some(bytes) => Some(Framebuffer(bytes[..pitch * height], width, height))
  }

  /** A null pointer leaves the slot as it was. */
  lemma RefreshNullKeepsSlot(slot: Option<Framebuffer>, width: uint32, height: uint32, pitch: nat)
    ensures Refresh(slot, None, width, height, pitch) == slot
  {
  }

  /** A frame replaces the slot wholesale: what was stored before has no
      influence, the bytes are the first `pitch * height` of the input in
      order, and the size is the one given. */
  lemma RefreshReplaces(a: Option<Framebuffer>, b: Option<Framebuffer>, bytes: seq<uint8>,
                        width: uint32, height: uint32, pitch: nat)
    requires pitch * height <= |bytes|
    ensures Refresh(a, Some(bytes), width, height, pitch) == Refresh(b, Some(bytes), width, height, pitch)
    ensures var fb := Refresh(a, Some(bytes), width, height, pitch);
      && fb.Some?
      && |fb.value.data| == pitch * height
      && (forall i | 0 <= i < pitch * height :: fb.value.data[i] == bytes[i])
      && fb.value.width == width && fb.value.height == height
  {
  }

  /** Of two frames in a row only the second survives. */
  lemma RefreshLastWins(slot: Option<Framebuffer>, first: Option<seq<uint8>>, bytes: seq<uint8>,
                        w1: uint32, h1: uint32, p1: nat, w2: uint32, h2: uint32, p2: nat)
    requires first.Some? ==> p1 * h1 <= |first.value|
    requires p2 * h2 <= |bytes|
    ensures Refresh(Refresh(slot, first, w1, h1, p1), Some(bytes), w2, h2, p2)
         == Refresh(slot, Some(bytes), w2, h2, p2)
  {
  }

  /** A buffer of exactly `pitch * height` bytes is stored byte for byte. */
  lemma RefreshExactCopy(slot: Option<Framebuffer>, bytes: seq<uint8>, width: uint32, height: uint32, pitch: nat)
    requires |bytes| == pitch * height
    ensures Refresh(slot, Some(bytes), width, height, pitch) == Some(Framebuffer(bytes, width, height))
  {
    assert bytes[..pitch * height] == bytes;
  }

  /** `FRAMEBUFFER`: at most one frame, replaced on every video callback. */
  class FrameSlot {
    var current: Option<Framebuffer>

    constructor ()
      ensures current == None
    {
      current := None;
    }

    /** `retro_video_refresh`; the pointer must cover `pitch * height` bytes. */
    method VideoRefresh(data: Option<seq<uint8>>, width: uint32, height: uint32, pitch: nat)
      requires data.Some? ==> pitch * height <= |data.value|
      modifies this
      ensures current == Refresh(old(current), data, width, height, pitch)
      ensures data.None? ==> current == old(current)
      ensures data.Some? ==> current.Some? && current.value.width == width && current.value.height == height
    {
      if data.None? {
        return;
      }
      var size := pitch * height;
      var framebufferData := data.value[..size];
      current := Some(Framebuffer(framebufferData, width, height));
    }
  }
}
