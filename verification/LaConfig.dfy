/** Capture configuration (src/logic_analyzer_bridge.c): which settings are accepted, and
    what the channel mask makes of the sample width. */
module LaConfig {
  import opened Basics


  const MAX_CHANNELS := 24
  const MAX_CHUNK_BYTES := 8 * 1024

  const MASK_LIMIT := 0x100_0000   // 2^24

  /** Bit `i` of a mask. */
  predicate Bit(mask: nat, i: nat) {
    if i == 0 then mask % 2 == 1 else Bit(mask / 2, i - 1)
  }

  lemma {:induction false} SomeBit(mask: nat, k: nat)
    requires 0 < mask < Pow2(k)
    ensures exists i :: 0 <= i < k && Bit(mask, i)
  {
    if mask % 2 == 1 {
      assert Bit(mask, 0);
    } else {
      SomeBit(mask / 2, k - 1);
      var i :| 0 <= i < k - 1 && Bit(mask / 2, i);
      assert Bit(mask, i + 1);
    }
  }

  /** The set channels below `n`, ascending. */
  function Channels(mask: nat, n: nat): (cs: seq<nat>)
    ensures |cs| <= n && forall i :: 0 <= i < |cs| ==> cs[i] < n
  {
    if n == 0 then [] else if Bit(mask, n - 1) then Channels(mask, n - 1) + [n - 1] else Channels(mask, n - 1)
  }

  lemma {:induction false} ChannelsAscend(mask: nat, n: nat)
    ensures forall i, j :: 0 <= i < j < |Channels(mask, n)| ==> Channels(mask, n)[i] < Channels(mask, n)[j]
    ensures forall c :: c in Channels(mask, n) <==> 0 <= c < n && Bit(mask, c)
  {
    if n > 0 { ChannelsAscend(mask, n - 1); }
  }

  /** The sample width in bytes for a highest channel. */
  function Width(highest: nat): nat { if highest < 8 then 1 else if highest < 16 then 2 else 4 }

  /** `w` is the narrowest width the hardware has that shows every enabled channel. */
  predicate Narrowest(mask: nat, w: nat) {
    && (w == 1 || w == 2 || w == 4)
    && (forall c :: 0 <= c < MAX_CHANNELS && Bit(mask, c) ==> c < 8 * w)
    && (w > 1 ==> exists c :: 0 <= c < MAX_CHANNELS && Bit(mask, c) && c >= (if w == 2 then 8 else 16))
  }

  class Config {
    const bufferSize: nat        // CAPTURE_BUFFER_SIZE
    const maxFreq: nat
    var frequency: nat
    var chunkBytes: nat
    var channelMask: nat
    var channelCount: nat
    var channels: array<nat>
    var bytesPerSample: nat

    ghost predicate Valid()
      reads this, channels
    {
      && channels.Length == MAX_CHANNELS && 0 < frequency
      && 0 < chunkBytes <= MAX_CHUNK_BYTES && bufferSize % chunkBytes == 0 && chunkBytes % 4 == 0
      && 0 < channelMask < MASK_LIMIT
      && channelCount <= MAX_CHANNELS && channels[..channelCount] == Channels(channelMask, MAX_CHANNELS)
      && Narrowest(channelMask, bytesPerSample)
    }

    constructor (bufferSize: nat, maxFreq: nat)
      requires bufferSize % 256 == 0
      ensures Valid() && fresh(channels) && this.bufferSize == bufferSize
      ensures chunkBytes == 256 && bytesPerSample == 1 && channelMask == 1
    {
      this.bufferSize, this.maxFreq := bufferSize, maxFreq;
      frequency, chunkBytes, channelMask, channelCount, bytesPerSample := 1000, 256, 1, 1, 1;
      channels := new nat[MAX_CHANNELS](_ => 0);
      new;
      FirstChannelOnly(MAX_CHANNELS);
      assert channels[..1] == [0];
    }

    /** `la_configure_frequency`. */
    method SetFrequency(freq: nat, busy: bool)
      requires Valid()
      modifies this`frequency
      ensures Valid() && frequency == if !busy && 0 < freq <= maxFreq then freq else old(frequency)
    {
      if !busy && 0 < freq && freq <= maxFreq { frequency := freq; }
    }

    /** `la_configure_chunk_bytes`. */
    method SetChunkBytes(bytes: nat, busy: bool)
      requires Valid()
      modifies this`chunkBytes
      ensures Valid()
      ensures chunkBytes == if !busy && 0 < bytes <= MAX_CHUNK_BYTES && bufferSize % bytes == 0 && bytes % 4 == 0
                            then bytes else old(chunkBytes)
    {
      if !busy && 0 < bytes <= MAX_CHUNK_BYTES && bufferSize % bytes == 0 && bytes % 4 == 0 { chunkBytes := bytes; }
    }

    /** `la_update_channel_config`. */
    method UpdateChannels()
      requires channels.Length == MAX_CHANNELS && 0 < channelMask < MASK_LIMIT
      modifies this`channelCount, this`bytesPerSample, channels
      ensures channelCount <= MAX_CHANNELS && channels[..channelCount] == Channels(channelMask, MAX_CHANNELS)
      ensures Narrowest(channelMask, bytesPerSample)
    {
      var highest := 0;
      channelCount := 0;
      for channel := 0 to MAX_CHANNELS
        invariant 0 <= channelCount <= channel && channels[..channelCount] == Channels(channelMask, channel)
        invariant forall c :: 0 <= c < channel && Bit(channelMask, c) ==> c <= highest
        invariant (exists c :: 0 <= c < channel && Bit(channelMask, c)) ==> 0 <= highest < channel && Bit(channelMask, highest)
        invariant 0 <= highest
      {
        if Bit(channelMask, channel) {
          channels[channelCount] := channel;
          channelCount := channelCount + 1;
          highest := channel;
        }
      }
      TwentyFourBits();
      SomeBit(channelMask, MAX_CHANNELS);
      bytesPerSample := Width(highest);
    }

    /** `la_configure_channel_mask`. */
    method SetChannelMask(mask: nat, busy: bool)
      requires Valid()
      modifies this`channelMask, this`channelCount, this`bytesPerSample, channels
      ensures Valid()
      ensures if !busy && 0 < mask < MASK_LIMIT then channelMask == mask
              else channelMask == old(channelMask) && bytesPerSample == old(bytesPerSample)
    {
      if !busy && 0 < mask && mask < MASK_LIMIT {
        channelMask := mask;
        UpdateChannels();
      }
    }
  }

  datatype Setting = Frequency(value: nat) | ChunkSize(value: nat) | ChannelMask(value: nat)

  /** Any sequence of settings, each with whether the analyser is busy, leaves a configuration
      that can be started; while it is busy nothing changes. */
  method Configure(c: Config, settings: seq<(Setting, bool)>)
    requires c.Valid()
    modifies c`frequency, c`chunkBytes, c`channelMask, c`channelCount, c`bytesPerSample, c.channels
    ensures c.Valid()
    ensures (forall i :: 0 <= i < |settings| ==> settings[i].1) ==>
      && c.frequency == old(c.frequency) && c.chunkBytes == old(c.chunkBytes)
      && c.channelMask == old(c.channelMask) && c.bytesPerSample == old(c.bytesPerSample)
  {
    for i := 0 to |settings|
      invariant c.Valid()
      invariant (forall k :: 0 <= k < i ==> settings[k].1) ==>
        && c.frequency == old(c.frequency) && c.chunkBytes == old(c.chunkBytes)
        && c.channelMask == old(c.channelMask) && c.bytesPerSample == old(c.bytesPerSample)
    {
      match settings[i].0
      case Frequency(v) => c.SetFrequency(v, settings[i].1);
      case ChunkSize(v) => c.SetChunkBytes(v, settings[i].1);
      case ChannelMask(v) => c.SetChannelMask(v, settings[i].1);
    }
  }

  lemma {:induction false} NoBits(i: nat)
    ensures !Bit(0, i)
  {
    if i > 0 { NoBits(i - 1); }
  }

  lemma {:induction false} FirstChannelOnly(n: nat)
    requires n > 0
    ensures Channels(1, n) == [0] && forall c :: 0 < c < n ==> !Bit(1, c)
  {
    if n > 1 {
      FirstChannelOnly(n - 1);
      NoBits(n - 2);
      assert !Bit(1, n - 1);
    } else {
      assert Channels(1, 0) == [];
    }
  }

  lemma TwentyFourBits()
    ensures Pow2(MAX_CHANNELS) == MASK_LIMIT
  {
    assert Pow2(8) == 256 && Pow2(16) == 256 * Pow2(8) && Pow2(24) == 256 * Pow2(16);
  }
}
