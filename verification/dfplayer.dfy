/**
 * The DFPlayer serial command frames of `audio_mgr`: ten bytes
 * 0x7E 0xFF 0x06 CMD FEEDBACK PARAM_H PARAM_L CHKSUM_H CHKSUM_L 0xEF,
 * where the checksum is the 16-bit two's complement of the sum of the
 * version, length, command, feedback and parameter bytes.
 *
 * `Parse` is the receiving side, the partner the encoder is checked against.
 */
module DfPlayer {
  import opened Wrappers
  import opened Arith

  type Byte = x: int | 0 <= x < 256

  const StartByte: Byte := 0x7E
  const VersionByte: Byte := 0xFF
  const LengthByte: Byte := 0x06
  const EndByte: Byte := 0xEF

  const CmdPlayTrack: Byte := 0x03
  const CmdSetVolume: Byte := 0x06

  /** A command as the module understands it. */
  datatype Command = Command(cmd: Byte, param: int, feedback: Byte)

  predicate InRange(c: Command) {
    0 <= c.param < 0x10000
  }

  /** Python's `x & 0xFF` on any (possibly negative) integer. */
  function LowByte(x: int): (b: Byte)
    ensures (x - b) % 256 == 0
  {
    x % 256
  }

  /** `_df_checksum(cmd, fb, p1, p2)`: the value that brings the 16-bit sum to zero. */
  function Checksum(cmd: int, fb: int, p1: int, p2: int): (cs: int)
    ensures 0 <= cs < 0x10000
    ensures (VersionByte + LengthByte + cmd + fb + p1 + p2 + cs) % 0x10000 == 0
  {
    (0xFFFF - (VersionByte + LengthByte + cmd + fb + p1 + p2) + 1) % 0x10000
  }

  /** Only one 16-bit value closes the sum, so the checksum is determined by the rest. */
  lemma ChecksumIsUnique(cmd: int, fb: int, p1: int, p2: int, cs: int)
    requires 0 <= cs < 0x10000
    requires (VersionByte + LengthByte + cmd + fb + p1 + p2 + cs) % 0x10000 == 0
    ensures cs == Checksum(cmd, fb, p1, p2)
  {
  }

  /** A 16-bit value sent high byte first. */
  function Word(hi: Byte, lo: Byte): int {
    hi as int * 256 + lo as int
  }

  /** The checksum as transmitted. */
  function ChecksumOf(f: seq<Byte>): int
    requires |f| == 10
  {
    Word(f[7], f[8])
  }

  /** `_df_frame(cmd, param, feedback)`. */
  function Frame(cmd: int, param: int, feedback: int): (f: seq<Byte>)
    ensures |f| == 10
    ensures f[0] == StartByte && f[1] == VersionByte && f[2] == LengthByte && f[9] == EndByte
    ensures f[3] == LowByte(cmd) && f[4] == LowByte(feedback)
    ensures 0 <= cmd < 256 ==> f[3] == cmd
    ensures 0 <= feedback < 256 ==> f[4] == feedback
    ensures Word(f[5], f[6]) == param % 0x10000
    ensures ChecksumOf(f) == Checksum(cmd, feedback, f[5], f[6])
    ensures 0 <= cmd < 256 && 0 <= feedback < 256 ==>
              (f[1] + f[2] + f[3] + f[4] + f[5] + f[6] + ChecksumOf(f)) % 0x10000 == 0
  {
    var p1 := LowByte(param / 256);   // Python `param >> 8` floors, as `/` does for a positive divisor
    var p2 := LowByte(param);
    var cs := Checksum(cmd, feedback, p1, p2);
    SplitParam(param);
    [StartByte, VersionByte, LengthByte, LowByte(cmd), LowByte(feedback), p1, p2,
     LowByte(cs / 256), LowByte(cs), EndByte]
  }

  lemma SplitParam(param: int)
    ensures Word((param / 256) % 256, param % 256) == param % 0x10000
  {
    var q := param / 256;
    var r := param % 256;
    assert param == q * 256 + r;
    var q2 := q / 256;
    assert q == q2 * 256 + q % 256;
    assert param == q2 * 0x10000 + (q % 256 * 256 + r);
    assert 0 <= q % 256 * 256 + r < 0x10000;
  }

  /**
   * The receiving side: a well-formed frame is one with the fixed bytes in
   * place and a checksum that closes the sum.
   */
  function Parse(f: seq<Byte>): (r: Option<Command>)
    ensures r.Some? ==> InRange(r.value)
  {
    if |f| != 10 then None
    else if f[0] != StartByte || f[1] != VersionByte || f[2] != LengthByte || f[9] != EndByte then None
    else if ChecksumOf(f) != Checksum(f[3], f[4], f[5], f[6]) then None
    else Some(Command(f[3], Word(f[5], f[6]), f[4]))
  }

  /** Every in-range command survives a trip through the wire format. */
  lemma ParseFrame(c: Command)
    requires InRange(c)
    ensures Parse(Frame(c.cmd, c.param, c.feedback)) == Some(c)
  {
    var f := Frame(c.cmd, c.param, c.feedback);
    assert f[3] == c.cmd && f[4] == c.feedback;
    assert ChecksumOf(f) == Checksum(f[3], f[4], f[5], f[6]);
    assert Parse(f) == Some(Command(f[3], Word(f[5], f[6]), f[4]));
    DivOfRemainder(c.param, 0x10000, 0, c.param);
    assert Word(f[5], f[6]) == c.param;
  }

  /** Every frame the receiver accepts is exactly the one the encoder builds for its command. */
  lemma FrameParse(f: seq<Byte>)
    requires Parse(f).Some?
    ensures var c := Parse(f).value; Frame(c.cmd, c.param, c.feedback) == f
  {
    var c := Parse(f).value;
    assert c == Command(f[3], Word(f[5], f[6]), f[4]);
    var g := Frame(c.cmd, c.param, c.feedback);
    assert 0 <= c.param < 0x10000 by {
      assert c.param == f[5] as int * 256 + f[6] as int;
    }
    DivOfRemainder(c.param, 0x10000, 0, c.param);
    WordInjective(g[5], g[6], f[5], f[6]);
    assert ChecksumOf(g) == Checksum(f[3], f[4], f[5], f[6]);
    WordInjective(g[7], g[8], f[7], f[8]);
    assert forall i :: 0 <= i < 10 ==> g[i] == f[i];
  }

  lemma WordInjective(hi: Byte, lo: Byte, hi': Byte, lo': Byte)
    requires Word(hi, lo) == Word(hi', lo')
    ensures hi == hi' && lo == lo'
  {
  }

  /**
   * The checksum is computed from the unmasked command while the frame
   * carries only its low byte: with a feedback value from 0 to 255, any
   * command number from 256 to 65535 yields a frame the receiver rejects.
   * (When the dropped high parts of command and feedback add up to a
   * multiple of 65536, the sum closes again and the frame is accepted.)
   */
  lemma WideCommandFrameIsRejected(cmd: int, param: int, feedback: int)
    requires 256 <= cmd < 0x10000 && 0 <= feedback < 256
    ensures Parse(Frame(cmd, param, feedback)) == None
  {
    var f := Frame(cmd, param, feedback);
    assert f[3] == cmd % 256 && f[4] == feedback;
    WideChecksumDiffers(cmd, feedback, f[5], f[6]);
    assert ChecksumOf(f) != Checksum(f[3], f[4], f[5], f[6]);
  }

  /** Dropping the high byte of a 16-bit command changes the checksum. */
  lemma WideChecksumDiffers(cmd: int, fb: int, p1: int, p2: int)
    requires 256 <= cmd < 0x10000
    ensures Checksum(cmd, fb, p1, p2) != Checksum(cmd % 256, fb, p1, p2)
  {
    var low := cmd % 256;
    assert 0 < cmd - low < 0x10000 by {
      assert cmd == cmd / 256 * 256 + low;
    }
    var a := Checksum(cmd, fb, p1, p2);
    var b := Checksum(low, fb, p1, p2);
    var rest := VersionByte + LengthByte + fb + p1 + p2;
    if a == b {
      MultiplesOfWordAreFarApart(rest + cmd + a, rest + low + b);
    }
  }

  /** Two different multiples of 65536 are at least 65536 apart. */
  lemma MultiplesOfWordAreFarApart(x: int, y: int)
    requires x % 0x10000 == 0 && y % 0x10000 == 0 && x != y
    ensures x - y >= 0x10000 || y - x >= 0x10000
  {
    var qx, qy := x / 0x10000, y / 0x10000;
    assert x == qx * 0x10000 && y == qy * 0x10000;
  }

  /** `max(lo, min(hi, x))`. */
  function Clamp(lo: int, hi: int, x: int): int {
    if x > hi then (if lo > hi then lo else hi) else if x < lo then lo else x
  }

  /** `_df_cmd_set_volume`: the frame it writes for a requested volume. */
  function SetVolumeFrame(vol: int): (f: seq<Byte>)
    ensures |f| == 10
    ensures Parse(f).Some?
    ensures Parse(f).value.cmd == CmdSetVolume && Parse(f).value.feedback == 0
    ensures 0 <= Parse(f).value.param <= 30
    ensures 0 <= vol <= 30 ==> Parse(f).value.param == vol
    ensures vol < 0 ==> Parse(f).value.param == 0
    ensures vol > 30 ==> Parse(f).value.param == 30
  {
    var v := Clamp(0, 30, vol);
    ParseFrame(Command(CmdSetVolume, v, 0));
    Frame(CmdSetVolume, v, 0)
  }

  /** `_df_cmd_play_track`: the frame it writes for a requested track number. */
  function PlayTrackFrame(track: int): (f: seq<Byte>)
    ensures |f| == 10
    ensures Parse(f).Some?
    ensures Parse(f).value.cmd == CmdPlayTrack && Parse(f).value.feedback == 0
    ensures 1 <= Parse(f).value.param <= 299
    ensures 1 <= track <= 299 ==> Parse(f).value.param == track
    ensures track < 1 ==> Parse(f).value.param == 1
    ensures track > 299 ==> Parse(f).value.param == 299
  {
    var t := Clamp(1, 299, track);
    ParseFrame(Command(CmdPlayTrack, t, 0));
    Frame(CmdPlayTrack, t, 0)
  }
}
