/** The timestamp file: 16-byte big-endian records, written by save_time through a write loop
    that copes with short and interrupted writes, and validated and decoded on load. */
module Records {
  import opened TimeOps
  import Bits

  type Byte = b: int | 0 <= b < 256

  const TWO64 := 0x1_0000_0000_0000_0000
  const RECORD := 16

  function Pow256(n: nat): (r: nat)
    ensures r >= 1
  {
    if n == 0 then 1 else 256 * Pow256(n - 1)
  }

  /** htobe64, for any width: the most significant byte first */
  function BigEndian(x: nat, n: nat): (bs: seq<Byte>)
    ensures |bs| == n
  {
    if n == 0 then [] else BigEndian(x / 256, n - 1) + [x % 256]
  }

  /** be64toh */
  function FromBigEndian(bs: seq<Byte>): nat {
    if bs == [] then 0 else FromBigEndian(bs[..|bs| - 1]) * 256 + bs[|bs| - 1]
  }

  /** int64_t as the uint64_t with the same bits, and back */
  function ToUnsigned(x: int): nat {
    x % TWO64
  }

  function ToSigned(u: nat): int {
    if u >= TWO64 / 2 then u - TWO64 else u
  }

  /** struct saved_timestamp in the file */
  function Encode(t: Stamp): (bs: seq<Byte>)
    ensures |bs| == RECORD
  {
    BigEndian(ToUnsigned(t.sec), 8) + BigEndian(ToUnsigned(t.sub), 8)
  }

  function EncodeAll(ts: seq<Stamp>): seq<Byte> {
    if ts == [] then [] else EncodeAll(ts[..|ts| - 1]) + Encode(ts[|ts| - 1])
  }

  /** timespec_from_saved */
  function Decode(bs: seq<Byte>): Stamp
    requires |bs| == RECORD
  {
    Stamp(ToSigned(FromBigEndian(bs[..8])), FromBigEndian(bs[8..]))
  }

  /** saved_timestamp_valid */
  predicate RecordValid(bs: seq<Byte>)
    requires |bs| == RECORD
  {
    FromBigEndian(bs[8..]) < NSEC
  }

  // ----- the codec -----

  lemma {:induction false} DecodeEncoded(x: nat, n: nat)
    requires x < Pow256(n)
    ensures FromBigEndian(BigEndian(x, n)) == x
  {
    if n > 0 {
      var bs := BigEndian(x, n);
      assert bs[..n - 1] == BigEndian(x / 256, n - 1) && bs[n - 1] == x % 256;
      DecodeEncoded(x / 256, n - 1);
    }
  }

  lemma {:induction false} EncodeDecoded(bs: seq<Byte>)
    ensures BigEndian(FromBigEndian(bs), |bs|) == bs && FromBigEndian(bs) < Pow256(|bs|)
  {
    if bs != [] {
      var n := |bs| - 1;
      EncodeDecoded(bs[..n]);
      var hi, lo := FromBigEndian(bs[..n]), bs[n];
      assert (hi * 256 + lo) / 256 == hi && (hi * 256 + lo) % 256 == lo;
      assert bs == bs[..n] + [lo];
    }
  }

  lemma Pow256Of8()
    ensures Pow256(8) == TWO64
  {
    assert Pow256(1) == 256 && Pow256(2) == 256 * 256;
    assert Pow256(3) == 256 * Pow256(2) && Pow256(4) == 256 * Pow256(3);
    assert Pow256(5) == 256 * Pow256(4) && Pow256(6) == 256 * Pow256(5);
    assert Pow256(7) == 256 * Pow256(6) && Pow256(8) == 256 * Pow256(7);
  }

  lemma SignedRoundTrip(x: int)
    requires TIME_MIN <= x <= TIME_MAX
    ensures ToSigned(ToUnsigned(x)) == x && ToUnsigned(x) < TWO64
  {
    if x < 0 {
      assert x % TWO64 == x + TWO64;
    }
  }

  lemma UnsignedRoundTrip(u: nat)
    requires u < TWO64
    ensures ToUnsigned(ToSigned(u)) == u && TIME_MIN <= ToSigned(u) <= TIME_MAX
  {
  }

  // ----- the format, byte by byte -----

  lemma DivideTwice(x: nat, b: nat)
    requires b > 0
    ensures x / 256 / b == x / (256 * b)
  {
    var q, r := x / 256, x % 256;
    var q', r' := q / b, q % b;
    assert q == b * q' + r';
    assert 256 * (b * q') == (256 * b) * q';
    Bits.RemainderUnique(x, 256 * b, q', 256 * r' + r);
  }

  /** Byte `k` of `n` is the one with `n - 1 - k` bytes below it. */
  lemma {:induction false} BigEndianAt(x: nat, n: nat, k: nat)
    requires k < n
    ensures BigEndian(x, n)[k] == x / Pow256(n - 1 - k) % 256
  {
    if k == n - 1 {
      assert Pow256(0) == 1;
    } else {
      BigEndianAt(x / 256, n - 1, k);
      DivideTwice(x, Pow256(n - 2 - k));
      assert Pow256(n - 1 - k) == 256 * Pow256(n - 2 - k);
    }
  }

  /** A record is the seconds, in two's complement, and then the nanoseconds, eight bytes each,
      the most significant byte first. */
  lemma RecordBytes(t: Stamp, k: nat)
    requires k < 8
    ensures Encode(t)[k] == t.sec % 0x1_0000_0000_0000_0000 / Pow256(7 - k) % 256
    ensures Encode(t)[8 + k] == t.sub % 0x1_0000_0000_0000_0000 / Pow256(7 - k) % 256
  {
    hide BigEndian, Pow256;
    BigEndianAt(ToUnsigned(t.sec), 8, k);
    BigEndianAt(ToUnsigned(t.sub), 8, k);
  }

  /** For instance a second after the epoch, and one before it. */
  lemma ExampleRecords()
    ensures Encode(Stamp(1, 2)) == [0, 0, 0, 0, 0, 0, 0, 1, 0, 0, 0, 0, 0, 0, 0, 2]
    ensures Encode(Stamp(-1, 256)) == [255, 255, 255, 255, 255, 255, 255, 255, 0, 0, 0, 0, 0, 0, 1, 0]
  {
    hide BigEndian, ToUnsigned;
    SmallBytes(1);
    SmallBytes(2);
    BytesOf256();
    BytesOfMinusOne();
    SmallUnsigned(1);
    SmallUnsigned(2);
    SmallUnsigned(256);
  }

  lemma SmallBytes(x: nat)
    requires x < 256
    ensures BigEndian(x, 8) == [0, 0, 0, 0, 0, 0, 0, x]
  {
    Zeros(7);
    assert x / 256 == 0 && x % 256 == x;
  }

  lemma {:induction false} Zeros(n: nat)
    ensures BigEndian(0, n) == seq(n, _ => 0)
  {
    if n > 0 {
      Zeros(n - 1);
    }
  }

  lemma BytesOf256()
    ensures BigEndian(256, 8) == [0, 0, 0, 0, 0, 0, 1, 0]
  {
    Zeros(6);
    assert BigEndian(1, 7) == BigEndian(0, 6) + [1];
  }

  lemma BytesOfMinusOne()
    ensures BigEndian(ToUnsigned(-1), 8) == [255, 255, 255, 255, 255, 255, 255, 255]
  {
    hide BigEndian, Pow256;
    Pow256Of8();
    AllOnes(8);
  }

  lemma {:induction false} AllOnes(n: nat)
    ensures BigEndian(Pow256(n) - 1, n) == seq(n, _ => 255)
  {
    if n > 0 {
      AllOnes(n - 1);
      var m := Pow256(n - 1);
      assert (256 * m - 1) / 256 == m - 1 && (256 * m - 1) % 256 == 255;
    }
  }

  /** The value of bytes, the first one counting most. */
  function ByteSum(bs: seq<Byte>): nat {
    if bs == [] then 0 else bs[0] * Pow256(|bs| - 1) + ByteSum(bs[1..])
  }

  lemma {:induction false} ByteSumSplit(bs: seq<Byte>)
    requires bs != []
    ensures ByteSum(bs) == ByteSum(bs[..|bs| - 1]) * 256 + bs[|bs| - 1]
  {
    var n := |bs| - 1;
    if n == 0 {
      assert Pow256(0) == 1 && bs[1..] == [] && bs[..0] == [];
    } else {
      ByteSumSplit(bs[1..]);
      assert bs[1..][..n - 1] == bs[..n][1..];
      assert Pow256(n) == 256 * Pow256(n - 1);
      var b, p := bs[0], Pow256(n - 1);
      assert b * (256 * p) == (b * p) * 256;
    }
  }

  lemma {:induction false} DecodesAsSum(bs: seq<Byte>)
    ensures FromBigEndian(bs) == ByteSum(bs)
  {
    if bs != [] {
      DecodesAsSum(bs[..|bs| - 1]);
      ByteSumSplit(bs);
    }
  }

  /** A record is read as what its bytes say: eight for the seconds, in two's complement, eight
      for the nanoseconds. */
  ghost predicate Says(bs: seq<Byte>, t: Stamp)
    requires |bs| == RECORD
  {
    var sec := ByteSum(bs[..8]);
    && t.sec == (if sec < 0x8000_0000_0000_0000 then sec else sec - 0x1_0000_0000_0000_0000)
    && t.sub == ByteSum(bs[8..])
  }

  lemma DecodedSays(bs: seq<Byte>)
    requires |bs| == RECORD
    ensures Says(bs, Decode(bs))
    ensures RecordValid(bs) <==> ByteSum(bs[8..]) < 1_000_000_000
  {
    DecodesAsSum(bs[..8]);
    DecodesAsSum(bs[8..]);
  }

  /** A saved time reads back, negative seconds included. */
  lemma RecordRoundTrip(t: Stamp)
    requires Normal(t, NSEC)
    ensures Decode(Encode(t)) == t && RecordValid(Encode(t))
  {
    hide BigEndian, FromBigEndian, Pow256, ToSigned, ToUnsigned;
    var bs := Encode(t);
    Pow256Of8();
    SignedRoundTrip(t.sec);
    SignedRoundTrip(t.sub);
    SmallUnsigned(t.sub);
    assert bs[..8] == BigEndian(ToUnsigned(t.sec), 8) && bs[8..] == BigEndian(ToUnsigned(t.sub), 8);
    DecodeEncoded(ToUnsigned(t.sec), 8);
    DecodeEncoded(ToUnsigned(t.sub), 8);
  }

  lemma SmallUnsigned(x: nat)
    requires x < NSEC
    ensures ToUnsigned(x) == x
  {
  }

  /** A valid record is the encoding of what it decodes to. */
  lemma RecordIsEncoding(bs: seq<Byte>)
    requires |bs| == RECORD && RecordValid(bs)
    ensures Encode(Decode(bs)) == bs && Normal(Decode(bs), NSEC)
  {
    hide BigEndian, FromBigEndian, Pow256, ToSigned, ToUnsigned;
    Pow256Of8();
    EncodeDecoded(bs[..8]);
    EncodeDecoded(bs[8..]);
    UnsignedRoundTrip(FromBigEndian(bs[..8]));
    SmallUnsigned(FromBigEndian(bs[8..]));
    assert bs == bs[..8] + bs[8..];
  }

  lemma {:induction false} EncodeAllLength(ts: seq<Stamp>)
    ensures |EncodeAll(ts)| == RECORD * |ts|
  {
    if ts != [] {
      EncodeAllLength(ts[..|ts| - 1]);
    }
  }

  lemma EncodeAllAppend(ts: seq<Stamp>, t: Stamp)
    ensures EncodeAll(ts + [t]) == EncodeAll(ts) + Encode(t)
  {
    assert (ts + [t])[..|ts|] == ts;
  }

  /** Two lists of times with the same encoding are the same. */
  lemma {:induction false} EncodeAllInjective(ts: seq<Stamp>, us: seq<Stamp>)
    requires EncodeAll(ts) == EncodeAll(us)
    requires (forall t | t in ts :: Normal(t, NSEC)) && (forall u | u in us :: Normal(u, NSEC))
    ensures ts == us
  {
    EncodeAllLength(ts);
    EncodeAllLength(us);
    if ts != [] {
      var n := |ts| - 1;
      SplitLast(ts);
      SplitLast(us);
      EncodeAllInjective(ts[..n], us[..n]);
      RecordRoundTrip(ts[n]);
      RecordRoundTrip(us[n]);
      assert ts == ts[..n] + [ts[n]] && us == us[..n] + [us[n]];
    }
  }

  lemma SplitLast(ts: seq<Stamp>)
    requires ts != []
    ensures var n, f := |ts| - 1, EncodeAll(ts);
            |f| == RECORD * |ts| && f[..RECORD * n] == EncodeAll(ts[..n]) && f[RECORD * n..] == Encode(ts[n])
  {
    hide Encode;
    EncodeAllLength(ts);
    EncodeAllLength(ts[..|ts| - 1]);
  }

  // ----- loading -----

  datatype LoadResult = Loaded(stamps: seq<Stamp>) | NoTimestamps | NotAMultiple | BadNanoseconds

  function Slot(file: seq<Byte>, i: nat): (bs: seq<Byte>)
    requires RECORD * (i + 1) <= |file|
    ensures |bs| == RECORD
  {
    file[RECORD * i..RECORD * (i + 1)]
  }

  /** The checks made when the load file is opened, and what load_time then replays.  A file
      loads exactly when it is a non-empty sequence of whole, valid records, and it loads as
      the only list of times that encodes to it. */
  method LoadFile(file: seq<Byte>) returns (r: LoadResult)
    ensures r.NoTimestamps? <==> |file| < RECORD
    ensures r.NotAMultiple? <==> |file| >= RECORD && |file| % RECORD != 0
    ensures r.Loaded? ==> EncodeAll(r.stamps) == file && r.stamps != [] && forall t | t in r.stamps :: Normal(t, NSEC)
    ensures r.Loaded? ==> |file| == RECORD * |r.stamps| && forall i | 0 <= i < |r.stamps| :: Says(Slot(file, i), r.stamps[i])
    ensures r.Loaded? ==> forall i | 0 <= i && RECORD * (i + 1) <= |file| :: RecordValid(Slot(file, i))
    ensures r.BadNanoseconds? ==>
              exists i :: 0 <= i && RECORD * (i + 1) <= |file| && !RecordValid(Slot(file, i))
  {
    hide BigEndian, FromBigEndian, Encode, Decode, RecordValid, Says;
    if |file| < RECORD {
      return NoTimestamps;
    }
    if |file| % RECORD != 0 {
      return NotAMultiple;
    }
    var n := |file| / RECORD;
    var stamps: seq<Stamp> := [];
    var i := 0;
    while i < n
      invariant 0 <= i <= n && |stamps| == i && EncodeAll(stamps) == file[..RECORD * i]
      invariant forall t | t in stamps :: Normal(t, NSEC)
      invariant forall k | 0 <= k < i :: RecordValid(Slot(file, k)) && Says(Slot(file, k), stamps[k])
    {
      var bs := Slot(file, i);
      if !RecordValid(bs) {
        return BadNanoseconds;
      }
      RecordIsEncoding(bs);
      DecodedSays(bs);
      EncodeAllAppend(stamps, Decode(bs));
      assert file[..RECORD * (i + 1)] == file[..RECORD * i] + bs;
      stamps := stamps + [Decode(bs)];
      i := i + 1;
    }
    assert file[..RECORD * n] == file;
    r := Loaded(stamps);
  }

  // ----- writing -----

  /** What one write(2) reports. */
  datatype Outcome = Wrote(count: nat) | Interrupted | Failed

  /** A file as write(2) sees it: each call may be interrupted, fail, or take any part of
      what it is given.  A device that reports more than it was given is not honest. */
  class Device {
    const honest: bool
    var data: seq<Byte>
    ghost var log: seq<Outcome>

    constructor (honest: bool)
      ensures data == [] && log == [] && this.honest == honest
    {
      this.honest := honest;
      data, log := [], [];
    }

    method Write(buf: seq<Byte>) returns (written: int, interrupted: bool)
      modifies this
      ensures log == old(log) + [if written >= 0 then Wrote(written) else if interrupted then Interrupted else Failed]
      ensures exists k :: 0 <= k <= |buf| && data == old(data) + buf[..k]
      ensures written < 0 ==> data == old(data)
      ensures 0 <= written <= |buf| ==> data == old(data) + buf[..written]
      ensures honest ==> written <= |buf|
    {
      written, interrupted := *, *;
      if written < 0 {
        assert data + buf[..0] == data;
      } else if written <= |buf| {
        data := data + buf[..written];
      } else if honest {
        written := |buf|;
        data := data + buf[..written];
      } else {
        var k: nat :| k <= |buf|;
        data := data + buf[..k];
      }
      log := log + [if written >= 0 then Wrote(written) else if interrupted then Interrupted else Failed];
    }
  }

  const MAX_INTERRUPTED := 1000

  /** The only reasons to give up: the latest write failed, wrote nothing or more than it was
      given, or is the thousandth in a row to be interrupted. */
  ghost predicate Excuse(log: seq<Outcome>, honest: bool) {
    && log != []
    && match log[|log| - 1]
       case Failed => true
       case Wrote(n) => n == 0 || !honest
       case Interrupted => |log| >= 1000 && forall k | |log| - 1000 <= k < |log| :: log[k] == Interrupted
  }

  /** An excuse stays one however the log began. */
  lemma ExcuseSuffix(log: seq<Outcome>, from: nat, honest: bool)
    requires from <= |log| && Excuse(log[from..], honest)
    ensures Excuse(log, honest)
  {
    var tail := log[from..];
    assert log[|log| - 1] == tail[|tail| - 1];
    if log[|log| - 1].Interrupted? {
      forall k | |log| - 1000 <= k < |log|
        ensures log[k] == Interrupted
      {
        assert log[k] == tail[k - from];
      }
    }
  }

  /** write_all: it ends for every pattern of short writes and interruptions, leaves only a
      prefix of the buffer behind, answers true exactly when that is all of it, and does not
      give up without an excuse. */
  method WriteAll(dev: Device, buf: seq<Byte>) returns (ok: bool, ghost taken: nat)
    modifies dev
    ensures taken <= |buf| && dev.data == old(dev.data) + buf[..taken]
    ensures ok ==> taken == |buf|
    ensures !ok && dev.honest ==> taken < |buf|
    ensures old(dev.log) <= dev.log
    ensures !ok ==> Excuse(dev.log[|old(dev.log)|..], dev.honest)
  {
    var total, interrupted := 0, 0;
    ghost var start := |dev.log|;
    while total < |buf|
      invariant total <= |buf| && 0 <= interrupted < MAX_INTERRUPTED
      invariant dev.data == old(dev.data) + buf[..total]
      invariant old(dev.log) <= dev.log && interrupted <= |dev.log| - start
      invariant forall k | |dev.log| - interrupted <= k < |dev.log| :: dev.log[k] == Interrupted
      decreases |buf| - total, MAX_INTERRUPTED - interrupted
    {
      var written, eintr := dev.Write(buf[total..]);
      if written < 0 {
        if eintr {
          interrupted := interrupted + 1;
          if interrupted >= MAX_INTERRUPTED {
            return false, total;
          }
          continue;
        }
        return false, total;
      }
      interrupted := 0;
      if written == 0 {
        assert buf[total..][..0] == [];
        return false, total;
      }
      if written > |buf| - total {
        ghost var k :| 0 <= k <= |buf| - total && dev.data == old(dev.data) + buf[..total] + buf[total..][..k];
        assert buf[..total] + buf[total..][..k] == buf[..total + k];
        return false, total + k;
      }
      assert buf[..total] + buf[total..][..written] == buf[..total + written];
      total := total + written;
    }
    assert buf[..total] == buf;
    return true, total;
  }

  /** Some write so far was an excuse to give up. */
  ghost predicate Excused(log: seq<Outcome>, honest: bool) {
    exists j | 0 <= j <= |log| :: Excuse(log[..j], honest)
  }

  lemma ExcusedExtends(log: seq<Outcome>, longer: seq<Outcome>, honest: bool)
    requires Excused(log, honest) && log <= longer
    ensures Excused(longer, honest)
  {
    var j :| 0 <= j <= |log| && Excuse(log[..j], honest);
    assert longer[..j] == log[..j];
  }

  lemma ExcusedNow(log: seq<Outcome>, honest: bool)
    requires Excuse(log, honest)
    ensures Excused(log, honest)
  {
    assert log[..|log|] == log;
  }

  /** A run of save_time calls; `allOk` tells whether every save succeeded. */
  method SaveAll(dev: Device, ts: seq<Stamp>) returns (allOk: bool)
    modifies dev
    ensures allOk ==> dev.data == old(dev.data) + EncodeAll(ts)
    ensures old(dev.log) <= dev.log && (!allOk ==> Excused(dev.log, dev.honest))
  {
    hide Encode, Excuse, Excused;
    allOk := true;
    var i := 0;
    while i < |ts|
      invariant 0 <= i <= |ts| && old(dev.log) <= dev.log
      invariant allOk ==> dev.data == old(dev.data) + EncodeAll(ts[..i])
      invariant !allOk ==> Excused(dev.log, dev.honest)
    {
      var ok;
      ghost var taken, before := 0, dev.log;
      ok, taken := WriteAll(dev, Encode(ts[i]));
      EncodeAllAppend(ts[..i], ts[i]);
      assert ts[..i + 1] == ts[..i] + [ts[i]];
      if !allOk {
        ExcusedExtends(before, dev.log, dev.honest);
      }
      if !ok {
        ExcuseSuffix(dev.log, |before|, dev.honest);
        ExcusedNow(dev.log, dev.honest);
        allOk := false;
      } else if allOk {
        SavedOneMore(dev.data, old(dev.data), ts, i);
      }
      i := i + 1;
    }
    assert ts[..i] == ts;
  }

  lemma SavedOneMore(data: seq<Byte>, before: seq<Byte>, ts: seq<Stamp>, i: nat)
    requires i < |ts| && data == (before + EncodeAll(ts[..i])) + Encode(ts[i])[..RECORD]
    ensures data == before + EncodeAll(ts[..i + 1])
  {
    hide Encode;
    assert ts[..i + 1] == ts[..i] + [ts[i]];
    EncodeAllAppend(ts[..i], ts[i]);
  }

  /** If every save of a run succeeds, the file loads, and loads as exactly the saved times; a
      save fails only with an excuse. */
  method RecordAndReplay(ts: seq<Stamp>, honest: bool) returns (saved: bool, r: LoadResult, ghost log: seq<Outcome>)
    requires forall t | t in ts :: Normal(t, NSEC)
    ensures !saved ==> Excused(log, honest)
    ensures saved && ts != [] ==> r == Loaded(ts)
    ensures saved && ts == [] ==> r == NoTimestamps
  {
    hide BigEndian, FromBigEndian, Encode;
    var dev := new Device(honest);
    saved := SaveAll(dev, ts);
    log := dev.log;
    r := LoadFile(dev.data);
    if saved {
      assert dev.data == EncodeAll(ts);
      EncodeAllLength(ts);
      if ts != [] {
        LoadsAsSaved(ts, r);
      }
    }
  }

  lemma LoadsAsSaved(ts: seq<Stamp>, r: LoadResult)
    requires ts != [] && forall t | t in ts :: Normal(t, NSEC)
    requires r.NoTimestamps? ==> |EncodeAll(ts)| < RECORD
    requires r.NotAMultiple? ==> |EncodeAll(ts)| % RECORD != 0
    requires r.Loaded? ==> EncodeAll(r.stamps) == EncodeAll(ts) && forall t | t in r.stamps :: Normal(t, NSEC)
    requires r.BadNanoseconds? ==>
               exists i :: 0 <= i && RECORD * (i + 1) <= |EncodeAll(ts)| && !RecordValid(Slot(EncodeAll(ts), i))
    ensures r == Loaded(ts)
  {
    hide Encode, RecordValid;
    EncodeAllLength(ts);
    if r.Loaded? {
      EncodeAllInjective(r.stamps, ts);
    } else if r.BadNanoseconds? {
      var i :| 0 <= i && RECORD * (i + 1) <= |EncodeAll(ts)| && !RecordValid(Slot(EncodeAll(ts), i));
      SlotOfEncoded(ts, i);
      RecordRoundTrip(ts[i]);
    }
  }

  /** The i-th record of the file is the encoding of the i-th time. */
  lemma {:induction false} SlotOfEncoded(ts: seq<Stamp>, i: nat)
    requires i < |ts|
    ensures |EncodeAll(ts)| == RECORD * |ts| && Slot(EncodeAll(ts), i) == Encode(ts[i])
  {
    hide Encode;
    SplitLast(ts);
    var n := |ts| - 1;
    if i < n {
      SlotOfEncoded(ts[..n], i);
      assert EncodeAll(ts)[..RECORD * n][RECORD * i..RECORD * (i + 1)] == EncodeAll(ts)[RECORD * i..RECORD * (i + 1)];
    }
  }
}
