// The dispatch and the one rounding of internal/audioprobe/probe.go.

module Probe {
  import opened Base
  import opened Words
  import opened FrameStream
  import Adts
  import Flac
  import Matroska
  import Mp4
  import Mpeg
  import Ogg
  import Wav

  const MAX_MILLISECONDS := 86_400_000

  datatype MediaType = AudioWav | AudioFlac | AudioMpeg | AudioAac | AudioOgg | AudioWebm | AudioMp4 | AudioPcm | Other

  /** The units and rate a container states. */
  function Units(media: MediaType, data: seq<byte>): Option<(nat, nat)>
  {
    match media
    case AudioWav => Wav.Duration(data)
    case AudioFlac => Flac.Duration(SkipId3v2(data))
    case AudioMpeg => Mpeg.Duration(data)
    case AudioAac => Adts.Duration(SkipId3v2(data))
    case AudioOgg => Ogg.Duration(data)
    case AudioWebm => Matroska.Duration(data)
    case AudioMp4 => Mp4.Duration(data)
    case AudioPcm => None
    case Other => None
  }

  /** The least number of milliseconds that covers the units. */
  function Ceiling(units: nat, perSecond: nat): (m: nat)
    requires perSecond > 0
    ensures units * 1000 <= m * perSecond
    ensures m > 0 ==> (m - 1) * perSecond < units * 1000
  {
    var total := units * 1000;
    var floor := total / perSecond;
    assert total == floor * perSecond + total % perSecond;
    assert (floor + 1) * perSecond == floor * perSecond + perSecond;
    assert floor > 0 ==> (floor - 1) * perSecond == floor * perSecond - perSecond;
    if total % perSecond > 0 then floor + 1 else floor
  }

  /** The quotient of a 128-bit number, as `bits.Div64`, whose quotient must fit 64 bits. */
  method Div64(high: u64, low: u64, y: u64) returns (quotient: u64, remainder: u64)
    requires high < y
    ensures quotient == (high * U64 + low) / y && remainder == (high * U64 + low) % y
  {
    SmallQuotient(high * U64 + low, high, low, y);
    return (high * U64 + low) / y, (high * U64 + low) % y;
  }

  lemma SmallQuotient(n: nat, high: nat, low: u64, y: nat)
    requires n == high * U64 + low && high < y
    ensures n / y < U64
  {
    MulMonotone(high + 1, y, U64);
    assert n < U64 * y;
    var q := n / y;
    assert q >= U64 ==> q * y >= U64 * y;
  }

  lemma LargeQuotient(n: nat, high: nat, low: u64, y: nat)
    requires n == high * U64 + low && 0 < y <= high
    ensures n / y >= U64
  {
    MulMonotone(y, high, U64);
    var q := n / y;
    assert n == q * y + n % y;
    assert (q + 1) * y == q * y + y;
    MulMonotone(Min(q + 1, U64), U64, y);
  }

  /** The code's rounding; its increment wraps at 2^64. */
  method CeilMillis(units: u64, perSecond: u64) returns (r: Option<u64>)
    requires perSecond > 0
    ensures r == Rounded(units, perSecond)
  {
    hide Mul64;
    hide Wrap64;
    var product := Mul64(units, 1000);
    var total: nat := units * 1000;
    if product.0 >= perSecond {
      LargeQuotient(total, product.0, product.1, perSecond);
      return None;
    }
    SmallQuotient(total, product.0, product.1, perSecond);
    var quotient, remainder := Div64(product.0, product.1, perSecond);
    assert quotient == total / perSecond && remainder == total % perSecond;
    if remainder > 0 {
      quotient := Wrap64((quotient as int) + 1);
    }
    return Some(quotient);
  }

  /** Refused when the floor does not fit 64 bits; otherwise the low word of the ceiling. */
  function Rounded(units: nat, perSecond: nat): Option<u64>
    requires perSecond > 0
  {
    if units * 1000 / perSecond >= U64 then None else Some(Wrap64(Ceiling(units, perSecond)))
  }

  method Milliseconds(media: MediaType, data: seq<byte>) returns (r: Option<nat>)
    requires |data| <= MAX_SLICE
    ensures r == Answer(media, data)
  {
    hide Mpeg.Duration;
    hide Mp4.Duration;
    hide Ogg.Duration;
    hide Wav.Duration;
    hide Adts.Duration;
    hide Matroska.Duration;
    hide Flac.Duration;
    hide SkipId3v2;
    hide Rounded;
    var units: Option<(u64, u64)>;
    match media {
      case AudioWav => units := Wav.WavDuration(data);
      case AudioFlac => units := Flac.Duration(SkipId3v2(data));
      case AudioMpeg => units := Mpeg.MpegDuration(data);
      case AudioAac => units := Adts.AdtsDuration(SkipId3v2(data));
      case AudioOgg => units := Ogg.OggDuration(data);
      case AudioWebm => units := Matroska.MatroskaDuration(data);
      case AudioMp4 => units := Mp4.Mp4Duration(data);
      case AudioPcm => return None;
      case Other => return None;
    }
    if units == None || units.value.1 == 0 {
      return None;
    }
    var milliseconds := CeilMillis(units.value.0, units.value.1);
    if milliseconds == None || milliseconds.value > MAX_MILLISECONDS {
      return None;
    }
    return Some(milliseconds.value);
  }

  function Answer(media: MediaType, data: seq<byte>): Option<nat>
  {
    match Units(media, data)
    case None => None
    case Some((units, perSecond)) =>
      if perSecond == 0 then None
      else
        match Rounded(units, perSecond)
        case None => None
        case Some(m) => if m > MAX_MILLISECONDS then None else Some(m)
  }

  /** What is answered for stated units and a positive rate. */
  lemma AnswerFromUnits(media: MediaType, data: seq<byte>, units: nat, perSecond: nat)
    requires perSecond > 0
    ensures Units(media, data) == Some((units, perSecond)) ==>
              Answer(media, data) ==
              match Rounded(units, perSecond)
              case None => None
              case Some(m) => if m > MAX_MILLISECONDS then None else Some(m)
  {
    hide Units;
    hide Rounded;
  }

  lemma UnitsByMedia(data: seq<byte>)
    ensures Matroska.Duration(data).Some? ==>
              Units(AudioWebm, data) == Some((Matroska.Duration(data).value.0, Matroska.Duration(data).value.1))
    ensures Mp4.Duration(data).Some? ==>
              Units(AudioMp4, data) == Some((Mp4.Duration(data).value.0, Mp4.Duration(data).value.1))
    ensures Ogg.Duration(data).Some? ==>
              Units(AudioOgg, data) == Some((Ogg.Duration(data).value.0, Ogg.Duration(data).value.1))
  {
    hide Mp4.Duration;
    hide Ogg.Duration;
    hide Matroska.Duration;
  }

  /** The last millisecond count before 2^64 is passed but not reached in full. */
  predicate JustBelow(units: nat, perSecond: nat)
  {
    (U64 - 1) * perSecond < units * 1000 < U64 * perSecond
  }

  /**
   * The upload is answered exactly when it states a rate and its duration
   * rounds up to at most a day, and by that rounding - with one exception: a
   * duration strictly between 2^64 - 1 and 2^64 milliseconds is answered zero.
   */
  lemma AnsweredByCeiling(media: MediaType, data: seq<byte>, m: nat)
    ensures Answer(media, data) == Some(m) <==>
            && Units(media, data).Some?
            && var (units, perSecond) := Units(media, data).value;
            && perSecond > 0
            && ((m == Ceiling(units, perSecond) <= MAX_MILLISECONDS) || (m == 0 && JustBelow(units, perSecond)))
  {
    hide Units;
    hide Ceiling;
    hide Rounded;
    hide JustBelow;
    if Units(media, data).Some? {
      var (units, perSecond) := Units(media, data).value;
      if perSecond > 0 {
        RoundedIsCeiling(units, perSecond);
      }
    }
  }

  lemma RoundedIsCeiling(units: nat, perSecond: nat)
    requires perSecond > 0
    ensures Rounded(units, perSecond) ==
            if JustBelow(units, perSecond) then Some(0)
            else if Ceiling(units, perSecond) < U64 then Some(Ceiling(units, perSecond)) else None
    ensures JustBelow(units, perSecond) ==> Ceiling(units, perSecond) == U64
  {
    var total := units * 1000;
    var floor, remainder := total / perSecond, total % perSecond;
    assert total == floor * perSecond + remainder;
    assert Ceiling(units, perSecond) == if remainder > 0 then floor + 1 else floor;
    if floor >= U64 {
      MulMonotone(U64, floor, perSecond);
    } else if floor < U64 - 1 {
      MulMonotone(floor + 1, U64 - 1, perSecond);
    }
  }

  /** Only a rate below 1000 units a second can reach the exception from 64-bit units. */
  lemma ExceptionNeedsLowRate(units: u64, perSecond: nat)
    requires perSecond > 0 && Ceiling(units, perSecond) >= U64
    ensures perSecond < 1000
  {
    MulMonotone(U64 - 1, Ceiling(units, perSecond) - 1, perSecond);
    assert (U64 - 1) * perSecond < units * 1000 <= (U64 - 1) * 1000;
  }

  /** The exception is reached: at 999 units a second, about 585 million years measure zero. */
  lemma WrappedCeiling()
    ensures Rounded(18428297329635842064, 999) == Some(0)
  {
    var total := 18428297329635842064 * 1000;
    assert total == (U64 - 1) * 999 + 615;
    ModUnique(total, U64 - 1, 615, 999);
  }
}
