/** Parsing and checking what the probes print. */
module ExportProbe {
  import opened Common
  import opened Text
  import opened ExportQueueSpec

  const DURATION_TOLERANCE_US: nat := 500_000

  // ---------------------------------------------------------------------------
  // Packet timestamps.

  datatype Packet = Packet(stream: nat, dtsUs: int)

  datatype PacketVerdict = InOrder | NoTimestamps | NotMonotonic(stream: nat)

  /** Every earlier timestamp of a stream is at most every later one. */
  predicate MonotonicByStream(packets: seq<Packet>) {
    forall i, j | 0 <= i < j < |packets| ::
      packets[i].stream == packets[j].stream ==> packets[i].dtsUs <= packets[j].dtsUs
  }

  /** The map holds a timestamp of every stream seen, and none of that stream is later. */
  ghost predicate HoldsLast(last: map<nat, int>, packets: seq<Packet>) {
    && (forall i | 0 <= i < |packets| :: packets[i].stream in last && packets[i].dtsUs <= last[packets[i].stream])
    && forall k | k in last :: Packet(k, last[k]) in packets
  }

  /** The next packet is in order, or earlier than one of its stream. */
  lemma OnePacketMore(last: map<nat, int>, packets: seq<Packet>, n: nat)
    requires n < |packets| && HoldsLast(last, packets[..n]) && MonotonicByStream(packets[..n])
    ensures var p := packets[n];
            if p.stream in last && p.dtsUs < last[p.stream] then
              exists i | 0 <= i < n :: packets[i].stream == p.stream && packets[i].dtsUs > p.dtsUs
            else HoldsLast(last[p.stream := p.dtsUs], packets[..n + 1]) && MonotonicByStream(packets[..n + 1])
  {
    var p, front := packets[n], packets[..n];
    assert packets[..n + 1] == front + [p];
    if p.stream in last {
      var i :| 0 <= i < n && front[i] == Packet(p.stream, last[p.stream]);
      assert packets[i] == front[i];
    }
  }

  lemma NothingSeen(none: seq<Packet>)
    requires none == []
    ensures HoldsLast(map[], none)
  {
  }

  method ValidatePacketReport(packets: seq<Packet>) returns (r: PacketVerdict)
    ensures r.InOrder? <==> packets != [] && MonotonicByStream(packets)
    ensures r.NoTimestamps? <==> packets == []
    ensures r.NotMonotonic? ==>
              exists i, j | 0 <= i < j < |packets| ::
                packets[i].stream == packets[j].stream == r.stream && packets[i].dtsUs > packets[j].dtsUs
  {
    hide HoldsLast;
    var previousByStream: map<nat, int> := map[];
    NothingSeen(packets[..0]);
    var timestampedPackets := 0;
    while timestampedPackets < |packets|
      invariant timestampedPackets <= |packets|
      invariant MonotonicByStream(packets[..timestampedPackets])
      invariant HoldsLast(previousByStream, packets[..timestampedPackets])
    {
      var n := timestampedPackets;
      var packet := packets[n];
      var previous := if packet.stream in previousByStream then Some(previousByStream[packet.stream]) else None;
      OnePacketMore(previousByStream, packets, n);
      previousByStream := previousByStream[packet.stream := packet.dtsUs];
      if previous.Some? && packet.dtsUs < previous.value {
        return NotMonotonic(packet.stream);
      }
      timestampedPackets := timestampedPackets + 1;
    }
    assert packets[..|packets|] == packets;
    if timestampedPackets == 0 { return NoTimestamps; }
    return InOrder;
  }

  // ---------------------------------------------------------------------------
  // Decimal seconds.

  /** Seconds with an optional fraction, truncated to whole microseconds. */
  function ParseSecondsToUs(s: string): Option<nat> {
    var whole := Before(s, '.');
    SecondsToUs(whole, if |whole| < |s| then s[|whole| + 1..] else "")
  }

  /** The first six places of the fraction, filled up with zeros. */
  function Places(fraction: string): string {
    if |fraction| < 6 then fraction + Zeros(6 - |fraction|) else fraction[..6]
  }

  function SecondsToUs(whole: string, fraction: string): Option<nat> {
    var seconds, micros := ParseUnsigned(whole, U64_MAX), Places(fraction);
    if seconds.None? || !AllDigits(micros) then None
    else if seconds.value * 1_000_000 > U64_MAX then None
    else if seconds.value * 1_000_000 + Value(micros) > U64_MAX then None
    else Some(seconds.value * 1_000_000 + Value(micros))
  }

  /** The six digits of a number of microseconds below one second. */
  function SixDigits(us: nat): string
    requires us < 1_000_000
  {
    Zeros(6 - DigitCount(us)) + Decimal(us)
  }

  function DigitCount(us: nat): (n: nat)
    requires us < 1_000_000
    ensures 1 <= n <= 6
  {
    if us < 10 then 1 else if us < 100 then 2 else if us < 1_000 then 3
    else if us < 10_000 then 4 else if us < 100_000 then 5 else 6
  }

  lemma {:induction false} DecimalLength(n: nat, digits: nat, power: nat)
    requires digits >= 1 && power == TenTo(digits - 1) && n < power * 10 && (digits > 1 ==> power <= n)
    ensures |Decimal(n)| == digits
  {
    if digits > 1 {
      DecimalLength(n / 10, digits - 1, power / 10);
    }
  }

  function TenTo(n: nat): nat {
    if n == 0 then 1 else 10 * TenTo(n - 1)
  }

  lemma MicrosLength(us: nat)
    requires us < 1_000_000
    ensures |Decimal(us)| == DigitCount(us)
  {
    assert TenTo(2) == 100 && TenTo(3) == 1_000 && TenTo(4) == 10_000;
    assert TenTo(5) == 100_000;
    var n := DigitCount(us);
    DecimalLength(us, n, TenTo(n - 1));
  }

  lemma SixDigitsValue(us: nat)
    requires us < 1_000_000
    ensures |SixDigits(us)| == 6 && AllDigits(SixDigits(us)) && Value(SixDigits(us)) == us
  {
    DecimalValue(us);
    MicrosLength(us);
    ZerosInFront(6 - DigitCount(us), Decimal(us));
  }

  /**
   * Printing microseconds as decimal seconds and parsing them back is the identity; anything after the
   * sixth decimal is ignored.
   */
  lemma SecondsRoundTrip(seconds: nat, us: nat, tail: string)
    requires us < 1_000_000 && seconds * 1_000_000 + us <= U64_MAX
    ensures ParseSecondsToUs(Decimal(seconds) + "." + SixDigits(us) + tail) == Some(seconds * 1_000_000 + us)
  {
    hide SixDigits, Decimal, Value, DigitCount;
    var whole, six := Decimal(seconds), SixDigits(us);
    var s := whole + "." + six + tail;
    DecimalValue(seconds);
    SixDigitsValue(us);
    assert '.' !in whole;
    assert whole[0] in whole;
    BeforeUnique(s, whole, '.');
    assert s[|whole| + 1..] == six + tail;
    assert (six + tail)[..6] == six;
  }

  lemma {:induction false} ZerosBehind(s: string, n: nat)
    requires AllDigits(s)
    ensures AllDigits(s + Zeros(n)) && Value(s + Zeros(n)) == Value(s) * TenTo(n)
  {
    if n == 0 {
      assert s + Zeros(0) == s;
    } else {
      ZerosBehind(s, n - 1);
      var z := s + Zeros(n);
      assert z[..|z| - 1] == s + Zeros(n - 1);
      assert Value(s) * TenTo(n) == Value(s) * TenTo(n - 1) * 10;
    }
  }

  function FirstSix(s: string): (r: string)
    ensures |r| <= 6
  {
    if |s| <= 6 then s else s[..6]
  }

  /** Up to six places behind the point, in microseconds. */
  function Micros(places: string): nat
    requires |places| <= 6 && AllDigits(places)
  {
    Value(places) * TenTo(6 - |places|)
  }

  /** The digits of a number that may have a plus sign in front. */
  function Unsigned(s: string): string {
    if s != "" && s[0] == '+' then s[1..] else s
  }

  /**
   * Seconds are accepted exactly when there are digits before the point, nothing else among the first
   * six places behind it, and 64 bits hold their microseconds; missing places count as zeros.
   */
  lemma SecondsParseExactlyWhen(whole: string, fraction: string, point: bool)
    requires '.' !in whole && (!point ==> fraction == "")
    ensures var six := FirstSix(fraction);
            var digits := Unsigned(whole);
            var parsed := ParseSecondsToUs(if point then whole + "." + fraction else whole);
            if digits != "" && AllDigits(digits) && AllDigits(six)
               && Value(digits) * 1_000_000 + Micros(six) < 0x1_0000_0000_0000_0000
            then parsed == Some(Value(digits) * 1_000_000 + Micros(six))
            else parsed == None
  {
    PartsOf(whole, fraction, point);
    SecondsOfParts(whole, fraction);
    hide *;
  }

  lemma SecondsOfParts(whole: string, fraction: string)
    ensures var six, digits := FirstSix(fraction), Unsigned(whole);
            if digits != "" && AllDigits(digits) && AllDigits(six)
               && Value(digits) * 1_000_000 + Micros(six) < 0x1_0000_0000_0000_0000
            then SecondsToUs(whole, fraction) == Some(Value(digits) * 1_000_000 + Micros(six))
            else SecondsToUs(whole, fraction) == None
  {
    hide Value, Places, Micros, FirstSix, Unsigned, ParseUnsigned, AllDigits;
    ParsedDigits(whole);
    SixPlaces(fraction);
  }

  lemma PartsOf(whole: string, fraction: string, point: bool)
    requires '.' !in whole && (!point ==> fraction == "")
    ensures ParseSecondsToUs(if point then whole + "." + fraction else whole) == SecondsToUs(whole, fraction)
  {
    var s := if point then whole + "." + fraction else whole;
    assert s[..|whole|] == whole;
    hide Before, SecondsToUs;
    BeforeUnique(s, whole, '.');
    assert point ==> s[|whole| + 1..] == fraction;
  }

  lemma ParsedDigits(whole: string)
    ensures var digits := Unsigned(whole);
            ParseUnsigned(whole, U64_MAX) ==
            if digits != "" && AllDigits(digits) && Value(digits) <= U64_MAX then Some(Value(digits)) else None
  {
    hide Value;
  }

  lemma SixPlaces(fraction: string)
    ensures AllDigits(Places(fraction)) <==> AllDigits(FirstSix(fraction))
    ensures AllDigits(FirstSix(fraction)) ==> Value(Places(fraction)) == Micros(FirstSix(fraction))
  {
    var six := FirstSix(fraction);
    hide Value;
    if |fraction| < 6 {
      assert six == fraction;
      if AllDigits(six) { ZerosBehind(six, 6 - |six|); }
      assert forall i | 0 <= i < |six| :: Places(fraction)[i] == six[i];
    } else {
      assert TenTo(0) == 1;
      assert six == fraction[..6];
    }
  }

  // ---------------------------------------------------------------------------
  // The media report.

  datatype Stream = Stream(
    codecType: string,
    codecName: string,
    width: Option<nat>,
    height: Option<nat>,
    frameRate: Option<nat>,
    sampleRate: Option<nat>,
    channels: Option<nat>)

  datatype Report = Report(streams: seq<Stream>, formats: seq<string>, durationUs: Option<nat>)

  function StreamsOf(streams: seq<Stream>, codecType: string): seq<Stream> {
    if streams == [] then [] else
    (if streams[0].codecType == codecType then [streams[0]] else []) + StreamsOf(streams[1..], codecType)
  }

  /**
   * The output is an MP4 with one H.264 stream of the planned shape, the planned AAC tracks, and the
   * planned duration.
   */
  predicate ReportMatches(job: ExportJob, r: Report) {
    var videos, audios := StreamsOf(r.streams, "video"), StreamsOf(r.streams, "audio");
    && "mp4" in r.formats
    && |videos| == 1
    && videos[0].codecName == "h264"
    && videos[0].width == Some(job.plan.rung.width)
    && videos[0].height == Some(job.plan.rung.height)
    && videos[0].frameRate == Some(job.plan.rung.fps)
    && |audios| == job.plan.audioTrackCount
    && (forall a | a in audios ::
          && a.codecName == "aac"
          && a.sampleRate.Some? && a.sampleRate.value != 0
          && a.channels.Some? && a.channels.value != 0)
    && r.durationUs.Some?
    && r.durationUs.value != 0
    && r.durationUs.value <= job.plan.durationUs + DURATION_TOLERANCE_US
    && job.plan.durationUs <= r.durationUs.value + DURATION_TOLERANCE_US
  }

  /** The places of the streams of one type. */
  function PlacesOf(streams: seq<Stream>, codecType: string): set<nat> {
    set i: nat | i < |streams| && streams[i].codecType == codecType
  }

  lemma {:induction false} StreamsAtPlaces(streams: seq<Stream>, codecType: string)
    ensures |StreamsOf(streams, codecType)| == |PlacesOf(streams, codecType)|
    ensures forall x :: x in StreamsOf(streams, codecType) <==> x in streams && x.codecType == codecType
  {
    if streams != [] {
      var rest := streams[1..];
      assert streams == [streams[0]] + rest;
      StreamsAtPlaces(rest, codecType);
      PlacesShift(streams, codecType);
      hide PlacesOf;
    }
  }

  lemma PlacesShift(streams: seq<Stream>, codecType: string)
    requires streams != []
    ensures |PlacesOf(streams, codecType)| ==
            |PlacesOf(streams[1..], codecType)| + if streams[0].codecType == codecType then 1 else 0
  {
    var all, rest := PlacesOf(streams, codecType), PlacesOf(streams[1..], codecType);
    forall i: nat ensures i in all - {0} <==> i in Shifted(rest) {
      if i > 0 && i in all { assert i - 1 in rest; }
    }
    assert all - {0} == Shifted(rest);
    assert 0 in all <==> streams[0].codecType == codecType;
    ShiftedSize(rest);
  }

  function Shifted(s: set<nat>): set<nat> {
    set i | i in s :: i + 1
  }

  lemma {:induction false} ShiftedSize(s: set<nat>)
    ensures |Shifted(s)| == |s|
  {
    if s != {} {
      var x :| x in s;
      forall i ensures i in Shifted(s) <==> i in Shifted(s - {x}) + {x + 1} {
        if i in Shifted(s) && i != x + 1 { assert i - 1 in s - {x}; }
      }
      assert Shifted(s) == Shifted(s - {x}) + {x + 1};
      assert x + 1 !in Shifted(s - {x});
      ShiftedSize(s - {x});
    }
  }

  /** The report of an export matches its plan exactly when it says the following about the streams. */
  lemma MatchesExactlyWhen(job: ExportJob, r: Report)
    ensures ReportMatches(job, r) <==>
            && "mp4" in r.formats
            && |PlacesOf(r.streams, "video")| == 1
            && |PlacesOf(r.streams, "audio")| == job.plan.audioTrackCount
            && (forall x | x in r.streams && x.codecType == "video" ::
                  && x.codecName == "h264" && x.width == Some(job.plan.rung.width)
                  && x.height == Some(job.plan.rung.height) && x.frameRate == Some(job.plan.rung.fps))
            && (forall x | x in r.streams && x.codecType == "audio" ::
                  && x.codecName == "aac" && x.sampleRate.Some? && x.sampleRate.value > 0
                  && x.channels.Some? && x.channels.value > 0)
            && r.durationUs.Some? && r.durationUs.value > 0
            && -500_000 <= r.durationUs.value - job.plan.durationUs <= 500_000
  {
    StreamsAtPlaces(r.streams, "video");
    StreamsAtPlaces(r.streams, "audio");
    hide StreamsOf, PlacesOf;
    var videos := StreamsOf(r.streams, "video");
    if |videos| == 1 {
      assert videos[0] in videos;
      assert forall x | x in videos :: x == videos[0];
    }
  }
}

/** Path names of an export: the destination, the staged file beside it, and the stage's lock. */
module ExportPaths {
  import opened Text

  function StagePath(destination: string): string {
    destination + ".part"
  }

  function LockPath(destination: string): string {
    StagePath(destination) + ".lock"
  }

  /**
   * The file name has an extension, which a name that is only a dot and a suffix has not, and it is
   * "mp4" in any case.
   */
  predicate HasMp4Extension(path: string) {
    && |path| >= 5 && path[|path| - 5] !in "/\\"
    && path[|path| - 4] == '.' && Lower(path[|path| - 3..]) == "mp4"
  }

  /** A path has the extension exactly when a name, a dot and "mp4" in any case end it. */
  lemma Mp4ExtensionExactlyWhen(stem: string, extension: string)
    requires |extension| == 3
    ensures HasMp4Extension(stem + "." + extension) <==>
            stem != "" && stem[|stem| - 1] != '/' && stem[|stem| - 1] != '\\' && Lower(extension) == "mp4"
  {
    var path := stem + "." + extension;
    assert path[|path| - 3..] == extension && path[|path| - 4] == '.';
    assert stem != "" ==> path[|path| - 5] == stem[|stem| - 1];
  }

  /**
   * A destination is never a staged file or a lock, and different destinations have different staged
   * files and locks.
   */
  lemma PathsApart(a: string, b: string)
    requires HasMp4Extension(a) && HasMp4Extension(b)
    ensures StagePath(a) != b && LockPath(a) != b && LockPath(a) != StagePath(b)
    ensures a != b ==> StagePath(a) != StagePath(b) && LockPath(a) != LockPath(b)
  {
    var s, l := StagePath(a), LockPath(a);
    assert s[|s| - 1] == 't' && l[|l| - 1] == 'k';
    assert Lower(b[|b| - 3..])[2] == LowerChar(b[|b| - 1]) == '4';
    AppendInjective(a, b, ".part");
    AppendInjective(StagePath(a), StagePath(b), ".lock");
    assert StagePath(b)[|StagePath(b)| - 1] == 't';
  }
}

/** One staged export, step by step, on a file store where any operation may fail. */
module StagedExport {
  import opened Common
  import opened Text
  import opened ExportQueueSpec
  import opened ExportProbe
  import opened ExportPaths
  import Planner

  datatype File = File(size: nat, content: nat)

  datatype Platform = Windows | Unix

  /** What running a process gives: no process at all, or its exit flags. */
  datatype Run = AdapterError | Ran(success: bool, cancelled: bool, truncated: bool)

  /** Everything outside the exporter's control during one call. */
  datatype Env = Env(
    platform: Platform,
    cancelled: nat -> bool,          // the token, at each place it is read
    sourceUsable: bool,
    destinationUnreadable: bool,     // the look at the destination fails
    sourceUnresolvable: bool,
    stageDirectoryUnresolvable: bool,
    sourceAliasesStage: bool,        // both resolve to one path
    lockCannotBeCreated: bool,
    oldStageCannotBeRemoved: bool,
    staged: Option<File>,            // what the encoder leaves at the staged path
    appears: map<string, File>,      // what other programs create meanwhile
    encode: Run,
    probe: Run,
    report: Option<Report>,
    packetProbe: Run,
    packets: Option<seq<Packet>>,
    decode: Run,
    linkFails: bool,
    unlinkStageFails: bool,
    rollbackFails: bool,
    guardCannotRemoveStage: bool,
    lockCannotBeRemoved: bool)

  datatype ExportError =
    | InvalidInvocation
    | ExportCancelled
    | SourceUnavailable
    | DestinationExists
    | StageUnavailable
    | ProcessFailed
    | OutputUnavailable
    | EmptyOutput
    | OutputTooLarge
    | MediaInvalid
    | PublishFailed

  datatype ExportResult = ExportResult(destination: string, sizeBytes: nat, durationUs: nat, audioTrackCount: nat)

  /** The checks made before anything is touched. */
  predicate ValidJob(job: ExportJob) {
    && job.sourcePath != "" && job.destinationPath != ""
    && job.sourcePath != job.destinationPath
    && HasMp4Extension(job.destinationPath)
    && job.sourcePath != StagePath(job.destinationPath)
    && job.plan.videoBitrateBps != 0
    && job.plan.rung.width != 0 && job.plan.rung.height != 0 && job.plan.rung.fps != 0
    && (job.plan.audioTrackCount > 0 ==> job.plan.audioBitrateBps != 0)
  }

  /** A job is taken on exactly when its paths are named and apart, and its plan asks for something. */
  lemma JobIsValidExactlyWhen(job: ExportJob)
    ensures ValidJob(job) <==>
            && |job.sourcePath| > 0 && HasMp4Extension(job.destinationPath)
            && job.sourcePath !in {job.destinationPath, job.destinationPath + ".part"}
            && job.plan.videoBitrateBps >= 1
            && job.plan.rung.width >= 1 && job.plan.rung.height >= 1 && job.plan.rung.fps >= 1
            && (job.plan.audioTrackCount == 0 || job.plan.audioBitrateBps >= 1)
  {
  }

  /** The process ended well and nobody asked to stop. */
  predicate Finished(run: Run, cancelled: bool) {
    run.Ran? && run.success && !run.cancelled && !cancelled
  }

  /** Everything a published file has been through. */
  predicate PassedAllChecks(job: ExportJob, env: Env, file: File) {
    && env.staged == Some(file)
    && 0 < file.size <= job.plan.targetBytes
    && Finished(env.encode, env.cancelled(1))
    && Finished(env.probe, env.cancelled(2)) && !env.probe.truncated
    && env.report.Some? && ReportMatches(job, env.report.value)
    && Finished(env.packetProbe, env.cancelled(3)) && !env.packetProbe.truncated
    && env.packets.Some? && env.packets.value != [] && MonotonicByStream(env.packets.value)
    && Finished(env.decode, env.cancelled(4))
  }

  /** All four processes ran to a good end, none of them was stopped or cut short, and what they said is right. */
  lemma ChecksPassExactlyWhen(job: ExportJob, env: Env, file: File)
    ensures PassedAllChecks(job, env, file) <==>
            && env.staged == Some(file) && file.size >= 1 && file.size <= job.plan.targetBytes
            && (forall run | run in {env.encode, env.probe, env.packetProbe, env.decode} ::
                  run.Ran? && run.success && !run.cancelled)
            && !env.probe.truncated && !env.packetProbe.truncated
            && (forall k | 1 <= k <= 4 :: !env.cancelled(k))
            && env.report.Some? && ReportMatches(job, env.report.value)
            && env.packets.Some? && |env.packets.value| > 0 && MonotonicByStream(env.packets.value)
  {
    hide ReportMatches, MonotonicByStream;
  }

  /** The process could not be run, or ended badly, or what it said was cut short. */
  predicate Broken(run: Run) {
    run.AdapterError? || !run.success || run.truncated
  }

  predicate Stopped(run: Run) {
    run.Ran? && run.cancelled
  }

  /** The reason named is true of the run of the encoder, its checks, or the publication. */
  predicate WentWrong(job: ExportJob, env: Env, e: ExportError) {
    match e
    case ExportCancelled =>
      || (exists k | 1 <= k <= 5 :: env.cancelled(k))
      || Stopped(env.encode) || Stopped(env.probe) || Stopped(env.packetProbe) || Stopped(env.decode)
    case ProcessFailed => Broken(env.encode) || Broken(env.probe) || Broken(env.packetProbe) || Broken(env.decode)
    case OutputUnavailable => env.staged.None?
    case EmptyOutput => env.staged.Some? && env.staged.value.size == 0
    case OutputTooLarge => env.staged.Some? && env.staged.value.size > job.plan.targetBytes
    case MediaInvalid =>
      || env.report.None? || !ReportMatches(job, env.report.value)
      || env.packets.None? || env.packets.value == [] || !MonotonicByStream(env.packets.value)
    case PublishFailed =>
      job.destinationPath in env.appears || env.linkFails || (env.platform.Unix? && env.unlinkStageFails)
    case _ => false
  }

  /** The reason named is true of the job, its environment and the files there were. */
  predicate IsTrue(job: ExportJob, env: Env, files: map<string, File>, e: ExportError) {
    var d := job.destinationPath;
    match e
    case InvalidInvocation => !ValidJob(job) || env.sourceAliasesStage
    case SourceUnavailable => !env.sourceUsable || env.sourceUnresolvable
    case DestinationExists => d in files
    case StageUnavailable =>
      || env.destinationUnreadable || env.stageDirectoryUnresolvable || env.lockCannotBeCreated
      || LockPath(d) in files || (StagePath(d) in files && env.oldStageCannotBeRemoved)
    case ExportCancelled => env.cancelled(0) || WentWrong(job, env, e)
    case _ => WentWrong(job, env, e)
  }

  /** Everything before encoding goes well: the job, the source, the destination, the lock and the old stage. */
  predicate Starts(job: ExportJob, env: Env, files: map<string, File>) {
    var d := job.destinationPath;
    && ValidJob(job)
    && !env.cancelled(0) && env.sourceUsable
    && !env.destinationUnreadable && d !in files
    && !env.sourceUnresolvable && !env.stageDirectoryUnresolvable && !env.sourceAliasesStage
    && LockPath(d) !in files && !env.lockCannotBeCreated
    && !(StagePath(d) in files && env.oldStageCannotBeRemoved)
  }

  /** What the encoder left passes every check, and nobody asks to stop. */
  predicate Encodes(job: ExportJob, env: Env) {
    env.staged.Some? && PassedAllChecks(job, env, env.staged.value) && !env.cancelled(5)
  }

  lemma EncodedWell(job: ExportJob, env: Env, file: File)
    requires Encodes(job, env) && PassedAllChecks(job, env, file)
    ensures forall k | 1 <= k <= 5 :: !env.cancelled(k)
    ensures env.report.Some? && env.report.value.durationUs.Some? && file.size <= job.plan.targetBytes
    ensures |StreamsOf(env.report.value.streams, "audio")| == job.plan.audioTrackCount
  {
    hide MonotonicByStream, StreamsOf;
  }

  lemma PublicationWentWrong(job: ExportJob, env: Env, base: map<string, File>)
    requires job.destinationPath in base ==> job.destinationPath in env.appears
    requires job.destinationPath in base || env.linkFails || (env.platform.Unix? && env.unlinkStageFails)
    ensures WentWrong(job, env, PublishFailed) && !Publishes(job, env)
  {
  }

  /** Publishing goes well when no other program made the destination meanwhile. */
  predicate Publishes(job: ExportJob, env: Env) {
    && job.destinationPath !in env.appears
    && !env.linkFails && !(env.platform.Unix? && env.unlinkStageFails)
  }

  /** Publishing left the linked destination behind although it reported failure. */
  predicate HalfPublished(env: Env) {
    env.platform.Unix? && !env.linkFails && env.unlinkStageFails && env.rollbackFails
  }

  const LOCK_FILE: File := File(0, 0)

  class Exporter {
    var files: map<string, File>

    constructor (files: map<string, File>)
      ensures this.files == files
    {
      this.files := files;
    }

    method PrepareStage(destination: string, env: Env) returns (error: Option<ExportError>)
      modifies this
      ensures error.Some? ==> error.value == StageUnavailable
      ensures error.None? <==>
                && LockPath(destination) !in old(files) && !env.lockCannotBeCreated
                && !(StagePath(destination) in old(files) && env.oldStageCannotBeRemoved)
      ensures var s, l := StagePath(destination), LockPath(destination);
              && (error.None? ==> l !in old(files) && files == old(files)[l := LOCK_FILE] - {s})
              && (error.Some? && l in old(files) ==> files == old(files))
              && (error.Some? && l !in old(files) ==>
                    files == if l in files then old(files)[l := LOCK_FILE] else old(files))
              && (error.Some? && l !in old(files) && l in files ==> env.lockCannotBeRemoved)
    {
      var stage, lock := StagePath(destination), LockPath(destination);
      if lock in files || env.lockCannotBeCreated { return Some(StageUnavailable); }
      files := files[lock := LOCK_FILE];
      if stage in files && env.oldStageCannotBeRemoved {
        if !env.lockCannotBeRemoved {
          files := files - {lock};
          assert files == old(files);
        }
        return Some(StageUnavailable);
      }
      files := files - {stage};
      return None;
    }

    /** Encode into the stage and check what came out; only the staged file is written. */
    method EncodeAndCheck(job: ExportJob, env: Env) returns (r: Result<File, ExportError>, progress: seq<nat>)
      requires StagePath(job.destinationPath) !in files && StagePath(job.destinationPath) !in env.appears
      modifies this
      ensures var s := StagePath(job.destinationPath);
              files == (old(files) + env.appears) + if env.staged.Some? then map[s := env.staged.value] else map[]
      ensures r.Ok? <==> env.staged.Some? && PassedAllChecks(job, env, env.staged.value) && !env.cancelled(5)
      ensures r.Ok? ==> env.staged == Some(r.value)
      ensures r.Err? ==> !r.error.PublishFailed? && WentWrong(job, env, r.error)
      ensures progress <= [10, 55, 65, 75] && (r.Ok? ==> progress == [10, 55, 65, 75])
    {
      var stage := StagePath(job.destinationPath);
      progress := [10];
      files := files + env.appears;
      if env.staged.Some? { files := files + map[stage := env.staged.value]; }
      if env.encode.AdapterError? { return Err(ProcessFailed), progress; }
      if env.encode.cancelled || env.cancelled(1) { return Err(ExportCancelled), progress; }
      if !env.encode.success { return Err(ProcessFailed), progress; }
      if stage !in files { return Err(OutputUnavailable), progress; }
      var file := files[stage];
      if file.size == 0 { return Err(EmptyOutput), progress; }
      if file.size > job.plan.targetBytes { return Err(OutputTooLarge), progress; }

      progress := [10, 55];
      if env.probe.AdapterError? { return Err(ProcessFailed), progress; }
      if env.probe.cancelled || env.cancelled(2) { return Err(ExportCancelled), progress; }
      if !env.probe.success || env.probe.truncated { return Err(ProcessFailed), progress; }
      if env.report.None? || !ReportMatches(job, env.report.value) { return Err(MediaInvalid), progress; }

      progress := [10, 55, 65];
      if env.packetProbe.AdapterError? { return Err(ProcessFailed), progress; }
      if env.packetProbe.cancelled || env.cancelled(3) { return Err(ExportCancelled), progress; }
      if !env.packetProbe.success || env.packetProbe.truncated { return Err(ProcessFailed), progress; }
      if env.packets.None? { return Err(MediaInvalid), progress; }
      var verdict := ValidatePacketReport(env.packets.value);
      if !verdict.InOrder? { return Err(MediaInvalid), progress; }

      progress := [10, 55, 65, 75];
      if env.decode.AdapterError? { return Err(ProcessFailed), progress; }
      if env.decode.cancelled || env.cancelled(4) { return Err(ExportCancelled), progress; }
      if !env.decode.success { return Err(ProcessFailed), progress; }

      var final := files[stage];
      if final.size > job.plan.targetBytes { return Err(OutputTooLarge), progress; }
      if env.cancelled(5) { return Err(ExportCancelled), progress; }
      return Ok(final), progress;
    }

    /** Move the staged file to the destination without ever replacing one. */
    method PublishWithoutReplacement(stage: string, destination: string, env: Env) returns (ok: bool)
      requires stage in files && stage != destination
      modifies this
      ensures ok <==> destination !in old(files) && !env.linkFails && !(env.platform.Unix? && env.unlinkStageFails)
      ensures ok ==> files == old(files)[destination := old(files)[stage]] - {stage}
      ensures !ok ==>
                if destination !in old(files) && HalfPublished(env)
                then files == old(files)[destination := old(files)[stage]]
                else files == old(files)
    {
      if destination in files || env.linkFails { return false; }
      if env.platform.Windows? {
        files := files[destination := files[stage]] - {stage};
        return true;
      }
      files := files[destination := files[stage]];
      if env.unlinkStageFails {
        if !env.rollbackFails {
          files := files - {destination};
          assert files == old(files);
        }
        return false;
      }
      files := files - {stage};
      return true;
    }

    /** The guard's drop: clear the stage unless it was published, then the lock. */
    method DropGuard(destination: string, published: bool, env: Env)
      modifies this
      ensures var s, l := StagePath(destination), LockPath(destination);
              files == old(files) - (if published || env.guardCannotRemoveStage then {} else {s})
                                  - (if env.lockCannotBeRemoved then {} else {l})
    {
      if !published && !env.guardCannotRemoveStage { files := files - {StagePath(destination)}; }
      if !env.lockCannotBeRemoved { files := files - {LockPath(destination)}; }
    }

    /** With the lock taken and the stage empty: encode, check, publish, and let the guard clear up. */
    method EncodeAndPublish(job: ExportJob, env: Env) returns (r: Result<File, ExportError>, progress: seq<nat>)
      requires var d := job.destinationPath;
               && d != StagePath(d) && d != LockPath(d) && StagePath(d) != LockPath(d)
               && StagePath(d) !in files && StagePath(d) !in env.appears
      modifies this
      ensures var d, base := job.destinationPath, old(files) + env.appears;
              && (forall p | p !in {d, StagePath(d), LockPath(d)} ::
                    (p in files <==> p in base) && (p in files ==> files[p] == base[p]))
              && (!env.lockCannotBeRemoved ==> LockPath(d) !in files)
              && (r.Ok? ==>
                    && d !in base && d in files && files[d] == r.value
                    && PassedAllChecks(job, env, r.value)
                    && StagePath(d) !in files)
              && (r.Err? ==>
                    || ((d in files <==> d in base) && (d in files ==> files[d] == base[d]))
                    || (r.error.PublishFailed? && HalfPublished(env) && d !in base))
              && (r.Err? && r.error.PublishFailed? && HalfPublished(env) && d !in base ==> d in files)
      ensures r.Err? && job.destinationPath !in old(files) ==> WentWrong(job, env, r.error)
      ensures job.destinationPath !in old(files) ==>
                && (r.Ok? <==> Encodes(job, env) && Publishes(job, env))
                && (Encodes(job, env) && !Publishes(job, env) ==> r == Err(PublishFailed))
      ensures progress <= [10, 55, 65, 75, 98, 100] && (progress == [10, 55, 65, 75, 98, 100] <==> r.Ok?)
    {
      var d := job.destinationPath;
      hide StagePath, LockPath, ReportMatches, MonotonicByStream, PassedAllChecks, WentWrong;
      r, progress := EncodeAndCheck(job, env);
      if r.Err? {
        DropGuard(d, false, env);
        return;
      }
      progress := progress + [98];
      var published := PublishWithoutReplacement(StagePath(d), d, env);
      DropGuard(d, published, env);
      if !published {
        if d !in old(files) { PublicationWentWrong(job, env, old(files) + env.appears); }
        return Err(PublishFailed), progress;
      }
      progress := progress + [100];
    }

    /**
     * One export. `base` is the file store as it would be without this call: as it was, or with
     * what other programs created meanwhile.
     */
    method ExportWithProgress(job: ExportJob, env: Env)
      returns (r: Result<ExportResult, ExportError>, progress: seq<nat>, ghost base: map<string, File>)
      requires StagePath(job.destinationPath) !in env.appears && LockPath(job.destinationPath) !in env.appears
      modifies this
      ensures base == old(files) || base == old(files) + env.appears
      // Nothing but the destination, the stage and its lock is touched.
      ensures forall p | p !in {job.destinationPath, StagePath(job.destinationPath), LockPath(job.destinationPath)} ::
                (p in files <==> p in base) && (p in files ==> files[p] == base[p])
      // Success: a file that passed every check, at a destination that did not exist.
      ensures r.Ok? ==>
                && job.destinationPath !in base
                && job.destinationPath in files
                && PassedAllChecks(job, env, files[job.destinationPath])
                && StagePath(job.destinationPath) !in files
                && r.value.destination == job.destinationPath
                && r.value.sizeBytes == files[job.destinationPath].size <= job.plan.targetBytes
                && r.value.durationUs == env.report.value.durationUs.value
                && r.value.audioTrackCount == job.plan.audioTrackCount
      // Failure: the destination is as it was, unless publishing failed half way and could not be undone.
      ensures r.Err? ==>
                ((job.destinationPath in files <==> job.destinationPath in base)
                 && (job.destinationPath in files ==> files[job.destinationPath] == base[job.destinationPath]))
                || (r.error.PublishFailed? && HalfPublished(env) && job.destinationPath !in base)
      ensures r.Err? && r.error.PublishFailed? && HalfPublished(env) && job.destinationPath !in base ==>
                job.destinationPath in files
      // The reason given is true, and a request to stop beforehand is the reason for a job that is valid.
      ensures r.Err? ==> IsTrue(job, env, old(files), r.error)
      ensures ValidJob(job) && env.cancelled(0) ==> r == Err(ExportCancelled)
      // The lock: someone else's stays, and one this call took is gone, unless it could not be removed.
      ensures LockPath(job.destinationPath) in old(files) ==>
                r.Err? && LockPath(job.destinationPath) in files
                && files[LockPath(job.destinationPath)] == old(files)[LockPath(job.destinationPath)]
      ensures LockPath(job.destinationPath) !in old(files) && !env.lockCannotBeRemoved ==>
                LockPath(job.destinationPath) !in files
      ensures r.Ok? ==> forall k | 0 <= k <= 5 :: !env.cancelled(k)
      // When it succeeds, and when it fails only at the end.
      ensures r.Ok? <==> Starts(job, env, old(files)) && Encodes(job, env) && Publishes(job, env)
      ensures Starts(job, env, old(files)) && Encodes(job, env) && !Publishes(job, env) ==> r == Err(PublishFailed)
      // Progress only moves forward, and is complete exactly on success.
      ensures progress <= [0, 10, 55, 65, 75, 98, 100] && (progress == [0, 10, 55, 65, 75, 98, 100] <==> r.Ok?)
    {
      var d := job.destinationPath;
      base := files;
      progress := [0];
      if !ValidJob(job) { return Err(InvalidInvocation), progress, base; }
      PathsApart(d, d);
      assert LockPath(d) != StagePath(d);
      hide StagePath, LockPath, ValidJob, WentWrong, ReportMatches, Encodes, Publishes, PassedAllChecks;
      if env.cancelled(0) { return Err(ExportCancelled), progress, base; }
      if !env.sourceUsable { return Err(SourceUnavailable), progress, base; }
      if env.destinationUnreadable { return Err(StageUnavailable), progress, base; }
      if d in files { return Err(DestinationExists), progress, base; }
      if env.sourceUnresolvable { return Err(SourceUnavailable), progress, base; }
      if env.stageDirectoryUnresolvable { return Err(StageUnavailable), progress, base; }
      if env.sourceAliasesStage { return Err(InvalidInvocation), progress, base; }
      var prepared := PrepareStage(d, env);
      if prepared.Some? { return Err(prepared.value), progress, base; }

      var file, more := EncodeAndPublish(job, env);
      base := base + env.appears;
      progress := progress + more;
      if file.Err? { return Err(file.error), progress, base; }
      EncodedWell(job, env, file.value);
      var report := env.report.value;
      r := Ok(ExportResult(d, file.value.size, report.durationUs.value, |StreamsOf(report.streams, "audio")|));
    }
  }

  // ---------------------------------------------------------------------------
  // An export that is published by half.

  const SMALL_PLAN: Planner.Plan := Planner.Plan(100, 0, 0, 100, 800, 1_000_000, 0, 0, Planner.Video(640, 360, 30))

  const SMALL_JOB: ExportJob := ExportJob("clip.mp4", "share.mp4", SMALL_PLAN)

  const SMALL_REPORT: Report := Report(
    [Stream("video", "h264", Some(640), Some(360), Some(30), None, None)], ["mov", "mp4"], Some(1_000_000))

  /** Everything succeeds, except unlinking the stage and undoing the link. */
  function HalfPublishing(): Env {
    Env(Unix, _ => false, true, false, false, false, false, false, false, Some(File(50, 7)), map[],
        Ran(true, false, false), Ran(true, false, false), Some(SMALL_REPORT),
        Ran(true, false, false), Some([Packet(0, 0)]), Ran(true, false, false),
        false, true, true, false, false)
  }

  lemma SmallJobEncodes()
    ensures ValidJob(SMALL_JOB) && Encodes(SMALL_JOB, HalfPublishing())
  {
    assert Lower("mp4") == "mp4";
    assert "share.mp4"[|"share.mp4"| - 3..] == "mp4";
    var streams := SMALL_REPORT.streams;
    assert streams[1..] == [];
    assert StreamsOf(streams, "video") == streams && StreamsOf(streams, "audio") == [];
    assert ReportMatches(SMALL_JOB, SMALL_REPORT);
  }

  /** The export reports that publishing failed, and the destination is there. */
  method HalfPublishedExport() returns (r: Result<ExportResult, ExportError>, left: bool)
    ensures r == Err(PublishFailed) && left
  {
    SmallJobEncodes();
    hide StagePath, LockPath, ValidJob, Encodes, PassedAllChecks, ReportMatches;
    var exporter := new Exporter(map[]);
    var progress;
    ghost var base;
    r, progress, base := exporter.ExportWithProgress(SMALL_JOB, HalfPublishing());
    left := SMALL_JOB.destinationPath in exporter.files;
  }
}
