/**
 * The target-byte export planner: a chain of checked 128-bit operations, proved against
 * the plan that exact arithmetic gives.
 */
module Planner {
  import opened Common

  const BITS_PER_BYTE: nat := 8
  const MICROS_PER_SECOND: nat := 1_000_000
  const BIT_MICROS: nat := 8_000_000

  datatype TargetSize = Small | Medium | Large | Custom(bytes: nat)

  function TargetBytes(t: TargetSize): nat {
    match t
    case Small => 20_000_000
    case Medium => 50_000_000
    case Large => 500_000_000
    case Custom(bytes) => bytes
  }

  datatype Video = Video(width: nat, height: nat, fps: nat)

  datatype Request = Request(
    target: TargetSize,
    durationUs: nat,
    audioBitrateBps: nat,
    audioTrackCount: nat,
    ratioNumerator: nat,
    ratioDenominator: nat,
    fixedReserveBytes: nat,
    videoBitrateFloorBps: nat,
    source: Video)

  /** The widths of the request's fields. */
  predicate InRange(q: Request) {
    && TargetBytes(q.target) <= U64_MAX
    && q.durationUs <= U64_MAX
    && q.audioBitrateBps <= U64_MAX
    && q.audioTrackCount <= U32_MAX
    && q.ratioNumerator <= U64_MAX
    && q.ratioDenominator <= U64_MAX
    && q.fixedReserveBytes <= U64_MAX
    && q.videoBitrateFloorBps <= U64_MAX
  }

  datatype Plan = Plan(
    targetBytes: nat,
    reserveBytes: nat,
    audioBytes: nat,
    videoBudgetBytes: nat,
    videoBitrateBps: nat,
    durationUs: nat,
    audioTrackCount: nat,
    audioBitrateBps: nat,
    rung: Video)

  /** The checked operations, in the order they are evaluated. */
  datatype Operation =
    | MultiplyReserveRatio | RoundReserve | AddFixedReserve | SubtractReserve
    | MultiplyAudioDuration | MultiplyTrackCount | RoundAudio | SubtractAudio
    | BudgetToBits | BudgetToRate | BitrateToU64 | ReserveToU64 | AudioToU64 | BudgetToU64

  datatype PlannerError =
    | ZeroDuration
    | InvalidTarget
    | InvalidReserveRatio
    | ReserveExceedsTarget(reserved: nat)
    | ArithmeticOverflow(operation: Operation)
    | ImpossibleAudioBudget(audio: nat, available: nat)
    | NoFeasibleRung(available: nat)

  type Checked = Result<nat, PlannerError>

  function CheckedMul(a: nat, b: nat, op: Operation): Checked {
    if a * b > U128_MAX then Err(ArithmeticOverflow(op)) else Ok(a * b)
  }

  function CheckedAdd(a: nat, b: nat, op: Operation): Checked {
    if a + b > U128_MAX then Err(ArithmeticOverflow(op)) else Ok(a + b)
  }

  function CheckedSub(a: nat, b: nat, op: Operation): Checked {
    if a < b then Err(ArithmeticOverflow(op)) else Ok(a - b)
  }

  function CheckedCeilDiv(a: nat, b: nat, op: Operation): Checked {
    if b == 0 then Err(ArithmeticOverflow(op))
    else if a % b == 0 then Ok(a / b)
    else CheckedAdd(a / b, 1, op)
  }

  function ToU64(a: nat, op: Operation): Checked {
    if a > U64_MAX then Err(ArithmeticOverflow(op)) else Ok(a)
  }

  predicate SupportsNoUpscale(rung: Video, source: Video) {
    && rung.width > 0 && rung.height > 0 && rung.fps > 0
    && rung.width <= source.width && rung.height <= source.height && rung.fps <= source.fps
  }

  /** The first rung of the ladder that does not upscale the source. */
  function SelectRung(ladder: seq<Video>, source: Video): Option<Video> {
    if ladder == [] then None
    else if SupportsNoUpscale(ladder[0], source) then Some(ladder[0])
    else SelectRung(ladder[1..], source)
  }

  /** The place of the selected rung: no larger than the source, where every rung declared before it is, or empty. */
  lemma {:induction false} SelectedRungIsFirst(ladder: seq<Video>, source: Video) returns (at: nat)
    ensures at <= |ladder|
    ensures forall j | 0 <= j < at ::
              || ladder[j].width == 0 || ladder[j].height == 0 || ladder[j].fps == 0
              || ladder[j].width > source.width || ladder[j].height > source.height || ladder[j].fps > source.fps
    ensures SelectRung(ladder, source).None? <==> at == |ladder|
    ensures SelectRung(ladder, source).Some? ==>
              && ladder[at] == SelectRung(ladder, source).value
              && 0 < ladder[at].width <= source.width
              && 0 < ladder[at].height <= source.height
              && 0 < ladder[at].fps <= source.fps
  {
    at := 0;
    if ladder != [] && !SupportsNoUpscale(ladder[0], source) {
      var next := SelectedRungIsFirst(ladder[1..], source);
      at := next + 1;
      assert forall j | 1 <= j < |ladder| :: ladder[j] == ladder[1..][j - 1];
    }
  }

  function MakePlan(ladder: seq<Video>, q: Request): Result<Plan, PlannerError> {
    if q.durationUs == 0 then Err(ZeroDuration) else
    var target := TargetBytes(q.target);
    if target == 0 then Err(InvalidTarget) else
    if q.ratioDenominator == 0 || q.ratioNumerator > q.ratioDenominator then Err(InvalidReserveRatio) else
    match CheckedMul(target, q.ratioNumerator, MultiplyReserveRatio)
    case Err(e) => Err(e)
    case Ok(ratioNumerator) =>
    match CheckedCeilDiv(ratioNumerator, q.ratioDenominator, RoundReserve)
    case Err(e) => Err(e)
    case Ok(ratioBytes) =>
    match CheckedAdd(ratioBytes, q.fixedReserveBytes, AddFixedReserve)
    case Err(e) => Err(e)
    case Ok(reserved) =>
    if reserved > target then Err(ReserveExceedsTarget(reserved)) else
    match CheckedSub(target, reserved, SubtractReserve)
    case Err(e) => Err(e)
    case Ok(available) => PlanMedia(ladder, q, target, reserved, available)
  }

  function PlanMedia(
      ladder: seq<Video>, q: Request, target: nat, reserved: nat, available: nat): Result<Plan, PlannerError>
    requires q.durationUs != 0
  {
    match CheckedMul(q.audioBitrateBps, q.durationUs, MultiplyAudioDuration)
    case Err(e) => Err(e)
    case Ok(perTrack) =>
    match CheckedMul(perTrack, q.audioTrackCount, MultiplyTrackCount)
    case Err(e) => Err(e)
    case Ok(audioNumerator) =>
    match CheckedCeilDiv(audioNumerator, BITS_PER_BYTE * MICROS_PER_SECOND, RoundAudio)
    case Err(e) => Err(e)
    case Ok(audio) =>
    if audio > available then Err(ImpossibleAudioBudget(audio, available)) else
    match CheckedSub(available, audio, SubtractAudio)
    case Err(e) => Err(e)
    case Ok(budget) => PlanVideo(ladder, q, target, reserved, audio, budget)
  }

  function PlanVideo(
      ladder: seq<Video>, q: Request, target: nat, reserved: nat, audio: nat, budget: nat): Result<Plan, PlannerError>
    requires q.durationUs != 0
  {
    match CheckedMul(budget, BITS_PER_BYTE, BudgetToBits)
    case Err(e) => Err(e)
    case Ok(bits) =>
    match CheckedMul(bits, MICROS_PER_SECOND, BudgetToRate)
    case Err(e) => Err(e)
    case Ok(videoNumerator) =>
    var rate := videoNumerator / q.durationUs;
    match SelectRung(ladder, q.source)
    case None => Err(NoFeasibleRung(rate))
    case Some(rung) =>
    if rate == 0 || rate < q.videoBitrateFloorBps then Err(NoFeasibleRung(rate)) else
    match ToU64(rate, BitrateToU64)
    case Err(e) => Err(e)
    case Ok(bitrate) =>
    match ToU64(reserved, ReserveToU64)
    case Err(e) => Err(e)
    case Ok(reserveBytes) =>
    match ToU64(audio, AudioToU64)
    case Err(e) => Err(e)
    case Ok(audioBytes) =>
    match ToU64(budget, BudgetToU64)
    case Err(e) => Err(e)
    case Ok(budgetBytes) =>
      Ok(Plan(target, reserveBytes, audioBytes, budgetBytes, bitrate,
              q.durationUs, q.audioTrackCount, q.audioBitrateBps, rung))
  }

  // ---------------------------------------------------------------------------
  // Exact arithmetic.

  /** The smallest integer that is at least `a / b`. */
  function CeilDiv(a: nat, b: nat): (c: nat)
    requires b != 0
    ensures a <= c * b < a + b
  {
    (a + b - 1) / b
  }

  lemma CheckedCeilDivIsCeilDiv(a: nat, b: nat, op: Operation)
    requires b != 0 && a <= U128_MAX
    ensures CheckedCeilDiv(a, b, op) ==
            if a % b != 0 && a / b == U128_MAX then Err(ArithmeticOverflow(op)) else Ok(CeilDiv(a, b))
  {
    var q, r := a / b, a % b;
    assert a == q * b + r;
    DivBounded(a, b);
    if r == 0 {
      assert a + b - 1 == q * b + (b - 1);
      DivUnique(a + b - 1, b, q, b - 1);
    } else {
      assert (q + 1) * b == q * b + b;
      assert a + b - 1 == (q + 1) * b + (r - 1);
      DivUnique(a + b - 1, b, q + 1, r - 1);
    }
  }

  lemma MulMinus(a: int, b: int, c: int)
    ensures (a - b) * c == a * c - b * c
  {
  }

  lemma DivBounded(a: nat, b: nat)
    requires b != 0
    ensures a / b <= a
  {
    MulMonotone(1, b, a / b);
  }

  lemma SmallMultiple(d: int, b: nat)
    requires d * b < b && d * b + b > 0
    ensures d == 0
  {
    assert d >= 1 ==> d * b >= b;
    assert d <= -1 ==> d * b + b <= 0;
  }

  lemma DivUnique(a: nat, b: nat, q: nat, r: nat)
    requires b != 0 && a == q * b + r && r < b
    ensures a / b == q
  {
    var d := a / b - q;
    assert a == (a / b) * b + a % b;
    assert (a / b) * b - q * b == d * b;
    assert d * b == r - a % b;
    SmallMultiple(d, b);
  }

  function Reserve(q: Request): nat
    requires q.ratioDenominator != 0
  {
    CeilDiv(TargetBytes(q.target) * q.ratioNumerator, q.ratioDenominator) + q.fixedReserveBytes
  }

  function AudioBits(q: Request): nat {
    q.audioBitrateBps * q.durationUs * q.audioTrackCount
  }

  function Audio(q: Request): nat {
    CeilDiv(AudioBits(q), BIT_MICROS)
  }

  function Budget(q: Request): int
    requires q.ratioDenominator != 0
  {
    TargetBytes(q.target) - Reserve(q) - Audio(q)
  }

  /** The bitrate whose whole duration fits the budget. */
  function Bitrate(q: Request): nat
    requires q.ratioDenominator != 0 && q.durationUs != 0 && Budget(q) >= 0
  {
    Budget(q) * BIT_MICROS / q.durationUs
  }

  predicate WellPosed(q: Request) {
    q.durationUs != 0 && TargetBytes(q.target) != 0 && q.ratioDenominator != 0 && q.ratioNumerator <= q.ratioDenominator
  }

  /** The reserve and the audio fit the target. */
  predicate Affordable(q: Request)
    requires q.ratioDenominator != 0
  {
    Reserve(q) <= TargetBytes(q.target) && Budget(q) >= 0
  }

  lemma ProductsFit(a: nat, b: nat)
    requires a <= U64_MAX && b <= U64_MAX
    ensures a * b <= U64_MAX * U64_MAX <= U128_MAX - 2 * U64_MAX
  {
    MulMonotone(a, U64_MAX, b);
    assert U64_MAX * b <= U64_MAX * U64_MAX;
  }

  lemma ReserveBound(q: Request)
    requires InRange(q) && WellPosed(q)
    ensures CeilDiv(TargetBytes(q.target) * q.ratioNumerator, q.ratioDenominator) <= TargetBytes(q.target)
  {
    var t, n, d := TargetBytes(q.target), q.ratioNumerator, q.ratioDenominator;
    var c := CeilDiv(t * n, d);
    MulMonotone(n, d, t);
    if c > t {
      MulMonotone(t + 1, c, d);
      MulMinus(t + 1, 1, d);
    }
  }

  /** The reserve arithmetic never overflows. */
  lemma ReserveStage(ladder: seq<Video>, q: Request)
    requires InRange(q) && WellPosed(q)
    ensures MakePlan(ladder, q) ==
            if Reserve(q) > TargetBytes(q.target) then Err(ReserveExceedsTarget(Reserve(q)))
            else PlanMedia(ladder, q, TargetBytes(q.target), Reserve(q), TargetBytes(q.target) - Reserve(q))
  {
    hide PlanMedia, CheckedCeilDiv, CeilDiv;
    var t, n, d := TargetBytes(q.target), q.ratioNumerator, q.ratioDenominator;
    ProductsFit(t, n);
    DivBounded(t * n, d);
    CheckedCeilDivIsCeilDiv(t * n, d, RoundReserve);
    ReserveBound(q);
  }

  /** The audio arithmetic overflows at the track-count product only. */
  lemma AudioStage(ladder: seq<Video>, q: Request, target: nat, reserved: nat, available: nat)
    requires InRange(q) && q.durationUs != 0
    ensures PlanMedia(ladder, q, target, reserved, available) ==
            if AudioBits(q) > U128_MAX then Err(ArithmeticOverflow(MultiplyTrackCount))
            else if Audio(q) > available then Err(ImpossibleAudioBudget(Audio(q), available))
            else PlanVideo(ladder, q, target, reserved, Audio(q), available - Audio(q))
  {
    hide PlanVideo, CheckedCeilDiv, CeilDiv;
    ProductsFit(q.audioBitrateBps, q.durationUs);
    if AudioBits(q) <= U128_MAX {
      CheckedCeilDivIsCeilDiv(AudioBits(q), BIT_MICROS, RoundAudio);
      assert AudioBits(q) / BIT_MICROS < U128_MAX;
    }
  }

  /** The video arithmetic overflows at the bitrate conversion only. */
  lemma VideoStage(ladder: seq<Video>, q: Request, target: nat, reserved: nat, audio: nat, budget: nat)
    requires InRange(q) && q.durationUs != 0
    requires reserved <= U64_MAX && audio <= U64_MAX && budget <= U64_MAX
    ensures var rate := budget * BIT_MICROS / q.durationUs;
            var rung := SelectRung(ladder, q.source);
            PlanVideo(ladder, q, target, reserved, audio, budget) ==
            if rung.None? || rate == 0 || rate < q.videoBitrateFloorBps then Err(NoFeasibleRung(rate))
            else if rate > U64_MAX then Err(ArithmeticOverflow(BitrateToU64))
            else Ok(Plan(target, reserved, audio, budget, rate,
                         q.durationUs, q.audioTrackCount, q.audioBitrateBps, rung.value))
  {
    hide SelectRung;
    assert budget * BITS_PER_BYTE * MICROS_PER_SECOND == budget * BIT_MICROS;
  }

  /** The checked chain computes the exact plan, and fails for exactly the reasons exact arithmetic gives. */
  lemma PlanIsExact(ladder: seq<Video>, q: Request)
    requires InRange(q)
    ensures MakePlan(ladder, q).Ok? <==>
            && WellPosed(q) && AudioBits(q) <= U128_MAX && Affordable(q)
            && SelectRung(ladder, q.source).Some?
            && 1 <= Bitrate(q) <= U64_MAX && q.videoBitrateFloorBps <= Bitrate(q)
    ensures MakePlan(ladder, q).Ok? ==>
            MakePlan(ladder, q).value == Plan(
              TargetBytes(q.target), Reserve(q), Audio(q), Budget(q), Bitrate(q),
              q.durationUs, q.audioTrackCount, q.audioBitrateBps, SelectRung(ladder, q.source).value)
  {
    hide MakePlan, PlanMedia, PlanVideo, SelectRung, CeilDiv;
    if WellPosed(q) {
      var target, reserved := TargetBytes(q.target), Reserve(q);
      ReserveStage(ladder, q);
      if reserved <= target {
        AudioStage(ladder, q, target, reserved, target - reserved);
        if AudioBits(q) <= U128_MAX && Audio(q) <= target - reserved {
          VideoStage(ladder, q, target, reserved, Audio(q), Budget(q));
        }
      }
    } else {
      IllPosedFails(ladder, q);
    }
  }

  lemma IllPosedFails(ladder: seq<Video>, q: Request)
    requires !WellPosed(q)
    ensures MakePlan(ladder, q) == Err(
              if q.durationUs == 0 then ZeroDuration
              else if TargetBytes(q.target) == 0 then InvalidTarget
              else InvalidReserveRatio)
  {
  }

  /** A request refused for what it asks, each reason under its exact condition, in the order of precedence. */
  lemma SenselessRequestsAreRefused(ladder: seq<Video>, q: Request)
    requires InRange(q)
    ensures var r, t := MakePlan(ladder, q), TargetBytes(q.target);
            && (r == Err(ZeroDuration) <==> q.durationUs == 0)
            && (r == Err(InvalidTarget) <==> q.durationUs > 0 && t == 0)
            && (r == Err(InvalidReserveRatio) <==>
                  q.durationUs > 0 && t > 0 && (q.ratioDenominator == 0 || q.ratioNumerator > q.ratioDenominator))
  {
    hide MakePlan, PlanMedia, PlanVideo, SelectRung, CeilDiv;
    if WellPosed(q) {
      BudgetRefusalsExactlyWhen(ladder, q);
    } else {
      IllPosedFails(ladder, q);
    }
  }

  /** Reserve and audio are the least whole bytes that hold what was asked for. */
  lemma ReserveAndAudioAreLeast(q: Request)
    requires q.ratioDenominator != 0
    ensures TargetBytes(q.target) * q.ratioNumerator <= (Reserve(q) - q.fixedReserveBytes) * q.ratioDenominator
            < TargetBytes(q.target) * q.ratioNumerator + q.ratioDenominator
    ensures var audioBits := q.audioBitrateBps * q.durationUs * q.audioTrackCount;
            audioBits <= Audio(q) * 8_000_000 < audioBits + 8_000_000
    ensures Budget(q) == TargetBytes(q.target) - Reserve(q) - Audio(q)
    ensures Budget(q) >= 0 && q.durationUs != 0 ==> Bitrate(q) == Budget(q) * 8_000_000 / q.durationUs
  {
    hide CeilDiv;
  }

  /** A request refused for its budget, each reason under its exact condition, in the order of precedence. */
  lemma BudgetRefusalsExactlyWhen(ladder: seq<Video>, q: Request)
    requires InRange(q) && q.durationUs > 0 && TargetBytes(q.target) > 0
    requires q.ratioDenominator > 0 && q.ratioNumerator <= q.ratioDenominator
    ensures var r, t := MakePlan(ladder, q), TargetBytes(q.target);
            var audioBits := q.audioBitrateBps * q.durationUs * q.audioTrackCount;
            var counted := audioBits < 0x1_0000_0000_0000_0000_0000_0000_0000_0000;
            && (forall n :: r == Err(ReserveExceedsTarget(n)) <==> n == Reserve(q) && Reserve(q) > t)
            && (forall a, m :: r == Err(ImpossibleAudioBudget(a, m)) <==>
                  Reserve(q) <= t && counted && a == Audio(q) && m == t - Reserve(q) && Audio(q) > m)
            && (forall n :: r == Err(NoFeasibleRung(n)) <==>
                  && Reserve(q) <= t && counted && Reserve(q) + Audio(q) <= t && n == Bitrate(q)
                  && (Bitrate(q) < 1 || Bitrate(q) < q.videoBitrateFloorBps || SelectRung(ladder, q.source).None?))
    ensures !MakePlan(ladder, q).Err?
            || MakePlan(ladder, q).error !in {ZeroDuration, InvalidTarget, InvalidReserveRatio}
  {
    hide MakePlan, PlanMedia, PlanVideo, SelectRung, CeilDiv;
    var target, reserved := TargetBytes(q.target), Reserve(q);
    ReserveStage(ladder, q);
    if reserved <= target {
      AudioStage(ladder, q, target, reserved, target - reserved);
      if AudioBits(q) <= U128_MAX && Audio(q) <= target - reserved {
        VideoStage(ladder, q, target, reserved, Audio(q), Budget(q));
      }
    }
  }

  /** Only two of the fourteen checked operations can report an overflow, each under its exact condition. */
  lemma OnlyTwoOverflows(ladder: seq<Video>, q: Request, op: Operation)
    requires InRange(q)
    ensures MakePlan(ladder, q) == Err(ArithmeticOverflow(op)) <==>
            && WellPosed(q) && Reserve(q) <= TargetBytes(q.target)
            && ((op == MultiplyTrackCount && AudioBits(q) > U128_MAX)
                || (op == BitrateToU64 && AudioBits(q) <= U128_MAX && Affordable(q)
                    && SelectRung(ladder, q.source).Some?
                    && q.videoBitrateFloorBps <= U64_MAX < Bitrate(q)))
  {
    hide MakePlan, PlanMedia, PlanVideo, SelectRung, CeilDiv;
    if WellPosed(q) {
      var target, reserved := TargetBytes(q.target), Reserve(q);
      ReserveStage(ladder, q);
      if reserved <= target {
        AudioStage(ladder, q, target, reserved, target - reserved);
        if AudioBits(q) <= U128_MAX && Audio(q) <= target - reserved {
          VideoStage(ladder, q, target, reserved, Audio(q), Budget(q));
        }
      }
    } else {
      IllPosedFails(ladder, q);
    }
  }

  /** Both overflows do occur. */
  lemma BothOverflowsReachable(rung: Video)
    requires rung.width > 0 && rung.height > 0 && rung.fps > 0
    ensures exists q :: InRange(q) && MakePlan([rung], q) == Err(ArithmeticOverflow(MultiplyTrackCount))
    ensures exists q :: InRange(q) && MakePlan([rung], q) == Err(ArithmeticOverflow(BitrateToU64))
  {
    var tracks := Request(Custom(1), U64_MAX, U64_MAX, U32_MAX, 0, 1, 0, 0, rung);
    assert CeilDiv(0, 1) == 0;
    OnlyTwoOverflows([rung], tracks, MultiplyTrackCount);
    assert InRange(tracks) && MakePlan([rung], tracks) == Err(ArithmeticOverflow(MultiplyTrackCount));
    var rate := Request(Custom(U64_MAX), 1, 0, 0, 0, 1, 0, 0, rung);
    assert CeilDiv(0, BIT_MICROS) == 0;
    assert SelectRung([rung], rung).Some? by { assert SupportsNoUpscale([rung][0], rung); }
    OnlyTwoOverflows([rung], rate, BitrateToU64);
    assert InRange(rate) && MakePlan([rung], rate) == Err(ArithmeticOverflow(BitrateToU64));
  }

  /**
   * An accepted plan spends its target exactly; each rounding is the tightest possible; the
   * bitrate is the largest whose whole duration fits the budget; the rung is the first that is no
   * larger than the source in any dimension.
   */
  lemma PlanSpendsTarget(ladder: seq<Video>, q: Request)
    requires InRange(q) && MakePlan(ladder, q).Ok?
    ensures var p := MakePlan(ladder, q).value;
            && p.reserveBytes + p.audioBytes + p.videoBudgetBytes == p.targetBytes == TargetBytes(q.target)
            && (var ratio := p.reserveBytes - q.fixedReserveBytes;
                p.targetBytes * q.ratioNumerator <= ratio * q.ratioDenominator
                < p.targetBytes * q.ratioNumerator + q.ratioDenominator)
            && (var audioBits := q.audioBitrateBps * q.durationUs * q.audioTrackCount;
                audioBits <= p.audioBytes * 8_000_000 < audioBits + 8_000_000)
            && p.videoBitrateBps >= 1 && p.videoBitrateBps >= q.videoBitrateFloorBps
            && (match q.target
                case Small => p.targetBytes == 20_000_000
                case Medium => p.targetBytes == 50_000_000
                case Large => p.targetBytes == 500_000_000
                case Custom(bytes) => p.targetBytes == bytes)
            && p.durationUs == q.durationUs
            && p.audioTrackCount == q.audioTrackCount && p.audioBitrateBps == q.audioBitrateBps
    ensures forall b: nat ::
              b * q.durationUs <= MakePlan(ladder, q).value.videoBudgetBytes * 8_000_000
              <==> b <= MakePlan(ladder, q).value.videoBitrateBps
    ensures var rung := MakePlan(ladder, q).value.rung;
            && 0 < rung.width <= q.source.width
            && 0 < rung.height <= q.source.height
            && 0 < rung.fps <= q.source.fps
            && exists i | 0 <= i < |ladder| ::
                 && ladder[i] == rung
                 && forall j | 0 <= j < i ::
                      || ladder[j].width == 0 || ladder[j].height == 0 || ladder[j].fps == 0
                      || ladder[j].width > q.source.width || ladder[j].height > q.source.height
                      || ladder[j].fps > q.source.fps
  {
    hide MakePlan, CeilDiv, SelectRung;
    PlanIsExact(ladder, q);
    var p := MakePlan(ladder, q).value;
    var at := SelectedRungIsFirst(ladder, q.source);
    assert ladder[at] == p.rung;
    forall b: nat
      ensures b * q.durationUs <= p.videoBudgetBytes * BIT_MICROS <==> b <= p.videoBitrateBps
    {
      LargestQuotient(p.videoBudgetBytes * BIT_MICROS, q.durationUs, b);
    }
  }

  lemma LargestQuotient(a: nat, b: nat, x: nat)
    requires b != 0
    ensures x * b <= a <==> x <= a / b
  {
    var q := a / b;
    assert a == q * b + a % b;
    if x <= q {
      MulMonotone(x, q, b);
    } else {
      MulMonotone(q + 1, x, b);
      MulMinus(q + 1, 1, b);
    }
  }

  /** What is left after the ratio reserve never shrinks when the target grows. */
  lemma RemainderMonotone(s: nat, t: nat, n: nat, d: nat)
    requires s <= t && n <= d && d != 0
    ensures s - CeilDiv(s * n, d) <= t - CeilDiv(t * n, d)
  {
    hide CeilDiv;
    var x, y := CeilDiv(s * n, d), CeilDiv(t * n, d);
    MulMinus(y, x, d);
    MulMinus(t, s, n);
    MulMonotone(n, d, t - s);
    MulMinus(t - s + 1, 1, d);
    assert (y - x) * d < (t - s + 1) * d;
    SmallerFactor(y - x, t - s + 1, d);
  }

  lemma SmallerFactor(a: int, b: int, c: nat)
    requires a * c < b * c
    ensures a < b
  {
    OrderedProducts(b, a, c);
  }

  lemma OrderedProducts(a: int, b: int, c: nat)
    ensures a <= b ==> a * c <= b * c
  {
    if a <= b { MulMonotone(a, b, c); }
  }

  /** A larger target never plans a lower bitrate. */
  lemma BitrateMonotone(ladder: seq<Video>, q: Request, larger: TargetSize)
    requires InRange(q) && InRange(q.(target := larger))
    requires TargetBytes(q.target) <= TargetBytes(larger)
    requires MakePlan(ladder, q).Ok? && MakePlan(ladder, q.(target := larger)).Ok?
    ensures MakePlan(ladder, q).value.videoBitrateBps <= MakePlan(ladder, q.(target := larger)).value.videoBitrateBps
  {
    hide MakePlan, CeilDiv, SelectRung;
    var r := q.(target := larger);
    PlanIsExact(ladder, q);
    PlanIsExact(ladder, r);
    RemainderMonotone(TargetBytes(q.target), TargetBytes(larger), q.ratioNumerator, q.ratioDenominator);
    assert Audio(q) == Audio(r);
    LargestQuotient(Budget(q) * BIT_MICROS, q.durationUs, Bitrate(q));
    LargestQuotient(Budget(r) * BIT_MICROS, q.durationUs, Bitrate(q));
  }

  /** Raising the target of an accepted plan never makes it fail, short of a bitrate beyond 64 bits. */
  lemma LargerTargetStillPlans(ladder: seq<Video>, q: Request, larger: TargetSize)
    requires InRange(q) && InRange(q.(target := larger))
    requires TargetBytes(q.target) <= TargetBytes(larger)
    requires MakePlan(ladder, q).Ok?
    ensures var r := q.(target := larger);
            MakePlan(ladder, r).Ok? || MakePlan(ladder, r) == Err(ArithmeticOverflow(BitrateToU64))
  {
    hide MakePlan, CeilDiv, SelectRung;
    var r := q.(target := larger);
    PlanIsExact(ladder, q);
    PlanIsExact(ladder, r);
    OnlyTwoOverflows(ladder, r, BitrateToU64);
    RemainderMonotone(TargetBytes(q.target), TargetBytes(larger), q.ratioNumerator, q.ratioDenominator);
    assert Audio(q) == Audio(r);
    LargestQuotient(Budget(q) * BIT_MICROS, q.durationUs, Bitrate(q));
    LargestQuotient(Budget(r) * BIT_MICROS, q.durationUs, Bitrate(q));
  }
}
