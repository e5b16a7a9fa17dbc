/** The shared millisecond timeline every source timestamp passes through. */
module MediaClock {
  import opened Common

  datatype TimeBase = TimeBase(num: nat, den: nat)

  /** Division that truncates toward zero. */
  function TruncatedDiv(a: int, b: nat): int
    requires b > 0
  {
    if a >= 0 then a / b else -(-a / b)
  }

  predicate ValidTimeBase(b: TimeBase) {
    b.num > 0 && b.den > 0
  }

  function Milliseconds(ticks: int, b: TimeBase): int
    requires ValidTimeBase(b)
  {
    TruncatedDiv(ticks * b.num * 1_000, b.den)
  }

  /** The origin is the first stamp; jumps are judged from the third stamp on. */
  datatype Timeline = Timeline(timeBase: TimeBase, offset: int, accepted: nat, last: int, maxJump: int)

  datatype Discontinuity = Discontinuity(previous: int, next: int, jump: int)

  function FreshTimeline(b: TimeBase, maxJump: int): Timeline {
    Timeline(b, 0, 0, 0, maxJump)
  }

  function ToShared(t: Timeline, ticks: int): (r: Result<(int, Timeline), Discontinuity>)
    requires ValidTimeBase(t.timeBase)
    ensures r.Ok? ==> r.value.1.timeBase == t.timeBase
  {
    var absolute := Milliseconds(ticks, t.timeBase);
    if t.accepted == 0 then Ok((0, t.(offset := absolute, accepted := 1, last := 0))) else
    var shared := absolute - t.offset;
    var jump := shared - t.last;
    if t.accepted >= 2 && (if jump < 0 then -jump else jump) > t.maxJump then
      Err(Discontinuity(t.last, shared, jump))
    else Ok((shared, t.(accepted := t.accepted + 1, last := shared)))
  }

  /** Milliseconds are truncated toward zero, before the origin as after it. */
  lemma MillisecondsTruncate(ticks: int, b: TimeBase)
    requires ValidTimeBase(b)
    ensures var ms, scaled := Milliseconds(ticks, b), ticks * b.num * 1_000;
            && (ticks >= 0 ==> 0 <= ms * b.den <= scaled < ms * b.den + b.den)
            && (ticks <= 0 ==> 0 >= ms * b.den >= scaled > ms * b.den - b.den)
  {
    var scaled := ticks * b.num * 1_000;
    if ticks >= 0 {
      assert scaled >= 0;
      Quotient(scaled, b.den);
    } else {
      assert scaled <= 0;
      Quotient(-scaled, b.den);
      assert (-(-scaled / b.den)) * b.den == -((-scaled / b.den) * b.den);
    }
  }

  lemma Quotient(a: nat, b: nat)
    requires b > 0
    ensures 0 <= a / b * b <= a < a / b * b + b
  {
    assert a == a / b * b + a % b;
  }
}
