/** Which encoder backends are compatible, and in which order they are tried. */
module EncoderRanking {
  import opened Common
  import opened Sorting
  import Text
  import Patterns

  datatype Capabilities = Capabilities(
    backendName: string,
    codec: string,
    hardwareAccelerated: bool,
    maxWidth: nat,
    maxHeight: nat,
    supportedFps: seq<nat>,
    pixelFormats: seq<string>)

  datatype Candidate = Candidate(id: string, capabilities: Capabilities)

  datatype Config = Config(
    codec: string,
    width: nat,
    height: nat,
    fps: nat,
    bitrateKbps: Option<nat>,
    presetLevel: nat,
    keyframeIntervalSeconds: real,
    pixelFormat: string)

  datatype Preference = Auto | HardwareOnly | SoftwareOnly

  predicate EqIgnoreCase(a: string, b: string) {
    Text.Lower(a) == Text.Lower(b)
  }

  function NormalizeCodec(codec: string): string {
    if EqIgnoreCase(codec, "avc") || EqIgnoreCase(codec, "h264") || EqIgnoreCase(codec, "avc1") then "avc"
    else if EqIgnoreCase(codec, "hevc") || EqIgnoreCase(codec, "h265") || EqIgnoreCase(codec, "hvc1") then "hevc"
    else if EqIgnoreCase(codec, "av1") || EqIgnoreCase(codec, "av01") then "av1"
    else codec
  }

  predicate ValidConfig(c: Config) {
    && c.width != 0 && c.height != 0
    && c.width % 2 == 0 && c.height % 2 == 0
    && c.fps in {30, 60, 120}
    && NormalizeCodec(c.codec) in {"avc", "hevc", "av1"}
    && c.keyframeIntervalSeconds > 0.0
    && c.presetLevel <= 5
    && c.bitrateKbps != Some(0)
  }

  predicate Supports(k: Capabilities, c: Config) {
    && EqIgnoreCase(NormalizeCodec(k.codec), NormalizeCodec(c.codec))
    && k.maxWidth >= c.width
    && k.maxHeight >= c.height
    && c.fps in k.supportedFps
    && c.pixelFormat in k.pixelFormats
  }

  datatype Vendor = Nvidia | Amd | Intel | GenericHardware | Software | Unknown

  function VendorOf(k: Capabilities): Vendor {
    var name := Text.Lower(k.backendName);
    if Patterns.Contains(name, "nvidia") || Patterns.Contains(name, "nvenc") then Nvidia
    else if Patterns.Contains(name, "amd") || Patterns.Contains(name, "amf")
        || Patterns.Contains(name, "radeon") then Amd
    else if Patterns.Contains(name, "intel") || Patterns.Contains(name, "qsv") then Intel
    else if k.hardwareAccelerated then GenericHardware
    else if Patterns.Contains(name, "software") || Patterns.Contains(name, "sw") then Software
    else Unknown
  }

  function Rank(v: Vendor): nat {
    match v
    case Nvidia => 0
    case Amd => 1
    case Intel => 2
    case GenericHardware => 3
    case Unknown => 4
    case Software => 5
  }

  predicate Eligible(k: Candidate, c: Config, preference: Preference) {
    && Supports(k.capabilities, c)
    && match preference
       case Auto => true
       case HardwareOnly => k.capabilities.hardwareAccelerated
       case SoftwareOnly => !k.capabilities.hardwareAccelerated
  }

  function Eligibles(ks: seq<Candidate>, c: Config, preference: Preference): seq<Candidate> {
    if ks == [] then [] else
    Eligibles(ks[..|ks| - 1], c, preference)
    + if Eligible(ks[|ks| - 1], c, preference) then [ks[|ks| - 1]] else []
  }

  /** Hardware first, then vendor, then backend name, then identifier. */
  predicate RankLe(a: Candidate, b: Candidate) {
    var x, y := a.capabilities, b.capabilities;
    if x.hardwareAccelerated != y.hardwareAccelerated then x.hardwareAccelerated
    else if Rank(VendorOf(x)) != Rank(VendorOf(y)) then Rank(VendorOf(x)) < Rank(VendorOf(y))
    else if x.backendName != y.backendName then StringLe(x.backendName, y.backendName)
    else StringLe(a.id, b.id)
  }

  function RankCandidates(ks: seq<Candidate>, c: Config, preference: Preference): seq<Candidate> {
    StableSort(RankLe, Eligibles(ks, c, preference))
  }

  lemma RankLeIsTotalPreorder()
    ensures TotalPreorder(RankLe)
  {
    hide VendorOf, Rank, StringLe;
    forall a, b ensures RankLe(a, b) || RankLe(b, a) {
      StringLeTotal(a.capabilities.backendName, b.capabilities.backendName);
      StringLeTotal(a.id, b.id);
    }
    forall a, b, c | RankLe(a, b) && RankLe(b, c) ensures RankLe(a, c) {
      RankLeTransitive(a, b, c);
    }
  }

  lemma RankLeTransitive(a: Candidate, b: Candidate, c: Candidate)
    requires RankLe(a, b) && RankLe(b, c)
    ensures RankLe(a, c)
  {
    hide VendorOf, Rank, StringLe;
    var x, y, z := a.capabilities, b.capabilities, c.capabilities;
    StringLeTotal(x.backendName, y.backendName);
    if StringLe(x.backendName, y.backendName) && StringLe(y.backendName, z.backendName) {
      StringLeTransitive(x.backendName, y.backendName, z.backendName);
    }
    if StringLe(a.id, b.id) && StringLe(b.id, c.id) {
      StringLeTransitive(a.id, b.id, c.id);
    }
  }

  lemma {:induction false} EligiblesAreEligible(ks: seq<Candidate>, c: Config, preference: Preference)
    ensures forall k :: multiset(Eligibles(ks, c, preference))[k]
                        == if Eligible(k, c, preference) then multiset(ks)[k] else 0
  {
    hide Eligible;
    if ks != [] {
      EligiblesAreEligible(ks[..|ks| - 1], c, preference);
      assert ks == ks[..|ks| - 1] + [ks[|ks| - 1]];
    }
  }

  /** No software backend stands before a hardware one. */
  predicate HardwareFirst(ks: seq<Candidate>) {
    forall i, j | 0 <= i < j < |ks| ::
      ks[j].capabilities.hardwareAccelerated ==> ks[i].capabilities.hardwareAccelerated
  }

  /**
   * The ranking holds exactly the eligible candidates, each as often as discovered, in rank
   * order with ties in discovery order, and all hardware before all software.
   */
  lemma RankingIsSound(ks: seq<Candidate>, c: Config, preference: Preference)
    ensures var ranked := RankCandidates(ks, c, preference);
            && Sorted(RankLe, ranked)
            && multiset(ranked) == multiset(Eligibles(ks, c, preference))
            && (forall k :: multiset(ranked)[k] == if Eligible(k, c, preference) then multiset(ks)[k] else 0)
            && (forall k :: Ties(RankLe, ranked, k) == Ties(RankLe, Eligibles(ks, c, preference), k))
            && HardwareFirst(ranked)
  {
    hide VendorOf, Eligible;
    var eligible := Eligibles(ks, c, preference);
    var ranked := RankCandidates(ks, c, preference);
    RankLeIsTotalPreorder();
    StableSortSorts(RankLe, eligible);
    EligiblesAreEligible(ks, c, preference);
    assert forall i, j | 0 <= i < j < |ranked| :: RankLe(ranked[i], ranked[j]);
  }

  // ---------------------------------------------------------------------------
  // The ranking in terms of names and limits.

  const AVC_NAMES: set<string> := {"avc", "h264", "avc1"}
  const HEVC_NAMES: set<string> := {"hevc", "h265", "hvc1"}
  const AV1_NAMES: set<string> := {"av1", "av01"}

  /** The names are of one codec, or the same in any case. */
  predicate SameCodec(a: string, b: string) {
    || Text.Lower(a) == Text.Lower(b)
    || (Text.Lower(a) in AVC_NAMES && Text.Lower(b) in AVC_NAMES)
    || (Text.Lower(a) in HEVC_NAMES && Text.Lower(b) in HEVC_NAMES)
    || (Text.Lower(a) in AV1_NAMES && Text.Lower(b) in AV1_NAMES)
  }

  lemma LowerNames()
    ensures forall w | w in AVC_NAMES + HEVC_NAMES + AV1_NAMES :: Text.Lower(w) == w
  {
  }

  lemma NormalName(codec: string)
    ensures var n, low := NormalizeCodec(codec), Text.Lower(codec);
            && (low in AVC_NAMES <==> n == "avc") && (low in HEVC_NAMES <==> n == "hevc")
            && (low in AV1_NAMES <==> n == "av1")
            && (low !in AVC_NAMES + HEVC_NAMES + AV1_NAMES ==> n == codec)
  {
    LowerNames();
  }

  lemma SameCodecExactlyWhen(a: string, b: string)
    ensures EqIgnoreCase(NormalizeCodec(a), NormalizeCodec(b)) <==> SameCodec(a, b)
  {
    LowerNames();
    NormalName(a);
    NormalName(b);
    hide NormalizeCodec, Text.Lower;
  }

  /** A configuration is valid for even dimensions, the three rates, a known codec, and sane numbers. */
  lemma ConfigIsValidExactlyWhen(c: Config)
    ensures ValidConfig(c) <==>
            && c.width >= 2 && c.height >= 2 && c.width % 2 == 0 && c.height % 2 == 0
            && (c.fps == 30 || c.fps == 60 || c.fps == 120)
            && Text.Lower(c.codec) in AVC_NAMES + HEVC_NAMES + AV1_NAMES
            && c.keyframeIntervalSeconds > 0.0
            && c.presetLevel < 6
            && (c.bitrateKbps.None? || c.bitrateKbps.value > 0)
  {
    NormalName(c.codec);
    hide NormalizeCodec, Text.Lower;
  }

  /** A candidate is ranked exactly when it was discovered, can do what is asked and is of the kind preferred. */
  lemma RankedExactlyWhen(ks: seq<Candidate>, c: Config, preference: Preference, k: Candidate)
    ensures k in RankCandidates(ks, c, preference) <==>
            var p := k.capabilities;
            && k in ks
            && SameCodec(p.codec, c.codec)
            && c.width <= p.maxWidth && c.height <= p.maxHeight
            && c.fps in p.supportedFps && c.pixelFormat in p.pixelFormats
            && (preference == HardwareOnly ==> p.hardwareAccelerated)
            && (preference == SoftwareOnly ==> !p.hardwareAccelerated)
  {
    SameCodecExactlyWhen(k.capabilities.codec, c.codec);
    RankingIsSound(ks, c, preference);
    hide RankCandidates, NormalizeCodec, SameCodec, Sorted, EqIgnoreCase;
    assert k in RankCandidates(ks, c, preference) <==> multiset(RankCandidates(ks, c, preference))[k] > 0;
    assert k in ks <==> multiset(ks)[k] > 0;
  }

  predicate Says(k: Capabilities, word: string)
    requires word != ""
  {
    Patterns.Contains(Text.Lower(k.backendName), word)
  }

  predicate SaysNvidia(k: Capabilities) {
    Says(k, "nvidia") || Says(k, "nvenc")
  }

  predicate SaysAmd(k: Capabilities) {
    Says(k, "amd") || Says(k, "amf") || Says(k, "radeon")
  }

  predicate SaysIntel(k: Capabilities) {
    Says(k, "intel") || Says(k, "qsv")
  }

  predicate SaysVendor(k: Capabilities) {
    SaysNvidia(k) || SaysAmd(k) || SaysIntel(k)
  }

  /** Whoever stands later is no hardware before software, and of no vendor preferred to the one before. */
  predicate VendorsInOrder(a: Capabilities, b: Capabilities) {
    && (b.hardwareAccelerated ==> a.hardwareAccelerated)
    && (a.hardwareAccelerated == b.hardwareAccelerated ==>
          && (SaysNvidia(b) ==> SaysNvidia(a))
          && (SaysAmd(b) ==> SaysNvidia(a) || SaysAmd(a))
          && (SaysVendor(b) ==> SaysVendor(a))
          && (!b.hardwareAccelerated && !SaysVendor(a) && (Says(a, "software") || Says(a, "sw")) ==>
                !SaysVendor(b) && (Says(b, "software") || Says(b, "sw"))))
  }

  lemma VendorWords(k: Capabilities)
    ensures VendorOf(k).Nvidia? <==> SaysNvidia(k)
    ensures VendorOf(k).Amd? <==> SaysAmd(k) && !SaysNvidia(k)
    ensures VendorOf(k).Intel? <==> SaysIntel(k) && !SaysNvidia(k) && !SaysAmd(k)
    ensures VendorOf(k).GenericHardware? <==> k.hardwareAccelerated && !SaysVendor(k)
    ensures VendorOf(k).Software? <==>
            !k.hardwareAccelerated && !SaysVendor(k) && (Says(k, "software") || Says(k, "sw"))
  {
    hide Patterns.Contains, Text.Lower;
  }

  /**
   * The order of the ranking: hardware first, then by vendor, NVIDIA before AMD before Intel before the
   * rest, with software by name last; then by backend name, and then by identifier.
   */
  lemma RankedByVendor(ks: seq<Candidate>, c: Config, preference: Preference, i: nat, j: nat)
    requires i < j < |RankCandidates(ks, c, preference)|
    ensures var (x, y) := (RankCandidates(ks, c, preference)[i], RankCandidates(ks, c, preference)[j]);
            var (a, b) := (x.capabilities, y.capabilities);
            && VendorsInOrder(a, b)
            && (VendorsInOrder(b, a) && VendorOf(a) == VendorOf(b) ==>
                  StringLe(a.backendName, b.backendName)
                  && (a.backendName == b.backendName ==> StringLe(x.id, y.id)))
  {
    RankingIsSound(ks, c, preference);
    var ranked := RankCandidates(ks, c, preference);
    assert RankLe(ranked[i], ranked[j]);
    VendorWords(ranked[i].capabilities);
    VendorWords(ranked[j].capabilities);
    StringLeTotal(ranked[i].capabilities.backendName, ranked[i].capabilities.backendName);
    hide RankCandidates, Says, SaysNvidia, SaysAmd, SaysIntel, VendorOf, StringLe, Sorted, HardwareFirst;
  }
}
