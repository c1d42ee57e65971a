/** The revsets that bound a SpiderMonkey bisection: the ranges of changesets known not
    to build or run (which depend on the operating system, the CPU and the build
    options), and the earliest changeset known to work with a given set of shell
    flags. The platform queries of the original are an immutable `Platform` record
    here, so both builders are deterministic in their arguments. */
module KnownBrokenEarliestWorking {
  import opened Text
  import History

  // ---------------------------------------------------------------------------
  // hgrange

  const RangeOpen := "(descendants(id("
  const RangeMiddle := "))-descendants(id("
  const RangeClose := ")))"

  /** The revset of changesets that descend from `firstBad` but not from `firstGood`.
      Unlike `firstBad::firstGood` it also covers branches that never got the fix. */
  function HgRange(firstBad: string, firstGood: string): string
  {
    RangeOpen + firstBad + RangeMiddle + firstGood + RangeClose
  }

  /** Reads the two changesets back out of an `HgRange` revset: the first bad one ends
      at the first `)`. */
  function ParseHgRange(s: string): (r: Option<(string, string)>)
    ensures r.Some? ==> ')' !in r.value.0 && HgRange(r.value.0, r.value.1) == s
  {
    if |s| < |RangeOpen| + |RangeClose| || s[..|RangeOpen|] != RangeOpen ||
       s[|s| - |RangeClose|..] != RangeClose then
      None
    else
      var body := s[|RangeOpen|..|s| - |RangeClose|];
      match IndexOfChar(body, ')')
      case None => None
      case Some(k) =>
        if k + |RangeMiddle| <= |body| && body[k..k + |RangeMiddle|] == RangeMiddle then
          Reassemble(s, RangeOpen, RangeMiddle, RangeClose, k);
          Some((body[..k], body[k + |RangeMiddle|..]))
        else
          None
  }

  /** A string that starts with `open`, ends with `close` and has `mid` at offset `k` of
      what lies between is made of exactly those pieces. */
  lemma Reassemble(s: string, open: string, mid: string, close: string, k: nat)
    requires |open| + |close| <= |s| && s[..|open|] == open && s[|s| - |close|..] == close
    requires var body := s[|open|..|s| - |close|];
             k + |mid| <= |body| && body[k..k + |mid|] == mid
    ensures var body := s[|open|..|s| - |close|];
            s == open + body[..k] + mid + body[k + |mid|..] + close
  {
    var body := s[|open|..|s| - |close|];
    assert body == body[..k] + body[k..k + |mid|] + body[k + |mid|..];
    assert s == s[..|open|] + body + s[|s| - |close|..];
  }

  /** Parsing inverts `HgRange` whenever the first bad changeset has no `)`, which holds
      for every hexadecimal hash. */
  lemma HgRangeRoundTrip(firstBad: string, firstGood: string)
    requires ')' !in firstBad
    ensures ParseHgRange(HgRange(firstBad, firstGood)) == Some((firstBad, firstGood))
  {
    HgRangeSlices(firstBad, firstGood);
    HgRangeBodyIndex(firstBad, firstGood);
    Sandwich(firstBad, RangeMiddle, firstGood);
  }

  /** The set of revisions a range revset denotes on `repo`, read back through its
      parse; text that is not a range denotes nothing. */
  ghost function RangeMeaning(repo: History.Repo, s: string): set<nat>
  {
    match ParseHgRange(s)
    case None => {}
    case Some((firstBad, firstGood)) => History.BrokenRangeMembers(repo, firstBad, firstGood)
  }

  /** The text `hgrange` builds denotes the broken range of its two changesets. */
  lemma HgRangeMeaning(repo: History.Repo, firstBad: string, firstGood: string)
    requires ')' !in firstBad
    ensures RangeMeaning(repo, HgRange(firstBad, firstGood)) ==
            History.BrokenRangeMembers(repo, firstBad, firstGood)
  {
    HgRangeRoundTrip(firstBad, firstGood);
  }

  /** The opening and closing text of a range, and what lies between. */
  lemma HgRangeSlices(firstBad: string, firstGood: string)
    ensures var s := HgRange(firstBad, firstGood);
            |s| == |RangeOpen| + |firstBad + RangeMiddle + firstGood| + |RangeClose| &&
            s[..|RangeOpen|] == RangeOpen && s[|s| - |RangeClose|..] == RangeClose &&
            s[|RangeOpen|..|s| - |RangeClose|] == firstBad + RangeMiddle + firstGood
  {
  }

  /** The first `)` between the opening and closing text ends the first bad changeset. */
  lemma HgRangeBodyIndex(firstBad: string, firstGood: string)
    requires ')' !in firstBad
    ensures IndexOfChar(firstBad + RangeMiddle + firstGood, ')') == Some(|firstBad|)
  {
    assert firstBad + RangeMiddle + firstGood == firstBad + (RangeMiddle + firstGood);
    IndexOfCharAfter(firstBad, RangeMiddle + firstGood, ')');
  }

  /** Two ranges serialise to the same revset only if they are the same range. */
  lemma HgRangeInjective(a: string, b: string, c: string, d: string)
    requires ')' !in a && ')' !in c
    requires HgRange(a, b) == HgRange(c, d)
    ensures a == c && b == d
  {
    HgRangeRoundTrip(a, b);
    HgRangeRoundTrip(c, d);
  }

  /** The serialised form: `firstBad` sits right after the opening text and
      `firstGood` after the separator, so the first bad changeset comes first. */
  lemma HgRangeLayout(firstBad: string, firstGood: string)
    ensures var r := HgRange(firstBad, firstGood);
            var goodAt := |RangeOpen| + |firstBad| + |RangeMiddle|;
            OccursAt(r, RangeOpen, 0) && OccursAt(r, firstBad, |RangeOpen|) &&
            OccursAt(r, RangeMiddle, |RangeOpen| + |firstBad|) && OccursAt(r, firstGood, goodAt) &&
            OccursAt(r, RangeClose, goodAt + |firstGood|) && |r| == goodAt + |firstGood| + 3 &&
            |RangeOpen| < goodAt
  {
    var r := HgRange(firstBad, firstGood);
    var goodAt := |RangeOpen| + |firstBad| + |RangeMiddle|;
    assert r[0..|RangeOpen|] == RangeOpen;
    assert r[|RangeOpen|..|RangeOpen| + |firstBad|] == firstBad;
    assert r[|RangeOpen| + |firstBad|..goodAt] == RangeMiddle;
    assert r[goodAt..goodAt + |firstGood|] == firstGood;
    assert r[goodAt + |firstGood|..goodAt + |firstGood| + 3] == RangeClose;
  }

  // ---------------------------------------------------------------------------
  // Runtime facts

  /** What `platform.system()`, `platform.machine()` and the macOS version check report. */
  datatype Platform = Platform(system: string, machine: string, macOSAtLeast1013: bool)

  /** The build options the two builders consult. */
  datatype BuildOptions = BuildOptions(
    disableProfiling: bool,
    enableDbg: bool,
    enableMoreDeterministic: bool,
    enableSimulatorArm32: bool,
    enable32: bool)

  // ---------------------------------------------------------------------------
  // known_broken_ranges

  /** When a known-broken range applies. */
  datatype Gate =
    | Always            // broken everywhere
    | OnDarwin          // macOS only
    | OnLinux           // Linux only (GCC 5)
    | OnLinuxAarch64    // Linux on aarch64
    | LinuxProfiling    // Linux, unless profiling is disabled
    | OptBuild          // builds without --enable-debug
    | MoreDeterministic // builds with --enable-more-deterministic
    | SimulatorArm32    // 32-bit ARM simulator builds

  predicate Enabled(g: Gate, p: Platform, o: BuildOptions)
  {
    match g
    case Always => true
    case OnDarwin => p.system == "Darwin"
    case OnLinux => p.system == "Linux"
    case OnLinuxAarch64 => p.system == "Linux" && p.machine == "aarch64"
    case LinuxProfiling => p.system == "Linux" && !o.disableProfiling
    case OptBuild => !o.enableDbg
    case MoreDeterministic => o.enableMoreDeterministic
    case SimulatorArm32 => o.enableSimulatorArm32
  }

  datatype BrokenRange = BrokenRange(firstBad: string, firstGood: string, gate: Gate)
  {
    function Revset(): string
    {
      HgRange(firstBad, firstGood)
    }
  }

  const Fx60Spidermonkey := BrokenRange("4c72627cfc6c", "926f80f2c5cc", Always)
  const Fx63Spidermonkey := BrokenRange("1fb7ddfad86d", "5202cfbf8d60", Always)
  const Fx64Spidermonkey := BrokenRange("aae4f349fa58", "c5fbbf959e23", Always)
  const Fx66Spidermonkey := BrokenRange("f611bc50d11c", "39d0c50a2209", Always)
  const DarwinBug1544418 := BrokenRange("3d0236f985f8", "32cef42080b1", OnDarwin)
  const Gcc5Bug1386011 := BrokenRange("e94dceac8090", "516c01f62d84", OnLinux)
  const Aarch64Bug1336344 := BrokenRange("e8bb22053e65", "999757e9e5a5", OnLinuxAarch64)
  const ProfilingBug1339190 := BrokenRange("aa1da5ed8a07", "5a03382283ae", LinuxProfiling)
  const GczealFx58 := BrokenRange("c5561749c1c6", "f4c15a88c937", OptBuild)
  const GczealFx66 := BrokenRange("247e265373eb", "e4aa68e2a85b", OptBuild)
  const DeterministicBug1542980 := BrokenRange("427b854cdb1c", "4c4e45853808", MoreDeterministic)
  const SimulatorArm32Fx57 := BrokenRange("284002382c21", "05669ce25b03", SimulatorArm32)

  /** Every known-broken range, in the order `known_broken_ranges` lists them. */
  const BrokenTable: seq<BrokenRange> := [
    Fx60Spidermonkey, Fx63Spidermonkey, Fx64Spidermonkey, Fx66Spidermonkey,
    DarwinBug1544418,
    Gcc5Bug1386011, Aarch64Bug1336344, ProfilingBug1339190,
    GczealFx58, GczealFx66,
    DeterministicBug1542980,
    SimulatorArm32Fx57
  ]

  /** The revsets of the entries among the first `k` of `t` whose gate is open, in
      table order: the reference definition of what `known_broken_ranges` returns. */
  function Selected(t: seq<BrokenRange>, k: nat, p: Platform, o: BuildOptions): seq<string>
    requires k <= |t|
  {
    if k == 0 then []
    else
      var s := Selected(t, k - 1, p, o);
      if Enabled(t[k - 1].gate, p, o) then s + [t[k - 1].Revset()] else s
  }

  /** The table positions of the entries `Selected` keeps. */
  function SelectedPositions(t: seq<BrokenRange>, k: nat, p: Platform, o: BuildOptions): seq<nat>
    requires k <= |t|
  {
    if k == 0 then []
    else
      var s := SelectedPositions(t, k - 1, p, o);
      if Enabled(t[k - 1].gate, p, o) then s + [k - 1] else s
  }

  /** The selection is the table's own entries at increasing positions, and a position
      is kept exactly when its gate is open: each conditional range appears iff its
      condition holds, and in table order. */
  lemma {:induction false} SelectedCharacterised(t: seq<BrokenRange>, k: nat, p: Platform, o: BuildOptions)
    requires k <= |t|
    ensures var s := Selected(t, k, p, o);
            var ix := SelectedPositions(t, k, p, o);
            |s| == |ix| &&
            (forall j :: 0 <= j < |ix| ==> ix[j] < k && s[j] == t[ix[j]].Revset()) &&
            (forall j, j' :: 0 <= j < j' < |ix| ==> ix[j] < ix[j']) &&
            (forall i :: 0 <= i < k ==> (i in ix <==> Enabled(t[i].gate, p, o)))
  {
    if k > 0 {
      SelectedCharacterised(t, k - 1, p, o);
    }
  }

  /** Selecting from a longer part of the table only appends. */
  lemma {:induction false} SelectedPrefix(t: seq<BrokenRange>, j: nat, k: nat, p: Platform, o: BuildOptions)
    requires j <= k <= |t|
    ensures var s := Selected(t, j, p, o);
            |s| <= |Selected(t, k, p, o)| && Selected(t, k, p, o)[..|s|] == s
    decreases k
  {
    if j < k {
      SelectedPrefix(t, j, k - 1, p, o);
      var s := Selected(t, j, p, o);
      var u := Selected(t, k - 1, p, o);
      if Enabled(t[k - 1].gate, p, o) {
        assert (u + [t[k - 1].Revset()])[..|s|] == u[..|s|];
      }
    }
  }

  // The selection after each group of `known_broken_ranges`, stated without the table.

  function AfterBase(): seq<string>
  {
    [Fx60Spidermonkey.Revset(), Fx63Spidermonkey.Revset(), Fx64Spidermonkey.Revset(), Fx66Spidermonkey.Revset()]
  }

  function AfterDarwin(p: Platform, o: BuildOptions): seq<string>
  {
    var s := AfterBase();
    if p.system == "Darwin" then s + [DarwinBug1544418.Revset()] else s
  }

  function AfterLinux(p: Platform, o: BuildOptions): seq<string>
  {
    var s := AfterDarwin(p, o);
    if p.system == "Linux" then
      var s1 := s + [Gcc5Bug1386011.Revset()];
      var s2 := if p.machine == "aarch64" then s1 + [Aarch64Bug1336344.Revset()] else s1;
      if !o.disableProfiling then s2 + [ProfilingBug1339190.Revset()] else s2
    else s
  }

  function AfterOpt(p: Platform, o: BuildOptions): seq<string>
  {
    var s := AfterLinux(p, o);
    if !o.enableDbg then s + [GczealFx58.Revset(), GczealFx66.Revset()] else s
  }

  function AfterDeterministic(p: Platform, o: BuildOptions): seq<string>
  {
    var s := AfterOpt(p, o);
    if o.enableMoreDeterministic then s + [DeterministicBug1542980.Revset()] else s
  }

  function AfterSimulator(p: Platform, o: BuildOptions): seq<string>
  {
    var s := AfterDeterministic(p, o);
    if o.enableSimulatorArm32 then s + [SimulatorArm32Fx57.Revset()] else s
  }

  lemma AfterBaseSelected(p: Platform, o: BuildOptions)
    ensures AfterBase() == Selected(BrokenTable, 4, p, o)
  {
    assert Selected(BrokenTable, 1, p, o) == [Fx60Spidermonkey.Revset()];
    assert Selected(BrokenTable, 2, p, o) == [Fx60Spidermonkey.Revset(), Fx63Spidermonkey.Revset()];
    assert Selected(BrokenTable, 3, p, o) ==
      [Fx60Spidermonkey.Revset(), Fx63Spidermonkey.Revset(), Fx64Spidermonkey.Revset()];
  }

  lemma AfterDarwinSelected(p: Platform, o: BuildOptions)
    ensures AfterDarwin(p, o) == Selected(BrokenTable, 5, p, o)
  {
    AfterBaseSelected(p, o);
  }

  lemma AfterLinuxSelected(p: Platform, o: BuildOptions)
    ensures AfterLinux(p, o) == Selected(BrokenTable, 8, p, o)
  {
    AfterDarwinSelected(p, o);
    var s := AfterDarwin(p, o);
    if p.system == "Linux" {
      assert Selected(BrokenTable, 6, p, o) == s + [Gcc5Bug1386011.Revset()];
    } else {
      assert Selected(BrokenTable, 7, p, o) == s;
    }
  }

  lemma AfterOptSelected(p: Platform, o: BuildOptions)
    ensures AfterOpt(p, o) == Selected(BrokenTable, 10, p, o)
  {
    AfterLinuxSelected(p, o);
    var s := AfterLinux(p, o);
    assert s + [GczealFx58.Revset(), GczealFx66.Revset()] == s + [GczealFx58.Revset()] + [GczealFx66.Revset()];
  }

  lemma AfterDeterministicSelected(p: Platform, o: BuildOptions)
    ensures AfterDeterministic(p, o) == Selected(BrokenTable, 11, p, o)
  {
    AfterOptSelected(p, o);
  }

  lemma AfterSimulatorSelected(p: Platform, o: BuildOptions)
    ensures AfterSimulator(p, o) == Selected(BrokenTable, 12, p, o)
  {
    AfterDeterministicSelected(p, o);
  }

  /** `known_broken_ranges`: starts from the four ranges broken everywhere and extends
      the list group by group, as each platform or option condition holds. */
  method KnownBrokenRanges(p: Platform, o: BuildOptions) returns (skips: seq<string>)
    ensures skips == Selected(BrokenTable, |BrokenTable|, p, o)
  {
    skips := [
      Fx60Spidermonkey.Revset(),
      Fx63Spidermonkey.Revset(),
      Fx64Spidermonkey.Revset(),
      Fx66Spidermonkey.Revset()
    ];
    assert skips == AfterBase();

    if p.system == "Darwin" {
      skips := skips + [DarwinBug1544418.Revset()];
    }
    assert skips == AfterDarwin(p, o);

    if p.system == "Linux" {
      skips := skips + [Gcc5Bug1386011.Revset()];
      if p.machine == "aarch64" {
        skips := skips + [Aarch64Bug1336344.Revset()];
      }
      if !o.disableProfiling {
        skips := skips + [ProfilingBug1339190.Revset()];
      }
    }
    assert skips == AfterLinux(p, o);

    if !o.enableDbg {
      skips := skips + [GczealFx58.Revset(), GczealFx66.Revset()];
    }
    assert skips == AfterOpt(p, o);

    if o.enableMoreDeterministic {
      skips := skips + [DeterministicBug1542980.Revset()];
    }
    assert skips == AfterDeterministic(p, o);

    if o.enableSimulatorArm32 {
      skips := skips + [SimulatorArm32Fx57.Revset()];
    }
    assert skips == AfterSimulator(p, o);
    AfterSimulatorSelected(p, o);
  }

  // ---------------------------------------------------------------------------
  // Properties of known_broken_ranges

  /** Whatever the platform, the list starts with the four ranges broken everywhere, and
      it holds at most one revset per table entry. */
  lemma KnownBrokenBaseFirst(p: Platform, o: BuildOptions)
    ensures var r := Selected(BrokenTable, |BrokenTable|, p, o);
            4 <= |r| <= |BrokenTable| &&
            r[..4] == [Fx60Spidermonkey.Revset(), Fx63Spidermonkey.Revset(),
                       Fx64Spidermonkey.Revset(), Fx66Spidermonkey.Revset()]
  {
    AfterBaseSelected(p, o);
    SelectedPrefix(BrokenTable, 4, |BrokenTable|, p, o);
    SelectedLength(BrokenTable, |BrokenTable|, p, o);
  }

  lemma {:induction false} SelectedLength(t: seq<BrokenRange>, k: nat, p: Platform, o: BuildOptions)
    requires k <= |t|
    ensures |Selected(t, k, p, o)| <= k
  {
    if k > 0 {
      SelectedLength(t, k - 1, p, o);
    }
  }

  /** On x86_64 Linux, with profiling disabled and a debug build, the list is the four
      base ranges and the GCC 5 one. */
  lemma KnownBrokenLinuxDebugScenario(machine: string, macOS: bool, o: BuildOptions)
    requires machine != "aarch64"
    requires o.disableProfiling && o.enableDbg && !o.enableMoreDeterministic && !o.enableSimulatorArm32
    ensures Selected(BrokenTable, |BrokenTable|, Platform("Linux", machine, macOS), o) ==
      [Fx60Spidermonkey.Revset(), Fx63Spidermonkey.Revset(), Fx64Spidermonkey.Revset(),
       Fx66Spidermonkey.Revset(), Gcc5Bug1386011.Revset()]
  {
    AfterSimulatorSelected(Platform("Linux", machine, macOS), o);
  }

  /** On macOS with default options, the macOS range and both gczeal ranges follow the
      base four. */
  lemma KnownBrokenDarwinScenario(machine: string, macOS: bool, o: BuildOptions)
    requires !o.enableDbg && !o.enableMoreDeterministic && !o.enableSimulatorArm32
    ensures Selected(BrokenTable, |BrokenTable|, Platform("Darwin", machine, macOS), o) ==
      [Fx60Spidermonkey.Revset(), Fx63Spidermonkey.Revset(), Fx64Spidermonkey.Revset(),
       Fx66Spidermonkey.Revset(), DarwinBug1544418.Revset(), GczealFx58.Revset(), GczealFx66.Revset()]
  {
    AfterSimulatorSelected(Platform("Darwin", machine, macOS), o);
  }

  // ---------------------------------------------------------------------------
  // earliest_known_working_rev

  /** What makes a revision a required lower bound. */
  datatype Trigger =
    | WithFlag(flag: string)             // `flag` is one of the shell flags
    | WithAnyFlag(choices: set<string>)  // some flag is one of `choices`
    | HostWindows32                      // 32-bit builds on Windows
    | HostWindows                        // any build on Windows
    | HostDarwin                         // any build on macOS
    | CpuCountFlag                       // some flag mentions `--cpu-count=`
    | Baseline                           // always

  const CpuCountMarker := "--cpu-count="

  /** Some shell flag contains `--cpu-count=` anywhere in it: a containment test, not an
      exact match, so `--cpu-count=4` counts. */
  ghost predicate HasCpuCountFlag(flags: seq<string>)
  {
    exists k :: 0 <= k < |flags| && Contains(flags[k], CpuCountMarker)
  }

  ghost predicate Fires(tr: Trigger, p: Platform, o: BuildOptions, flags: seq<string>)
  {
    match tr
    case WithFlag(f) => f in flags
    case WithAnyFlag(cs) => exists f :: f in cs && f in flags
    case HostWindows32 => p.system == "Windows" && o.enable32
    case HostWindows => p.system == "Windows"
    case HostDarwin => p.system == "Darwin"
    case CpuCountFlag => HasCpuCountFlag(flags)
    case Baseline => true
  }

  datatype Requirement = Requirement(rev: string, trigger: Trigger)

  const WasmCompilerFlags: set<string> :=
    {"--wasm-compiler=none", "--wasm-compiler=baseline+ion", "--wasm-compiler=baseline", "--wasm-compiler=ion"}
  const NurseryStringsFlags: set<string> := {"--nursery-strings=on", "--nursery-strings=off"}
  const SpectreMitigationsFlags: set<string> := {"--spectre-mitigations=on", "--spectre-mitigations=off"}

  const ExperimentalFieldsRev := Requirement("7a1ad6647c22bd34a6c70e67dc26e5b83f71cea4", WithFlag("--enable-experimental-fields"))
  const WasmCompilerRev := Requirement("48dc14f79fb0a51ca796257a4179fe6f16b71b14", WithAnyFlag(WasmCompilerFlags))
  const MoreCompartmentsRev := Requirement("450b8f0cbb4e494b399ebcf23a33b8d9cb883245", WithFlag("--more-compartments"))
  const NoStreamsRev := Requirement("c6a8b4d451afa922c4838bd202749c7e131cf05e", WithFlag("--no-streams"))
  const Windows32Rev := Requirement("577ffed9f102439db47afebcef95bbaaa2e04c93", HostWindows32)
  const WindowsSdkRev := Requirement("c085e1b32fb9bbdb00360bfb0a1057d20a752f4c", HostWindows)
  const WasmGcRev := Requirement("302befe7689abad94a75f66ded82d5e71b558dc4", WithFlag("--wasm-gc"))
  const NurseryStringsRev := Requirement("321c29f4850882a2f0220a4dc041c53992c47992", WithAnyFlag(NurseryStringsFlags))
  const SpectreMitigationsRev := Requirement("a98f615965d73f6462924188fc2b1f2a620337bb", WithAnyFlag(SpectreMitigationsFlags))
  const AwaitTier2Rev := Requirement("b1dc87a94262c1bf2747d2bf560e21af5deb3174", WithFlag("--test-wasm-await-tier2"))
  const Xcode9Rev := Requirement("e2ecf684f49e9a6f6d072c289df68ef679968c4c", HostDarwin)
  const CpuCountRev := Requirement("1b55231e6628e70f0c2ee2b2cb40a1e9861ac4b4", CpuCountFlag)
  const TemplateLiteralsRev := Requirement("bb868860dfc35876d2d9c421c037c75a4fb9b3d2", Baseline)

  /** Every required revision, latest first, as `earliest_known_working_rev` tests them. */
  const RequiredTable: seq<Requirement> := [
    ExperimentalFieldsRev, WasmCompilerRev, MoreCompartmentsRev, NoStreamsRev,
    Windows32Rev, WindowsSdkRev, WasmGcRev, NurseryStringsRev, SpectreMitigationsRev,
    AwaitTier2Rev, Xcode9Rev, CpuCountRev, TemplateLiteralsRev
  ]

  /** The revisions among the first `k` of `t` whose trigger fires, in table order. */
  ghost function Required(t: seq<Requirement>, k: nat, p: Platform, o: BuildOptions, flags: seq<string>): seq<string>
    requires k <= |t|
  {
    if k == 0 then []
    else
      var s := Required(t, k - 1, p, o, flags);
      if Fires(t[k - 1].trigger, p, o, flags) then s + [t[k - 1].rev] else s
  }

  /** `descendants(r)` for each revision, in order. */
  function DescendantsTerms(revs: seq<string>): (terms: seq<string>)
    ensures |terms| == |revs|
    ensures forall k :: 0 <= k < |revs| ==> terms[k] == "descendants(" + revs[k] + ")"
  {
    if revs == [] then [] else ["descendants(" + revs[0] + ")"] + DescendantsTerms(revs[1..])
  }

  /** `common_descendants`: the intersection of the descendants of every revision. */
  function CommonDescendants(revs: seq<string>): string
  {
    Join(" and ", DescendantsTerms(revs))
  }

  /** The revset `earliest_known_working_rev` returns. */
  function EarliestRevset(required: seq<string>, skipRevs: string): string
  {
    "first((" + CommonDescendants(required) + ") - (" + skipRevs + "))"
  }

  /** Adds `rev` when `grows` holds: one step of `earliest_known_working_rev`. */
  function Grow(s: seq<string>, grows: bool, rev: string): seq<string>
  {
    if grows then s + [rev] else s
  }

  /** The required revisions, two tests at a time, with each trigger written as
      `earliest_known_working_rev` tests it. */
  lemma RequiredSteps1to2(p: Platform, o: BuildOptions, flags: seq<string>)
    ensures Required(RequiredTable, 2, p, o, flags) ==
            Grow(Grow([], "--enable-experimental-fields" in flags, ExperimentalFieldsRev.rev),
                 WasmCompilerFlags * (set f | f in flags) != {}, WasmCompilerRev.rev)
  {
    var t := RequiredTable;
    assert (exists f :: f in WasmCompilerFlags && f in flags) <==> WasmCompilerFlags * (set f | f in flags) != {} by {
      if f :| f in WasmCompilerFlags && f in flags {
        assert f in WasmCompilerFlags * (set f | f in flags);
      }
    }
    assert t[0] == ExperimentalFieldsRev;
    assert Fires(ExperimentalFieldsRev.trigger, p, o, flags) == ("--enable-experimental-fields" in flags);
    assert Required(t, 1, p, o, flags) == Grow([], "--enable-experimental-fields" in flags, ExperimentalFieldsRev.rev);
    assert t[1] == WasmCompilerRev;
    assert Fires(WasmCompilerRev.trigger, p, o, flags) == (WasmCompilerFlags * (set f | f in flags) != {});
    assert Required(t, 2, p, o, flags) == Grow(Required(t, 1, p, o, flags), WasmCompilerFlags * (set f | f in flags) != {}, WasmCompilerRev.rev);
  }

  lemma RequiredSteps3to4(p: Platform, o: BuildOptions, flags: seq<string>)
    ensures Required(RequiredTable, 4, p, o, flags) ==
            Grow(Grow(Required(RequiredTable, 2, p, o, flags), "--more-compartments" in flags, MoreCompartmentsRev.rev),
                 "--no-streams" in flags, NoStreamsRev.rev)
  {
  }

  lemma RequiredSteps5to6(p: Platform, o: BuildOptions, flags: seq<string>)
    ensures Required(RequiredTable, 6, p, o, flags) ==
            Grow(Grow(Required(RequiredTable, 4, p, o, flags), p.system == "Windows" && o.enable32, Windows32Rev.rev),
                 p.system == "Windows", WindowsSdkRev.rev)
  {
  }

  lemma RequiredSteps7to8(p: Platform, o: BuildOptions, flags: seq<string>)
    ensures Required(RequiredTable, 8, p, o, flags) ==
            Grow(Grow(Required(RequiredTable, 6, p, o, flags), "--wasm-gc" in flags, WasmGcRev.rev),
                 "--nursery-strings=on" in flags || "--nursery-strings=off" in flags, NurseryStringsRev.rev)
  {
  }

  lemma RequiredSteps9to10(p: Platform, o: BuildOptions, flags: seq<string>)
    ensures Required(RequiredTable, 10, p, o, flags) ==
            Grow(Grow(Required(RequiredTable, 8, p, o, flags),
                      "--spectre-mitigations=on" in flags || "--spectre-mitigations=off" in flags,
                      SpectreMitigationsRev.rev),
                 "--test-wasm-await-tier2" in flags, AwaitTier2Rev.rev)
  {
  }

  lemma RequiredSteps11to12(p: Platform, o: BuildOptions, flags: seq<string>)
    ensures Required(RequiredTable, 12, p, o, flags) ==
            Grow(Grow(Required(RequiredTable, 10, p, o, flags), p.system == "Darwin", Xcode9Rev.rev),
                 HasCpuCountFlag(flags), CpuCountRev.rev)
  {
  }

  /** All thirteen tests in source order; the last always adds the baseline. */
  lemma RequiredAsSteps(p: Platform, o: BuildOptions, flags: seq<string>)
    ensures Required(RequiredTable, |RequiredTable|, p, o, flags) ==
            var r1 := Grow([], "--enable-experimental-fields" in flags, ExperimentalFieldsRev.rev);
            var r2 := Grow(r1, WasmCompilerFlags * (set f | f in flags) != {}, WasmCompilerRev.rev);
            var r3 := Grow(r2, "--more-compartments" in flags, MoreCompartmentsRev.rev);
            var r4 := Grow(r3, "--no-streams" in flags, NoStreamsRev.rev);
            var r5 := Grow(r4, p.system == "Windows" && o.enable32, Windows32Rev.rev);
            var r6 := Grow(r5, p.system == "Windows", WindowsSdkRev.rev);
            var r7 := Grow(r6, "--wasm-gc" in flags, WasmGcRev.rev);
            var r8 := Grow(r7, "--nursery-strings=on" in flags || "--nursery-strings=off" in flags, NurseryStringsRev.rev);
            var r9 := Grow(r8, "--spectre-mitigations=on" in flags || "--spectre-mitigations=off" in flags,
                           SpectreMitigationsRev.rev);
            var r10 := Grow(r9, "--test-wasm-await-tier2" in flags, AwaitTier2Rev.rev);
            var r11 := Grow(r10, p.system == "Darwin", Xcode9Rev.rev);
            var r12 := Grow(r11, HasCpuCountFlag(flags), CpuCountRev.rev);
            r12 + [TemplateLiteralsRev.rev]
  {
    RequiredSteps1to2(p, o, flags);
    RequiredSteps3to4(p, o, flags);
    RequiredSteps5to6(p, o, flags);
    RequiredSteps7to8(p, o, flags);
    RequiredSteps9to10(p, o, flags);
    RequiredSteps11to12(p, o, flags);
  }

  /** `earliest_known_working_rev`. On macOS older than 10.13 the original fails its
      opening assertion; that is the `None` result here. */
  method EarliestKnownWorkingRev(p: Platform, o: BuildOptions, flags: seq<string>, skipRevs: string)
    returns (revset: Option<string>)
    ensures revset.None? <==> p.system == "Darwin" && !p.macOSAtLeast1013
    ensures revset.Some? ==>
              revset.value == EarliestRevset(Required(RequiredTable, |RequiredTable|, p, o, flags), skipRevs)
  {
    if p.system == "Darwin" && !p.macOSAtLeast1013 {
      return None;
    }

    var cpuCountFlag := false;
    for i := 0 to |flags|
      invariant cpuCountFlag <==> exists k :: 0 <= k < i && Contains(flags[k], CpuCountMarker)
    {
      if Contains(flags[i], CpuCountMarker) {
        cpuCountFlag := true;
      }
    }
    assert cpuCountFlag == HasCpuCountFlag(flags);

    var required: seq<string> := [];
    required := Grow(required, "--enable-experimental-fields" in flags, ExperimentalFieldsRev.rev);
    required := Grow(required, WasmCompilerFlags * (set f | f in flags) != {}, WasmCompilerRev.rev);
    required := Grow(required, "--more-compartments" in flags, MoreCompartmentsRev.rev);
    required := Grow(required, "--no-streams" in flags, NoStreamsRev.rev);
    required := Grow(required, p.system == "Windows" && o.enable32, Windows32Rev.rev);
    required := Grow(required, p.system == "Windows", WindowsSdkRev.rev);
    required := Grow(required, "--wasm-gc" in flags, WasmGcRev.rev);
    required := Grow(required, "--nursery-strings=on" in flags || "--nursery-strings=off" in flags, NurseryStringsRev.rev);
    required := Grow(required, "--spectre-mitigations=on" in flags || "--spectre-mitigations=off" in flags, SpectreMitigationsRev.rev);
    required := Grow(required, "--test-wasm-await-tier2" in flags, AwaitTier2Rev.rev);
    required := Grow(required, p.system == "Darwin", Xcode9Rev.rev);
    required := Grow(required, cpuCountFlag, CpuCountRev.rev);
    required := required + [TemplateLiteralsRev.rev];
    RequiredAsSteps(p, o, flags);

    revset := Some("first((" + CommonDescendants(required) + ") - (" + skipRevs + "))");
  }

  // ---------------------------------------------------------------------------
  // Properties of earliest_known_working_rev

  /** The table positions of the revisions `Required` keeps. */
  ghost function RequiredPositions(t: seq<Requirement>, k: nat, p: Platform, o: BuildOptions, flags: seq<string>): seq<nat>
    requires k <= |t|
  {
    if k == 0 then []
    else
      var s := RequiredPositions(t, k - 1, p, o, flags);
      if Fires(t[k - 1].trigger, p, o, flags) then s + [k - 1] else s
  }

  /** The required list is the table's own revisions at increasing positions, and a
      position is kept exactly when its trigger fires. */
  lemma {:induction false} RequiredCharacterised(t: seq<Requirement>, k: nat, p: Platform, o: BuildOptions, flags: seq<string>)
    requires k <= |t|
    ensures var s := Required(t, k, p, o, flags);
            var ix := RequiredPositions(t, k, p, o, flags);
            |s| == |ix| &&
            (forall j :: 0 <= j < |ix| ==> ix[j] < k && s[j] == t[ix[j]].rev) &&
            (forall j, j' :: 0 <= j < j' < |ix| ==> ix[j] < ix[j']) &&
            (forall i :: 0 <= i < k ==> (i in ix <==> Fires(t[i].trigger, p, o, flags)))
  {
    if k > 0 {
      RequiredCharacterised(t, k - 1, p, o, flags);
    }
  }

  /** Required lists only grow by one revision per table entry. */
  lemma {:induction false} RequiredLength(t: seq<Requirement>, k: nat, p: Platform, o: BuildOptions, flags: seq<string>)
    requires k <= |t|
    ensures |Required(t, k, p, o, flags)| <= k
  {
    if k > 0 {
      RequiredLength(t, k - 1, p, o, flags);
    }
  }

  /** Whatever the platform and the flags, the list ends with the revision that revised
      template literals, so it is never empty. */
  lemma RequiredEndsWithBaseline(p: Platform, o: BuildOptions, flags: seq<string>)
    ensures var r := Required(RequiredTable, |RequiredTable|, p, o, flags);
            1 <= |r| <= |RequiredTable| && r[|r| - 1] == "bb868860dfc35876d2d9c421c037c75a4fb9b3d2"
  {
    assert RequiredTable[12] == TemplateLiteralsRev;
    RequiredLength(RequiredTable, 12, p, o, flags);
  }

  /** `--cpu-count=` is looked for inside each flag: `--cpu-count=4` triggers the
      requirement although no flag equals `--cpu-count=`. */
  lemma CpuCountBySubstring()
    ensures HasCpuCountFlag(["--cpu-count=4"]) && CpuCountMarker !in ["--cpu-count=4"]
  {
    assert Contains(["--cpu-count=4"][0], CpuCountMarker);
  }

  /** Entries whose trigger does not fire leave the list as it is. */
  lemma {:induction false} RequiredUnchanged(t: seq<Requirement>, j: nat, k: nat, p: Platform, o: BuildOptions, flags: seq<string>)
    requires j <= k <= |t|
    requires forall i :: j <= i < k ==> !Fires(t[i].trigger, p, o, flags)
    ensures Required(t, k, p, o, flags) == Required(t, j, p, o, flags)
    decreases k
  {
    if j < k {
      RequiredUnchanged(t, j, k - 1, p, o, flags);
    }
  }

  /** When none of the conditional triggers fires, the baseline is the only bound. */
  lemma RequiredOnlyBaseline(p: Platform, o: BuildOptions, flags: seq<string>)
    requires forall i :: 0 <= i < |RequiredTable| - 1 ==> !Fires(RequiredTable[i].trigger, p, o, flags)
    ensures Required(RequiredTable, |RequiredTable|, p, o, flags) == [TemplateLiteralsRev.rev]
  {
    RequiredUnchanged(RequiredTable, 0, 12, p, o, flags);
    assert RequiredTable[12] == TemplateLiteralsRev;
  }

  /** `--wasm-gc` adds its own revision and nothing else: when no other conditional
      trigger fires, the list is that revision and the baseline. */
  lemma RequiredWasmGcAlone(p: Platform, o: BuildOptions, flags: seq<string>)
    requires "--wasm-gc" in flags
    requires forall i :: 0 <= i < |RequiredTable| - 1 && i != 6 ==> !Fires(RequiredTable[i].trigger, p, o, flags)
    ensures Required(RequiredTable, |RequiredTable|, p, o, flags) == [WasmGcRev.rev, TemplateLiteralsRev.rev]
  {
    var t := RequiredTable;
    RequiredUnchanged(t, 0, 6, p, o, flags);
    assert t[6] == WasmGcRev;
    assert Required(t, 7, p, o, flags) == [WasmGcRev.rev];
    RequiredUnchanged(t, 7, 12, p, o, flags);
    assert t[12] == TemplateLiteralsRev;
  }

  /** `common_descendants` of one revision is its descendants term alone. */
  lemma CommonDescendantsSingle(r: string)
    ensures CommonDescendants([r]) == "descendants(" + r + ")"
  {
  }

  /** One more revision adds ` and descendants(r)` at the end. */
  lemma CommonDescendantsSnoc(revs: seq<string>, r: string)
    requires |revs| > 0
    ensures CommonDescendants(revs + [r]) == CommonDescendants(revs) + " and descendants(" + r + ")"
  {
    var a := DescendantsTerms(revs + [r]);
    var b := DescendantsTerms(revs) + ["descendants(" + r + ")"];
    assert |a| == |b|;
    forall k | 0 <= k < |a|
      ensures a[k] == b[k]
    {
      if k < |revs| {
        assert (revs + [r])[k] == revs[k];
      }
    }
    assert a == b;
    JoinSnoc(" and ", DescendantsTerms(revs), "descendants(" + r + ")");
  }

  /** What `common_descendants(revs)` denotes on `repo`, term by term as the revset
      reads: the revisions that descend from every listed revision. */
  ghost function CommonDescendantsMembers(repo: History.Repo, revs: seq<string>): set<nat>
    requires |revs| > 0
  {
    if |revs| == 1 then History.DescendantsOfId(repo, revs[0])
    else CommonDescendantsMembers(repo, revs[..|revs| - 1]) * History.DescendantsOfId(repo, revs[|revs| - 1])
  }

  /** When every listed revision resolves, the revset holds exactly the revisions that
      descend from all of them. */
  lemma {:induction false} CommonDescendantsMeaning(repo: History.Repo, revs: seq<string>, nodes: seq<nat>, x: nat)
    requires |revs| > 0 && |nodes| == |revs|
    requires forall k :: 0 <= k < |revs| ==> History.Lookup(repo, revs[k]) == Some(nodes[k])
    ensures x in CommonDescendantsMembers(repo, revs) <==> History.DescendsFromAll(repo, nodes, x)
  {
    var n := |revs| - 1;
    History.DescendantsOfIdMember(repo, revs[n], nodes[n], x);
    if n > 0 {
      assert forall k :: 0 <= k < n ==> History.Lookup(repo, revs[..n][k]) == Some(nodes[..n][k]) by {
        assert forall k :: 0 <= k < n ==> revs[..n][k] == revs[k] && nodes[..n][k] == nodes[k];
      }
      CommonDescendantsMeaning(repo, revs[..n], nodes[..n], x);
      History.DescendsFromAllSnoc(repo, nodes, x);
    }
  }

  /** The required revisions are listed latest first. When each descends from the next,
      as on a linear history, the revset is just the descendants of the first. */
  lemma CommonDescendantsOnChain(repo: History.Repo, revs: seq<string>, nodes: seq<nat>)
    requires |revs| > 0 && |nodes| == |revs|
    requires forall k :: 0 <= k < |revs| ==> History.Lookup(repo, revs[k]) == Some(nodes[k])
    requires forall k :: 0 <= k < |nodes| - 1 ==> History.IsAncestor(repo, nodes[k + 1], nodes[k])
    ensures CommonDescendantsMembers(repo, revs) == History.Descendants(repo, nodes[0])
  {
    forall x: nat
      ensures x in CommonDescendantsMembers(repo, revs) <==> x in History.Descendants(repo, nodes[0])
    {
      CommonDescendantsMeaning(repo, revs, nodes, x);
      History.ChainIntersection(repo, nodes, x);
    }
  }
}
