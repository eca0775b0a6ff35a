/** The colour-space object that the gAMA, cHRM and sRGB setters of png.c update,
    as a state machine over sequences of setter calls. */
module ColorSpace {
  import opened Arithmetic
  import opened FixedPoint
  import opened Chromaticity
  import opened Luminance

  const MIN_GAMMA: int32 := 16
  const MAX_GAMMA: int32 := 625000000
  const GAMMA_SRGB_INVERSE: int32 := 45455
  const INTENT_LAST: int := 4

  const SRGB_XY: Xy := Xy(64000, 33000, 30000, 60000, 15000, 6000, 31270, 32900)
  const SRGB_XYZ: XYZ := XYZ(41239, 21264, 1933, 35758, 71517, 11919, 18048, 7219, 95053)

  const NO_XY: Xy := Xy(0, 0, 0, 0, 0, 0, 0, 0)
  const NO_XYZ: XYZ := XYZ(0, 0, 0, 0, 0, 0, 0, 0, 0)

  /** The fields of png_colorspace, one boolean per PNG_COLORSPACE_* flag. */
  datatype State = State(
    gamma: int32,
    xy: Xy,
    xyz: XYZ,
    intent: int,
    haveGamma: bool,
    haveEndpoints: bool,
    haveIntent: bool,
    fromGAMA: bool,
    fromSRGB: bool,
    endpointsMatchSRGB: bool,
    matchesSRGB: bool,
    invalid: bool)

  /** A colour space about which nothing is known yet. */
  const FRESH: State :=
    State(0, NO_XY, NO_XYZ, 0, false, false, false, false, false, false, false, false)

  /** What the checks of an ICC profile come to: refused, some profile, or one of the
      known sRGB profiles, with its rendering intent. */
  datatype Verdict = Refused | Accepted | KnownSRGB(intent: int)

  /** One setter call. `reading` is PNG_IS_READ_STRUCT; `preferred` is 0, 1 or 2. */
  datatype Call =
    | SetGamma(gAMA: int32, reading: bool)
    | SetChromaticities(xy: Xy, preferred: nat)
    | SetEndpoints(xyz: XYZ, preferred: nat)
    | SetSRGB(intent: int)
    | SetICC(verdict: Verdict)

  /** png_gamma_significant; the threshold is PNG_GAMMA_THRESHOLD_FIXED. */
  predicate GammaSignificant(threshold: nat, gamma: int32) {
    gamma < FP_1 - threshold || gamma > FP_1 + threshold
  }

  /** png_colorspace_check_gamma for a gAMA chunk: may the new value be stored? */
  predicate GammaAllowed(threshold: nat, s: State, gAMA: int32) {
    if s.haveGamma && (var ratio := MulDiv(s.gamma, FP_1, gAMA);
                       ratio == None || GammaSignificant(threshold, ratio.value))
    then !s.fromSRGB
    else true
  }

  function Invalidate(s: State): State {
    s.(invalid := true)
  }

  /** png_colorspace_set_xy_and_XYZ */
  function Store(s: State, xy: Xy, xyz: XYZ, preferred: nat): State {
    if s.invalid then s
    else if preferred < 2 && s.haveEndpoints && !EndpointsMatch(xy, s.xy, 100) then Invalidate(s)
    else if preferred == 0 && s.haveEndpoints then s
    else s.(xy := xy, xyz := xyz, haveEndpoints := true,
            endpointsMatchSRGB := EndpointsMatch(xy, SRGB_XY, 1000))
  }

  /** The switch on the result of a check: store, invalidate, or undefined. */
  function Commit(s: State, checked: Outcome<(Xy, XYZ)>, preferred: nat): Outcome<State> {
    match checked
    case Done((xy, xyz)) => Done(Store(s, xy, xyz, preferred))
    case Undefined => Undefined
    case _ => Done(Invalidate(s))
  }

  function CheckedXy(xy: Xy): Outcome<(Xy, XYZ)> {
    var xyz :- CheckXy(xy);
    Done((xy, xyz))
  }

  /** png_colorspace_set_sRGB */
  function StoreSRGB(s: State, intent: int): State {
    if s.invalid then s
    else if intent < 0 || intent >= INTENT_LAST then Invalidate(s)
    else if s.haveIntent && s.intent != intent then Invalidate(s)
    else if s.fromSRGB then s
    else s.(intent := intent, haveIntent := true,
            xy := SRGB_XY, xyz := SRGB_XYZ, haveEndpoints := true, endpointsMatchSRGB := true,
            gamma := GAMMA_SRGB_INVERSE, haveGamma := true,
            matchesSRGB := true, fromSRGB := true)
  }

  /** The state after a call, or Undefined if the call overflows. */
  function Step(threshold: nat, s: State, call: Call): Outcome<State> {
    match call
    case SetGamma(gAMA, reading) =>
      Done(if gAMA < MIN_GAMMA || gAMA > MAX_GAMMA || (reading && s.fromGAMA) then Invalidate(s)
           else if s.invalid || !GammaAllowed(threshold, s, gAMA) then s
           else s.(gamma := gAMA, haveGamma := true, fromGAMA := true))
    case SetChromaticities(xy, preferred) => Commit(s, CheckedXy(xy), preferred)
    case SetEndpoints(xyz, preferred) => Commit(s, CheckXyz(xyz), preferred)
    case SetSRGB(intent) => Done(StoreSRGB(s, intent))
    case SetICC(verdict) =>
      Done(match verdict
           case Refused => Invalidate(s)
           case Accepted => s
           case KnownSRGB(intent) => StoreSRGB(s, intent))
  }

  /** A whole run of setter calls. */
  function Run(threshold: nat, s: State, calls: seq<Call>): Outcome<State>
    decreases |calls|
  {
    if calls == [] then Done(s)
    else
      var s' :- Step(threshold, s, calls[0]);
      Run(threshold, s', calls[1..])
  }

  // ---------------------------------------------------------------- invariants

  /** The stored XYZ values map back to the stored chromaticities. */
  predicate Consistent(xy: Xy, xyz: XYZ) {
    XyFromXyz(xyz).Done? && EndpointsMatch(xy, XyFromXyz(xyz).value, 5)
  }

  predicate Inv(s: State) {
    && (s.haveGamma ==> MIN_GAMMA <= s.gamma <= MAX_GAMMA)
    && (s.haveEndpoints ==>
          && (s.endpointsMatchSRGB <==> EndpointsMatch(s.xy, SRGB_XY, 1000))
          && CheckXy(s.xy).Done? && Consistent(s.xy, s.xyz) && Luminous(s.xyz))
    && (s.endpointsMatchSRGB ==> s.haveEndpoints)
    && (s.fromGAMA ==> s.haveGamma)
    && (s.haveIntent ==> 0 <= s.intent < INTENT_LAST)
    && (s.matchesSRGB <==> s.fromSRGB)
    && (s.fromSRGB ==> s.haveGamma && s.haveEndpoints && s.haveIntent)
  }

  lemma RatioIs(x: int32, total: int32, q: int32, r: int32)
    requires x > 0 && total > 0 && q >= 0 && 0 <= r < total
    requires x * FP_1 == q * total + r && q < 0x7fff_ffff
    ensures MulDiv(x, FP_1, total) == Some(if r >= total / 2 then q + 1 else q)
  {
    DivUnique(x * FP_1, total, q, r);
  }

  lemma SRGBRatios()
    ensures MulDiv(41239, FP_1, 64436) == Some(64000) && MulDiv(21264, FP_1, 64436) == Some(33000)
    ensures MulDiv(35758, FP_1, 119194) == Some(30000) && MulDiv(71517, FP_1, 119194) == Some(60001)
    ensures MulDiv(18048, FP_1, 120320) == Some(15000) && MulDiv(7219, FP_1, 120320) == Some(6000)
    ensures MulDiv(95045, FP_1, 303950) == Some(31270) && MulDiv(100000, FP_1, 303950) == Some(32900)
  {
    hide MulDiv;
    RatioIs(41239, 64436, 63999, 60436);
    RatioIs(21264, 64436, 33000, 12000);
    RatioIs(35758, 119194, 29999, 99194);
    RatioIs(71517, 119194, 60000, 60000);
    RatioIs(18048, 120320, 15000, 0);
    RatioIs(7219, 120320, 5999, 100320);
    RatioIs(95045, 303950, 31269, 287450);
    RatioIs(100000, 303950, 32900, 45000);
  }

  lemma SRGBConsistent()
    ensures Consistent(SRGB_XY, SRGB_XYZ)
  {
    SRGBRatios();
    hide MulDiv;
    var r := XyFromXyz(SRGB_XYZ);
    assert r == Done(Xy(64000, 33000, 30000, 60001, 15000, 6000, 31270, 32900));
  }

  lemma RoundedIs(p: nat, d: nat, q: nat, r: nat)
    requires d > 0 && r < d && p == q * d + r
    ensures Rounded(p, d) == if r >= d / 2 then q + 1 else q
  {
    DivUnique(p, d, q, r);
  }

  const SRGB_CONVERTED: XYZ := XYZ(41239, 21264, 1933, 35759, 71517, 11920, 18048, 7219, 95053)

  lemma SRGBDeterminants()
    ensures Denominator(SRGB_XY) == -320142857
    ensures RedNumerator(SRGB_XY) == -67868572 && GreenNumerator(SRGB_XY) == -125544286
  {
    assert SignedSeventh(405000000) == 57857143 && SignedSeventh(2646000000) == 378000000;
    assert SignedSeventh(403500000) == 57642857 && SignedSeventh(878580000) == 125511429;
    assert SignedSeventh(439290000) == 62755714 && SignedSeventh(1318100000) == 188300000;
  }

  lemma SRGBConverts()
    ensures XyzFromXy(SRGB_XY) == Done(SRGB_CONVERTED)
  {
    hide XyzFromXy, Rounded, SignedSeventh, Denominator, RedNumerator, GreenNumerator;
    XyzFromXyIff(SRGB_XY);
    SRGBDeterminants();
    RoundedIs(10532699995300, 67868572, 155192, 40569476);
    RoundedIs(10532699995300, 125544286, 83896, 36577044);
    RoundedIs(10000000000, 32900, 303951, 12100);
    RoundedIs(10000000000, 155193, 64435, 139045);
    RoundedIs(10000000000, 83896, 119195, 16280);
    RoundedIs(6400000000, 155193, 41238, 151066);
    RoundedIs(3300000000, 155193, 21263, 131241);
    RoundedIs(300000000, 155193, 1933, 11931);
    RoundedIs(3000000000, 83896, 35758, 46832);
    RoundedIs(6000000000, 83896, 71517, 9768);
    RoundedIs(1000000000, 83896, 11919, 43576);
    RoundedIs(1804800000, 100000, 18048, 0);
    RoundedIs(721920000, 100000, 7219, 20000);
    RoundedIs(9505280000, 100000, 95052, 80000);
  }

  lemma SRGBComesBack()
    ensures RoundTrips(SRGB_XY, SRGB_CONVERTED)
  {
    hide Rounded;
    RoundedIs(4123900000, 64436, 63999, 60436);
    RoundedIs(2126400000, 64436, 33000, 12000);
    RoundedIs(3575900000, 119196, 30000, 20000);
    RoundedIs(7151700000, 119196, 59999, 59196);
    RoundedIs(1804800000, 120320, 15000, 0);
    RoundedIs(721900000, 120320, 5999, 100320);
    RoundedIs(9504600000, 303952, 31270, 20960);
    RoundedIs(10000000000, 303952, 32899, 283152);
  }

  /** The sRGB chromaticities pass the check, ... */
  lemma SRGBAccepted()
    ensures CheckXy(SRGB_XY) == Done(SRGB_CONVERTED)
  {
    hide CheckXy, XyzFromXy, RoundTrips;
    CheckXyIff(SRGB_XY);
    SRGBConverts();
    SRGBComesBack();
  }

  /** ... and a fresh colour space stores them. */
  lemma SRGBStoredFromFresh(threshold: nat, preferred: nat)
    ensures Step(threshold, FRESH, SetChromaticities(SRGB_XY, preferred))
         == Done(FRESH.(xy := SRGB_XY, xyz := SRGB_CONVERTED, haveEndpoints := true, endpointsMatchSRGB := true))
  {
    hide CheckXy, EndpointsMatch;
    SRGBAccepted();
    SelfMatch(SRGB_XY, 1000);
  }

  lemma SRGBStored(s: State)
    requires s.xy == SRGB_XY && s.xyz == SRGB_XYZ && s.gamma == GAMMA_SRGB_INVERSE
    requires s.haveEndpoints && s.haveGamma && s.haveIntent && 0 <= s.intent < INTENT_LAST
    requires s.endpointsMatchSRGB && s.matchesSRGB && s.fromSRGB
    ensures Inv(s)
  {
    SRGBConsistent();
    SRGBAccepted();
    SelfMatch(SRGB_XY, 1000);
  }

  lemma SelfMatch(xy: Xy, delta: nat)
    ensures EndpointsMatch(xy, xy, delta)
  {
  }

  lemma StoreKeepsInv(s: State, xy: Xy, xyz: XYZ, preferred: nat)
    requires Inv(s) && CheckXy(xy).Done? && Consistent(xy, xyz) && Luminous(xyz)
    ensures Inv(Store(s, xy, xyz, preferred))
  {
    hide CheckXy, Consistent, Luminous;
  }

  lemma CheckedXyConsistent(xy: Xy)
    requires CheckXy(xy).Done?
    ensures Consistent(xy, CheckXy(xy).value) && Luminous(CheckXy(xy).value)
  {
    hide CheckXy, XyFromXyz, EndpointsMatch;
    CheckXyTotal(xy);
    CheckedIsBright(xy);
  }

  lemma CheckedXyzConsistent(xyz: XYZ)
    requires CheckXyz(xyz).Done?
    ensures Consistent(CheckXyz(xyz).value.0, CheckXyz(xyz).value.1) && Luminous(CheckXyz(xyz).value.1)
    ensures CheckXy(CheckXyz(xyz).value.0).Done?
  {
    hide XyzNormalize, XyFromXyz, CheckXy;
    NormalizedIsBright(xyz);
    SelfMatch(CheckXyz(xyz).value.0, 5);
  }

  lemma StoreSRGBKeepsInv(s: State, intent: int)
    requires Inv(s)
    ensures Inv(StoreSRGB(s, intent))
  {
    hide Consistent, EndpointsMatch, Luminous, CheckXy;
    var t := StoreSRGB(s, intent);
    if t != s && !t.invalid {
      SRGBStored(t);
    }
  }

  /** Every setter call keeps the invariant. */
  lemma StepKeepsInv(threshold: nat, s: State, call: Call)
    requires Inv(s) && Step(threshold, s, call).Done?
    ensures Inv(Step(threshold, s, call).value)
  {
    hide CheckXy, CheckXyz, Consistent, EndpointsMatch, XyFromXyz, Store, StoreSRGB, Luminous;
    match call
    case SetGamma(_, _) =>
    case SetChromaticities(xy, preferred) =>
      if CheckXy(xy).Done? {
        CheckedXyConsistent(xy);
        StoreKeepsInv(s, xy, CheckXy(xy).value, preferred);
      }
    case SetEndpoints(xyz, preferred) =>
      if CheckXyz(xyz).Done? {
        CheckedXyzConsistent(xyz);
        StoreKeepsInv(s, CheckXyz(xyz).value.0, CheckXyz(xyz).value.1, preferred);
      }
    case SetSRGB(intent) => StoreSRGBKeepsInv(s, intent);
    case SetICC(verdict) =>
      if verdict.KnownSRGB? {
        StoreSRGBKeepsInv(s, verdict.intent);
      }
  }

  /** ... and so does every run, from any state that satisfies it. */
  lemma {:induction false} RunKeepsInv(threshold: nat, s: State, calls: seq<Call>)
    requires Inv(s) && Run(threshold, s, calls).Done?
    ensures Inv(Run(threshold, s, calls).value)
    decreases |calls|
  {
    if calls != [] {
      hide Inv, Step;
      StepKeepsInv(threshold, s, calls[0]);
      RunKeepsInv(threshold, Step(threshold, s, calls[0]).value, calls[1..]);
    }
  }

  /** Everything an INVALID colour space still says about gamma and end points. */
  predicate SameColours(s: State, t: State) {
    && s.gamma == t.gamma && s.haveGamma == t.haveGamma
    && s.xy == t.xy && s.xyz == t.xyz && s.haveEndpoints == t.haveEndpoints
    && s.endpointsMatchSRGB == t.endpointsMatchSRGB
  }

  lemma InvalidStepFreezes(threshold: nat, s: State, call: Call)
    requires s.invalid && Step(threshold, s, call).Done?
    ensures Step(threshold, s, call).value.invalid && SameColours(s, Step(threshold, s, call).value)
  {
    hide CheckXyz, CheckedXy, Commit;
    match call
    case SetGamma(_, _) =>
    case SetChromaticities(xy, preferred) => CommitFreezes(s, CheckedXy(xy), preferred);
    case SetEndpoints(xyz, preferred) => CommitFreezes(s, CheckXyz(xyz), preferred);
    case SetSRGB(_) =>
    case SetICC(_) =>
  }

  lemma CommitFreezes(s: State, checked: Outcome<(Xy, XYZ)>, preferred: nat)
    requires s.invalid && Commit(s, checked, preferred).Done?
    ensures var s' := Commit(s, checked, preferred).value;
      s'.invalid && SameColours(s, s')
  {
  }

  /** INVALID is never cleared, and it freezes gamma and end points for good. */
  lemma {:induction false} InvalidFreezes(threshold: nat, s: State, calls: seq<Call>)
    requires s.invalid && Run(threshold, s, calls).Done?
    ensures Run(threshold, s, calls).value.invalid && SameColours(s, Run(threshold, s, calls).value)
    decreases |calls|
  {
    if calls != [] {
      hide Step;
      InvalidStepFreezes(threshold, s, calls[0]);
      InvalidFreezes(threshold, Step(threshold, s, calls[0]).value, calls[1..]);
    }
  }

  /** May this call overflow? Only end points given as XYZ can, whatever the state. */
  predicate Overflows(call: Call) {
    call.SetEndpoints? && EndpointsOverflow(call.xyz)
  }

  lemma StepDefinedIff(threshold: nat, s: State, call: Call)
    ensures Step(threshold, s, call).Done? <==> !Overflows(call)
  {
    hide CheckXy, CheckXyz, EndpointsOverflow;
    match call
    case SetChromaticities(xy, _) => CheckXyTotal(xy);
    case SetEndpoints(xyz, _) => CheckXyzOverflowIff(xyz);
    case _ =>
  }

  /** A run is defined exactly when none of its calls overflows: every other setter is
      total for every argument. */
  lemma {:induction false} OnlyEndpointsOverflow(threshold: nat, s: State, calls: seq<Call>)
    ensures Run(threshold, s, calls).Done? <==> forall i :: 0 <= i < |calls| ==> !Overflows(calls[i])
    decreases |calls|
  {
    if calls != [] {
      hide Step, Overflows;
      StepDefinedIff(threshold, s, calls[0]);
      assert calls == [calls[0]] + calls[1..];
      if Step(threshold, s, calls[0]).Done? {
        OnlyEndpointsOverflow(threshold, Step(threshold, s, calls[0]).value, calls[1..]);
      }
    }
  }

  /** The gamma range is closed under png_reciprocal. */
  lemma ReciprocalKeepsGammaRange(gamma: int32)
    requires MIN_GAMMA <= gamma <= MAX_GAMMA
    ensures MIN_GAMMA <= Reciprocal(gamma) <= MAX_GAMMA
  {
    ReciprocalBound(gamma);
    var r: int := Reciprocal(gamma);
    if r < MIN_GAMMA {
      MulMono(r, 15, gamma, gamma);
    } else if r > MAX_GAMMA {
      MulMono(625000001, r, gamma, gamma);
    }
  }

  // ---------------------------------------------------------------- where gamma comes from

  /** Is this gAMA value stored? It is in range, not a second one while reading, the colour space
      is not INVALID, and it does not differ from the gamma of sRGB by more than the threshold. */
  predicate TakesGamma(threshold: nat, s: State, gAMA: int32, reading: bool) {
    && 16 <= gAMA <= 625000000 && !(reading && s.fromGAMA) && !s.invalid
    && !(&& s.haveGamma && s.fromSRGB
         && var ratio := MulDiv(s.gamma, 100000, gAMA);
         ratio.None? || Abs(ratio.value - 100000) > threshold)
  }

  /** Is the sRGB information stored? */
  predicate TakesSRGB(s: State, intent: int) {
    !s.invalid && 0 <= intent < 4 && (s.haveIntent ==> s.intent == intent) && !s.fromSRGB
  }

  lemma InvalidSRGB(s: State, verdict: Verdict)
    ensures s.invalid && verdict.KnownSRGB? ==>
              StoreSRGB(s, verdict.intent) == s && !TakesSRGB(s, verdict.intent)
  {
  }

  /** The calls that set gamma, and to what. */
  predicate SetsGamma(threshold: nat, s: State, call: Call) {
    match call
    case SetGamma(gAMA, reading) => TakesGamma(threshold, s, gAMA, reading)
    case SetSRGB(intent) => TakesSRGB(s, intent)
    case SetICC(verdict) => verdict.KnownSRGB? && TakesSRGB(s, verdict.intent)
    case _ => false
  }

  function GammaOf(call: Call): int32 {
    if call.SetGamma? then call.gAMA else 45455
  }

  lemma StepGamma(threshold: nat, s: State, call: Call)
    requires Step(threshold, s, call).Done?
    ensures var t := Step(threshold, s, call).value;
      if SetsGamma(threshold, s, call) then t.gamma == GammaOf(call) && t.haveGamma
      else t.gamma == s.gamma && t.haveGamma == s.haveGamma
  {
    hide CheckedXy, CheckXyz, Commit, TakesGamma, GammaAllowed;
    match call
    case SetGamma(gAMA, reading) => TakesGammaIff(threshold, s, gAMA, reading);
    case SetChromaticities(xy, preferred) => CommitKeepsGamma(s, CheckedXy(xy), preferred);
    case SetEndpoints(xyz, preferred) => CommitKeepsGamma(s, CheckXyz(xyz), preferred);
    case _ =>
  }

  lemma TakesGammaIff(threshold: nat, s: State, gAMA: int32, reading: bool)
    ensures TakesGamma(threshold, s, gAMA, reading) <==>
              && MIN_GAMMA <= gAMA <= MAX_GAMMA && !(reading && s.fromGAMA) && !s.invalid
              && GammaAllowed(threshold, s, gAMA)
  {
    hide MulDiv;
  }

  lemma CommitKeepsGamma(s: State, checked: Outcome<(Xy, XYZ)>, preferred: nat)
    requires Commit(s, checked, preferred).Done?
    ensures var t := Commit(s, checked, preferred).value;
      t.gamma == s.gamma && t.haveGamma == s.haveGamma
  {
    hide EndpointsMatch;
  }

  lemma {:induction false} RunSnoc(threshold: nat, s: State, calls: seq<Call>, c: Call)
    ensures Run(threshold, s, calls + [c]) ==
            match Run(threshold, s, calls) { case Done(t) => Step(threshold, t, c) case other => other }
    decreases |calls|
  {
    hide Step;
    if calls == [] {
      assert calls + [c] == [c] && [c][1..] == [];
      match Step(threshold, s, c) case Done(t) => assert Run(threshold, t, []) == Done(t); case _ =>
    } else {
      assert (calls + [c])[1..] == calls[1..] + [c];
      match Step(threshold, s, calls[0])
      case Done(t) => RunSnoc(threshold, t, calls[1..], c);
      case _ =>
    }
  }

  /** The state in front of call j. */
  function StateAt(threshold: nat, calls: seq<Call>, j: nat): State
    requires j <= |calls|
  {
    match Run(threshold, FRESH, calls[..j]) case Done(t) => t case _ => FRESH
  }

  /** Call i is the last one that sets gamma. */
  predicate LastSetsGamma(threshold: nat, calls: seq<Call>, i: int) {
    && 0 <= i < |calls| && SetsGamma(threshold, StateAt(threshold, calls, i), calls[i])
    && forall j :: i < j < |calls| ==> !SetsGamma(threshold, StateAt(threshold, calls, j), calls[j])
  }

  /** Over every run: a recorded gamma is the argument of the last accepted gAMA call, or 45455 from
      sRGB information accepted later. */
  lemma {:induction false} GammaHistory(threshold: nat, calls: seq<Call>)
    requires Run(threshold, FRESH, calls).Done? && Run(threshold, FRESH, calls).value.haveGamma
    ensures exists i :: LastSetsGamma(threshold, calls, i)
                        && Run(threshold, FRESH, calls).value.gamma == GammaOf(calls[i])
    decreases |calls|
  {
    hide Run, Step, SetsGamma;
    NoCalls(threshold);
    if calls != [] {
      var n := |calls| - 1;
      var init, c := calls[..n], calls[n];
      assert calls == init + [c] && calls[..n + 1] == calls;
      RunSnoc(threshold, FRESH, init, c);
      var s := Run(threshold, FRESH, init).value;
      StepGamma(threshold, s, c);
      assert StateAt(threshold, calls, n) == s;
      if SetsGamma(threshold, s, c) {
        assert LastSetsGamma(threshold, calls, n);
      } else {
        GammaHistory(threshold, init);
        var i :| LastSetsGamma(threshold, init, i) && s.gamma == GammaOf(init[i]);
        forall j | i <= j < n
          ensures StateAt(threshold, calls, j) == StateAt(threshold, init, j)
        {
          assert calls[..j] == init[..j];
        }
        assert LastSetsGamma(threshold, calls, i);
      }
    }
  }

  lemma NoCalls(threshold: nat)
    ensures Run(threshold, FRESH, []) == Done(FRESH)
  {
  }

  // ---------------------------------------------------------------- the object

  class Colorspace {
    const threshold: nat
    var gamma: int32
    var endPointsXy: Xy
    var endPointsXyz: XYZ
    var renderingIntent: int
    var haveGamma: bool
    var haveEndpoints: bool
    var haveIntent: bool
    var fromGAMA: bool
    var fromSRGB: bool
    var endpointsMatchSRGB: bool
    var matchesSRGB: bool
    var invalid: bool

    function View(): State
      reads this
    {
      State(gamma, endPointsXy, endPointsXyz, renderingIntent, haveGamma, haveEndpoints,
            haveIntent, fromGAMA, fromSRGB, endpointsMatchSRGB, matchesSRGB, invalid)
    }

    ghost predicate Valid()
      reads this
    {
      Inv(View())
    }

    constructor (threshold: nat)
      ensures Valid() && this.threshold == threshold && View() == FRESH
    {
      this.threshold := threshold;
      gamma, renderingIntent := 0, 0;
      endPointsXy, endPointsXyz := NO_XY, NO_XYZ;
      haveGamma, haveEndpoints, haveIntent := false, false, false;
      fromGAMA, fromSRGB := false, false;
      endpointsMatchSRGB, matchesSRGB, invalid := false, false, false;
    }

    /** png_colorspace_check_gamma for a gAMA chunk */
    method CheckGamma(gAMA: int32) returns (allowed: bool)
      ensures allowed <==> GammaAllowed(threshold, View(), gAMA)
    {
      hide MulDiv;
      var mismatch := false;
      if haveGamma {
        var ok, ratio, _ := Muldiv(gamma, FP_1, gAMA);
        mismatch := !ok || GammaSignificant(threshold, ratio);
      }
      return !mismatch || !fromSRGB;
    }

    /** png_colorspace_set_gamma */
    method SetGamma(gAMA: int32, reading: bool)
      requires Valid()
      modifies this
      ensures Valid() && Done(View()) == Step(threshold, old(View()), Call.SetGamma(gAMA, reading))
      ensures if TakesGamma(threshold, old(View()), gAMA, reading)
              then View() == old(View()).(gamma := gAMA, haveGamma := true, fromGAMA := true)
              else View() == old(View()).(invalid := old(invalid) || !(16 <= gAMA <= 625000000)
                                                     || (reading && old(fromGAMA)))
    {
      hide Consistent, EndpointsMatch, Luminous, CheckXy, TakesGamma, GammaAllowed;
      StepKeepsInv(threshold, View(), Call.SetGamma(gAMA, reading));
      TakesGammaIff(threshold, View(), gAMA, reading);
      if MIN_GAMMA <= gAMA <= MAX_GAMMA && !(reading && fromGAMA) {
        if invalid {
          return;
        }
        var allowed := CheckGamma(gAMA);
        if allowed {
          gamma := gAMA;
          haveGamma, fromGAMA := true, true;
        }
        return;
      }
      invalid := true;
    }

    /** What becomes of new end points: nothing in an INVALID colour space; INVALID if they slip
        from the old ones by more than 100, unless they are forced; nothing if the old ones are
        preferred; and otherwise they are stored, with the comparison with sRGB. */
    twostate predicate Taken(xy: Xy, xyz: XYZ, preferred: nat, code: int)
      reads this
    {
      if old(invalid) then View() == old(View()) && code == 0
      else if preferred < 2 && old(haveEndpoints) && Slip(xy, old(endPointsXy)) > 100
      then View() == old(View()).(invalid := true) && code == 0
      else if preferred == 0 && old(haveEndpoints) then View() == old(View()) && code == 1
      else
        && View() == old(View()).(xy := xy, xyz := xyz, haveEndpoints := true,
                                  endpointsMatchSRGB := Slip(xy, SRGB_XY) <= 1000)
        && code == 2
    }

    /** png_colorspace_set_xy_and_XYZ: 0 failed, 1 unchanged, 2 changed */
    method SetXyAndXyz(xy: Xy, xyz: XYZ, preferred: nat) returns (code: int)
      requires Valid() && CheckXy(xy).Done? && Consistent(xy, xyz) && Luminous(xyz)
      modifies this
      ensures Valid() && View() == Store(old(View()), xy, xyz, preferred)
      ensures Taken(xy, xyz, preferred, code)
      ensures code == 0 <==> invalid
      ensures code == 1 <==> !invalid && old(haveEndpoints) && preferred == 0
      ensures code == 2 ==> endPointsXy == xy && endPointsXyz == xyz && haveEndpoints
      ensures 0 <= code <= 2
    {
      hide Consistent, EndpointsMatch, Luminous, CheckXy, Slip;
      StoreKeepsInv(View(), xy, xyz, preferred);
      MatchIsSlip(xy, endPointsXy, 100);
      MatchIsSlip(xy, SRGB_XY, 1000);
      if invalid {
        return 0;
      }
      if preferred < 2 && haveEndpoints {
        if !EndpointsMatch(xy, endPointsXy, 100) {
          invalid := true;
          return 0;
        }
        if preferred == 0 {
          return 1;
        }
      }
      endPointsXy := xy;
      endPointsXyz := xyz;
      haveEndpoints := true;
      endpointsMatchSRGB := EndpointsMatch(xy, SRGB_XY, 1000);
      return 2;
    }

    /** png_colorspace_set_chromaticities: the default branch of its switch, the
        "internal error", is dead code. */
    method SetChromaticities(xy: Xy, preferred: nat) returns (code: int)
      requires Valid()
      modifies this
      ensures Valid() && Done(View()) == Step(threshold, old(View()), Call.SetChromaticities(xy, preferred))
      ensures code == 0 <==> invalid
      ensures if CheckXy(xy).Done? then Taken(xy, CheckXy(xy).value, preferred, code)
              else View() == old(View()).(invalid := true)
    {
      hide CheckXy, Consistent, Luminous, Store;
      CheckXyTotal(xy);
      match CheckXy(xy)
      case Done(z) =>
        CheckedXyConsistent(xy);
        code := SetXyAndXyz(xy, z, preferred);
      case Rejected =>
        invalid := true;
        code := 0;
    }

    /** png_colorspace_set_endpoints; `defined` is false if normalising the end points or
        adding them up overflows, and then nothing is claimed about what C does. */
    method SetEndpoints(xyz: XYZ, preferred: nat) returns (code: int, defined: bool)
      requires Valid()
      modifies this
      ensures defined <==> !EndpointsOverflow(xyz)
      ensures defined ==>
                && Valid()
                && Done(View()) == Step(threshold, old(View()), Call.SetEndpoints(xyz, preferred))
                && (code == 0 <==> invalid)
      ensures !defined ==> View() == old(View())
      ensures defined ==>
                var n := XyzNormalize(xyz);
                if n.Done? && XyFromXyz(n.value).Done? && CheckXy(XyFromXyz(n.value).value).Done?
                then Taken(XyFromXyz(n.value).value, n.value, preferred, code)
                else View() == old(View()).(invalid := true)
    {
      hide XyzNormalize, XyFromXyz, CheckXy, CheckXyz, Consistent, Luminous, EndpointsOverflow, Store;
      CheckXyzOverflowIff(xyz);
      CheckXyzIff(xyz);
      code, defined := 0, true;
      match CheckXyz(xyz)
      case Done((xy, n)) =>
        CheckedXyzConsistent(xyz);
        code := SetXyAndXyz(xy, n, preferred);
      case Undefined =>
        defined := false;
      case Rejected =>
        invalid := true;
    }

    /** What becomes of sRGB information. */
    twostate predicate TakenSRGB(intent: int)
      reads this
    {
      View() ==
        if TakesSRGB(old(View()), intent)
        then old(View()).(intent := intent, haveIntent := true, gamma := 45455, haveGamma := true,
                          xy := SRGB_XY, xyz := SRGB_XYZ, haveEndpoints := true, endpointsMatchSRGB := true,
                          matchesSRGB := true, fromSRGB := true)
        else old(View()).(invalid := || old(invalid) || intent < 0 || intent > 3
                                     || (old(haveIntent) && old(renderingIntent) != intent))
    }

    /** png_colorspace_set_sRGB: was the sRGB information stored? */
    method SetSRGB(intent: int) returns (stored: bool)
      requires Valid()
      modifies this
      ensures Valid() && Done(View()) == Step(threshold, old(View()), Call.SetSRGB(intent))
      ensures TakenSRGB(intent)
      ensures stored <==> !old(invalid) && !invalid && !old(fromSRGB)
      ensures stored ==> fromSRGB && gamma == GAMMA_SRGB_INVERSE && endPointsXy == SRGB_XY
    {
      hide Consistent, EndpointsMatch, Luminous, CheckXy;
      if invalid {
        return false;
      }
      if intent < 0 || intent >= INTENT_LAST || (haveIntent && renderingIntent != intent) {
        invalid := true;
        return false;
      }
      if fromSRGB {
        return false;
      }
      renderingIntent, haveIntent := intent, true;
      endPointsXy, endPointsXyz := SRGB_XY, SRGB_XYZ;
      haveEndpoints, endpointsMatchSRGB := true, true;
      gamma, haveGamma := GAMMA_SRGB_INVERSE, true;
      matchesSRGB, fromSRGB := true, true;
      SRGBStored(View());
      return true;
    }

    /** png_colorspace_set_ICC, for what the profile checks have come to */
    method SetICC(verdict: Verdict) returns (ok: bool)
      requires Valid()
      modifies this
      ensures Valid() && Done(View()) == Step(threshold, old(View()), Call.SetICC(verdict))
      ensures ok <==> !old(invalid) && !verdict.Refused?
      ensures match verdict
              case Refused => View() == old(View()).(invalid := true)
              case Accepted => View() == old(View())
              case KnownSRGB(intent) => TakenSRGB(intent)
    {
      hide Consistent, EndpointsMatch, Luminous, CheckXy, StoreSRGB, TakesSRGB;
      InvalidSRGB(View(), verdict);
      if invalid {
        return false;
      }
      match verdict
      case Refused =>
        invalid := true;
        return false;
      case Accepted =>
        return true;
      case KnownSRGB(intent) =>
        var _ := SetSRGB(intent);
        return true;
    }

    /** png_colorspace_set_rgb_coefficients: the red and green coefficients, None if they
        are left alone. Neither of its two errors can occur. */
    method RgbCoefficients(alreadySet: bool) returns (failed: bool, coefficients: Option<(int32, int32)>)
      requires Valid()
      ensures !failed
      ensures coefficients.Some? <==> !alreadySet && haveEndpoints
      ensures coefficients.Some? ==>
                var (red, green) := coefficients.value;
                && red >= 0 && green >= 0 && red + green <= 32768
                && GrayCoefficients(endPointsXyz.redY, endPointsXyz.greenY, endPointsXyz.blueY)
                   == Done((red, green, 32768 - red - green))
    {
      hide Consistent, EndpointsMatch, GrayCoefficients, CheckXy;
      failed, coefficients := false, None;
      if !alreadySet && haveEndpoints {
        var red, green;
        failed, red, green := ComputeCoefficients(endPointsXyz.redY, endPointsXyz.greenY, endPointsXyz.blueY);
        CoefficientsIff(endPointsXyz.redY, endPointsXyz.greenY, endPointsXyz.blueY);
        coefficients := Some((red, green));
      }
    }
  }

  // ---------------------------------------------------------------- RGB to gray

  /** One share of 32768, with the range checks of the source. */
  function Share(y: int32, total: int32): Outcome<int32> {
    if y < 0 then Internal
    else
      match MulDiv(y, 32768, total)
      case Some(v) => if 0 <= v <= 32768 then Done(v) else Internal
      case None => Internal
  }

  /** The fix-up of the largest share, and the two range checks around it. */
  function FixUp(rs: int32, gs: int32, bs: int32): Outcome<(int32, int32, int32)>
    requires 0 <= rs <= 32768 && 0 <= gs <= 32768 && 0 <= bs <= 32768
  {
    var sum := rs + gs + bs;
    if sum > 32769 then Internal
    else
      var add := if sum > 32768 then -1 else if sum < 32768 then 1 else 0;
      var (rc, gc, bc) :=
        if gs >= rs && gs >= bs then (rs, gs + add, bs)
        else if rs >= gs && rs >= bs then (rs + add, gs, bs)
        else (rs, gs, bs + add);
      if rc + gc + bc != 32768 then Internal else Done((rc, gc, bc))
  }

  /** png_colorspace_set_rgb_coefficients on the three Y values; Internal is
      either of its two png_error calls. */
  function GrayCoefficients(r: int32, g: int32, b: int32): Outcome<(int32, int32, int32)> {
    var total :- Sum3(r, g, b);
    if total <= 0 then Internal
    else
      var rs :- Share(r, total);
      var gs :- Share(g, total);
      var bs :- Share(b, total);
      FixUp(rs, gs, bs)
  }

  /** The tests on one share in the condition of the source. */
  method ShareOf(y: int32, total: int32) returns (ok: bool, v: int32)
    ensures ok <==> Share(y, total).Done?
    ensures ok ==> v == Share(y, total).value && 0 <= v <= 32768
  {
    ok, v := false, 0;
    if y >= 0 {
      var done, share, _ := Muldiv(y, 32768, total);
      ok, v := done && 0 <= share <= 32768, share;
    }
  }

  /** The rest of the function: the last condition, the fix-up and its check. */
  method FixLargest(rs: int32, gs: int32, bs: int32) returns (failed: bool, red: int32, green: int32)
    requires 0 <= rs <= 32768 && 0 <= gs <= 32768 && 0 <= bs <= 32768
    ensures failed <==> !FixUp(rs, gs, bs).Done?
    ensures !failed ==> FixUp(rs, gs, bs) == Done((red, green, 32768 - red - green))
    ensures !failed ==> red >= 0 && green >= 0 && red + green <= 32768
  {
    var r, g, b := rs, gs, bs;
    failed, red, green := true, 0, 0;
    if r + g + b <= 32769 {
      var add := 0;
      if r + g + b > 32768 {
        add := -1;
      } else if r + g + b < 32768 {
        add := 1;
      }
      if add != 0 {
        if g >= r && g >= b {
          g := g + add;
        } else if r >= g && r >= b {
          r := r + add;
        } else {
          b := b + add;
        }
      }
      if r + g + b == 32768 {
        failed, red, green := false, r, g;
      }
    }
  }

  /** The condition on the three shares, and the fix-up. */
  method ComputeCoefficients(r: int32, g: int32, b: int32) returns (failed: bool, red: int32, green: int32)
    requires FitsInt32(r as int + g as int + b as int) && FitsInt32(r as int + g as int)
    ensures failed <==> !GrayCoefficients(r, g, b).Done?
    ensures !failed ==> GrayCoefficients(r, g, b) == Done((red, green, 32768 - red - green))
    ensures !failed ==> red >= 0 && green >= 0 && red + green <= 32768
  {
    hide Share, FixUp;
    failed, red, green := true, 0, 0;
    var total := r + g + b;
    if total > 0 {
      var okR, rs := ShareOf(r, total);
      if okR {
        var okG, gs := ShareOf(g, total);
        if okG {
          var okB, bs := ShareOf(b, total);
          if okB {
            failed, red, green := FixLargest(rs, gs, bs);
          }
        }
      }
    }
  }

  lemma FixUpExact(rs: int32, gs: int32, bs: int32)
    requires 0 <= rs <= 32768 && 0 <= gs <= 32768 && 0 <= bs <= 32768
    requires 32767 <= rs + gs + bs <= 32769
    ensures FixUp(rs, gs, bs).Done?
    ensures var (rc, gc, bc) := FixUp(rs, gs, bs).value;
      && rc >= 0 && gc >= 0 && bc >= 0 && rc + gc + bc == 32768
      && -1 <= rc - rs <= 1 && -1 <= gc - gs <= 1 && -1 <= bc - bs <= 1
      && (rc != rs ==> rs >= gs && rs >= bs && gc == gs && bc == bs)
      && (gc != gs ==> gs >= rs && gs >= bs && rc == rs && bc == bs)
      && (bc != bs ==> bs >= rs && bs >= gs && rc == rs && gc == gs)
  {
  }

  lemma ShareExact(y: int32, total: int32)
    requires 0 <= y <= total && total >= 2
    ensures Share(y, total).Done?
    ensures var v: int := Share(y, total).value;
      -total < 2 * (v * total - y * 32768) <= total + 1
  {
    MulMono(y, total, 32768, 32768);
    MulDivNonNegative(y, 32768, total);
    var v: int := MulDiv(y, 32768, total).value;
    if v > 32768 {
      MulMono(32769, v, total, total);
    }
  }

  lemma NearTotal(sum: nat, total: int32)
    requires total >= 2
    requires -3 * total < 2 * (sum * total - total * 32768) <= 3 * total + 3
    ensures 32767 <= sum <= 32770 && (total >= 4 ==> sum <= 32769)
  {
    if sum <= 32766 {
      MulMono(sum, 32766, total, total);
    } else if sum >= 32771 {
      MulMono(32771, sum, total, total);
    } else if sum == 32770 {
    }
  }

  /** With a total of 2 or 3 the shares are few enough to enumerate. */
  lemma SmallShare(y: int32, total: int32)
    requires 0 <= y <= total && 2 <= total <= 3
    ensures Share(y, total) == Done(
              if y == total then 32768
              else if total == 2 then 16384 * y
              else 10923 * y)
  {
    assert Magnitude(total) == total && Magnitude(y) == y;
    if total == 2 {
      assert Rounded(y * 32768, 2) == 16384 * y;
    } else {
      assert Rounded(y * 32768, 3) == if y == 3 then 32768 else 10923 * y;
    }
  }

  lemma SharesSum(r: int32, g: int32, b: int32, total: int32)
    requires r >= 0 && g >= 0 && b >= 0 && r as int + g as int + b as int == total && total >= 2
    ensures Share(r, total).Done? && Share(g, total).Done? && Share(b, total).Done?
    ensures 32767 <= Share(r, total).value + Share(g, total).value + Share(b, total).value <= 32769
  {
    if total <= 3 {
      SmallShare(r, total);
      SmallShare(g, total);
      SmallShare(b, total);
    } else {
      ShareExact(r, total);
      ShareExact(g, total);
      ShareExact(b, total);
      var rs: int, gs: int, bs: int :=
        Share(r, total).value, Share(g, total).value, Share(b, total).value;
      AddTop3(rs, gs, bs, total);
      NearTotal(rs + gs + bs, total);
    }
  }

  predicate NearShare(c: int32, y: int32, total: int) {
    -2 * total < c * total - y * 32768 < 2 * total
  }

  lemma NearByOne(c: int32, v: int32, y: int32, total: int32)
    requires total >= 2 && -1 <= c - v <= 1
    requires -total < 2 * (v * total - y * 32768) <= total + 1
    ensures NearShare(c, y, total)
  {
    AddTop(v, c - v, total);
    assert -total <= total * (c - v) <= total;
  }

  lemma ShareRange(y: int32, total: int32)
    ensures Share(y, total).Done? ==> 0 <= Share(y, total).value <= 32768
  {
  }

  lemma GrayIsFixUp(r: int32, g: int32, b: int32, total: int32)
    requires r >= 0 && g >= 0 && b >= 0 && r as int + g as int + b as int == total && total > 0
    requires Share(r, total).Done? && Share(g, total).Done? && Share(b, total).Done?
    ensures 0 <= Share(r, total).value <= 32768 && 0 <= Share(g, total).value <= 32768
    ensures 0 <= Share(b, total).value <= 32768
    ensures GrayCoefficients(r, g, b) == FixUp(Share(r, total).value, Share(g, total).value, Share(b, total).value)
  {
    hide FixUp, MulDiv;
  }

  /** Defined, non-negative Y values with a total of at least 2: the three
      coefficients are non-negative, add up to 32768 exactly, and each is within
      two units of its share. */
  lemma CoefficientsExact(r: int32, g: int32, b: int32)
    requires r >= 0 && g >= 0 && b >= 0 && 2 <= r as int + g as int + b as int < TWO_31
    ensures GrayCoefficients(r, g, b).Done?
    ensures var (rc, gc, bc) := GrayCoefficients(r, g, b).value;
      var total := r as int + g as int + b as int;
      && rc >= 0 && gc >= 0 && bc >= 0 && rc + gc + bc == 32768
      && NearShare(rc, r, total) && NearShare(gc, g, total) && NearShare(bc, b, total)
  {
    hide Share, FixUp, NearShare, GrayCoefficients;
    var total: int32 := r as int + g as int + b as int;
    SharesSum(r, g, b, total);
    ShareExact(r, total);
    ShareExact(g, total);
    ShareExact(b, total);
    ShareRange(r, total);
    ShareRange(g, total);
    ShareRange(b, total);
    var rs, gs, bs := Share(r, total).value, Share(g, total).value, Share(b, total).value;
    FixUpExact(rs, gs, bs);
    GrayIsFixUp(r, g, b, total);
    var (rc, gc, bc) := FixUp(rs, gs, bs).value;
    NearByOne(rc, rs, r, total);
    NearByOne(gc, gs, g, total);
    NearByOne(bc, bs, b, total);
  }

  /** The two "internal error" branches are avoided exactly when the Y values are
      non-negative and their total is at least 2 and fits. A total of 1 would reach
      the error, because dividing by 1 adds one. */
  lemma CoefficientsIff(r: int32, g: int32, b: int32)
    ensures GrayCoefficients(r, g, b).Done? <==>
              r >= 0 && g >= 0 && b >= 0 && 2 <= r as int + g as int + b as int < TWO_31
  {
    if r >= 0 && g >= 0 && b >= 0 && 1 <= r as int + g as int + b as int < TWO_31 {
      if r as int + g as int + b as int >= 2 {
        CoefficientsExact(r, g, b);
      } else {
        assert MulDiv(1, 32768, 1) == Some(32769);
        assert Share(1, 1) == Internal;
      }
    }
  }

  /** No run of setters stores such Y values: from a fresh colour space, whatever is called,
      the coefficients can be computed, so both errors are dead code. */
  lemma GrayNeverFails(threshold: nat, calls: seq<Call>)
    ensures var r := Run(threshold, FRESH, calls);
      r.Done? && r.value.haveEndpoints ==>
        GrayCoefficients(r.value.xyz.redY, r.value.xyz.greenY, r.value.xyz.blueY).Done?
  {
    hide Run, GrayCoefficients, Consistent, EndpointsMatch, CheckXy;
    var r := Run(threshold, FRESH, calls);
    if r.Done? && r.value.haveEndpoints {
      RunKeepsInv(threshold, FRESH, calls);
      CoefficientsIff(r.value.xyz.redY, r.value.xyz.greenY, r.value.xyz.blueY);
    }
  }
}
